/** The shell's argument handling: `parse_args`, which splits a line into at
    most `MAX_ARGS - 1` tokens with `strtok`, and `join_args`, which puts the
    tokens back together, separated by single spaces, into a buffer of
    bounded capacity. */
module ShellArgs {

  import opened Wrappers
  import opened CStrings

  /** Size of the `argv` array, including its NULL terminator. */
  const MAX_ARGS: nat := 64

  /** The delimiters `parse_args` hands to `strtok`: space and tab. */
  predicate IsDelim(c: char)
  {
    c == ' ' || c == '\t'
  }

  /** A token: a non-empty run of characters that are not delimiters. */
  predicate IsToken(w: string)
  {
    w != [] && forall m :: 0 <= m < |w| ==> !IsDelim(w[m])
  }

  /** The first index at or after `i` that does not hold a delimiter. */
  function SkipDelims(s: string, i: nat): (j: nat)
    requires i <= |s|
    ensures i <= j <= |s|
    ensures forall k :: i <= k < j ==> IsDelim(s[k])
    ensures j < |s| ==> !IsDelim(s[j])
    decreases |s| - i
  {
    if i < |s| && IsDelim(s[i]) then SkipDelims(s, i + 1) else i
  }

  /** The first index at or after `i` that holds a delimiter, or `|s|`. */
  function TokenEnd(s: string, i: nat): (j: nat)
    requires i <= |s|
    ensures i <= j <= |s|
    ensures forall k :: i <= k < j ==> !IsDelim(s[k])
    ensures j < |s| ==> IsDelim(s[j])
    decreases |s| - i
  {
    if i < |s| && !IsDelim(s[i]) then TokenEnd(s, i + 1) else i
  }

  /** The delimiter-separated words of `s` from index `i` on, in order. */
  function Words(s: string, i: nat): seq<string>
    requires i <= |s|
    decreases |s| - i
  {
    var b := SkipDelims(s, i);
    if b == |s| then []
    else
      var e := TokenEnd(s, b);
      [s[b..e]] + Words(s, e)
  }

  /** Every word is a token: non-empty and free of spaces and tabs. */
  lemma {:induction false} WordsAreTokens(s: string, i: nat)
    requires i <= |s|
    ensures forall k :: 0 <= k < |Words(s, i)| ==> IsToken(Words(s, i)[k])
    decreases |s| - i
  {
    var b := SkipDelims(s, i);
    if b < |s| {
      var e := TokenEnd(s, b);
      WordsAreTokens(s, e);
      assert IsToken(s[b..e]);
    }
  }

  /** `strtok(·, " \t")`: skip the delimiters from `from` on and return the
      token that follows (NULL, `None`, when there is none), together with
      the index where the next call resumes: just past the delimiter that ends
      the token, which `strtok` overwrites with NUL. */
  method StrTok(line: string, from: nat) returns (tok: Option<string>, next: nat)
    requires from <= |line|
    ensures next <= |line|
    ensures tok.None? <==> Words(line, from) == []
    ensures tok.Some? ==> from < next && Words(line, from) == [tok.value] + Words(line, next)
  {
    var b := from;
    while b < |line| && IsDelim(line[b])
      invariant from <= b <= |line|
      invariant SkipDelims(line, b) == SkipDelims(line, from)
    {
      b := b + 1;
    }
    if b == |line| {
      return None, b;
    }
    var e := b;
    while e < |line| && !IsDelim(line[e])
      invariant b <= e <= |line|
      invariant TokenEnd(line, e) == TokenEnd(line, b)
    {
      e := e + 1;
    }
    tok := Some(line[b..e]);
    next := if e < |line| then e + 1 else e;
    assert e < |line| ==> SkipDelims(line, e) == SkipDelims(line, e + 1);
  }

  /** `parse_args`: `argv` receives, in order, the first words of the line,
      at most `MAX_ARGS - 1` of them, followed by NULL; `argc` is their
      number. */
  method ParseArgs(line: string, argv: array<Option<string>>) returns (argc: nat)
    requires argv.Length == MAX_ARGS && NUL !in line
    modifies argv
    ensures argc == Min(|Words(line, 0)|, MAX_ARGS - 1)
    ensures forall k {:trigger argv[k]} :: 0 <= k < argc ==> argv[k] == Some(Words(line, 0)[k])
    ensures argv[argc] == None
    ensures forall k :: argc < k < MAX_ARGS ==> argv[k] == old(argv[k])
  {
    ghost var ws := Words(line, 0);
    argc := 0;
    var tok: Option<string>, pos: nat := StrTok(line, 0);
    while tok.Some? && argc < MAX_ARGS - 1
      invariant argc <= MAX_ARGS - 1 && argc <= |ws| && pos <= |line|
      invariant tok.None? ==> argc == |ws|
      invariant tok.Some? ==> argc < |ws| && ws[argc] == tok.value && ws[argc + 1..] == Words(line, pos)
      invariant forall k {:trigger argv[k]} :: 0 <= k < argc ==> argv[k] == Some(ws[k])
      invariant forall k :: argc <= k < MAX_ARGS ==> argv[k] == old(argv[k])
      decreases MAX_ARGS - argc
    {
      StoreArg(argv, argc, tok.value, ws);
      argc := argc + 1;
      ghost var rest := Words(line, pos);
      tok, pos := StrTok(line, pos);
      NextWord(ws, argc, rest, tok, Words(line, pos));
    }
    argv[argc] := None;
  }

  /** `argv[argc++] = tok`: store the next word. */
  method StoreArg(argv: array<Option<string>>, argc: nat, tok: string, ghost ws: seq<string>)
    requires argv.Length == MAX_ARGS && argc < MAX_ARGS - 1 && argc < |ws| && ws[argc] == tok
    requires forall k {:trigger argv[k]} :: 0 <= k < argc ==> argv[k] == Some(ws[k])
    modifies argv
    ensures forall k {:trigger argv[k]} :: 0 <= k <= argc ==> argv[k] == Some(ws[k])
    ensures forall k :: argc < k < MAX_ARGS ==> argv[k] == old(argv[k])
  {
    argv[argc] := Some(tok);
  }

  /** Book-keeping of the `parse_args` loop: the words not yet stored start
      with the token `strtok` just returned. */
  lemma NextWord(ws: seq<string>, n: nat, rest: seq<string>, tok: Option<string>, later: seq<string>)
    requires n <= |ws| && ws[n..] == rest
    requires tok.None? ==> rest == []
    requires tok.Some? ==> rest == [tok.value] + later
    ensures tok.None? ==> n == |ws|
    ensures tok.Some? ==> n < |ws| && ws[n] == tok.value && ws[n + 1..] == later
  {
    if tok.Some? {
      assert ws[n] == ws[n..][0];
      assert ws[n + 1..] == ws[n..][1..];
    }
  }

  /** The tokens joined by single spaces. */
  function Join(ts: seq<string>): string
  {
    if |ts| == 0 then []
    else if |ts| == 1 then ts[0]
    else Join(ts[..|ts| - 1]) + " " + ts[|ts| - 1]
  }

  /** Joining one more token appends a space (unless it is the first token)
      and the token. */
  lemma JoinStep(ts: seq<string>, i: nat)
    requires i < |ts|
    ensures Join(ts[..i + 1]) == Join(ts[..i]) + (if i > 0 then " " else "") + ts[i]
  {
    assert ts[..i + 1][..i] == ts[..i];
  }

  /** The strings of an `argv` array before its first NULL. */
  function Args(argv: seq<Option<string>>): seq<string>
  {
    if argv == [] || argv[0].None? then [] else [argv[0].value] + Args(argv[1..])
  }

  /** `Args` reads `argv` up to its first NULL. */
  lemma {:induction false} ArgsAt(argv: seq<Option<string>>)
    requires None in argv
    ensures |Args(argv)| < |argv| && argv[|Args(argv)|] == None
    ensures forall k :: 0 <= k < |Args(argv)| ==> argv[k] == Some(Args(argv)[k])
  {
    if argv[0].Some? {
      assert None in argv[1..];
      ArgsAt(argv[1..]);
    }
  }

  /** Token `k` fits: the first `k + 1` tokens joined, plus the NUL, stay
      strictly below `cap`. */
  predicate Fits(ts: seq<string>, cap: int, k: nat)
  {
    k < |ts| && |Join(ts[..k + 1])| + 1 < cap
  }

  /** How many tokens `join_args` takes, looking from token `i` on: it stops
      at the first token that does not fit. */
  function JoinCountFrom(ts: seq<string>, cap: int, i: nat): (m: nat)
    requires i <= |ts|
    ensures i <= m <= |ts|
    ensures m < |ts| ==> !Fits(ts, cap, m)
    ensures forall k :: i <= k < m ==> Fits(ts, cap, k)
    decreases |ts| - i
  {
    if i == |ts| || !Fits(ts, cap, i) then i else JoinCountFrom(ts, cap, i + 1)
  }

  /** How many tokens `join_args` takes. */
  function JoinCount(ts: seq<string>, cap: int): nat
  {
    JoinCountFrom(ts, cap, 0)
  }

  /** The output of `join_args` always fits in the buffer with its NUL, with
      one byte to spare once it is non-empty, and the token after the last
      taken one (if any) would not have fitted. */
  lemma JoinCountFits(ts: seq<string>, cap: int)
    requires cap >= 1
    ensures var m := JoinCount(ts, cap);
            && |Join(ts[..m])| < cap
            && (m > 0 ==> |Join(ts[..m])| + 2 <= cap)
            && (m < |ts| ==> |Join(ts[..m + 1])| + 1 >= cap)
  {
    var m := JoinCount(ts, cap);
    if m > 0 {
      assert Fits(ts, cap, m - 1);
    }
  }

  /** `strncat(dst, src, n)`: append at most `n` characters of `src` to the C
      string held by `dst`, then a NUL. */
  method StrNCat(dst: array<char>, src: string, n: nat)
    requires NUL in dst[..] && NUL !in src
    requires StrLen(dst[..]) + Min(|src|, n) < dst.Length
    modifies dst
    ensures var d := StrLen(old(dst[..]));
            var c := Min(|src|, n);
            forall j :: 0 <= j < dst.Length ==>
              dst[j] == if d <= j < d + c then src[j - d] else if j == d + c then NUL else old(dst[j])
  {
    var d := StrLen(dst[..]);
    var k := 0;
    while k < n && k < |src|
      invariant 0 <= k <= Min(|src|, n)
      invariant forall j :: 0 <= j < dst.Length ==>
                  dst[j] == if d <= j < d + k then src[j - d] else old(dst[j])
    {
      dst[d + k] := src[k];
      k := k + 1;
    }
    dst[d + k] := NUL;
  }

  /** `join_args`: the buffer receives the C string made of the first tokens
      of `argv`, joined by single spaces, stopping at the first token that
      would not fit together with the NUL; nothing past its NUL changes. */
  method JoinArgs(out: array<char>, outCap: nat, argv: array<Option<string>>)
    requires 1 <= outCap <= out.Length
    requires None in argv[..]
    requires forall k :: 0 <= k < argv.Length && argv[k].Some? ==> NUL !in argv[k].value
    modifies out
    ensures var ts := Args(argv[..]);
            var j := Join(ts[..JoinCount(ts, outCap)]);
            && |j| < outCap
            && NUL in out[..] && Content(out[..]) == j
            && forall k :: |j| < k < out.Length ==> out[k] == old(out[k])
  {
    ghost var ts := Args(argv[..]);
    ghost var m := JoinCount(ts, outCap);
    ArgsAt(argv[..]);
    out[0] := NUL;
    var used := 0;
    var i := 0;
    while argv[i].Some?
      invariant i <= |ts| && JoinCountFrom(ts, outCap, i) == m
      invariant used == |Join(ts[..i])| < outCap
      invariant forall k :: 0 <= k < used ==> out[k] == Join(ts[..i])[k] && out[k] != NUL
      invariant out[used] == NUL
      invariant forall k :: used < k < out.Length ==> out[k] == old(out[k])
      decreases |ts| - i
    {
      var need := |argv[i].value| + (if i > 0 then 1 else 0);
      JoinStep(ts, i);
      if used + need + 1 >= outCap {
        break;
      }
      used := AppendWord(out, outCap, used, argv[i].value, i > 0, Join(ts[..i]));
      i := i + 1;
    }
    assert i == m;
    StrLenAt(out[..], used);
    assert Content(out[..]) == out[..used] == Join(ts[..m]);
  }

  /** One round of the `join_args` loop once the token is known to fit: a
      space when it is not the first token, then the token through
      `strncat`, leaving `used` at the new length. */
  method AppendWord(out: array<char>, outCap: nat, used: nat, w: string, sep: bool, ghost prefix: string)
    returns (used': nat)
    requires outCap <= out.Length && NUL !in w
    requires used == |prefix| && used + |w| + (if sep then 1 else 0) + 1 < outCap
    requires forall k :: 0 <= k < used ==> out[k] == prefix[k] && out[k] != NUL
    requires out[used] == NUL
    modifies out
    ensures used' == |prefix + (if sep then " " else "") + w|
    ensures forall k :: 0 <= k < used' ==> out[k] == (prefix + (if sep then " " else "") + w)[k] && out[k] != NUL
    ensures out[used'] == NUL
    ensures forall k :: used' < k < out.Length ==> out[k] == old(out[k])
  {
    used' := used;
    if sep {
      out[used'] := ' ';
      used' := used' + 1;
      out[used'] := NUL;
    }
    StrLenAt(out[..], used');
    StrNCat(out, w, outCap - used' - 1);
    StrLenAt(out[..], used' + |w|);
    used' := StrLen(out[..]);
  }

  /** Joining tokens and parsing the result gives the tokens back:
      `parse_args` undoes `join_args` whenever everything fits. */
  lemma {:induction false} WordsOfJoin(ts: seq<string>)
    requires forall k :: 0 <= k < |ts| ==> IsToken(ts[k])
    ensures Words(Join(ts), 0) == ts
    decreases |ts|
  {
    if |ts| == 1 {
      WordsOfToken(ts[0]);
    } else if |ts| > 1 {
      var init := ts[..|ts| - 1];
      WordsOfJoin(init);
      WordsSnoc(Join(init), ts[|ts| - 1], 0);
      assert init + [ts[|ts| - 1]] == ts;
    }
  }

  /** What `parse_args` makes of the output of `join_args`: when every entry
      of `argv` is a token, the words of the joined line are exactly the
      tokens `join_args` took, and `parse_args` gives back the first
      `MAX_ARGS - 1` of them. */
  lemma ParseOfJoin(ts: seq<string>, cap: int)
    requires forall k :: 0 <= k < |ts| ==> IsToken(ts[k])
    ensures var m := JoinCount(ts, cap);
            && Words(Join(ts[..m]), 0) == ts[..m]
            && Min(|Words(Join(ts[..m]), 0)|, MAX_ARGS - 1) == Min(m, MAX_ARGS - 1)
  {
    var m := JoinCount(ts, cap);
    assert forall k :: 0 <= k < m ==> ts[..m][k] == ts[k];
    WordsOfJoin(ts[..m]);
  }

  /** A single token is one word. */
  lemma WordsOfToken(w: string)
    requires IsToken(w)
    ensures Words(w, 0) == [w]
  {
    assert SkipDelims(w, 0) == 0;
    assert TokenEnd(w, 0) == |w|;
    assert w[0..|w|] == w;
  }

  /** Appending a space and a token to a line appends that token to its
      words. */
  lemma {:induction false} WordsSnoc(s: string, w: string, i: nat)
    requires IsToken(w) && i <= |s|
    ensures Words(s + " " + w, i) == Words(s, i) + [w]
    decreases |s| - i
  {
    var t := s + " " + w;
    var b := SkipDelims(s, i);
    SkipDelimsSnoc(s, w, i);
    if b == |s| {
      TokenEndSnocLast(s, w);
      assert t[|s| + 1..|t|] == w;
      assert SkipDelims(t, |t|) == |t|;
    } else {
      var e := TokenEnd(s, b);
      TokenEndSnoc(s, w, b);
      assert t[b..e] == s[b..e];
      WordsSnoc(s, w, e);
    }
  }

  /** The delimiters skipped in `s + " " + w` are those of `s`, and past
      the end of `s` the space as well. */
  lemma {:induction false} SkipDelimsSnoc(s: string, w: string, i: nat)
    requires IsToken(w) && i <= |s|
    ensures SkipDelims(s + " " + w, i) == if SkipDelims(s, i) < |s| then SkipDelims(s, i) else |s| + 1
    decreases |s| - i
  {
    var t := s + " " + w;
    if i < |s| && IsDelim(s[i]) {
      SkipDelimsSnoc(s, w, i + 1);
    } else if i == |s| {
      assert t[|s|] == ' ' && t[|s| + 1] == w[0];
    }
  }

  /** A token of `s` ends where it did once a space is appended. */
  lemma {:induction false} TokenEndSnoc(s: string, w: string, i: nat)
    requires i <= |s|
    ensures TokenEnd(s + " " + w, i) == TokenEnd(s, i)
    decreases |s| - i
  {
    var t := s + " " + w;
    if i < |s| && !IsDelim(s[i]) {
      TokenEndSnoc(s, w, i + 1);
    } else if i == |s| {
      assert t[|s|] == ' ';
    }
  }

  /** The appended token runs to the end of the line. */
  lemma TokenEndSnocLast(s: string, w: string)
    requires IsToken(w)
    ensures TokenEnd(s + " " + w, |s| + 1) == |s| + 1 + |w|
  {
    var t := s + " " + w;
    TokenEndAll(t, |s| + 1);
  }

  /** With no delimiter from `i` on, the token runs to the end. */
  lemma {:induction false} TokenEndAll(t: string, i: nat)
    requires i <= |t|
    requires forall k :: i <= k < |t| ==> !IsDelim(t[k])
    ensures TokenEnd(t, i) == |t|
    decreases |t| - i
  {
    if i < |t| {
      TokenEndAll(t, i + 1);
    }
  }
}
