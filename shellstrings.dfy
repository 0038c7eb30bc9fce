/** The shell's in-place whitespace utilities: `str_trim` and
    `strip_background_amp`. Both work on a NUL-terminated buffer and shorten
    the C string it holds by overwriting characters with NUL. */
module ShellStrings {

  import opened Wrappers
  import opened CStrings

  /** What is left of `t` once its leading whitespace is skipped. */
  function DropLeading(t: string): string
    decreases |t|
  {
    if t != [] && IsSpace(t[0]) then DropLeading(t[1..]) else t
  }

  /** What is left of `t` once its trailing whitespace is cut off. */
  function DropTrailing(t: string): string
    decreases |t|
  {
    if t != [] && IsSpace(t[|t| - 1]) then DropTrailing(t[..|t| - 1]) else t
  }

  /** Number of leading whitespace characters of `t`. */
  function Lead(t: string): int
  {
    |t| - |DropLeading(t)|
  }

  /** `t` without surrounding whitespace. */
  function Trimmed(t: string): string
  {
    DropTrailing(DropLeading(t))
  }

  /** `DropLeading` removes a run of whitespace from the front and stops at a
      non-whitespace character. */
  lemma {:induction false} DropLeadingProps(t: string)
    ensures 0 <= Lead(t) <= |t| && DropLeading(t) == t[Lead(t)..]
    ensures forall k :: 0 <= k < Lead(t) ==> IsSpace(t[k])
    ensures DropLeading(t) != [] ==> !IsSpace(DropLeading(t)[0])
    decreases |t|
  {
    if t != [] && IsSpace(t[0]) {
      DropLeadingProps(t[1..]);
    }
  }

  /** `DropTrailing` removes a run of whitespace from the end and stops at a
      non-whitespace character. */
  lemma {:induction false} DropTrailingProps(t: string)
    ensures |DropTrailing(t)| <= |t| && DropTrailing(t) == t[..|DropTrailing(t)|]
    ensures forall k :: |DropTrailing(t)| <= k < |t| ==> IsSpace(t[k])
    ensures DropTrailing(t) != [] ==> !IsSpace(DropTrailing(t)[|DropTrailing(t)| - 1])
    decreases |t|
  {
    if t != [] && IsSpace(t[|t| - 1]) {
      DropTrailingProps(t[..|t| - 1]);
    }
  }

  /** The trimmed string is the contiguous run of `t` from its first to its
      last non-whitespace character; everything cut away is whitespace, and it
      is empty exactly when `t` is all whitespace. */
  lemma TrimmedProps(t: string)
    ensures var r := Trimmed(t);
            && 0 <= Lead(t) && Lead(t) + |r| <= |t| && r == t[Lead(t)..Lead(t) + |r|]
            && (forall k :: 0 <= k < Lead(t) ==> IsSpace(t[k]))
            && (forall k :: Lead(t) + |r| <= k < |t| ==> IsSpace(t[k]))
            && (r != [] ==> !IsSpace(r[0]) && !IsSpace(r[|r| - 1]))
            && (r == [] <==> forall k :: 0 <= k < |t| ==> IsSpace(t[k]))
  {
    DropLeadingProps(t);
    var u := DropLeading(t);
    DropTrailingProps(u);
    var i := Lead(t);
    var r := Trimmed(t);
    assert r == u[..|r|];
    assert r == t[i..i + |r|];
    if r != [] {
      assert r[0] == u[0];
    }
  }

  /** `str_trim`. A NULL buffer comes back as NULL (`None`); otherwise see
      `TrimBuffer`. */
  method Trim(s: array?<char>) returns (p: Option<nat>)
    requires s != null ==> NUL in s[..]
    modifies s
    ensures s == null ==> p == None
    ensures s != null ==>
              var t := Content(old(s[..]));
              && p == Some(Lead(t))
              && NUL in s[Lead(t)..]
              && Content(s[Lead(t)..]) == Trimmed(t)
              && forall k :: 0 <= k < s.Length ==>
                   s[k] == if Lead(t) + |Trimmed(t)| <= k < |t| then NUL else old(s[k])
  {
    if s == null {
      return None;
    }
    var i := TrimBuffer(s);
    return Some(i);
  }

  /** `str_trim` on a buffer: the result is the index of the first
      non-whitespace character; the C string starting there is the trimmed
      input, and exactly the trailing whitespace has been overwritten with
      NUL. */
  method TrimBuffer(s: array<char>) returns (i: nat)
    requires NUL in s[..]
    modifies s
    ensures var t := Content(old(s[..]));
            && i == Lead(t) < s.Length
            && NUL in s[i..]
            && Content(s[i..]) == Trimmed(t)
            && forall k :: 0 <= k < s.Length ==>
                 s[k] == if i + |Trimmed(t)| <= k < |t| then NUL else old(s[k])
  {
    ghost var t := Content(s[..]);
    // leading
    i := SkipSpaces(s);
    if s[i] == NUL {
      StrLenAt(s[i..], 0);
      return;
    }
    // trailing
    StrLenAt(s[i..], |t| - i);
    ghost var pre := s[..];
    var end := WipeTrailingSpaces(s, i, i + StrLen(s[i..]));
    assert !IsSpace(pre[i]);
    TrimmedIs(t, i, end);
    ContentOfCut(s[..], t, i, end);
  }

  /** The leading loop of `str_trim`: the index of the first character of the
      C string that is not whitespace (the NUL itself when there is none). */
  method SkipSpaces(s: array<char>) returns (i: nat)
    requires NUL in s[..]
    ensures i == Lead(Content(s[..])) && i < s.Length
    ensures s[i] == NUL <==> i == |Content(s[..])|
    ensures !IsSpace(s[i])
  {
    ghost var t := Content(s[..]);
    ghost var n := |t|;
    assert s[..][n] == NUL;
    i := 0;
    while IsSpace(s[i])
      invariant 0 <= i <= n
      invariant forall k :: 0 <= k < i ==> IsSpace(t[k])
      decreases n - i
    {
      assert t[i] == s[i];
      i := i + 1;
    }
    assert i < n ==> t[i] == s[i];
    DropLeadingIs(t, i);
  }

  /** The backward loops of `str_trim` and `strip_background_amp`: starting
      just before `e`, overwrite whitespace with NUL while the index stays at
      or above `lo`. The result `m` is where the wiped run begins. */
  method WipeTrailingSpaces(s: array<char>, lo: nat, e: nat) returns (m: nat)
    requires lo <= e <= s.Length
    modifies s
    ensures lo <= m <= e
    ensures m == lo || !IsSpace(s[m - 1])
    ensures forall k :: m <= k < e ==> IsSpace(old(s[k]))
    ensures forall k :: 0 <= k < s.Length ==> s[k] == if m <= k < e then NUL else old(s[k])
  {
    m := e;
    while m > lo && IsSpace(s[m - 1])
      invariant lo <= m <= e
      invariant forall k :: m <= k < e ==> IsSpace(old(s[k]))
      invariant forall k :: 0 <= k < s.Length ==> s[k] == if m <= k < e then NUL else old(s[k])
    {
      s[m - 1] := NUL;
      m := m - 1;
    }
  }

  /** Once the leading whitespace ends at `i` and the trailing whitespace
      starts at `e`, the trimmed string is `t[i..e]`. */
  lemma TrimmedIs(t: string, i: nat, e: nat)
    requires i == Lead(t) && i < e <= |t| && !IsSpace(t[e - 1])
    requires forall k :: e <= k < |t| ==> IsSpace(t[k])
    ensures Trimmed(t) == t[i..e]
  {
    DropLeadingProps(t);
    assert forall k :: e - i <= k < |t| - i ==> IsSpace(t[i..][k]);
    DropTrailingIs(t[i..], e - i);
    assert t[i..][..e - i] == t[i..e];
  }

  /** A buffer that agrees with `t` from `i` up to a NUL at `e` holds, from
      `i`, the C string `t[i..e]`. */
  lemma ContentOfCut(a: seq<char>, t: string, i: nat, e: nat)
    requires i <= e <= |t| && e < |a| && a[e] == NUL
    requires NUL !in t
    requires forall k :: i <= k < e ==> a[k] == t[k]
    ensures NUL in a[i..] && Content(a[i..]) == t[i..e]
  {
    assert a[i..][..e - i] == t[i..e];
    StrLenAt(a[i..], e - i);
  }

  /** `DropLeading` is the one suffix that starts with a non-whitespace
      character (or is empty) and is preceded by whitespace only. */
  lemma {:induction false} DropLeadingIs(t: string, m: nat)
    requires m <= |t|
    requires m == |t| || !IsSpace(t[m])
    requires forall k :: 0 <= k < m ==> IsSpace(t[k])
    ensures DropLeading(t) == t[m..] && Lead(t) == m
    decreases |t|
  {
    if 0 < m {
      DropLeadingIs(t[1..], m - 1);
      assert t[1..][m - 1..] == t[m..];
    }
  }

  /** `DropTrailing` is the one prefix that ends in a non-whitespace
      character (or is empty) and is followed by whitespace only. */
  lemma {:induction false} DropTrailingIs(t: string, m: nat)
    requires m <= |t|
    requires m == 0 || !IsSpace(t[m - 1])
    requires forall k :: m <= k < |t| ==> IsSpace(t[k])
    ensures DropTrailing(t) == t[..m]
    decreases |t|
  {
    if m < |t| {
      DropTrailingIs(t[..|t| - 1], m);
      assert t[..|t| - 1][..m] == t[..m];
    }
  }


  /** What `strip_background_amp` leaves of a line, and whether it asked for
      background execution. */
  datatype Stripped = Stripped(line: string, background: bool)

  /** The line with its trailing whitespace, then one `&` if that is the last
      non-whitespace character, then the whitespace before it, removed. */
  function StripAmp(t: string): Stripped
  {
    var u := DropTrailing(t);
    if u != [] && u[|u| - 1] == '&' then Stripped(DropTrailing(u[..|u| - 1]), true)
    else Stripped(u, false)
  }

  /** Where the `&` that requests background execution stands: just after
      the line with its trailing whitespace cut off. */
  function AmpIndex(t: string): int
  {
    |DropTrailing(t)| - 1
  }

  /** What `strip_background_amp` leaves is a prefix of the line with no
      trailing whitespace. Background is chosen exactly when the last
      non-whitespace character is `&`; then the part cut away is that one `&`
      and whitespace, and otherwise it is whitespace only. */
  lemma StripAmpProps(t: string)
    ensures var r := StripAmp(t);
            && |r.line| <= |t| && r.line == t[..|r.line|]
            && (r.line != [] ==> !IsSpace(r.line[|r.line| - 1]))
            && (r.background <==> 0 <= AmpIndex(t) < |t| && t[AmpIndex(t)] == '&')
            && (!r.background ==> forall k :: |r.line| <= k < |t| ==> IsSpace(t[k]))
            && (r.background ==>
                  && |r.line| <= AmpIndex(t) < |t|
                  && forall k :: |r.line| <= k < |t| && k != AmpIndex(t) ==> IsSpace(t[k]))
  {
    DropTrailingProps(t);
    var u := DropTrailing(t);
    if u != [] && u[|u| - 1] == '&' {
      StripAmpPropsBackground(t);
    }
  }

  /** The background case of `StripAmpProps`: the `&` and the whitespace on
      either side of it are all that is cut away. */
  lemma StripAmpPropsBackground(t: string)
    requires DropTrailing(t) != [] && DropTrailing(t)[|DropTrailing(t)| - 1] == '&'
    ensures var r := StripAmp(t);
            && r.background
            && |r.line| <= AmpIndex(t) < |t| && r.line == t[..|r.line|]
            && (r.line != [] ==> !IsSpace(r.line[|r.line| - 1]))
            && forall k :: |r.line| <= k < |t| && k != AmpIndex(t) ==> IsSpace(t[k])
  {
    DropTrailingProps(t);
    var u := DropTrailing(t);
    var a := |u| - 1;
    var w := u[..a];
    assert w == t[..a];
    DropTrailingProps(w);
    var v := DropTrailing(w);
    assert StripAmp(t) == Stripped(v, true);
    assert v == t[..|v|] by {
      assert v == w[..|v|];
    }
    forall k | |v| <= k < |t| && k != a
      ensures IsSpace(t[k])
    {
      if k < a {
        assert IsSpace(w[k]);
      }
    }
  }

  /** The two backward passes of `strip_background_amp` determine its result:
      whitespace from `m` to the end of `t`; if `t[m - 1]` is then `&`,
      whitespace from `m2` up to it. */
  lemma StripAmpIs(t: string, m: nat, amp: bool, m2: nat)
    requires m <= |t| && (m == 0 || !IsSpace(t[m - 1]))
    requires forall k :: m <= k < |t| ==> IsSpace(t[k])
    requires amp == (m > 0 && t[m - 1] == '&')
    requires amp ==> m2 < m && (m2 == 0 || !IsSpace(t[m2 - 1]))
    requires amp ==> forall k :: m2 <= k < m - 1 ==> IsSpace(t[k])
    ensures StripAmp(t) == Stripped(t[..if amp then m2 else m], amp)
  {
    DropTrailingIs(t, m);
    if amp {
      assert t[..m][..m - 1] == t[..m - 1];
      DropTrailingIs(t[..m - 1], m2);
      assert t[..m - 1][..m2] == t[..m2];
    }
  }

  /** `strip_background_amp`. `isBg` is the flag the C code stores through
      `is_bg`; a NULL line leaves it cleared. */
  method StripBackgroundAmp(line: array?<char>) returns (isBg: bool)
    requires line != null ==> NUL in line[..]
    modifies line
    ensures line == null ==> !isBg
    ensures line != null ==>
              var t := Content(old(line[..]));
              var r := StripAmp(t);
              && isBg == r.background
              && NUL in line[..]
              && Content(line[..]) == r.line
              && forall k :: 0 <= k < line.Length ==>
                   line[k] == if |r.line| <= k < |t| then NUL else old(line[k])
  {
    isBg := false;
    if line == null {
      return;
    }
    ghost var t := Content(line[..]);
    var n := StrLen(line[..]);
    // walk back over trailing whitespace
    var i := WipeTrailingSpaces(line, 0, n);
    ghost var m := i;
    ghost var mid := line[..];
    if i > 0 && line[i - 1] == '&' {
      line[i - 1] := NUL;
      isBg := true;
      // strip any remaining whitespace before the '&'
      ghost var mid2 := line[..];
      assert forall k :: 0 <= k < m - 1 ==> mid2[k] == t[k];
      i := WipeTrailingSpaces(line, 0, i - 1);
      assert forall k :: i <= k < m - 1 ==> IsSpace(mid2[k]);
    }
    assert forall k :: 0 <= k < m ==> mid[k] == t[k];
    StripAmpIs(t, m, isBg, i);
    ContentOfCut(line[..], t, 0, i);
  }
}
