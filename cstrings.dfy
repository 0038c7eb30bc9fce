/** NUL-terminated character buffers, as the shell's string utilities see them.
    A buffer is an `array<char>`; the C string it holds is everything before its
    first NUL character. */
module CStrings {

  const NUL: char := '\0'

  /** `isspace` in the "C" locale: the space character and the control
      characters 9 to 13 (tab, newline, vertical tab, form feed, carriage
      return). */
  predicate IsSpace(c: char)
  {
    c == ' ' || 9 <= c as int <= 13
  }

  /** The smaller of two integers. */
  function Min(a: int, b: int): int
  {
    if a <= b then a else b
  }

  /** `isspace` in the "C" locale, spelled out character by character:
      space, tab, newline, vertical tab, form feed and carriage return. */
  lemma IsSpaceChars(c: char)
    ensures IsSpace(c) <==>
              c == ' ' || c == '\t' || c == '\n' || c == '\U{000B}' || c == '\U{000C}' || c == '\r'
  {
  }

  /** `strlen`: the index of the first NUL. */
  function StrLen(s: seq<char>): (n: nat)
    requires NUL in s
    ensures n < |s| && s[n] == NUL
    ensures forall k :: 0 <= k < n ==> s[k] != NUL
  {
    if s[0] == NUL then 0
    else
      assert NUL in s[1..];
      StrLen(s[1..]) + 1
  }

  /** The C string held by a buffer: its characters up to, not including, the
      first NUL. */
  function Content(s: seq<char>): (t: seq<char>)
    requires NUL in s
    ensures NUL !in t
    ensures |t| < |s| && s[|t|] == NUL
    ensures forall k :: 0 <= k < |t| ==> t[k] == s[k]
  {
    s[..StrLen(s)]
  }

  /** A NUL at `n` with none before it is where the C string ends. */
  lemma StrLenAt(s: seq<char>, n: nat)
    requires n < |s| && s[n] == NUL
    requires forall k :: 0 <= k < n ==> s[k] != NUL
    ensures NUL in s && StrLen(s) == n
  {
    assert s[n] in s;
  }
}
