/** JavaScript's `String.prototype.trim`, used on every name the user types. */
module Text {

  /** The characters `trim` removes: ECMAScript WhiteSpace and LineTerminator. */
  predicate IsWhitespace(c: char) {
    c == ' ' || c == '\t' || c == '\n' || c == '\r'
    || c == '\U{000B}' || c == '\U{000C}' || c == '\U{00A0}' || c == '\U{FEFF}'
    || c == '\U{1680}' || ('\U{2000}' <= c <= '\U{200A}')
    || c == '\U{2028}' || c == '\U{2029}' || c == '\U{202F}' || c == '\U{205F}'
    || c == '\U{3000}'
  }

  predicate AllWhitespace(s: string) {
    forall k :: 0 <= k < |s| ==> IsWhitespace(s[k])
  }

  /** How many whitespace characters `s` starts with. */
  function LeadingSpace(s: string): (a: nat)
    ensures a <= |s| && AllWhitespace(s[..a])
    ensures a < |s| ==> !IsWhitespace(s[a])
  {
    if s != [] && IsWhitespace(s[0]) then
      var a := 1 + LeadingSpace(s[1..]);
      assert forall k :: 1 <= k < a ==> s[k] == s[1..][..a - 1][k - 1];
      a
    else 0
  }

  /** Where the whitespace that `s` ends with begins. */
  function TrailingSpace(s: string): (b: nat)
    ensures b <= |s| && AllWhitespace(s[b..])
    ensures 0 < b ==> !IsWhitespace(s[b - 1])
  {
    if s != [] && IsWhitespace(s[|s| - 1]) then
      var b := TrailingSpace(s[..|s| - 1]);
      assert forall k :: b <= k < |s| - 1 ==> s[k] == s[..|s| - 1][b..][k - b];
      b
    else |s|
  }

  /**
   * `s.trim()`: `s` without its leading and trailing whitespace. The result is
   * the slice of `s` that begins and ends with a non-whitespace character.
   */
  function Trim(s: string): (r: string)
    ensures exists a, b :: 0 <= a <= b <= |s| && r == s[a..b]
                           && AllWhitespace(s[..a]) && AllWhitespace(s[b..])
    ensures r == [] || (!IsWhitespace(r[0]) && !IsWhitespace(r[|r| - 1]))
  {
    var a := LeadingSpace(s);
    var t := s[a..];
    var b := TrailingSpace(t);
    assert t[..b] == s[a..a + b] && t[b..] == s[a + b..];
    t[..b]
  }

  /** `!s.trim()` holds exactly for strings made only of whitespace. */
  lemma TrimEmpty(s: string)
    ensures Trim(s) == [] <==> AllWhitespace(s)
  {
    var r := Trim(s);
    var a, b :| 0 <= a <= b <= |s| && r == s[a..b] && AllWhitespace(s[..a]) && AllWhitespace(s[b..]);
    if r == [] {
      forall k | 0 <= k < |s| ensures IsWhitespace(s[k]) {
        if k < a { assert s[..a][k] == s[k]; } else { assert s[b..][k - b] == s[k]; }
      }
    }
  }

  /** Trimming a trimmed string changes nothing. */
  lemma TrimIdempotent(s: string)
    ensures Trim(Trim(s)) == Trim(s)
  {
    var r := Trim(s);
    var r2 := Trim(r);
    var a, b :| 0 <= a <= b <= |r| && r2 == r[a..b] && AllWhitespace(r[..a]) && AllWhitespace(r[b..]);
    if r != [] {
      assert r2 == r[0..|r|];
    }
  }
}
