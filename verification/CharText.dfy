/** Character-level text helpers shared by the stripper, the anchor format and the outbox. */
module CharText {
  import opened Common

  /** Unicode `White_Space`. */
  predicate IsWhitespace(c: char) {
    var n := c as int;
    || 9 <= n <= 13 || n == 0x20 || n == 0x85 || n == 0xA0 || n == 0x1680 || 0x2000 <= n <= 0x200A
    || n == 0x2028 || n == 0x2029 || n == 0x202F || n == 0x205F || n == 0x3000
  }

  /** ASCII lower-casing. */
  function LowerChar(c: char): char { if 'A' <= c <= 'Z' then (c as int + 32) as char else c }

  const UPPER: string := "ABCDEFGHIJKLMNOPQRSTUVWXYZ"
  const LOWER: string := "abcdefghijklmnopqrstuvwxyz"

  /** The twenty-six capitals become their small letters and nothing else changes. */
  lemma LowerCharExact(c: char)
    ensures forall i :: 0 <= i < 26 ==> LowerChar(UPPER[i]) == LOWER[i]
    ensures c !in UPPER ==> LowerChar(c) == c
  {
    if 'A' <= c <= 'Z' {
      assert UPPER[c as int - 'A' as int] == c;
    }
  }

  /** The first position of `c`. */
  function FindChar(s: string, c: char): (r: Option<nat>)
    ensures r.Some? ==> r.value < |s| && s[r.value] == c && forall j :: 0 <= j < r.value ==> s[j] != c
    ensures r.None? ==> forall j :: 0 <= j < |s| ==> s[j] != c
  {
    if s == [] then None
    else if s[0] == c then Some(0)
    else
      var r := FindChar(s[1..], c);
      assert forall j :: 1 <= j < |s| ==> s[j] == s[1..][j - 1];
      if r.Some? then Some(r.value + 1) else None
  }
}
