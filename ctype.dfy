/** The <ctype.h> classifications util.c relies on, in the "C" locale. */
module CType {

  /** isdigit: the ten decimal digits. */
  predicate IsDigit(c: char): (b: bool)
    ensures b <==> c in "0123456789"
  {
    '0' <= c <= '9'
  }

  /** tolower: maps 'A'..'Z' to 'a'..'z' and leaves every other character alone. */
  function ToLower(c: char): (r: char)
    ensures 'A' <= c <= 'Z' ==> 'a' <= r <= 'z' && r as int - c as int == 32
    ensures !('A' <= c <= 'Z') ==> r == c
  {
    if 'A' <= c <= 'Z' then (c as int + 32) as char else c
  }

  /** tolower applied to every character of a string. */
  function Lower(s: string): (r: string)
    ensures |r| == |s|
    ensures forall i :: 0 <= i < |s| ==> r[i] == ToLower(s[i])
  {
    if s == [] then [] else [ToLower(s[0])] + Lower(s[1..])
  }

  /** Lowering twice is lowering once. */
  lemma LowerIdempotent(s: string)
    ensures Lower(Lower(s)) == Lower(s)
  {
    var l := Lower(s);
    assert forall i :: 0 <= i < |s| ==> Lower(l)[i] == ToLower(ToLower(s[i]));
  }
}
