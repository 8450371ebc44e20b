/** Character classification and case folding, restricted to ASCII as in the
    C locale: `isalpha` accepts exactly the 52 Latin letters and `tolower`
    changes only the upper-case ones. */
module Text {

  /** `isalpha` in the C locale. */
  predicate IsAlpha(c: char) {
    'a' <= c <= 'z' || 'A' <= c <= 'Z'
  }

  predicate IsLower(c: char) {
    'a' <= c <= 'z'
  }

  /** `tolower` in the C locale. */
  function Lower(c: char): (r: char)
    ensures IsAlpha(c) ==> IsLower(r)
    ensures IsAlpha(c) <==> IsAlpha(r)
    ensures !('A' <= c <= 'Z') ==> r == c
    ensures 'A' <= c <= 'Z' ==> r as int == c as int + 32
  {
    if 'A' <= c <= 'Z' then (c as int + 32) as char else c
  }

  /** The folding the tools apply unless asked to be case sensitive. */
  function Fold(c: char, caseSensitive: bool): char {
    if caseSensitive then c else Lower(c)
  }

  /** Position of a lower-case letter in the alphabet: `c - OFFSET` with
      OFFSET = 97 ('a'). */
  function Code(c: char): (r: int)
    requires IsLower(c)
    ensures 0 <= r < 26
  {
    c as int - 'a' as int
  }

  /** The letter at a position of the alphabet: `i + OFFSET`. */
  function Letter(i: int): (c: char)
    requires 0 <= i < 26
    ensures IsLower(c) && Code(c) == i
  {
    ('a' as int + i) as char
  }

  lemma LetterCode(c: char)
    requires IsLower(c)
    ensures Letter(Code(c)) == c
  {
  }

  /** Every character of `s` passed through `tolower`. */
  function LowerString(s: seq<char>): (r: seq<char>)
    ensures |r| == |s|
    ensures forall i :: 0 <= i < |s| ==> r[i] == Lower(s[i])
  {
    if s == [] then [] else [Lower(s[0])] + LowerString(s[1..])
  }
}
