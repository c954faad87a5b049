/** Letter case as the scripts use it.

    They raise and lower method words and the names of building blocks, which are ASCII. Nothing is said here about other
    letters; none of them turns into one of the method words. */
module Ascii {

  predicate IsLower(c: char) {
    'a' <= c <= 'z'
  }

  predicate IsUpper(c: char) {
    'A' <= c <= 'Z'
  }

  function Raised(c: char): char {
    if IsLower(c) then (c as int - 32) as char else c
  }

  function Lowered(c: char): char {
    if IsUpper(c) then (c as int + 32) as char else c
  }

  /** `upper()` */
  function Upper(s: string): string {
    seq(|s|, i requires 0 <= i < |s| => Raised(s[i]))
  }

  /** `lower()` */
  function Lower(s: string): string {
    seq(|s|, i requires 0 <= i < |s| => Lowered(s[i]))
  }

  /** `Upper` leaves no lower-case letter, keeps everything that is none, and keeps which letter each one is: as its place in
      the alphabet and as what `Lower` makes of it. */
  lemma UpperSays(s: string)
    ensures |Upper(s)| == |s| && Lower(Upper(s)) == Lower(s)
    ensures forall i :: 0 <= i < |s| ==>
      && !('a' <= Upper(s)[i] <= 'z')
      && (if 'a' <= s[i] <= 'z' then Upper(s)[i] as int - 'A' as int == s[i] as int - 'a' as int else Upper(s)[i] == s[i])
  {
    forall i | 0 <= i < |s|
      ensures Lower(Upper(s))[i] == Lower(s)[i]
    {
    }
  }
}
