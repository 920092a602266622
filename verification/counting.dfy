/** Counting the occurrences of a character in a text. */
module Counting {

  /** The number of occurrences of `c` in `s`. */
  function Count(s: string, c: char): nat {
    if s == [] then 0 else (if s[0] == c then 1 else 0) + Count(s[1..], c)
  }

  /** Appending a character adds one occurrence of itself and none of anything else. */
  lemma {:induction false} CountSnoc(s: string, x: char, c: char)
    ensures Count(s + [x], c) == Count(s, c) + (if x == c then 1 else 0)
  {
    if s == [] {
      assert [x][1..] == [];
    } else {
      assert (s + [x])[1..] == s[1..] + [x];
      CountSnoc(s[1..], x, c);
    }
  }

  /** A character occurs at most as often as the text is long. */
  lemma CountBound(s: string, c: char)
    ensures Count(s, c) <= |s|
  {
  }

  /** A character absent from the text occurs zero times. */
  lemma {:induction false} NotInCountZero(s: string, c: char)
    requires c !in s
    ensures Count(s, c) == 0
  {
    if s != [] {
      assert c !in s[1..];
      NotInCountZero(s[1..], c);
    }
  }
}
