/** The 32-letter lower-case Russian alphabet shared by the cipher and the cryptanalysis. */
module Alphabet {

  /** The alphabet in its fixed order; `ё` is not a member (it is folded to `е`). */
  const ALPHABET: string := "абвгдежзийклмнопрстуфхцчшщъыьэюя"

  /** The alphabet size, `ALPHABET.length`. */
  const M: nat := 32

  /** The letters occupy the contiguous code points U+0430..U+044F, which is also the regex class `[а-я]`. */
  predicate IsLetter(c: char) {
    'а' <= c <= 'я'
  }

  predicate AllLetters(s: string) {
    forall i :: 0 <= i < |s| ==> IsLetter(s[i])
  }

  /** ALPHABET is exactly the code-point block, in order. */
  lemma AlphabetIsBlock()
    ensures |ALPHABET| == M
    ensures forall i :: 0 <= i < M ==> ALPHABET[i] as int == 'а' as int + i
  {
  }

  /** `ALPHABET.indexOf(c)` for a letter. */
  function IndexOf(c: char): (i: nat)
    requires IsLetter(c)
    ensures i < M && ALPHABET[i] == c
  {
    AlphabetIsBlock();
    c as int - 'а' as int
  }

  /** `ALPHABET[i]`. */
  function LetterAt(i: int): (c: char)
    requires 0 <= i < M
    ensures IsLetter(c) && c == ALPHABET[i] && IndexOf(c) == i
  {
    AlphabetIsBlock();
    ALPHABET[i]
  }

  /** The symbol/index mapping is a bijection between letters and `[0, 32)`. */
  lemma IndexBijection(c: char, d: char)
    requires IsLetter(c) && IsLetter(d)
    ensures IndexOf(c) == IndexOf(d) <==> c == d
    ensures LetterAt(IndexOf(c)) == c
  {
  }

  /** Every member of ALPHABET is a letter and no letter is listed twice. */
  lemma AlphabetLettersDistinct()
    ensures forall i :: 0 <= i < M ==> IsLetter(ALPHABET[i])
    ensures forall i, j :: 0 <= i < j < M ==> ALPHABET[i] != ALPHABET[j]
    ensures forall c :: IsLetter(c) <==> c in ALPHABET
  {
    AlphabetIsBlock();
    forall c | IsLetter(c) ensures c in ALPHABET {
      assert ALPHABET[IndexOf(c)] == c;
    }
  }
}
