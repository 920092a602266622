/** Text normalisation: both source modules reduce arbitrary text to a string over ALPHABET. */
module Normalize {
  import opened Alphabet

  /** The JavaScript regular-expression class `\s`: white space and line terminators. */
  predicate IsWhitespace(c: char) {
    || c == '\t' || c == '\n' || c == '\U{000B}' || c == '\U{000C}' || c == '\r' || c == ' '
    || c == '\U{00A0}' || c == '\U{1680}' || ('\U{2000}' <= c <= '\U{200A}')
    || c == '\U{2028}' || c == '\U{2029}' || c == '\U{202F}' || c == '\U{205F}'
    || c == '\U{3000}' || c == '\U{FEFF}'
  }

  /** `toLowerCase` on one character, restricted to the Cyrillic capitals: `А`–`Я` and `Ё`. */
  function LowerChar(c: char): char {
    if 'А' <= c <= 'Я' then (c as int + 32) as char
    else if c == 'Ё' then 'ё'
    else c
  }

  /** The `ё` to `е` fold. */
  function FoldYoChar(c: char): char {
    if c == 'ё' then 'е' else c
  }

  function ToLower(s: string): (r: string)
    ensures |r| == |s| && forall i :: 0 <= i < |s| ==> r[i] == LowerChar(s[i])
  {
    seq(|s|, i requires 0 <= i < |s| => LowerChar(s[i]))
  }

  function FoldYo(s: string): (r: string)
    ensures |r| == |s| && forall i :: 0 <= i < |s| ==> r[i] == FoldYoChar(s[i])
  {
    seq(|s|, i requires 0 <= i < |s| => FoldYoChar(s[i]))
  }

  /** `replace(/\s+/g, '')`. */
  function DropWhitespace(s: string): string {
    if s == [] then [] else (if IsWhitespace(s[0]) then [] else [s[0]]) + DropWhitespace(s[1..])
  }

  /** `replace(/[^а-я]+/g, '')`, equally `replace(/[^а-я]/g, '')`. */
  function KeepLetters(s: string): string {
    if s == [] then [] else (if IsLetter(s[0]) then [s[0]] else []) + KeepLetters(s[1..])
  }

  /** `preprocess` of the cryptanalysis module (src/vigenere.ts). */
  function Preprocess(s: string): string {
    KeepLetters(FoldYo(ToLower(s)))
  }

  /** `preprocess` of the cipher module (src/vigenere-cipher.ts), which strips white space first. */
  function PreprocessCipher(s: string): string {
    KeepLetters(DropWhitespace(FoldYo(ToLower(s))))
  }

  /** The normalised form of one character: the letter it becomes, if it survives. */
  predicate Survives(c: char) {
    IsLetter(FoldYoChar(LowerChar(c)))
  }

  lemma KeepLettersAllLetters(s: string)
    ensures AllLetters(KeepLetters(s))
    ensures |KeepLetters(s)| <= |s|
  {
  }

  lemma {:induction false} KeepLettersOfLetters(s: string)
    requires AllLetters(s)
    ensures KeepLetters(s) == s
  {
    if s != [] {
      KeepLettersOfLetters(s[1..]);
    }
  }

  lemma {:induction false} KeepLettersIgnoresWhitespace(s: string)
    ensures KeepLetters(DropWhitespace(s)) == KeepLetters(s)
  {
    if s != [] {
      KeepLettersIgnoresWhitespace(s[1..]);
      var head := if IsWhitespace(s[0]) then [] else [s[0]];
      assert DropWhitespace(s) == head + DropWhitespace(s[1..]);
      KeepLettersAppend(head, DropWhitespace(s[1..]));
    }
  }

  lemma {:induction false} KeepLettersAppend(a: string, b: string)
    ensures KeepLetters(a + b) == KeepLetters(a) + KeepLetters(b)
  {
    if a == [] {
      assert a + b == b;
    } else {
      assert (a + b)[1..] == a[1..] + b;
      KeepLettersAppend(a[1..], b);
    }
  }

  /** Both normalisations yield only ALPHABET letters and never lengthen the text. */
  lemma PreprocessClosed(s: string)
    ensures AllLetters(Preprocess(s)) && |Preprocess(s)| <= |s|
    ensures forall i :: 0 <= i < |Preprocess(s)| ==> Preprocess(s)[i] in ALPHABET
  {
    KeepLettersAllLetters(FoldYo(ToLower(s)));
    AlphabetLettersDistinct();
  }

  /** The two `preprocess` functions of the repository agree on every input. */
  lemma PreprocessAgree(s: string)
    ensures PreprocessCipher(s) == Preprocess(s)
  {
    KeepLettersIgnoresWhitespace(FoldYo(ToLower(s)));
  }

  /** Normalisation maps each letter to itself. */
  lemma {:induction false} PreprocessOfLetters(s: string)
    requires AllLetters(s)
    ensures Preprocess(s) == s
  {
    assert FoldYo(ToLower(s)) == s;
    KeepLettersOfLetters(s);
  }

  /** `preprocess` is idempotent. */
  lemma PreprocessIdempotent(s: string)
    ensures Preprocess(Preprocess(s)) == Preprocess(s)
  {
    PreprocessClosed(s);
    PreprocessOfLetters(Preprocess(s));
  }

  /** Normalisation works character by character: it distributes over concatenation. */
  lemma PreprocessAppend(a: string, b: string)
    ensures Preprocess(a + b) == Preprocess(a) + Preprocess(b)
  {
    assert FoldYo(ToLower(a + b)) == FoldYo(ToLower(a)) + FoldYo(ToLower(b));
    KeepLettersAppend(FoldYo(ToLower(a)), FoldYo(ToLower(b)));
  }

  /** A character is kept exactly when its lower-cased, folded form is a letter. */
  lemma PreprocessChar(c: char)
    ensures Preprocess([c]) == if Survives(c) then [FoldYoChar(LowerChar(c))] else []
    ensures IsWhitespace(c) ==> Preprocess([c]) == []
    ensures (IsLetter(c) || ('А' <= c <= 'Я')) ==> Preprocess([c]) == [(if IsLetter(c) then c else (c as int + 32) as char)]
    ensures (c == 'ё' || c == 'Ё') ==> Preprocess([c]) == "е"
  {
    var x := FoldYoChar(LowerChar(c));
    assert FoldYo(ToLower([c])) == [x];
    assert [x][1..] == [];
    assert KeepLetters([x]) == (if IsLetter(x) then [x] else []) + KeepLetters([]);
  }
}
