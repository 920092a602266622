/** Encryption and decryption over ALPHABET, with a per-character trace (src/vigenere-cipher.ts). */
module Cipher {
  import opened Wrappers
  import opened Alphabet
  import opened Normalize
  import opened Grouping

  /** The regex class `[а-яА-ЯёЁ\s]`. */
  predicate IsCyrillicOrSpace(c: char) {
    IsLetter(c) || ('А' <= c <= 'Я') || c == 'ё' || c == 'Ё' || IsWhitespace(c)
  }

  /**
   * `checkCyrillicAndSpaces`: the empty string passes; otherwise the whole text must match
   * `^[а-яА-ЯёЁ\s]+$`.
   */
  predicate CheckCyrillicAndSpaces(text: string) {
    |text| == 0 || forall i :: 0 <= i < |text| ==> IsCyrillicOrSpace(text[i])
  }

  function WhitespaceCount(s: string): nat {
    if s == [] then 0 else (if IsWhitespace(s[0]) then 1 else 0) + WhitespaceCount(s[1..])
  }

  /** A key that passes the charset check loses exactly its white space to normalisation. */
  lemma {:induction false} CheckedKeyLosesOnlyWhitespace(key: string)
    requires CheckCyrillicAndSpaces(key)
    ensures |PreprocessCipher(key)| + WhitespaceCount(key) == |key|
  {
    if key != [] {
      assert CheckCyrillicAndSpaces(key[1..]);
      CheckedKeyLosesOnlyWhitespace(key[1..]);
      PreprocessAgree(key);
      PreprocessAgree(key[1..]);
      assert key == [key[0]] + key[1..];
      PreprocessAppend([key[0]], key[1..]);
      PreprocessChar(key[0]);
    }
  }

  /** One character is kept as a letter or counted as white space exactly when the charset admits it. */
  lemma CharKeptOrWhitespace(c: char)
    ensures |Preprocess([c])| + (if IsWhitespace(c) then 1 else 0) <= 1
    ensures |Preprocess([c])| + (if IsWhitespace(c) then 1 else 0) == 1 <==> IsCyrillicOrSpace(c)
  {
    PreprocessChar(c);
  }

  /**
   * The charset check as a length equation: normalisation never removes fewer characters than the
   * key's white space, and it removes exactly those precisely when the key passes the check.
   */
  lemma {:induction false} CheckedKeyByLength(key: string)
    ensures |PreprocessCipher(key)| + WhitespaceCount(key) <= |key|
    ensures |PreprocessCipher(key)| + WhitespaceCount(key) == |key| <==> CheckCyrillicAndSpaces(key)
  {
    if key != [] {
      var c, rest := key[0], key[1..];
      CheckedKeyByLength(rest);
      PreprocessAgree(key);
      PreprocessAgree(rest);
      assert key == [c] + rest;
      PreprocessAppend([c], rest);
      CharKeptOrWhitespace(c);
      assert CheckCyrillicAndSpaces(key) <==> IsCyrillicOrSpace(c) && CheckCyrillicAndSpaces(rest) by {
        if IsCyrillicOrSpace(c) && CheckCyrillicAndSpaces(rest) {
          forall i | 0 <= i < |key| ensures IsCyrillicOrSpace(key[i]) {
            if i > 0 {
              assert key[i] == rest[i - 1];
            }
          }
        }
        if CheckCyrillicAndSpaces(key) {
          assert IsCyrillicOrSpace(key[0]);
          forall i | 0 <= i < |rest| ensures IsCyrillicOrSpace(rest[i]) {
            assert rest[i] == key[i + 1];
          }
        }
      }
    }
  }

  datatype Operation = Encrypt | Decrypt

  /**
   * The arithmetic identity an entry records: `(p + k) % 32 = result` for encryption,
   * `(p - k + 32) % 32 = result` for decryption (the source renders it as a string).
   */
  datatype Formula = Formula(op: Operation, p: nat, k: nat, result: nat)

  /** `CipherStepDetail`: one entry of the trace. */
  datatype CipherStepDetail = CipherStepDetail(
    step: nat,
    originalChar: char,
    originalCharIndex: nat,
    keyChar: char,
    keyCharIndex: nat,
    processedChar: char,
    processedCharIndex: nat,
    operationType: Operation,
    formula: Formula)

  /** `CipherResult`: the grouped output text and the trace. */
  datatype CipherResult = CipherResult(processedText: string, details: seq<CipherStepDetail>)

  /** The three errors `encryptVigenere`/`decryptVigenere` throw, in the order they are checked. */
  datatype CipherError = KeyCharsetError | EmptyText | EmptyKey

  /** The index of the processed letter, as the two loops compute it. */
  function Combine(op: Operation, p: nat, k: nat): nat
    requires p < M && k < M
  {
    match op
    case Encrypt => (p + k) % M
    case Decrypt => (p - k + M) % M
  }

  /** One loop iteration: the character at position `i` and the key letter `key[i % key.length]`. */
  function Step(op: Operation, text: string, key: string, i: nat): (d: CipherStepDetail)
    requires AllLetters(text) && AllLetters(key) && |key| > 0 && i < |text|
    ensures IsLetter(d.processedChar) && IndexOf(d.processedChar) == d.processedCharIndex
  {
    var p := IndexOf(text[i]);
    var keyChar := key[i % |key|];
    var k := IndexOf(keyChar);
    var c := Combine(op, p, k);
    CipherStepDetail(i + 1, text[i], p, keyChar, k, LetterAt(c), c, op, Formula(op, p, k, c))
  }

  /** The trace of the whole loop, one entry per normalised character. */
  function Details(op: Operation, text: string, key: string): (ds: seq<CipherStepDetail>)
    requires AllLetters(text) && AllLetters(key) && |key| > 0
    ensures |ds| == |text|
  {
    seq(|text|, i requires 0 <= i < |text| => Step(op, text, key, i))
  }

  /** The ungrouped output: the processed characters of the trace, in order. */
  function Processed(ds: seq<CipherStepDetail>): (s: string)
    ensures |s| == |ds|
  {
    seq(|ds|, i requires 0 <= i < |ds| => ds[i].processedChar)
  }

  /** The body shared by `encryptVigenere` and `decryptVigenere`. */
  function Run(op: Operation, rawText: string, rawKey: string): Result<CipherResult, CipherError> {
    if !CheckCyrillicAndSpaces(rawKey) then Failure(KeyCharsetError)
    else
      var text := PreprocessCipher(rawText);
      if |text| == 0 then Failure(EmptyText)
      else
        var key := PreprocessCipher(rawKey);
        if |key| == 0 then Failure(EmptyKey)
        else
          PreprocessClosed(rawText);
          PreprocessClosed(rawKey);
          PreprocessAgree(rawText);
          PreprocessAgree(rawKey);
          var ds := Details(op, text, key);
          Success(CipherResult(GroupByFive(Processed(ds)), ds))
  }

  /** The error a run reports, if any: the raw key's charset first, then the empty text, then the empty key. */
  function ExpectedError(rawText: string, rawKey: string): Option<CipherError> {
    if !CheckCyrillicAndSpaces(rawKey) then Some(KeyCharsetError)
    else if |PreprocessCipher(rawText)| == 0 then Some(EmptyText)
    else if |PreprocessCipher(rawKey)| == 0 then Some(EmptyKey)
    else None
  }

  /**
   * What a successful run promises: the output is the grouped form of a letter string as long as
   * the normalised text whose letter `i` has index `op(p_i, k_(i mod |key|))`, and the trace has
   * one faithful entry per normalised character.
   */
  ghost predicate Transformed(op: Operation, rawText: string, rawKey: string, res: CipherResult) {
    var text := PreprocessCipher(rawText);
    var key := PreprocessCipher(rawKey);
    var out := RemoveSpaces(res.processedText);
    && AllLetters(text) && AllLetters(key) && |key| > 0
    && |out| == |text| && AllLetters(out)
    && res.processedText == GroupByFive(out)
    && (forall i :: 0 <= i < |text| ==>
          IndexOf(out[i]) == Combine(op, IndexOf(text[i]), IndexOf(key[i % |key|])))
    && |res.details| == |text|
    && (forall i :: 0 <= i < |text| ==> TraceEntry(op, text, key, i, out[i], res.details[i]))
  }

  /** A trace entry records the step number, the input and key characters, their indices and the result. */
  ghost predicate TraceEntry(op: Operation, text: string, key: string, i: nat, outChar: char, d: CipherStepDetail)
    requires AllLetters(text) && AllLetters(key) && |key| > 0 && i < |text| && IsLetter(outChar)
  {
    && d.step == i + 1
    && d.originalChar == text[i] && d.originalCharIndex == IndexOf(text[i])
    && d.keyChar == key[i % |key|] && d.keyCharIndex == IndexOf(key[i % |key|])
    && d.processedChar == outChar && d.processedCharIndex == IndexOf(outChar)
    && d.operationType == op
    && d.formula == Formula(op, d.originalCharIndex, d.keyCharIndex, d.processedCharIndex)
  }

  lemma RunMeaning(op: Operation, rawText: string, rawKey: string)
    ensures var r := Run(op, rawText, rawKey);
      && (r.Failure? <==> ExpectedError(rawText, rawKey).Some?)
      && (r.Failure? ==> r.error == ExpectedError(rawText, rawKey).value)
      && (r.Success? ==> Transformed(op, rawText, rawKey, r.value))
  {
    var r := Run(op, rawText, rawKey);
    if r.Success? {
      var text := PreprocessCipher(rawText);
      var key := PreprocessCipher(rawKey);
      PreprocessClosed(rawText);
      PreprocessClosed(rawKey);
      PreprocessAgree(rawText);
      PreprocessAgree(rawKey);
      assert r.value == CipherResult(GroupByFive(Processed(Details(op, text, key))), Details(op, text, key));
      RunOutput(op, text, key);
    }
  }

  lemma RunOutput(op: Operation, text: string, key: string)
    requires AllLetters(text) && AllLetters(key) && |key| > 0
    ensures var ds := Details(op, text, key);
      var out := Processed(ds);
      && RemoveSpaces(GroupByFive(out)) == out
      && AllLetters(out)
      && (forall i :: 0 <= i < |text| ==>
            IndexOf(out[i]) == Combine(op, IndexOf(text[i]), IndexOf(key[i % |key|])))
      && (forall i :: 0 <= i < |text| ==> TraceEntry(op, text, key, i, out[i], ds[i]))
  {
    var ds := Details(op, text, key);
    var out := Processed(ds);
    assert AllLetters(out) by {
      forall i | 0 <= i < |out| ensures IsLetter(out[i]) {
        assert out[i] == Step(op, text, key, i).processedChar;
      }
    }
    assert Plain(out);
    GroupByFiveBlocks(out);
    forall i | 0 <= i < |text|
      ensures IndexOf(out[i]) == Combine(op, IndexOf(text[i]), IndexOf(key[i % |key|]))
      ensures TraceEntry(op, text, key, i, out[i], ds[i])
    {
      assert ds[i] == Step(op, text, key, i);
    }
  }

  /** `encryptVigenere`. */
  function EncryptVigenere(rawPlain: string, rawKey: string): (r: Result<CipherResult, CipherError>)
    ensures r.Failure? <==> ExpectedError(rawPlain, rawKey).Some?
    ensures r.Failure? ==> r.error == ExpectedError(rawPlain, rawKey).value
    ensures r.Success? ==> Transformed(Encrypt, rawPlain, rawKey, r.value)
  {
    RunMeaning(Encrypt, rawPlain, rawKey);
    Run(Encrypt, rawPlain, rawKey)
  }

  /** `decryptVigenere`. */
  function DecryptVigenere(rawCipher: string, rawKey: string): (r: Result<CipherResult, CipherError>)
    ensures r.Failure? <==> ExpectedError(rawCipher, rawKey).Some?
    ensures r.Failure? ==> r.error == ExpectedError(rawCipher, rawKey).value
    ensures r.Success? ==> Transformed(Decrypt, rawCipher, rawKey, r.value)
  {
    RunMeaning(Decrypt, rawCipher, rawKey);
    Run(Decrypt, rawCipher, rawKey)
  }

  /** Decryption undoes encryption letter by letter, and encryption undoes decryption. */
  lemma CombineInverse(p: nat, k: nat)
    requires p < M && k < M
    ensures Combine(Decrypt, Combine(Encrypt, p, k), k) == p
    ensures Combine(Encrypt, Combine(Decrypt, p, k), k) == p
  {
    var e := Combine(Encrypt, p, k);
    assert e == if p + k < M then p + k else p + k - M;
    assert e - k + M == if p + k < M then p + M else p;
    var d := Combine(Decrypt, p, k);
    assert d == if p < k then p - k + M else p - k;
    assert d + k == if p < k then p + M else p;
  }

  /** Grouped letter text is made of letters and spaces only. */
  lemma GroupedLetters(s: string)
    requires AllLetters(s)
    ensures forall i :: 0 <= i < |GroupByFive(s)| ==> GroupByFive(s)[i] == ' ' || IsLetter(GroupByFive(s)[i])
  {
    assert Plain(s);
    GroupByFiveLayout(s);
  }

  /** Normalising text made of letters and spaces deletes the spaces and nothing else. */
  lemma {:induction false} PreprocessLettersAndSpaces(x: string)
    requires forall i :: 0 <= i < |x| ==> x[i] == ' ' || IsLetter(x[i])
    ensures PreprocessCipher(x) == RemoveSpaces(x)
  {
    PreprocessAgree(x);
    if x != [] {
      PreprocessLettersAndSpaces(x[1..]);
      PreprocessAgree(x[1..]);
      assert x == [x[0]] + x[1..];
      PreprocessAppend([x[0]], x[1..]);
      PreprocessChar(x[0]);
    }
  }

  /** Normalising the grouped output of a run gives back its ungrouped letters. */
  lemma RenormaliseGrouped(s: string)
    requires AllLetters(s)
    ensures PreprocessCipher(GroupByFive(s)) == s
  {
    GroupedLetters(s);
    PreprocessLettersAndSpaces(GroupByFive(s));
    assert Plain(s);
    GroupByFiveBlocks(s);
  }

  /**
   * Round trip: decrypting the grouped ciphertext with the same key succeeds and yields the
   * grouped normalised plaintext (the grouping spaces are stripped by decryption's normalisation).
   */
  lemma EncryptDecryptRoundTrip(plain: string, rawKey: string)
    requires EncryptVigenere(plain, rawKey).Success?
    ensures var c := EncryptVigenere(plain, rawKey).value.processedText;
      && DecryptVigenere(c, rawKey).Success?
      && DecryptVigenere(c, rawKey).value.processedText == GroupByFive(PreprocessCipher(plain))
  {
    var enc := EncryptVigenere(plain, rawKey).value;
    var p := PreprocessCipher(plain);
    var key := PreprocessCipher(rawKey);
    var e := RemoveSpaces(enc.processedText);
    RenormaliseGrouped(e);
    assert PreprocessCipher(enc.processedText) == e;
    var dec := DecryptVigenere(enc.processedText, rawKey);
    assert dec.Success?;
    var d := RemoveSpaces(dec.value.processedText);
    assert |d| == |p|;
    forall i | 0 <= i < |d|
      ensures d[i] == p[i]
    {
      var k := IndexOf(key[i % |key|]);
      CombineInverse(IndexOf(p[i]), k);
      IndexBijection(d[i], p[i]);
    }
    assert d == p;
  }

  /** Decryption is the inverse in the other direction too: re-encrypting a decryption restores the ciphertext. */
  lemma DecryptEncryptRoundTrip(cipher: string, rawKey: string)
    requires DecryptVigenere(cipher, rawKey).Success?
    ensures var t := DecryptVigenere(cipher, rawKey).value.processedText;
      && EncryptVigenere(t, rawKey).Success?
      && EncryptVigenere(t, rawKey).value.processedText == GroupByFive(PreprocessCipher(cipher))
  {
    var dec := DecryptVigenere(cipher, rawKey).value;
    var c := PreprocessCipher(cipher);
    var key := PreprocessCipher(rawKey);
    var t := RemoveSpaces(dec.processedText);
    RenormaliseGrouped(t);
    var enc := EncryptVigenere(dec.processedText, rawKey);
    assert enc.Success?;
    var e := RemoveSpaces(enc.value.processedText);
    assert |e| == |c|;
    forall i | 0 <= i < |e|
      ensures e[i] == c[i]
    {
      var k := IndexOf(key[i % |key|]);
      CombineInverse(IndexOf(c[i]), k);
      IndexBijection(e[i], c[i]);
    }
    assert e == c;
  }

  /** A text that normalises to nothing is rejected once the key has passed the charset check. */
  lemma EmptyTextRejected(rawText: string, rawKey: string)
    requires CheckCyrillicAndSpaces(rawKey) && |PreprocessCipher(rawText)| == 0
    ensures EncryptVigenere(rawText, rawKey) == Failure(EmptyText)
    ensures DecryptVigenere(rawText, rawKey) == Failure(EmptyText)
  {
  }

  /** A key that normalises to nothing is rejected when the text has letters. */
  lemma EmptyKeyRejected(rawText: string, rawKey: string)
    requires CheckCyrillicAndSpaces(rawKey)
    requires |PreprocessCipher(rawText)| > 0 && |PreprocessCipher(rawKey)| == 0
    ensures EncryptVigenere(rawText, rawKey) == Failure(EmptyKey)
    ensures DecryptVigenere(rawText, rawKey) == Failure(EmptyKey)
  {
  }

  /** Every key that fails the charset check is rejected with the charset error, whatever the text. */
  lemma KeyCharsetRejected(rawText: string, rawKey: string)
    requires !CheckCyrillicAndSpaces(rawKey)
    ensures EncryptVigenere(rawText, rawKey) == Failure(KeyCharsetError)
    ensures DecryptVigenere(rawText, rawKey) == Failure(KeyCharsetError)
  {
  }

  /** A key holding a Latin letter of either case or a digit fails the charset check whatever the text, even an empty one. */
  lemma LatinKeyRejected(rawText: string, rawKey: string, i: nat)
    requires i < |rawKey|
    requires 'a' <= rawKey[i] <= 'z' || 'A' <= rawKey[i] <= 'Z' || '0' <= rawKey[i] <= '9'
    ensures EncryptVigenere(rawText, rawKey) == Failure(KeyCharsetError)
    ensures DecryptVigenere(rawText, rawKey) == Failure(KeyCharsetError)
  {
    assert !IsCyrillicOrSpace(rawKey[i]);
  }

  /** The three errors on concrete inputs: empty text, empty key, and a Latin key with an empty text. */
  lemma RejectionExamples()
    ensures EncryptVigenere("", "ключ") == Failure(EmptyText)
    ensures EncryptVigenere("привет", "") == Failure(EmptyKey)
    ensures EncryptVigenere("", "key") == Failure(KeyCharsetError)
  {
    EmptyTextExample();
    EmptyKeyExample();
    LatinKeyExample();
  }

  lemma EmptyTextExample()
    ensures EncryptVigenere("", "ключ") == Failure(EmptyText)
  {
    assert CheckCyrillicAndSpaces("ключ");
    assert PreprocessCipher("") == [];
    EmptyTextRejected("", "ключ");
  }

  lemma EmptyKeyExample()
    ensures EncryptVigenere("привет", "") == Failure(EmptyKey)
  {
    assert PreprocessCipher("привет") == "привет" by {
      PreprocessAgree("привет");
      PreprocessOfLetters("привет");
    }
    EmptyKeyRejected("привет", "");
  }

  lemma LatinKeyExample()
    ensures EncryptVigenere("", "key") == Failure(KeyCharsetError)
  {
    LatinKeyRejected("", "key", 0);
  }
}
