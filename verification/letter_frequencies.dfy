/** `calculateCharacterFrequencies`: relative letter frequencies of a text (src/vigenere-cipher.ts). */
module LetterFrequencies {
  import opened Alphabet
  import opened Normalize
  import opened Reals
  import opened Counting

  /** The letter-count table `counts`, one count per ALPHABET letter, filled by one scan of the text. */
  function CountTable(s: string): (counts: map<char, nat>)
    ensures counts.Keys == set c | c in ALPHABET
  {
    if s == [] then map c | c in ALPHABET :: 0
    else
      var prev := CountTable(s[..|s| - 1]);
      var ch := s[|s| - 1];
      if ch in ALPHABET then prev[ch := prev[ch] + 1] else prev
  }

  /** The scan counts each letter's occurrences. */
  lemma {:induction false} CountTableCounts(s: string)
    ensures forall c :: c in ALPHABET ==> CountTable(s)[c] == Count(s, c)
  {
    if s != [] {
      var init := s[..|s| - 1];
      CountTableCounts(init);
      assert s == init + [s[|s| - 1]];
      forall c | c in ALPHABET ensures CountTable(s)[c] == Count(s, c) {
        CountSnoc(init, s[|s| - 1], c);
      }
    }
  }

  /**
   * `calculateCharacterFrequencies`: one value for each of the 32 letters; all zero when the
   * normalised text is empty, otherwise the letter's count divided by the normalised length.
   */
  function CalculateCharacterFrequencies(text: string): (r: map<char, real>)
    ensures r.Keys == set c | c in ALPHABET
    ensures forall c :: c in r ==> 0.0 <= r[c] <= 1.0
    ensures |PreprocessCipher(text)| == 0 ==> forall c :: c in r ==> r[c] == 0.0
    ensures |PreprocessCipher(text)| > 0 ==>
      forall c :: c in r ==> r[c] == Count(PreprocessCipher(text), c) as real / |PreprocessCipher(text)| as real
  {
    var clean := PreprocessCipher(text);
    var n := |clean|;
    if n == 0 then map c | c in ALPHABET :: 0.0
    else
      var counts := CountTable(clean);
      CountTableCounts(clean);
      var r := map c | c in ALPHABET :: counts[c] as real / n as real;
      assert forall c :: c in r ==> 0.0 <= r[c] <= 1.0 by {
        forall c | c in r ensures 0.0 <= r[c] <= 1.0 {
          CountBound(clean, c);
          RatioBounds(counts[c], n);
        }
      }
      r
  }

  /** The sum of the counts of `letters` in `s`. */
  function SumCounts(letters: string, s: string): nat {
    if letters == [] then 0 else Count(s, letters[0]) + SumCounts(letters[1..], s)
  }

  /** The sum of the values of `letters` in `m`. */
  function SumValues(letters: string, m: map<char, real>): real
    requires forall i :: 0 <= i < |letters| ==> letters[i] in m
  {
    if letters == [] then 0.0 else m[letters[0]] + SumValues(letters[1..], m)
  }

  lemma {:induction false} SumCountsCons(letters: string, x: char, s: string)
    requires forall i, j :: 0 <= i < j < |letters| ==> letters[i] != letters[j]
    ensures SumCounts(letters, [x] + s) == SumCounts(letters, s) + (if x in letters then 1 else 0)
  {
    if letters != [] {
      assert ([x] + s)[1..] == s;
      SumCountsCons(letters[1..], x, s);
      if x == letters[0] {
        assert x !in letters[1..];
      }
    }
  }

  predicate Distinct(letters: string) {
    forall i, j :: 0 <= i < j < |letters| ==> letters[i] != letters[j]
  }

  /** Over text drawn from distinct `letters`, the counts of the letters add up to the length. */
  lemma {:induction false} CountsSumToLength(letters: string, s: string)
    requires Distinct(letters)
    requires forall i :: 0 <= i < |s| ==> s[i] in letters
    ensures SumCounts(letters, s) == |s|
  {
    if s == [] {
      ZeroCounts(letters);
    } else {
      assert s == [s[0]] + s[1..];
      CountsSumToLength(letters, s[1..]);
      SumCountsCons(letters, s[0], s[1..]);
    }
  }

  lemma {:induction false} ZeroCounts(letters: string)
    ensures SumCounts(letters, []) == 0
  {
    if letters != [] {
      ZeroCounts(letters[1..]);
    }
  }

  lemma {:induction false} SumValuesScaled(letters: string, s: string, m: map<char, real>, n: nat)
    requires n > 0
    requires forall c :: c in letters ==> c in m && m[c] == Count(s, c) as real / n as real
    ensures forall i :: 0 <= i < |letters| ==> letters[i] in m
    ensures SumValues(letters, m) == SumCounts(letters, s) as real / n as real
  {
    assert forall i :: 0 <= i < |letters| ==> letters[i] in letters;
    if letters != [] {
      assert forall c :: c in letters[1..] ==> c in letters;
      SumValuesScaled(letters[1..], s, m, n);
      var a := Count(s, letters[0]) as real;
      var b := SumCounts(letters[1..], s) as real;
      RatioAdd(a, b, n as real);
      assert SumValues(letters, m) == a / n as real + SumValues(letters[1..], m);
    }
  }

  /** Over non-empty normalised text the 32 frequencies sum to exactly 1. */
  lemma FrequenciesSumToOne(text: string)
    requires |PreprocessCipher(text)| > 0
    ensures var r := CalculateCharacterFrequencies(text);
      (forall i :: 0 <= i < |ALPHABET| ==> ALPHABET[i] in r) && SumValues(ALPHABET, r) == 1.0
  {
    var clean := PreprocessCipher(text);
    var r := CalculateCharacterFrequencies(text);
    PreprocessAgree(text);
    PreprocessClosed(text);
    RatiosSumToOne(clean, r);
  }

  lemma RatiosSumToOne(clean: string, r: map<char, real>)
    requires AllLetters(clean) && |clean| > 0
    requires forall c :: c in ALPHABET ==> c in r && r[c] == Count(clean, c) as real / |clean| as real
    ensures (forall i :: 0 <= i < |ALPHABET| ==> ALPHABET[i] in r) && SumValues(ALPHABET, r) == 1.0
  {
    AlphabetLettersDistinct();
    RatiosSumToOneOver(ALPHABET, clean, r);
  }

  lemma RatiosSumToOneOver(letters: string, clean: string, r: map<char, real>)
    requires Distinct(letters) && |clean| > 0
    requires forall i :: 0 <= i < |clean| ==> clean[i] in letters
    requires forall c :: c in letters ==> c in r && r[c] == Count(clean, c) as real / |clean| as real
    ensures (forall i :: 0 <= i < |letters| ==> letters[i] in r) && SumValues(letters, r) == 1.0
  {
    var n := |clean|;
    CountsSumToLength(letters, clean);
    SumValuesScaled(letters, clean, r, n);
    var total := SumCounts(letters, clean);
    assert total == n;
    assert SumValues(letters, r) == total as real / n as real;
    RatioSelf(n);
  }
}
