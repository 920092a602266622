/** The reference Russian letter frequencies `frequency` (src/vigenere.ts). */
module FrequencyTable {
  import opened Alphabet

  /** `rawFreq`: the percentage of each ALPHABET letter in Russian text, in alphabet order. */
  const RAW_FREQ: seq<real> := [
    6.2, 1.4, 3.8, 1.3, 2.5, 7.2,
    0.7, 1.6, 6.2, 1.0, 2.8, 3.5,
    2.6, 5.3, 9.0, 2.3, 4.0, 4.5,
    5.3, 2.1, 0.2, 0.9, 0.3, 1.2,
    0.6, 0.3, 1.4, 1.6, 1.4, 0.3,
    0.6, 1.8]

  /** `xs.reduce((a, b) => a + b, 0)`, in exact arithmetic. */
  function Sum(xs: seq<real>): real {
    if xs == [] then 0.0 else Sum(xs[..|xs| - 1]) + xs[|xs| - 1]
  }

  /** `sumRaw`. */
  const SUM_RAW: real := Sum(RAW_FREQ)

  /** `frequency[ALPHABET[p]]`: the raw percentage scaled by the total. */
  function Frequency(p: int): (f: real)
    requires 0 <= p < M
    ensures f > 0.0
  {
    SumRawValue();
    RAW_FREQ[p] / SUM_RAW
  }

  /** The raw percentages total 83.9, and each is positive. */
  lemma SumRawValue()
    ensures |RAW_FREQ| == M
    ensures SUM_RAW == 83.9
    ensures forall p :: 0 <= p < M ==> RAW_FREQ[p] > 0.0
  {
    RawShape();
    RawTotal();
  }

  lemma RawShape()
    ensures |RAW_FREQ| == M
    ensures forall p :: 0 <= p < M ==> RAW_FREQ[p] > 0.0
  {
  }

  lemma RawTotal()
    ensures SUM_RAW == 83.9
  {
    RawPrefix8();
    RawPrefix16();
    RawPrefix24();
    RawPrefix32();
    assert RAW_FREQ[..32] == RAW_FREQ;
  }

  /** Extending a prefix by one element adds that element to the running total. */
  lemma SumSnoc(xs: seq<real>, k: nat)
    requires k < |xs|
    ensures Sum(xs[..k + 1]) == Sum(xs[..k]) + xs[k]
  {
    assert xs[..k + 1][..k] == xs[..k];
  }

  lemma RawPrefix8()
    ensures Sum(RAW_FREQ[..8]) == 24.7
  {
    assert RAW_FREQ[..0] == [];
    SumSnoc(RAW_FREQ, 0);
    SumSnoc(RAW_FREQ, 1);
    SumSnoc(RAW_FREQ, 2);
    SumSnoc(RAW_FREQ, 3);
    SumSnoc(RAW_FREQ, 4);
    SumSnoc(RAW_FREQ, 5);
    SumSnoc(RAW_FREQ, 6);
    SumSnoc(RAW_FREQ, 7);
  }

  lemma RawPrefix16()
    requires Sum(RAW_FREQ[..8]) == 24.7
    ensures Sum(RAW_FREQ[..16]) == 57.4
  {
    SumSnoc(RAW_FREQ, 8);
    SumSnoc(RAW_FREQ, 9);
    SumSnoc(RAW_FREQ, 10);
    SumSnoc(RAW_FREQ, 11);
    SumSnoc(RAW_FREQ, 12);
    SumSnoc(RAW_FREQ, 13);
    SumSnoc(RAW_FREQ, 14);
    SumSnoc(RAW_FREQ, 15);
  }

  lemma RawPrefix24()
    requires Sum(RAW_FREQ[..16]) == 57.4
    ensures Sum(RAW_FREQ[..24]) == 75.9
  {
    SumSnoc(RAW_FREQ, 16);
    SumSnoc(RAW_FREQ, 17);
    SumSnoc(RAW_FREQ, 18);
    SumSnoc(RAW_FREQ, 19);
    SumSnoc(RAW_FREQ, 20);
    SumSnoc(RAW_FREQ, 21);
    SumSnoc(RAW_FREQ, 22);
    SumSnoc(RAW_FREQ, 23);
  }

  lemma RawPrefix32()
    requires Sum(RAW_FREQ[..24]) == 75.9
    ensures Sum(RAW_FREQ[..32]) == 83.9
  {
    SumSnoc(RAW_FREQ, 24);
    SumSnoc(RAW_FREQ, 25);
    SumSnoc(RAW_FREQ, 26);
    SumSnoc(RAW_FREQ, 27);
    SumSnoc(RAW_FREQ, 28);
    SumSnoc(RAW_FREQ, 29);
    SumSnoc(RAW_FREQ, 30);
    SumSnoc(RAW_FREQ, 31);
  }

  /** Each term of a sum divided by a common positive total. */
  lemma {:induction false} SumScaled(xs: seq<real>, t: real)
    requires t > 0.0
    ensures Sum(seq(|xs|, i requires 0 <= i < |xs| => xs[i] / t)) == Sum(xs) / t
  {
    var ys := seq(|xs|, i requires 0 <= i < |xs| => xs[i] / t);
    if xs != [] {
      var n := |xs| - 1;
      SumScaled(xs[..n], t);
      assert ys[..n] == seq(n, i requires 0 <= i < n => xs[..n][i] / t);
      assert Sum(ys) == Sum(xs[..n]) / t + xs[n] / t;
    }
  }

  /** The 32 frequencies are positive and sum to exactly 1. */
  lemma FrequenciesSumToOne()
    ensures forall p :: 0 <= p < M ==> Frequency(p) > 0.0
    ensures Sum(seq(M, p requires 0 <= p < M => Frequency(p))) == 1.0
  {
    SumRawValue();
    SumScaled(RAW_FREQ, SUM_RAW);
    assert seq(M, p requires 0 <= p < M => Frequency(p))
      == seq(|RAW_FREQ|, i requires 0 <= i < |RAW_FREQ| => RAW_FREQ[i] / SUM_RAW);
  }

  /** `frequency` is the integer tenths `rawFreq * 10` scaled by 1/839, so it ranks letters as the tenths do. */
  lemma FrequencyIsTenths(p: int, q: int)
    requires 0 <= p < M && 0 <= q < M
    ensures Frequency(p) == (RAW_FREQ[p] * 10.0) / 839.0
    ensures Frequency(p) < Frequency(q) <==> RAW_FREQ[p] < RAW_FREQ[q]
  {
    SumRawValue();
  }
}
