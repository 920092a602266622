/**
 * `averageIOC`: the mean index of coincidence of the columns of a cleaned text under a candidate
 * key length (src/vigenere.ts).
 */
module Coincidence {
  import opened Dicts
  import opened Columns
  import opened Reals
  import opened Counting

  /** `parts` after the first `n` characters: character `i` is appended to part `i % keyLen`. */
  function PartsUpTo(s: string, keyLen: int, n: nat): (parts: seq<string>)
    requires keyLen >= 1 && n <= |s|
    ensures |parts| == keyLen
  {
    if n == 0 then seq(keyLen, _ => "")
    else
      var prev := PartsUpTo(s, keyLen, n - 1);
      var j := (n - 1) % keyLen;
      prev[j := prev[j] + [s[n - 1]]]
  }

  /** The scan distributes the characters into exactly the strided columns. */
  lemma {:induction false} PartsAreColumns(s: string, keyLen: int, n: nat)
    requires keyLen >= 1 && n <= |s|
    ensures forall j :: 0 <= j < keyLen ==> PartsUpTo(s, keyLen, n)[j] == Column(s[..n], j, keyLen)
  {
    if n > 0 {
      PartsAreColumns(s, keyLen, n - 1);
      assert s[..n] == s[..n - 1] + [s[n - 1]];
      forall j | 0 <= j < keyLen
        ensures PartsUpTo(s, keyLen, n)[j] == Column(s[..n], j, keyLen)
      {
        ColumnSnoc(s[..n - 1], s[n - 1], j, keyLen);
        InColumn(n - 1, j, keyLen);
      }
    }
  }

  /** `parts`: one string per key position, part `j` holding column `j` of the text. */
  function Parts(s: string, keyLen: int): (parts: seq<string>)
    requires keyLen >= 1
    ensures |parts| == keyLen
    ensures forall j :: 0 <= j < keyLen ==> parts[j] == Column(s, j, keyLen)
  {
    PartsAreColumns(s, keyLen, |s|);
    assert s[..|s|] == s;
    PartsUpTo(s, keyLen, |s|)
  }

  /** `freqMap` after the first `n` characters of `part`. */
  function TallyUpTo(part: string, n: nat): (d: Dict<char, nat>)
    requires n <= |part|
    ensures Valid(d)
  {
    if n == 0 then Empty() else Tallied(TallyUpTo(part, n - 1), part[n - 1])
  }

  /** `freqMap[char] = (freqMap[char] || 0) + 1`. */
  function Tallied(d: Dict<char, nat>, c: char): (r: Dict<char, nat>)
    requires Valid(d)
    ensures Valid(r)
  {
    Put(d, c, Get(d, c, 0) + 1)
  }

  /** The tally holds exactly the characters seen so far, each with its number of occurrences. */
  lemma {:induction false} TallyCounts(part: string, n: nat)
    requires n <= |part|
    ensures forall c :: c in TallyUpTo(part, n).values <==> c in part[..n]
    ensures forall c :: c in TallyUpTo(part, n).values ==> TallyUpTo(part, n).values[c] == Count(part[..n], c)
  {
    if n > 0 {
      TallyCounts(part, n - 1);
      assert part[..n] == part[..n - 1] + [part[n - 1]];
      forall c | c in TallyUpTo(part, n).values
        ensures TallyUpTo(part, n).values[c] == Count(part[..n], c)
      {
        CountSnoc(part[..n - 1], part[n - 1], c);
        if c !in part[..n - 1] {
          NotInCountZero(part[..n - 1], c);
        }
      }
    }
  }

  /** `cnt * (cnt - 1)`: ordered pairs of distinct occurrences of one character. */
  function Pairs(v: nat): nat {
    if v == 0 then 0 else v * (v - 1)
  }

  /** The coincidence numerator: the sum of `cnt * (cnt - 1)` over the tally's values. */
  function SumPairs(vs: seq<nat>): nat {
    if vs == [] then 0 else Pairs(vs[0]) + SumPairs(vs[1..])
  }

  /**
   * The number of ordered pairs of distinct positions of `s` that hold the same character: each new
   * character pairs, in both orders, with every earlier occurrence of itself.
   */
  function EqualPairs(s: string): nat {
    if s == [] then 0
    else EqualPairs(s[..|s| - 1]) + 2 * Count(s[..|s| - 1], s[|s| - 1])
  }

  /** The numerator read key by key: `Pairs` of the count of each listed key, absent keys giving 0. */
  function PairsOver(keys: seq<char>, counts: map<char, nat>): nat {
    if keys == [] then 0
    else (if keys[0] in counts then Pairs(counts[keys[0]]) else 0) + PairsOver(keys[1..], counts)
  }

  /** Summing the looked-up counts of a key list is summing over the keys in order. */
  lemma {:induction false} ValuesPairsOver(vs: seq<nat>, keys: seq<char>, counts: map<char, nat>)
    requires |vs| == |keys|
    requires forall i :: 0 <= i < |keys| ==> keys[i] in counts && vs[i] == counts[keys[i]]
    ensures SumPairs(vs) == PairsOver(keys, counts)
  {
    if keys != [] {
      ValuesPairsOver(vs[1..], keys[1..], counts);
    }
  }

  /** Summing over `Object.values` is summing over the keys in insertion order. */
  lemma DictPairs(d: Dict<char, nat>)
    requires Valid(d)
    ensures SumPairs(Values(d)) == PairsOver(d.order, d.values)
  {
    assert forall i :: 0 <= i < |d.order| ==> d.order[i] in d.values;
    ValuesPairsOver(Values(d), d.order, d.values);
  }

  /** Changing the count of a key that is not listed leaves the numerator alone. */
  lemma {:induction false} PairsOverOther(keys: seq<char>, counts: map<char, nat>, c: char, w: nat)
    requires c !in keys
    ensures PairsOver(keys, counts[c := w]) == PairsOver(keys, counts)
  {
    if keys != [] {
      assert c !in keys[1..];
      PairsOverOther(keys[1..], counts, c, w);
    }
  }

  /** Changing the count of a key listed once replaces its term. */
  lemma {:induction false} PairsOverUpdate(keys: seq<char>, counts: map<char, nat>, c: char, w: nat)
    requires c in counts && c in keys
    requires forall i, j :: 0 <= i < j < |keys| ==> keys[i] != keys[j]
    ensures PairsOver(keys, counts[c := w]) == PairsOver(keys, counts) - Pairs(counts[c]) + Pairs(w)
  {
    if keys[0] == c {
      assert c !in keys[1..] by {
        forall j | 0 <= j < |keys[1..]| ensures keys[1..][j] != c {
          assert keys[1..][j] == keys[j + 1];
        }
      }
      PairsOverOther(keys[1..], counts, c, w);
    } else {
      assert c in keys[1..] by {
        var j :| 0 <= j < |keys| && keys[j] == c;
        assert keys[1..][j - 1] == c;
      }
      PairsOverUpdate(keys[1..], counts, c, w);
    }
  }

  /** Listing one more key adds its term. */
  lemma {:induction false} PairsOverSnoc(keys: seq<char>, counts: map<char, nat>, c: char)
    ensures PairsOver(keys + [c], counts)
      == PairsOver(keys, counts) + (if c in counts then Pairs(counts[c]) else 0)
  {
    if keys != [] {
      assert (keys + [c])[1..] == keys[1..] + [c];
      PairsOverSnoc(keys[1..], counts, c);
    } else {
      assert [c][1..] == [];
    }
  }

  /** Pairs of an incremented count grow by twice the old count. */
  lemma PairsStep(v: nat)
    ensures Pairs(v + 1) == Pairs(v) + 2 * v
  {
    assert (v + 1) * v == v * v + v;
    if v > 0 {
      assert v * (v - 1) == v * v - v;
    }
  }

  /** Incrementing one count of a tally adds twice the old count to the numerator. */
  lemma PutPairs(d: Dict<char, nat>, c: char)
    requires Valid(d)
    ensures var d' := Put(d, c, Get(d, c, 0) + 1);
      PairsOver(d'.order, d'.values) == PairsOver(d.order, d.values) + 2 * Get(d, c, 0)
  {
    var v := Get(d, c, 0);
    var d' := Put(d, c, v + 1);
    PairsStep(v);
    if c in d.values {
      var i :| 0 <= i < |d.order| && d.order[i] == c;
      PairsOverUpdate(d.order, d.values, c, v + 1);
    } else {
      assert c !in d.order by {
        assert forall i :: 0 <= i < |d.order| ==> d.order[i] in d.values;
      }
      PairsOverOther(d.order, d.values, c, v + 1);
      PairsOverSnoc(d.order, d'.values, c);
    }
  }

  /** The tally's numerator counts the equal-character pairs of the prefix. */
  lemma {:induction false} TallyPairs(part: string, n: nat)
    requires n <= |part|
    ensures var d := TallyUpTo(part, n); PairsOver(d.order, d.values) == EqualPairs(part[..n])
  {
    if n > 0 {
      TallyPairs(part, n - 1);
      TallyStep(part, n);
      EqualPairsSnoc(part, n);
    }
  }

  /** One more character adds twice its earlier occurrences to the tally's numerator. */
  lemma TallyStep(part: string, n: nat)
    requires 0 < n <= |part|
    ensures var d := TallyUpTo(part, n); var d0 := TallyUpTo(part, n - 1);
      PairsOver(d.order, d.values) == PairsOver(d0.order, d0.values) + 2 * Count(part[..n - 1], part[n - 1])
  {
    var d := TallyUpTo(part, n - 1);
    var c := part[n - 1];
    var e := Put(d, c, Get(d, c, 0) + 1);
    assert Get(d, c, 0) == Count(part[..n - 1], c) by {
      TallyGet(part, n - 1, c);
    }
    assert TallyUpTo(part, n) == e by {
      TallyUnfold(part, n);
    }
    assert PairsOver(e.order, e.values) == PairsOver(d.order, d.values) + 2 * Get(d, c, 0) by {
      PutPairs(d, c);
    }
  }

  lemma TallyUnfold(part: string, n: nat)
    requires 0 < n <= |part|
    ensures var d := TallyUpTo(part, n - 1); TallyUpTo(part, n) == Put(d, part[n - 1], Get(d, part[n - 1], 0) + 1)
  {
    var d := TallyUpTo(part, n - 1);
    var c := part[n - 1];
    assert TallyUpTo(part, n) == Tallied(d, c);
  }

  /** Looking a character up in the tally, with 0 for an absent one, gives its number of occurrences. */
  lemma TallyGet(part: string, n: nat, c: char)
    requires n <= |part|
    ensures Get(TallyUpTo(part, n), c, 0) == Count(part[..n], c)
  {
    TallyCounts(part, n);
    if c !in TallyUpTo(part, n).values {
      NotInCountZero(part[..n], c);
    }
  }

  lemma EqualPairsSnoc(part: string, n: nat)
    requires 0 < n <= |part|
    ensures EqualPairs(part[..n]) == EqualPairs(part[..n - 1]) + 2 * Count(part[..n - 1], part[n - 1])
  {
    var s := part[..n];
    assert s[..n - 1] == part[..n - 1] && s[n - 1] == part[n - 1];
  }

  /** No prefix has more equal pairs than ordered pairs of positions. */
  lemma {:induction false} EqualPairsBound(s: string)
    ensures EqualPairs(s) <= |s| * (|s| - 1)
  {
    if s != [] {
      var n := |s| - 1;
      EqualPairsBound(s[..n]);
      CountBound(s[..n], s[n]);
      assert n * (n - 1) + 2 * n == (n + 1) * n;
    }
  }

  /**
   * The index of coincidence of one part: 0 below two characters, otherwise the share of ordered
   * pairs of distinct positions holding equal characters.
   */
  function ColumnIOC(part: string): (r: real)
    ensures 0.0 <= r <= 1.0
    ensures |part| < 2 ==> r == 0.0
    ensures |part| >= 2 ==> r == EqualPairs(part) as real / (|part| * (|part| - 1)) as real
  {
    var freq := TallyUpTo(part, |part|);
    var len := |part|;
    if len < 2 then 0.0
    else
      TallyPairs(part, len);
      DictPairs(freq);
      assert part[..len] == part;
      EqualPairsBound(part);
      RatioBounds(EqualPairs(part), len * (len - 1));
      SumPairs(Values(freq)) as real / (len * (len - 1)) as real
  }

  /** `iocs.reduce((a, b) => a + b, 0)`. */
  function SumIOC(parts: seq<string>): (total: real)
    ensures 0.0 <= total <= |parts| as real
  {
    if parts == [] then 0.0
    else SumIOC(parts[..|parts| - 1]) + ColumnIOC(parts[|parts| - 1])
  }

  /** The sum of the indices of coincidence of the first `j` strided columns. */
  function ColumnSum(s: string, keyLen: int, j: nat): real
    requires keyLen >= 1
  {
    if j == 0 then 0.0 else ColumnSum(s, keyLen, j - 1) + ColumnIOC(Column(s, j - 1, keyLen))
  }

  lemma {:induction false} SumIOCOfColumns(s: string, keyLen: int, parts: seq<string>, j: nat)
    requires keyLen >= 1 && j <= |parts| == keyLen
    requires forall i :: 0 <= i < keyLen ==> parts[i] == Column(s, i, keyLen)
    ensures SumIOC(parts[..j]) == ColumnSum(s, keyLen, j)
  {
    if j > 0 {
      SumIOCOfColumns(s, keyLen, parts, j - 1);
      assert parts[..j][..j - 1] == parts[..j - 1];
    }
  }

  /**
   * `averageIOC(clean, keyLen)`: the mean over the `keyLen` strided columns of their indices of
   * coincidence, a value in [0, 1].
   */
  function AverageIOC(clean: string, keyLen: int): (r: real)
    requires keyLen >= 1
    ensures 0.0 <= r <= 1.0
    ensures r == ColumnSum(clean, keyLen, keyLen) / keyLen as real
  {
    var parts := Parts(clean, keyLen);
    SumIOCOfColumns(clean, keyLen, parts, keyLen);
    assert parts[..keyLen] == parts;
    RealRatioBounds(SumIOC(parts), keyLen as real);
    SumIOC(parts) / keyLen as real
  }
}
