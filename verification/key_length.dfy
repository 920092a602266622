/** `findKeyLength`: scoring candidate key lengths by the distances they divide (src/vigenere.ts). */
module KeyLength {
  import opened Dicts
  import opened Reals

  /** The lists concatenated in order. */
  function Flatten(xss: seq<seq<int>>): seq<int> {
    if xss == [] then [] else xss[0] + Flatten(xss[1..])
  }

  /** `allDistances`: every distance list of the repeat map, in key order. */
  function AllDistances(sequences: Dict<string, seq<int>>): seq<int>
    requires Valid(sequences)
  {
    Flatten(Values(sequences))
  }

  /** `countDiv`: how many distances `d` satisfy `d % candidate === 0`. */
  function CountDivisible(ds: seq<int>, c: int): (n: nat)
    requires c >= 1
    ensures n <= |ds|
  {
    if ds == [] then 0 else (if ds[0] % c == 0 then 1 else 0) + CountDivisible(ds[1..], c)
  }

  /** `scores[candidate]`: the fraction of the distances the candidate divides. */
  function Score(ds: seq<int>, c: int): (s: real)
    requires |ds| > 0 && c >= 1
    ensures 0.0 <= s <= 1.0
  {
    RatioBounds(CountDivisible(ds, c), |ds|);
    CountDivisible(ds, c) as real / |ds| as real
  }

  /** `Object.entries(scores)`: integer keys enumerate ascending, so candidates `lo..hi` in order. */
  function ScoreTable(ds: seq<int>, lo: int, hi: int): (t: seq<(int, real)>)
    requires |ds| > 0 && lo >= 1
    ensures forall i :: 0 <= i < |t| ==> t[i] == (lo + i, Score(ds, lo + i))
    ensures |t| == if hi < lo then 0 else hi - lo + 1
  {
    if hi < lo then [] else seq(hi - lo + 1, i requires 0 <= i < hi - lo + 1 => (lo + i, Score(ds, lo + i)))
  }

  /** `.filter(([, ratio]) => ratio >= threshold)`. */
  function FilterAtLeast(t: seq<(int, real)>, threshold: real): (f: seq<(int, real)>)
    ensures forall e :: e in f <==> e in t && e.1 >= threshold
    ensures Increasing(t) ==> Increasing(f)
  {
    if t == [] then []
    else
      var rest := FilterAtLeast(t[1..], threshold);
      assert forall e :: e in t ==> e == t[0] || e in t[1..];
      if t[0].1 >= threshold then [t[0]] + rest else rest
  }

  /** Candidates strictly ascending. */
  predicate Increasing(t: seq<(int, real)>) {
    forall i, j :: 0 <= i < j < |t| ==> t[i].0 < t[j].0
  }

  /** The order the stable descending sort produces: higher score first, equal scores by ascending candidate. */
  predicate Precedes(a: (int, real), b: (int, real)) {
    a.1 > b.1 || (a.1 == b.1 && a.0 < b.0)
  }

  predicate Ranked(s: seq<(int, real)>) {
    forall i, j :: 0 <= i < j < |s| ==> Precedes(s[i], s[j])
  }

  /** Places `x` after every entry scoring at least as much: a later equal entry stays behind earlier ones. */
  function Insert(x: (int, real), s: seq<(int, real)>): (r: seq<(int, real)>)
    ensures |r| == |s| + 1
    ensures forall e :: e in r <==> e == x || e in s
  {
    if s == [] then [x]
    else if s[0].1 < x.1 then [x] + s
    else
      var rest := Insert(x, s[1..]);
      assert forall e :: e in s ==> e == s[0] || e in s[1..];
      [s[0]] + rest
  }

  lemma {:induction false} InsertRanked(x: (int, real), s: seq<(int, real)>)
    requires Ranked(s)
    requires forall e :: e in s ==> e.0 < x.0
    ensures Ranked(Insert(x, s))
  {
    if s != [] && s[0].1 >= x.1 {
      InsertRanked(x, s[1..]);
      var r := Insert(x, s);
      var rest := Insert(x, s[1..]);
      assert r == [s[0]] + rest;
      forall j | 0 < j < |r| ensures Precedes(r[0], r[j]) {
        assert r[j] in rest;
        if r[j] != x {
          assert r[j] in s[1..];
          var k :| 0 <= k < |s[1..]| && s[1..][k] == r[j];
          assert Precedes(s[0], s[k + 1]);
        }
      }
    }
  }

  /** `.sort((a, b) => b[1] - a[1])`, a stable sort, as insertion of each entry in turn. */
  function SortByScore(t: seq<(int, real)>): (r: seq<(int, real)>)
    ensures forall e :: e in r <==> e in t
  {
    if t == [] then []
    else
      var init := t[..|t| - 1];
      assert forall e :: e in t <==> e in init || e == t[|t| - 1] by {
        assert t == init + [t[|t| - 1]];
      }
      Insert(t[|t| - 1], SortByScore(init))
  }

  lemma {:induction false} SortByScoreRanked(t: seq<(int, real)>)
    requires Increasing(t)
    ensures Ranked(SortByScore(t))
  {
    if t != [] {
      var init := t[..|t| - 1];
      var x := t[|t| - 1];
      SortByScoreRanked(init);
      forall e | e in SortByScore(init) ensures e.0 < x.0 {
        var k :| 0 <= k < |init| && init[k] == e;
      }
      InsertRanked(x, SortByScore(init));
    }
  }

  /** The candidate lengths of a ranked list. */
  function Candidates(s: seq<(int, real)>): (r: seq<int>)
    ensures |r| == |s| && forall i :: 0 <= i < |s| ==> r[i] == s[i].0
  {
    seq(|s|, i requires 0 <= i < |s| => s[i].0)
  }

  /** The score table filtered by the threshold and sorted, as the chain of array operations builds it. */
  function Ranking(all: seq<int>, maxLen: int, threshold: real): seq<(int, real)>
    requires |all| > 0
  {
    SortByScore(FilterAtLeast(ScoreTable(all, 2, maxLen), threshold))
  }

  /** The ranked entries are exactly the candidates reaching the threshold, each with its score. */
  lemma RankingMembers(all: seq<int>, maxLen: int, threshold: real)
    requires |all| > 0
    ensures forall e :: e in Ranking(all, maxLen, threshold) ==> 2 <= e.0 <= maxLen && e.1 == Score(all, e.0)
    ensures forall c :: 2 <= c <= maxLen && Score(all, c) >= threshold ==> (c, Score(all, c)) in Ranking(all, maxLen, threshold)
    ensures forall e :: e in Ranking(all, maxLen, threshold) ==> e.1 >= threshold
    ensures Ranked(Ranking(all, maxLen, threshold))
  {
    var table := ScoreTable(all, 2, maxLen);
    var filtered := FilterAtLeast(table, threshold);
    SortByScoreRanked(filtered);
    forall e | e in Ranking(all, maxLen, threshold) ensures 2 <= e.0 <= maxLen && e.1 == Score(all, e.0) {
      var k :| 0 <= k < |table| && table[k] == e;
    }
    forall c | 2 <= c <= maxLen && Score(all, c) >= threshold
      ensures (c, Score(all, c)) in Ranking(all, maxLen, threshold)
    {
      assert table[c - 2] == (c, Score(all, c));
    }
  }

  /**
   * `findKeyLength(sequences, maxLen, threshold)`: no distances give no candidates; otherwise the
   * result lists each `c` in `[2, maxLen]` whose score reaches the threshold exactly once, by
   * non-increasing score and, among equal scores, by ascending `c`.
   */
  function FindKeyLength(sequences: Dict<string, seq<int>>, maxLen: int, threshold: real): (r: seq<int>)
    requires Valid(sequences)
    ensures |AllDistances(sequences)| == 0 ==> r == []
    ensures |AllDistances(sequences)| > 0 ==>
      forall c :: c in r <==> 2 <= c <= maxLen && Score(AllDistances(sequences), c) >= threshold
    ensures forall i, j :: 0 <= i < j < |r| ==> r[i] != r[j]
    ensures forall i :: 0 <= i < |r| ==> 2 <= r[i] <= maxLen
    ensures |AllDistances(sequences)| > 0 ==>
      var all := AllDistances(sequences);
      forall i, j :: 0 <= i < j < |r| ==>
        || Score(all, r[i]) > Score(all, r[j])
        || (Score(all, r[i]) == Score(all, r[j]) && r[i] < r[j])
  {
    var all := AllDistances(sequences);
    if |all| == 0 then []
    else
      var ranking := Ranking(all, maxLen, threshold);
      RankingMembers(all, maxLen, threshold);
      CandidatesOfRanking(all, ranking, maxLen, threshold);
      Candidates(ranking)
  }

  lemma CandidatesOfRanking(all: seq<int>, ranking: seq<(int, real)>, maxLen: int, threshold: real)
    requires |all| > 0
    requires forall e :: e in ranking ==> 2 <= e.0 <= maxLen && e.1 == Score(all, e.0) && e.1 >= threshold
    requires forall c :: 2 <= c <= maxLen && Score(all, c) >= threshold ==> (c, Score(all, c)) in ranking
    requires Ranked(ranking)
    ensures var r := Candidates(ranking);
      && (forall c :: c in r <==> 2 <= c <= maxLen && Score(all, c) >= threshold)
      && (forall i :: 0 <= i < |r| ==> 2 <= r[i] <= maxLen)
      && (forall i, j :: 0 <= i < j < |r| ==>
           || Score(all, r[i]) > Score(all, r[j])
           || (Score(all, r[i]) == Score(all, r[j]) && r[i] < r[j]))
      && (forall i, j :: 0 <= i < j < |r| ==> r[i] != r[j])
  {
    var r := Candidates(ranking);
    assert forall i :: 0 <= i < |ranking| ==> ranking[i] in ranking;
    forall c ensures c in r <==> 2 <= c <= maxLen && Score(all, c) >= threshold {
      if c in r {
        var k :| 0 <= k < |r| && r[k] == c;
        assert ranking[k] in ranking;
      }
      if 2 <= c <= maxLen && Score(all, c) >= threshold {
        var k :| 0 <= k < |ranking| && ranking[k] == (c, Score(all, c));
        assert r[k] == c;
      }
    }
    forall i, j | 0 <= i < j < |r|
      ensures || Score(all, r[i]) > Score(all, r[j])
              || (Score(all, r[i]) == Score(all, r[j]) && r[i] < r[j])
    {
      assert Precedes(ranking[i], ranking[j]);
    }
  }

  /** When every distance is a multiple of 6, candidate 6 scores 1 and is kept at threshold 0.5. */
  lemma MultiplesOfSix(sequences: Dict<string, seq<int>>)
    requires Valid(sequences) && |AllDistances(sequences)| > 0
    requires forall k :: 0 <= k < |AllDistances(sequences)| ==> AllDistances(sequences)[k] % 6 == 0
    ensures Score(AllDistances(sequences), 6) == 1.0
    ensures 6 in FindKeyLength(sequences, 20, 0.5)
  {
    var all := AllDistances(sequences);
    AllDivisible(all, 6);
    RatioSelf(|all|);
  }

  lemma {:induction false} AllDivisible(ds: seq<int>, c: int)
    requires c >= 1 && forall k :: 0 <= k < |ds| ==> ds[k] % c == 0
    ensures CountDivisible(ds, c) == |ds|
  {
    if ds != [] {
      AllDivisible(ds[1..], c);
    }
  }
}
