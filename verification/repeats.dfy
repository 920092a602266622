/** `findRepeats`: the Kasiski examination's search for repeated n-grams (src/vigenere.ts). */
module Repeats {
  import opened Wrappers
  import opened Dicts

  /** `validateText` rejects the empty message. */
  datatype RepeatError = EmptyText

  /** `message.substr(i, len)` at a scanned position: empty when `len <= 0`. */
  function Gram(msg: string, i: int, len: int): (g: string)
    requires 0 <= i && (len <= 0 || i + len <= |msg|)
    ensures len > 0 ==> |g| == len
  {
    if len <= 0 then "" else msg[i..i + len]
  }

  /** Where the scan of length `len` may start: `0 <= i <= n - len`, with `upto` positions scanned. */
  predicate Scannable(msg: string, len: int, upto: int) {
    0 <= upto <= |msg| - len + 1
  }

  /** The positions below `upto` at which `g` starts, ascending. */
  function Occurrences(msg: string, len: int, g: string, upto: int): seq<int>
    requires Scannable(msg, len, upto)
    decreases upto
  {
    if upto == 0 then []
    else Occurrences(msg, len, g, upto - 1) + (if Gram(msg, upto - 1, len) == g then [upto - 1] else [])
  }

  lemma {:induction false} OccurrencesMembers(msg: string, len: int, g: string, upto: int)
    requires Scannable(msg, len, upto)
    ensures forall i :: i in Occurrences(msg, len, g, upto) <==> 0 <= i < upto && Gram(msg, i, len) == g
    decreases upto
  {
    if upto > 0 {
      OccurrencesMembers(msg, len, g, upto - 1);
      var prev := Occurrences(msg, len, g, upto - 1);
      var last := if Gram(msg, upto - 1, len) == g then [upto - 1] else [];
      assert Occurrences(msg, len, g, upto) == prev + last;
      forall i
        ensures i in Occurrences(msg, len, g, upto) <==> 0 <= i < upto && Gram(msg, i, len) == g
      {
        assert i in prev + last <==> i in prev || i in last;
        assert i in prev <==> 0 <= i < upto - 1 && Gram(msg, i, len) == g;
      }
    }
  }

  lemma {:induction false} OccurrencesAscending(msg: string, len: int, g: string, upto: int)
    requires Scannable(msg, len, upto)
    ensures forall i :: i in Occurrences(msg, len, g, upto) ==> 0 <= i < upto
    ensures forall a, b :: 0 <= a < b < |Occurrences(msg, len, g, upto)| ==>
      Occurrences(msg, len, g, upto)[a] < Occurrences(msg, len, g, upto)[b]
    decreases upto
  {
    if upto > 0 {
      OccurrencesAscending(msg, len, g, upto - 1);
      var prev := Occurrences(msg, len, g, upto - 1);
      var last := if Gram(msg, upto - 1, len) == g then [upto - 1] else [];
      var cur := prev + last;
      assert Occurrences(msg, len, g, upto) == cur;
      forall i | i in cur ensures 0 <= i < upto {
        assert i in prev || i in last;
      }
      forall a, b | 0 <= a < b < |cur| ensures cur[a] < cur[b] {
        assert cur[a] == prev[a];
        assert prev[a] in prev;
        if b < |prev| {
          assert cur[b] == prev[b];
        }
      }
    }
  }

  /** `positionsForGram` after scanning the first `upto` positions. */
  function PositionsForGram(msg: string, len: int, upto: int): (d: Dict<string, seq<int>>)
    requires Scannable(msg, len, upto)
    ensures Valid(d)
    decreases upto
  {
    if upto == 0 then Empty()
    else
      var prev := PositionsForGram(msg, len, upto - 1);
      var g := Gram(msg, upto - 1, len);
      Put(prev, g, Get(prev, g, []) + [upto - 1])
  }

  /** The grouping lists, for each gram seen, exactly the positions where it occurs. */
  lemma {:induction false} PositionsForGramAreOccurrences(msg: string, len: int, upto: int)
    requires Scannable(msg, len, upto)
    ensures var d := PositionsForGram(msg, len, upto);
      forall g :: (g in d.values <==> |Occurrences(msg, len, g, upto)| > 0)
        && (g in d.values ==> d.values[g] == Occurrences(msg, len, g, upto))
    decreases upto
  {
    if upto > 0 {
      PositionsForGramAreOccurrences(msg, len, upto - 1);
    }
  }

  /** The distances `pos[j] - pos[i]` for all `i < j`, in the order the nested loops visit them. */
  function PairDistances(pos: seq<int>): (ds: seq<int>)
    ensures |ds| == |pos| * (|pos| - 1) / 2
    decreases |pos|
  {
    if |pos| == 0 then []
    else
      var rest := PairDistances(pos[1..]);
      assert |pos| * (|pos| - 1) / 2 == (|pos| - 1) + (|pos| - 1) * (|pos| - 2) / 2 by {
        var k := |pos| - 1;
        assert |pos| * (|pos| - 1) == 2 * k + k * (k - 1);
      }
      seq(|pos| - 1, j requires 0 <= j < |pos| - 1 => pos[j + 1] - pos[0]) + rest
  }

  /** A distance is recorded exactly when it separates some earlier position from a later one. */
  lemma {:induction false} PairDistancesMembers(pos: seq<int>)
    ensures forall d :: d in PairDistances(pos) <==> exists i, j :: 0 <= i < j < |pos| && d == pos[j] - pos[i]
    decreases |pos|
  {
    if |pos| > 0 {
      PairDistancesMembers(pos[1..]);
      var head := seq(|pos| - 1, j requires 0 <= j < |pos| - 1 => pos[j + 1] - pos[0]);
      assert PairDistances(pos) == head + PairDistances(pos[1..]);
      forall d | d in PairDistances(pos)
        ensures exists i, j :: 0 <= i < j < |pos| && d == pos[j] - pos[i]
      {
        if d in head {
          var j :| 0 <= j < |head| && head[j] == d;
          assert d == pos[j + 1] - pos[0];
        } else {
          assert d in PairDistances(pos[1..]);
          var i, j :| 0 <= i < j < |pos[1..]| && d == pos[1..][j] - pos[1..][i];
          assert d == pos[j + 1] - pos[i + 1];
        }
      }
      forall d | exists i, j :: 0 <= i < j < |pos| && d == pos[j] - pos[i]
        ensures d in PairDistances(pos)
      {
        var i, j :| 0 <= i < j < |pos| && d == pos[j] - pos[i];
        if i == 0 {
          assert head[j - 1] == d;
        } else {
          assert d == pos[1..][j - 1] - pos[1..][i - 1];
        }
      }
    }
  }

  /**
   * The loop over `positionsForGram` (in its key order): every gram with at least two positions
   * gets the distances of all its position pairs appended under its key in `sequences`.
   */
  function CollectPairs(seqs: Dict<string, seq<int>>, groups: Dict<string, seq<int>>, order: seq<string>): (r: Dict<string, seq<int>>)
    requires Valid(seqs)
    requires forall k :: 0 <= k < |order| ==> order[k] in groups.values
    ensures Valid(r)
    decreases |order|
  {
    if order == [] then seqs
    else
      var g := order[0];
      var pos := groups.values[g];
      var seqs' := if |pos| < 2 then seqs else Put(seqs, g, Get(seqs, g, []) + PairDistances(pos));
      CollectPairs(seqs', groups, order[1..])
  }

  /** The effect of the pair loop on each key: gram lists grow, other keys are untouched. */
  lemma {:induction false} CollectPairsEffect(seqs: Dict<string, seq<int>>, groups: Dict<string, seq<int>>, order: seq<string>)
    requires Valid(seqs)
    requires forall k :: 0 <= k < |order| ==> order[k] in groups.values
    requires forall a, b :: 0 <= a < b < |order| ==> order[a] != order[b]
    ensures var r := CollectPairs(seqs, groups, order);
      forall g :: (g in r.values <==> g in seqs.values || (g in order && |groups.values[g]| >= 2))
        && (g in r.values ==>
              r.values[g] == Get(seqs, g, []) + (if g in order && |groups.values[g]| >= 2 then PairDistances(groups.values[g]) else []))
    decreases |order|
  {
    if order != [] {
      var g := order[0];
      var pos := groups.values[g];
      var seqs' := if |pos| < 2 then seqs else Put(seqs, g, Get(seqs, g, []) + PairDistances(pos));
      CollectPairsEffect(seqs', groups, order[1..]);
      assert g !in order[1..];
      forall h ensures h in order <==> h == g || h in order[1..] {
        assert order == [g] + order[1..];
      }
    }
  }

  /** The outer loop over `seqLens`, lengths longer than the message being skipped. */
  function ScanLengths(msg: string, lens: seq<int>, seqs: Dict<string, seq<int>>): (r: Dict<string, seq<int>>)
    requires Valid(seqs)
    ensures Valid(r)
    decreases |lens|
  {
    if lens == [] then seqs
    else
      ScanLengths(msg, lens[1..], ScanOne(msg, lens[0], seqs))
  }

  /** `findRepeats(message, seqLens)`. */
  function FindRepeats(msg: string, seqLens: seq<int>): (r: Result<Dict<string, seq<int>>, RepeatError>)
    ensures r.Failure? <==> |msg| == 0
    ensures r.Success? ==> Valid(r.value)
  {
    if |msg| == 0 then Failure(EmptyText)
    else Success(ScanLengths(msg, seqLens, Empty()))
  }

  // ---------------------------------------------------------------------------------------------
  // What the repeat map means.

  /** Every occurrence of the gram `g` (of positive length at most `n`), ascending. */
  function AllOccurrences(msg: string, g: string): seq<int>
    requires 1 <= |g| <= |msg|
  {
    Occurrences(msg, |g|, g, |msg| - |g| + 1)
  }

  /** `g` starts at position `i` of the message. */
  ghost predicate OccursAt(msg: string, g: string, i: int) {
    0 <= i && i + |g| <= |msg| && msg[i..i + |g|] == g
  }

  /** `g` occurs at some position `i` and again `d` positions later. */
  ghost predicate Repeated(msg: string, g: string, d: int) {
    1 <= d && exists i :: OccursAt(msg, g, i) && OccursAt(msg, g, i + d)
  }

  /** A gram is a key when its length was scanned and it occurs at least twice. */
  ghost predicate Qualifies(msg: string, lens: seq<int>, g: string) {
    |g| in lens && 1 <= |g| <= |msg| && |AllOccurrences(msg, g)| >= 2
  }

  /** The repeat map holds, for each qualifying gram, the distances of all pairs of its occurrences. */
  ghost predicate Exact(msg: string, lens: seq<int>, seqs: Dict<string, seq<int>>) {
    forall g :: (g in seqs.values <==> Qualifies(msg, lens, g))
      && (g in seqs.values ==> seqs.values[g] == PairDistances(AllOccurrences(msg, g)))
  }

  /** The grouping at one positive length holds exactly the grams of that length. */
  lemma GroupsAtLength(msg: string, len: int)
    requires 1 <= len <= |msg|
    ensures var groups := PositionsForGram(msg, len, |msg| - len + 1);
      forall g :: (g in groups.values <==> |g| == len && |AllOccurrences(msg, g)| > 0)
        && (g in groups.values ==> groups.values[g] == AllOccurrences(msg, g))
  {
    var upto := |msg| - len + 1;
    var groups := PositionsForGram(msg, len, upto);
    PositionsForGramAreOccurrences(msg, len, upto);
    forall g
      ensures (g in groups.values <==> |g| == len && |AllOccurrences(msg, g)| > 0)
      ensures (g in groups.values ==> groups.values[g] == AllOccurrences(msg, g))
    {
      if |Occurrences(msg, len, g, upto)| > 0 {
        OccurringGramLength(msg, len, g, upto);
      }
      if |g| == len {
        assert AllOccurrences(msg, g) == Occurrences(msg, len, g, upto);
      }
    }
  }

  /** Only grams of the scanned length occur in a scan. */
  lemma OccurringGramLength(msg: string, len: int, g: string, upto: int)
    requires len >= 1 && Scannable(msg, len, upto) && |Occurrences(msg, len, g, upto)| > 0
    ensures |g| == len
  {
    var occ := Occurrences(msg, len, g, upto);
    OccurrencesMembers(msg, len, g, upto);
    assert occ[0] in occ;
  }

  /** The repeat map after one more scanned length. */
  function ScanOne(msg: string, len: int, seqs: Dict<string, seq<int>>): (r: Dict<string, seq<int>>)
    requires Valid(seqs)
    ensures Valid(r)
  {
    if len > |msg| then seqs
    else
      var groups := PositionsForGram(msg, len, |msg| - len + 1);
      CollectPairs(seqs, groups, groups.order)
  }

  lemma ScanOneExact(msg: string, done: seq<int>, len: int, seqs: Dict<string, seq<int>>)
    requires Valid(seqs) && Exact(msg, done, seqs)
    requires len >= 1 && len !in done
    ensures Exact(msg, done + [len], ScanOne(msg, len, seqs))
  {
    var r := ScanOne(msg, len, seqs);
    if len > |msg| {
      forall g ensures Qualifies(msg, done + [len], g) <==> Qualifies(msg, done, g) {}
    } else {
      var groups := PositionsForGram(msg, len, |msg| - len + 1);
      GroupsAtLength(msg, len);
      CollectPairsEffect(seqs, groups, groups.order);
      forall g
        ensures g in r.values <==> Qualifies(msg, done + [len], g)
        ensures g in r.values ==> r.values[g] == PairDistances(AllOccurrences(msg, g))
      {
        if |g| == len {
          assert !Qualifies(msg, done, g);
          assert g !in seqs.values;
          assert g in groups.order <==> g in groups.values;
          if g in groups.values {
            assert groups.values[g] == AllOccurrences(msg, g);
          }
        } else {
          assert g !in groups.values;
          assert Qualifies(msg, done + [len], g) <==> Qualifies(msg, done, g);
        }
      }
    }
  }

  lemma {:induction false} ScanLengthsExact(msg: string, done: seq<int>, lens: seq<int>, seqs: Dict<string, seq<int>>)
    requires Valid(seqs) && Exact(msg, done, seqs)
    requires forall k :: 0 <= k < |lens| ==> lens[k] >= 1 && lens[k] !in done
    requires forall a, b :: 0 <= a < b < |lens| ==> lens[a] != lens[b]
    ensures Exact(msg, done + lens, ScanLengths(msg, lens, seqs))
    decreases |lens|
  {
    if lens == [] {
      assert done + lens == done;
    } else {
      var len := lens[0];
      ScanOneExact(msg, done, len, seqs);
      var seqs' := ScanOne(msg, len, seqs);
      assert ScanLengths(msg, lens, seqs) == ScanLengths(msg, lens[1..], seqs');
      forall k | 0 <= k < |lens[1..]| ensures lens[1..][k] !in done + [len] {
        assert lens[1..][k] == lens[k + 1];
      }
      ScanLengthsExact(msg, done + [len], lens[1..], seqs');
      assert done + [len] + lens[1..] == done + lens;
    }
  }

  /** Distinct positive lengths: the lengths `findRepeats` is used with. */
  predicate DistinctPositive(seqLens: seq<int>) {
    && (forall k :: 0 <= k < |seqLens| ==> seqLens[k] >= 1)
    && (forall a, b :: 0 <= a < b < |seqLens| ==> seqLens[a] != seqLens[b])
  }

  lemma FindRepeatsIsExact(msg: string, seqLens: seq<int>)
    requires |msg| > 0 && DistinctPositive(seqLens)
    ensures Exact(msg, seqLens, FindRepeats(msg, seqLens).value)
  {
    var e: Dict<string, seq<int>> := Empty();
    assert Exact(msg, [], e);
    ScanLengthsExact(msg, [], seqLens, e);
    assert [] + seqLens == seqLens;
  }

  /** The entry of one gram in the repeat map. */
  lemma FindRepeatsEntry(msg: string, seqLens: seq<int>, g: string)
    requires |msg| > 0 && DistinctPositive(seqLens)
    ensures var r := FindRepeats(msg, seqLens).value;
      && (g in r.values <==> Qualifies(msg, seqLens, g))
      && (g in r.values ==> r.values[g] == PairDistances(AllOccurrences(msg, g)))
  {
    FindRepeatsIsExact(msg, seqLens);
  }

  /**
   * For distinct positive `seqLens` (the attack uses `[3, 4, 5]`): the keys are exactly the grams of
   * a scanned length occurring at least twice, and each key's list holds one distance per pair of
   * occurrences, `k * (k - 1) / 2` for `k` occurrences; grams occurring once are absent.
   */
  lemma FindRepeatsExact(msg: string, seqLens: seq<int>)
    requires |msg| > 0 && DistinctPositive(seqLens)
    ensures var r := FindRepeats(msg, seqLens).value;
      forall g :: (g in r.values <==> Qualifies(msg, seqLens, g))
        && (g in r.values ==> r.values[g] == PairDistances(AllOccurrences(msg, g)))
        && (g in r.values ==> |r.values[g]| == |AllOccurrences(msg, g)| * (|AllOccurrences(msg, g)| - 1) / 2)
  {
    var r := FindRepeats(msg, seqLens).value;
    forall g
      ensures g in r.values <==> Qualifies(msg, seqLens, g)
      ensures g in r.values ==> r.values[g] == PairDistances(AllOccurrences(msg, g))
      ensures g in r.values ==> |r.values[g]| == |AllOccurrences(msg, g)| * (|AllOccurrences(msg, g)| - 1) / 2
    {
      FindRepeatsEntry(msg, seqLens, g);
    }
  }

  /**
   * Every key of the repeat map is a substring of the message whose length is one of `seqLens`,
   * and every recorded distance `d` has `1 <= d <= n - |gram|` with the gram at some `i` and again at `i + d`.
   */
  lemma FindRepeatsSound(msg: string, seqLens: seq<int>)
    requires |msg| > 0 && forall k :: 0 <= k < |seqLens| ==> seqLens[k] >= 1
    ensures var r := FindRepeats(msg, seqLens).value;
      forall g :: g in r.values ==>
        && |g| in seqLens
        && (exists i :: OccursAt(msg, g, i))
        && forall k :: 0 <= k < |r.values[g]| ==> r.values[g][k] <= |msg| - |g| && Repeated(msg, g, r.values[g][k])
  {
    ScanLengthsSound(msg, [], seqLens, Empty());
    assert [] + seqLens == seqLens;
  }

  /** Every listed distance separates two occurrences of `g`. */
  ghost predicate GenuineDistances(msg: string, g: string, ds: seq<int>) {
    forall k :: 0 <= k < |ds| ==> ds[k] <= |msg| - |g| && Repeated(msg, g, ds[k])
  }

  /** Every key has a scanned length and occurs, and every distance under it is genuine. */
  ghost predicate Sound(msg: string, lens: seq<int>, seqs: Dict<string, seq<int>>) {
    forall g :: g in seqs.values ==>
      && |g| in lens
      && (exists i :: OccursAt(msg, g, i))
      && GenuineDistances(msg, g, seqs.values[g])
  }

  lemma GenuineAppend(msg: string, g: string, a: seq<int>, b: seq<int>)
    requires GenuineDistances(msg, g, a) && GenuineDistances(msg, g, b)
    ensures GenuineDistances(msg, g, a + b)
  {
    forall k | 0 <= k < |a + b|
      ensures (a + b)[k] <= |msg| - |g| && Repeated(msg, g, (a + b)[k])
    {
      if k >= |a| {
        assert (a + b)[k] == b[k - |a|];
      }
    }
  }

  /** One more scanned length, repeated or not, keeps the repeat map sound. */
  lemma ScanOneSound(msg: string, done: seq<int>, len: int, seqs: Dict<string, seq<int>>)
    requires Valid(seqs) && Sound(msg, done, seqs) && len >= 1
    ensures Sound(msg, done + [len], ScanOne(msg, len, seqs))
  {
    var r := ScanOne(msg, len, seqs);
    if len <= |msg| {
      var groups := PositionsForGram(msg, len, |msg| - len + 1);
      assert forall k :: 0 <= k < |groups.order| ==> groups.order[k] in groups.values;
      CollectPairsEffect(seqs, groups, groups.order);
      forall g | g in r.values
        ensures |g| in done + [len]
        ensures exists i :: OccursAt(msg, g, i)
        ensures GenuineDistances(msg, g, r.values[g])
      {
        var before := Get(seqs, g, []);
        var added := g in groups.order && |groups.values[g]| >= 2;
        var more := if added then PairDistances(groups.values[g]) else [];
        assert r.values[g] == before + more;
        assert g in seqs.values || added;
        assert added ==> |g| == len && groups.values[g] == AllOccurrences(msg, g) by {
          if added {
            GroupEntry(msg, len, g);
          }
        }
        assert g in seqs.values ==> |g| in done && (exists i :: OccursAt(msg, g, i)) && GenuineDistances(msg, g, before);
        NewEntrySound(msg, g, before, added, more);
      }
    }
  }

  lemma GroupEntry(msg: string, len: int, g: string)
    requires 1 <= len <= |msg| && g in PositionsForGram(msg, len, |msg| - len + 1).values
    ensures |g| == len && PositionsForGram(msg, len, |msg| - len + 1).values[g] == AllOccurrences(msg, g)
  {
    GroupsAtLength(msg, len);
  }

  /** An entry of the scan: earlier distances, then the pair distances of all occurrences when added. */
  lemma NewEntrySound(msg: string, g: string, before: seq<int>, added: bool, more: seq<int>)
    requires added ==> 1 <= |g| <= |msg| && |AllOccurrences(msg, g)| >= 2 && more == PairDistances(AllOccurrences(msg, g))
    requires !added ==> more == []
    requires before == [] || GenuineDistances(msg, g, before)
    ensures GenuineDistances(msg, g, before + more)
    ensures added ==> exists i :: OccursAt(msg, g, i)
  {
    if added {
      PairDistancesRepeated(msg, g);
    }
    GenuineAppend(msg, g, before, more);
  }

  lemma {:induction false} ScanLengthsSound(msg: string, done: seq<int>, lens: seq<int>, seqs: Dict<string, seq<int>>)
    requires Valid(seqs) && Sound(msg, done, seqs)
    requires forall k :: 0 <= k < |lens| ==> lens[k] >= 1
    ensures Sound(msg, done + lens, ScanLengths(msg, lens, seqs))
    decreases |lens|
  {
    if lens == [] {
      assert done + lens == done;
    } else {
      ScanOneSound(msg, done, lens[0], seqs);
      ScanLengthsSound(msg, done + [lens[0]], lens[1..], ScanOne(msg, lens[0], seqs));
      assert done + [lens[0]] + lens[1..] == done + lens;
    }
  }

  /** The pair distances of a gram's occurrences are genuine repeat distances. */
  lemma PairDistancesRepeated(msg: string, g: string)
    requires 1 <= |g| <= |msg| && |AllOccurrences(msg, g)| >= 2
    ensures exists i :: OccursAt(msg, g, i)
    ensures var ds := PairDistances(AllOccurrences(msg, g));
      forall k :: 0 <= k < |ds| ==> ds[k] <= |msg| - |g| && Repeated(msg, g, ds[k])
  {
    var occ := AllOccurrences(msg, g);
    var ds := PairDistances(occ);
    OccurrenceIsOccursAt(msg, g, occ[0]);
    forall k | 0 <= k < |ds|
      ensures ds[k] <= |msg| - |g| && Repeated(msg, g, ds[k])
    {
      OneDistanceRepeated(msg, g, ds[k]);
    }
  }

  lemma OneDistanceRepeated(msg: string, g: string, d: int)
    requires 1 <= |g| <= |msg| && d in PairDistances(AllOccurrences(msg, g))
    ensures d <= |msg| - |g| && Repeated(msg, g, d)
  {
    var occ := AllOccurrences(msg, g);
    PairDistancesMembers(occ);
    var i, j :| 0 <= i < j < |occ| && d == occ[j] - occ[i];
    OccurrencesAscending(msg, |g|, g, |msg| - |g| + 1);
    OccurrenceIsOccursAt(msg, g, occ[i]);
    OccurrenceIsOccursAt(msg, g, occ[j]);
    assert occ[i] + d == occ[j];
  }

  /** A listed occurrence is a place where the gram starts. */
  lemma OccurrenceIsOccursAt(msg: string, g: string, i: int)
    requires 1 <= |g| <= |msg| && i in AllOccurrences(msg, g)
    ensures OccursAt(msg, g, i)
  {
    OccurrencesMembers(msg, |g|, g, |msg| - |g| + 1);
  }

  /** The repeat map of "абабаб" at length 3: "аба" and "баб" each recur at distance 2. */
  lemma FindRepeatsExample(msg: string)
    requires msg == "абабаб"
    ensures var r := FindRepeats(msg, [3]).value;
      r.values.Keys == {"аба", "баб"} && r.values["аба"] == [2] && r.values["баб"] == [2]
  {
    var r := FindRepeats(msg, [3]).value;
    assert DistinctPositive([3]);
    ExampleOccurrences(msg);
    assert PairDistances([0, 2]) == [2];
    assert PairDistances([1, 3]) == [2];
    FindRepeatsEntry(msg, [3], "аба");
    FindRepeatsEntry(msg, [3], "баб");
    forall g | g in r.values ensures g == "аба" || g == "баб" {
      ExampleKey(msg, g);
    }
  }

  lemma ExampleOccurrences(msg: string)
    requires msg == "абабаб"
    ensures AllOccurrences(msg, "аба") == [0, 2]
    ensures AllOccurrences(msg, "баб") == [1, 3]
  {
    assert Gram(msg, 0, 3) == "аба" && Gram(msg, 1, 3) == "баб";
    assert Gram(msg, 2, 3) == "аба" && Gram(msg, 3, 3) == "баб";
    assert Occurrences(msg, 3, "аба", 1) == [0];
    assert Occurrences(msg, 3, "аба", 2) == [0];
    assert Occurrences(msg, 3, "аба", 3) == [0, 2];
    assert Occurrences(msg, 3, "баб", 1) == [];
    assert Occurrences(msg, 3, "баб", 2) == [1];
    assert Occurrences(msg, 3, "баб", 3) == [1];
  }

  lemma ExampleKey(msg: string, g: string)
    requires msg == "абабаб"
    requires g in FindRepeats(msg, [3]).value.values
    ensures g == "аба" || g == "баб"
  {
    assert DistinctPositive([3]);
    FindRepeatsEntry(msg, [3], g);
    var occ := AllOccurrences(msg, g);
    OccurrenceIsOccursAt(msg, g, occ[0]);
    var i := occ[0];
    assert |g| == 3;
    assert 0 <= i <= 3 && msg[i..i + 3] == g;
    ExampleGrams(msg, i);
  }

  /** The four 3-grams of `абабаб` alternate between `аба` and `баб`. */
  lemma ExampleGrams(msg: string, i: int)
    requires msg == "абабаб" && 0 <= i <= 3
    ensures msg[i..i + 3] == "аба" || msg[i..i + 3] == "баб"
  {
    if i == 0 {
      assert msg[0..3] == "аба";
    } else if i == 1 {
      assert msg[1..4] == "баб";
    } else if i == 2 {
      assert msg[2..5] == "аба";
    } else {
      assert msg[3..6] == "баб";
    }
  }
}
