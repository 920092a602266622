/**
 * `kasiskiAttack`: the ciphertext-only attack that chains normalisation, the repeat search, the
 * key-length scoring, the index-of-coincidence choice of a length and the key recovery
 * (src/vigenere.ts).
 */
module Attack {
  import opened Wrappers
  import opened Alphabet
  import opened Normalize
  import opened Columns
  import Repeats
  import opened KeyLength
  import opened Coincidence
  import opened KeyRecovery

  /** The progress notifications, one constructor per `reportProgress` call site. */
  datatype Progress =
    | Preprocessing
    | PreprocessFailed
    | SearchingRepeats
    | ScoringLengths
    | RefiningCandidates(count: int)
    | CheckingCandidate(index: int, len: int, count: int)
    | SweepingLengths
    | TooShort
    | NoSweepRange
    | CheckingLength(len: int, maxLen: int)
    | NoKeyLength
    | LengthChosen(len: int)
    | RecoveringKey
    | KeyProgress(index: int, total: int, progress: string)
    | Finished(key: string)

  /** The two errors the attack can throw. */
  datatype AttackError = EmptyText | NoKeyLengthFound

  /** The notifications sent, and the key found or the error thrown. */
  datatype AttackRun = AttackRun(events: seq<Progress>, outcome: Result<string, AttackError>)

  /** The running state of a `bestIoc`/`chosenLen` loop. */
  datatype Selection = Selection(bestIoc: real, chosenLen: Option<int>)

  predicate AllPositive(lens: seq<int>) {
    forall i :: 0 <= i < |lens| ==> lens[i] >= 1
  }

  /** The average index of coincidence of each length, in order. */
  function Iocs(clean: string, lens: seq<int>): (xs: seq<real>)
    requires AllPositive(lens)
    ensures |xs| == |lens| && forall i :: 0 <= i < |lens| ==> xs[i] == AverageIOC(clean, lens[i])
  {
    seq(|lens|, i requires 0 <= i < |lens| => AverageIOC(clean, lens[i]))
  }

  /** Index `i` holds the first maximum of `xs[..n]`: nothing is larger, everything before is smaller. */
  predicate FirstMax(xs: seq<real>, n: nat, i: nat)
    requires n <= |xs|
  {
    && i < n
    && (forall j :: 0 <= j < n ==> xs[j] <= xs[i])
    && (forall j :: 0 <= j < i ==> xs[j] < xs[i])
  }

  /** Index `i` holds the first length of maximal average index of coincidence in `lens[..n]`. */
  predicate FirstBest(clean: string, lens: seq<int>, n: nat, i: nat)
    requires n <= |lens| && AllPositive(lens)
  {
    FirstMax(Iocs(clean, lens), n, i)
  }

  /**
   * The loop `if (ioc > bestIoc) { bestIoc = ioc; chosenLen = L; }` over `xs[..n]`, the index of
   * coincidence of each length, starting from `bestIoc = -1` and no length.
   */
  function SelectOver(xs: seq<real>, lens: seq<int>, n: nat): Selection
    requires n <= |xs| == |lens|
  {
    if n == 0 then Selection(-1.0, None)
    else
      var prev := SelectOver(xs, lens, n - 1);
      if xs[n - 1] > prev.bestIoc then Selection(xs[n - 1], Some(lens[n - 1])) else prev
  }

  /** The selection loop over `lens[..n]`, each length scored by `averageIOC(clean, L)`. */
  function SelectByIoc(clean: string, lens: seq<int>, n: nat): (r: Selection)
    requires n <= |lens| && AllPositive(lens)
    ensures n == 0 <==> r.chosenLen.None?
  {
    SelectOverFirstMax(Iocs(clean, lens), lens, n);
    SelectOver(Iocs(clean, lens), lens, n)
  }

  /** Values of at least -1 make the strict-`>` loop keep the first maximum. */
  lemma {:induction false} SelectOverFirstMax(xs: seq<real>, lens: seq<int>, n: nat)
    requires n <= |xs| == |lens|
    requires forall j :: 0 <= j < |xs| ==> xs[j] >= 0.0
    ensures n == 0 ==> SelectOver(xs, lens, n) == Selection(-1.0, None)
    ensures n > 0 ==>
      exists i :: 0 <= i < n && FirstMax(xs, n, i) && SelectOver(xs, lens, n) == Selection(xs[i], Some(lens[i]))
  {
    if n == 1 {
      assert SelectOver(xs, lens, 0) == Selection(-1.0, None) && xs[0] >= 0.0;
      assert FirstMax(xs, 1, 0);
    } else if n > 1 {
      SelectOverFirstMax(xs, lens, n - 1);
      var i :| 0 <= i < n - 1 && FirstMax(xs, n - 1, i) && SelectOver(xs, lens, n - 1) == Selection(xs[i], Some(lens[i]));
      SelectStep(xs, lens, n, i);
    }
  }

  /** One more value either becomes the new strict maximum or leaves the first maximum in place. */
  lemma SelectStep(xs: seq<real>, lens: seq<int>, n: nat, i: nat)
    requires 1 < n <= |xs| == |lens| && i < n - 1
    requires FirstMax(xs, n - 1, i) && SelectOver(xs, lens, n - 1) == Selection(xs[i], Some(lens[i]))
    ensures xs[n - 1] > xs[i] ==>
      FirstMax(xs, n, n - 1) && SelectOver(xs, lens, n) == Selection(xs[n - 1], Some(lens[n - 1]))
    ensures xs[n - 1] <= xs[i] ==>
      FirstMax(xs, n, i) && SelectOver(xs, lens, n) == Selection(xs[i], Some(lens[i]))
  {
  }

  /** After at least one length the loop holds the first length of maximal IOC, and that IOC. */
  lemma SelectByIocFirstBest(clean: string, lens: seq<int>, n: nat)
    requires n <= |lens| && AllPositive(lens)
    ensures n == 0 ==> SelectByIoc(clean, lens, n) == Selection(-1.0, None)
    ensures n > 0 ==>
      exists i :: 0 <= i < n && FirstBest(clean, lens, n, i)
        && SelectByIoc(clean, lens, n) == Selection(AverageIOC(clean, lens[i]), Some(lens[i]))
  {
    SelectOverFirstMax(Iocs(clean, lens), lens, n);
  }

  /** `maxLenToTry = Math.min(20, Math.max(1, Math.floor(n / 2) - 1))`. */
  function MaxLenToTry(n: nat): (m: int)
    ensures 1 <= m <= 20
    ensures m >= 2 <==> n >= 6
  {
    var half := n / 2 - 1;
    var atLeastOne := if half > 1 then half else 1;
    if atLeastOne < 20 then atLeastOne else 20
  }

  /** The sweep `L = 2, 3, ..., maxLenToTry`. */
  function Sweep(maxTry: int): (lens: seq<int>)
    ensures |lens| == if maxTry >= 2 then maxTry - 1 else 0
    ensures forall i :: 0 <= i < |lens| ==> lens[i] == i + 2
  {
    if maxTry < 2 then [] else seq(maxTry - 1, i requires 0 <= i < maxTry - 1 => i + 2)
  }

  /**
   * The choice of `chosenLen`: the first candidate of maximal IOC when there are candidates;
   * otherwise length 1 for a text shorter than 4, or when the sweep range is empty, and else the
   * first length of maximal IOC in the sweep.
   */
  function ChooseKeyLength(clean: string, candidates: seq<int>): Option<int>
    requires AllPositive(candidates)
  {
    if |candidates| > 0 then SelectByIoc(clean, candidates, |candidates|).chosenLen
    else
      var maxTry := MaxLenToTry(|clean|);
      if |clean| < 4 then Some(1)
      else if maxTry < 2 && |clean| >= 4 then Some(1)
      else
        var lens := Sweep(maxTry);
        SelectByIoc(clean, lens, |lens|).chosenLen
  }

  /**
   * What a chosen length means: the first maximal-IOC candidate; or, without candidates, 1 for a
   * cleaned text shorter than 6, and otherwise the first maximal-IOC length in
   * `[2, min(20, n / 2 - 1)]`.
   */
  predicate ValidChoice(clean: string, candidates: seq<int>, len: int)
    requires AllPositive(candidates)
  {
    if |candidates| > 0 then
      exists i :: 0 <= i < |candidates| && FirstBest(clean, candidates, |candidates|, i) && len == candidates[i]
    else if |clean| < 6 then len == 1
    else
      var lens := Sweep(MaxLenToTry(|clean|));
      exists i :: 0 <= i < |lens| && FirstBest(clean, lens, |lens|, i) && len == lens[i]
  }

  /**
   * A length is always chosen, so the "no key length" error is unreachable; with candidates drawn
   * from `[2, 20]` the choice lies in `[1, 20]`, and it is the one `ValidChoice` describes.
   */
  lemma ChosenLength(clean: string, candidates: seq<int>)
    requires forall i :: 0 <= i < |candidates| ==> 2 <= candidates[i] <= 20
    ensures ChooseKeyLength(clean, candidates).Some?
    ensures 1 <= ChooseKeyLength(clean, candidates).value <= 20
    ensures ValidChoice(clean, candidates, ChooseKeyLength(clean, candidates).value)
  {
    if |candidates| > 0 {
      SelectByIocFirstBest(clean, candidates, |candidates|);
    } else if |clean| >= 6 {
      var lens := Sweep(MaxLenToTry(|clean|));
      SelectByIocFirstBest(clean, lens, |lens|);
    }
  }

  /** The notifications of the key-length step, before the length is announced. */
  function SelectionEvents(clean: string, candidates: seq<int>): seq<Progress> {
    if |candidates| > 0 then
      [RefiningCandidates(|candidates|)]
        + seq(|candidates|, i requires 0 <= i < |candidates| =>
              CheckingCandidate(i + 1, candidates[i], |candidates|))
    else
      var maxTry := MaxLenToTry(|clean|);
      [SweepingLengths]
        + (if |clean| < 4 then [TooShort]
           else if maxTry < 2 then [NoSweepRange]
           else seq(maxTry - 1, i requires 0 <= i < maxTry - 1 => CheckingLength(i + 2, maxTry)))
  }

  /** `s.padEnd(n, ch)`. */
  function PadEnd(s: string, n: int, ch: char): (r: string)
    ensures |r| == if n > |s| then n else |s|
    ensures r[..|s|] == s
    ensures forall i :: |s| <= i < |r| ==> r[i] == ch
  {
    if n > |s| then s + seq(n - |s|, _ => ch) else s
  }

  /** The key-recovery notifications: the key so far, padded with `○` to the key length. */
  function KeyEvents(events: seq<KeyEvent>): (r: seq<Progress>)
    ensures |r| == |events|
  {
    seq(|events|, i requires 0 <= i < |events| =>
      KeyProgress(events[i].charIndex + 1, events[i].totalChars,
                  PadEnd(events[i].keyProgress, events[i].totalChars, '○')))
  }

  /**
   * `kasiskiAttack(messageRaw)`: the notifications it sends, and either the key it finds or the
   * error it throws.
   */
  function KasiskiAttack(raw: string): (run: AttackRun) {
    var clean := Preprocess(raw);
    if |clean| == 0 then AttackRun([Preprocessing, PreprocessFailed], Failure(EmptyText))
    else AttackOn(clean, Candidates(clean))
  }

  /** The candidate lengths of a non-empty cleaned text: its 3-, 4- and 5-gram repeats scored up to 20 at 0.5. */
  function Candidates(clean: string): (lens: seq<int>)
    requires |clean| > 0
    ensures forall i :: 0 <= i < |lens| ==> 2 <= lens[i] <= 20
  {
    FindKeyLength(Repeats.FindRepeats(clean, [3, 4, 5]).value, 20, 0.5)
  }

  /** The attack on a non-empty cleaned text once the repeat search has proposed its candidates. */
  function AttackOn(clean: string, candidates: seq<int>): (run: AttackRun)
    requires |clean| > 0 && AllPositive(candidates)
  {
    Conclude([Preprocessing, SearchingRepeats, ScoringLengths] + SelectionEvents(clean, candidates),
             clean, ChooseKeyLength(clean, candidates))
  }

  /** The end of the attack, after the notifications `before`: announce the length and recover the key. */
  function Conclude(before: seq<Progress>, clean: string, chosen: Option<int>): (run: AttackRun)
    requires |clean| > 0
  {
    if chosen.None? then AttackRun(before + [NoKeyLength], Failure(NoKeyLengthFound))
    else
      var found := FindKey(clean, chosen.value).value;
      AttackRun(
        before + [LengthChosen(chosen.value), RecoveringKey] + KeyEvents(found.events)
          + [Finished(found.key)],
        Success(found.key))
  }

  /** The key length the attack settles on for a non-empty cleaned text. */
  function AttackLength(clean: string): (len: int)
    requires |clean| > 0
    ensures 1 <= len <= 20
  {
    ChosenLength(clean, Candidates(clean));
    ChooseKeyLength(clean, Candidates(clean)).value
  }

  /**
   * The attack fails exactly when no letter survives normalisation, and then only with the
   * empty-text error; otherwise it returns a key of the chosen length in [1, 20], each of whose
   * letters is the last best shift of its column, and its last notification announces that key.
   */
  lemma KasiskiAttackOutcome(raw: string)
    ensures var run := KasiskiAttack(raw);
      && |run.events| > 0 && run.events[0] == Preprocessing
      && (run.outcome.Failure? <==> |Preprocess(raw)| == 0)
      && (run.outcome.Failure? ==> run.outcome.error == EmptyText && run.events[|run.events| - 1] == PreprocessFailed)
      && (run.outcome.Success? ==>
            var clean := Preprocess(raw);
            var key := run.outcome.value;
            && |key| == AttackLength(clean)
            && AllLetters(key)
            && (forall pos :: 0 <= pos < |key| ==> LastBest(Column(clean, pos, |key|), IndexOf(key[pos])))
            && run.events[|run.events| - 1] == Finished(key))
  {
    var clean := Preprocess(raw);
    if |clean| > 0 {
      AttackOnOutcome(clean, Candidates(clean));
    }
  }

  lemma AttackOnOutcome(clean: string, candidates: seq<int>)
    requires |clean| > 0
    requires forall i :: 0 <= i < |candidates| ==> 2 <= candidates[i] <= 20
    ensures var run := AttackOn(clean, candidates);
      && |run.events| > 0 && run.events[0] == Preprocessing
      && run.outcome.Success?
      && var key := run.outcome.value;
      && |key| == ChooseKeyLength(clean, candidates).value
      && AllLetters(key)
      && (forall pos :: 0 <= pos < |key| ==> LastBest(Column(clean, pos, |key|), IndexOf(key[pos])))
      && run.events[|run.events| - 1] == Finished(key)
  {
    assert ChooseKeyLength(clean, candidates).Some? && ChooseKeyLength(clean, candidates).value >= 1 by {
      ChosenLength(clean, candidates);
    }
    var len := ChooseKeyLength(clean, candidates).value;
    var found := FindKey(clean, len).value;
    var before := [Preprocessing, SearchingRepeats, ScoringLengths] + SelectionEvents(clean, candidates);
    var events := before + [LengthChosen(len), RecoveringKey] + KeyEvents(found.events) + [Finished(found.key)];
    assert |found.key| == len;
    assert AttackOn(clean, candidates) == AttackRun(events, Success(found.key));
    assert events[0] == Preprocessing;
  }

  /** The key-recovery notifications stated from the key alone: position `pos` shows the first `pos + 1` letters, padded with `○`. */
  function KeyTrail(key: string): (r: seq<Progress>)
    ensures |r| == |key|
  {
    seq(|key|, pos requires 0 <= pos < |key| => KeyProgress(pos + 1, |key|, PadEnd(key[..pos + 1], |key|, '○')))
  }

  /** Notifications carrying, at each position, the key so far are the trail of the key. */
  lemma KeyEventsTrail(found: Recovered)
    requires |found.events| == |found.key|
    requires forall pos :: 0 <= pos < |found.events| ==>
      found.events[pos] == KeyEvent(pos, |found.key|, found.key[..pos + 1])
    ensures KeyEvents(found.events) == KeyTrail(found.key)
  {
    forall pos | 0 <= pos < |found.key|
      ensures KeyEvents(found.events)[pos] == KeyTrail(found.key)[pos]
    {
      assert found.events[pos] == KeyEvent(pos, |found.key|, found.key[..pos + 1]);
    }
  }

  /**
   * The order of the notifications of a successful run: it opens with the three search phases,
   * continues with the notifications `middle` of the length choice, and closes with the chosen
   * length, the start of key recovery, one notification per key position carrying the key so far
   * padded with `○`, and the finished key.
   */
  predicate InProgressOrder(run: AttackRun, middle: seq<Progress>)
    requires run.outcome.Success?
  {
    var key := run.outcome.value;
    var m := |run.events|;
    && m == 3 + |middle| + |key| + 3
    && run.events[..3] == [Preprocessing, SearchingRepeats, ScoringLengths]
    && run.events[3..m - |key| - 3] == middle
    && run.events[m - |key| - 3..] == [LengthChosen(|key|), RecoveringKey] + KeyTrail(key) + [Finished(key)]
  }

  /**
   * A letterless text reports preprocessing and its failure; any other text succeeds, and its
   * notifications follow the progress order, with the candidate or sweep notifications of the length
   * choice in the middle.
   */
  lemma KasiskiAttackProgress(raw: string)
    ensures var run := KasiskiAttack(raw);
      var clean := Preprocess(raw);
      && (|clean| == 0 ==> run == AttackRun([Preprocessing, PreprocessFailed], Failure(EmptyText)))
      && (|clean| > 0 ==>
            run.outcome.Success? && InProgressOrder(run, SelectionEvents(clean, Candidates(clean))))
  {
    var clean := Preprocess(raw);
    if |clean| > 0 {
      AttackOnProgress(clean, Candidates(clean));
    }
  }

  lemma AttackOnProgress(clean: string, candidates: seq<int>)
    requires |clean| > 0
    requires forall i :: 0 <= i < |candidates| ==> 2 <= candidates[i] <= 20
    ensures AttackOn(clean, candidates).outcome.Success?
    ensures InProgressOrder(AttackOn(clean, candidates), SelectionEvents(clean, candidates))
  {
    assert ChooseKeyLength(clean, candidates).Some? && ChooseKeyLength(clean, candidates).value >= 1 by {
      ChosenLength(clean, candidates);
    }
    var len := ChooseKeyLength(clean, candidates).value;
    var middle := SelectionEvents(clean, candidates);
    ConcludeShape(middle, clean, len);
    assert AttackOn(clean, candidates) == Conclude([Preprocessing, SearchingRepeats, ScoringLengths] + middle, clean, Some(len));
  }

  /** Recovering a key after the three search phases and the notifications `middle` keeps the progress order. */
  lemma ConcludeShape(middle: seq<Progress>, clean: string, len: int)
    requires |clean| > 0 && len >= 1
    ensures var run := Conclude([Preprocessing, SearchingRepeats, ScoringLengths] + middle, clean, Some(len));
      run.outcome.Success? && InProgressOrder(run, middle)
  {
    var before := [Preprocessing, SearchingRepeats, ScoringLengths] + middle;
    var found := FindKey(clean, len).value;
    assert |found.key| == len && |found.events| == len;
    ClosingShape(before, found);
    var run := Conclude(before, clean, Some(len));
    assert run.events[..|before|] == before;
    assert run.events[..3] == before[..3] == [Preprocessing, SearchingRepeats, ScoringLengths];
    assert run.events[3..|before|] == before[3..] == middle;
  }

  /** A successful run after the notifications `before`: its opening and its closing notifications. */
  lemma ClosingShape(before: seq<Progress>, found: Recovered)
    requires |found.events| == |found.key|
    requires forall pos :: 0 <= pos < |found.events| ==>
      found.events[pos] == KeyEvent(pos, |found.key|, found.key[..pos + 1])
    ensures var key := found.key;
      var events := before + [LengthChosen(|key|), RecoveringKey] + KeyEvents(found.events) + [Finished(key)];
      var m := |events|;
      && m == |before| + |key| + 3
      && events[..|before|] == before
      && events[m - |key| - 3..] == [LengthChosen(|key|), RecoveringKey] + KeyTrail(key) + [Finished(key)]
  {
    KeyEventsTrail(found);
    SplitRun(before, LengthChosen(|found.key|), RecoveringKey, KeyTrail(found.key), Finished(found.key));
  }

  /** Where the closing notifications of a run start. */
  lemma SplitRun(before: seq<Progress>, chosen: Progress, recovering: Progress, trail: seq<Progress>, finished: Progress)
    ensures var events := before + [chosen, recovering] + trail + [finished];
      && events[..|before|] == before
      && events[|before|..] == [chosen, recovering] + trail + [finished]
  {
    var events := before + [chosen, recovering] + trail + [finished];
    assert events == before + ([chosen, recovering] + trail + [finished]);
  }

  /**
   * The chosen length is the first maximal-IOC candidate when the repeat search yields candidates,
   * and otherwise follows the short-text and sweep rules.
   */
  lemma AttackLengthChoice(clean: string)
    requires |clean| > 0
    ensures ValidChoice(clean, Candidates(clean), AttackLength(clean))
  {
    ChosenLength(clean, Candidates(clean));
  }
}
