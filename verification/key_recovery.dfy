/**
 * `findKey`: recovers each key letter by correlating the shifted letter counts of its column with
 * the reference Russian frequencies (src/vigenere.ts).
 */
module KeyRecovery {
  import opened Wrappers
  import opened Alphabet
  import opened Columns
  import opened FrequencyTable

  /** The plaintext index a ciphertext letter `row` decrypts to under key letter `k`: `(row - col + M) % M`. */
  function Shift(row: nat, k: nat): (p: nat)
    requires row < M && k < M
    ensures p < M && (p + k) % M == row
  {
    (row - k + M) % M
  }

  /**
   * `positionalCounts` after the first `n` characters of the column: entry `[k][p]` is the number of
   * letters seen that decrypt to plaintext index `p` under key index `k`; other characters are skipped.
   */
  function CountsUpTo(col: string, n: nat): (t: seq<seq<nat>>)
    requires n <= |col|
    ensures |t| == M && forall k :: 0 <= k < M ==> |t[k]| == M
  {
    if n == 0 then seq(M, _ => seq(M, _ => 0))
    else
      var prev := CountsUpTo(col, n - 1);
      var c := col[n - 1];
      if !IsLetter(c) then prev
      else
        var row := IndexOf(c);
        seq(M, k requires 0 <= k < M => Bump(prev[k], Shift(row, k)))
  }

  /** `positionalCounts[kLetter][plain] += 1`. */
  function Bump(counts: seq<nat>, p: nat): (r: seq<nat>)
    requires p < |counts|
    ensures |r| == |counts|
  {
    counts[p := counts[p] + 1]
  }

  /** `Σ counts[p] * frequency[p]` over the first `upto` plaintext letters. */
  function Weighted(counts: seq<nat>, upto: nat): real
    requires upto <= |counts| <= M
  {
    if upto == 0 then 0.0
    else Weighted(counts, upto - 1) + counts[upto - 1] as real * Frequency(upto - 1)
  }

  /** `scores`: one score per candidate key letter, in ALPHABET order. */
  function Scores(col: string): (s: seq<real>)
    ensures |s| == M
  {
    var t := CountsUpTo(col, |col|);
    seq(M, k requires 0 <= k < M => Weighted(t[k], M))
  }

  /**
   * The score of key index `k` stated directly: the sum, over the letters of the column, of the
   * reference frequency of the letter each decrypts to under `k`.
   */
  function DirectScore(col: string, k: nat): (s: real)
    requires k < M
    ensures s >= 0.0
  {
    if col == [] then 0.0
    else
      var c := col[|col| - 1];
      DirectScore(col[..|col| - 1], k) + (if IsLetter(c) then Frequency(Shift(IndexOf(c), k)) else 0.0)
  }

  lemma {:induction false} WeightedBump(counts: seq<nat>, p: nat, upto: nat)
    requires p < |counts| == M && upto <= M
    ensures Weighted(Bump(counts, p), upto)
      == Weighted(counts, upto) + (if p < upto then Frequency(p) else 0.0)
  {
    if upto > 0 {
      WeightedBump(counts, p, upto - 1);
      var b := Bump(counts, p);
      var f := Frequency(upto - 1);
      assert Weighted(b, upto) == Weighted(b, upto - 1) + b[upto - 1] as real * f;
      assert Weighted(counts, upto) == Weighted(counts, upto - 1) + counts[upto - 1] as real * f;
      if p == upto - 1 {
        assert b[upto - 1] as real * f == counts[upto - 1] as real * f + f;
      } else {
        assert b[upto - 1] == counts[upto - 1];
      }
    }
  }

  lemma {:induction false} WeightedZero(counts: seq<nat>, upto: nat)
    requires upto <= |counts| <= M
    requires forall p :: 0 <= p < |counts| ==> counts[p] == 0
    ensures Weighted(counts, upto) == 0.0
  {
    if upto > 0 {
      WeightedZero(counts, upto - 1);
    }
  }

  /** The table-driven scores are the direct scores. */
  lemma {:induction false} CountsScore(col: string, n: nat)
    requires n <= |col|
    ensures forall k :: 0 <= k < M ==> Weighted(CountsUpTo(col, n)[k], M) == DirectScore(col[..n], k)
  {
    if n == 0 {
      forall k | 0 <= k < M
        ensures Weighted(CountsUpTo(col, n)[k], M) == DirectScore(col[..n], k)
      {
        WeightedZero(CountsUpTo(col, n)[k], M);
      }
    } else {
      CountsScore(col, n - 1);
      assert col[..n][..n - 1] == col[..n - 1];
      var c := col[n - 1];
      forall k | 0 <= k < M
        ensures Weighted(CountsUpTo(col, n)[k], M) == DirectScore(col[..n], k)
      {
        var init := col[..n - 1];
        assert col[..n][n - 1] == c;
        assert DirectScore(col[..n], k)
          == DirectScore(init, k) + (if IsLetter(c) then Frequency(Shift(IndexOf(c), k)) else 0.0);
        if IsLetter(c) {
          assert CountsUpTo(col, n)[k] == Bump(CountsUpTo(col, n - 1)[k], Shift(IndexOf(c), k));
          WeightedBump(CountsUpTo(col, n - 1)[k], Shift(IndexOf(c), k), M);
        }
      }
    }
  }

  lemma ScoresAreDirect(col: string)
    ensures forall k :: 0 <= k < M ==> Scores(col)[k] == DirectScore(col, k)
  {
    CountsScore(col, |col|);
    assert col[..|col|] == col;
  }

  /**
   * `keys.reduce((a, b) => (s[a] > s[b] ? a : b))` over the first `upto` indices: a maximum, and no
   * later index reaches it, so on ties the later letter wins.
   */
  function Reduce(s: seq<real>, upto: nat): (r: nat)
    requires 1 <= upto <= |s|
    ensures r < upto
    ensures forall j :: 0 <= j < upto ==> s[j] <= s[r]
    ensures forall j :: r < j < upto ==> s[j] < s[r]
  {
    if upto == 1 then 0
    else
      var a := Reduce(s, upto - 1);
      if s[a] > s[upto - 1] then a else upto - 1
  }

  /** Key index `k` has the highest score for the column, and every later index scores strictly less. */
  predicate LastBest(col: string, k: nat)
    requires k < M
  {
    && (forall j :: 0 <= j < M ==> DirectScore(col, j) <= DirectScore(col, k))
    && (forall j :: k < j < M ==> DirectScore(col, j) < DirectScore(col, k))
  }

  /** At most one key index is the last best. */
  lemma LastBestUnique(col: string, k: nat, k': nat)
    requires k < M && k' < M && LastBest(col, k) && LastBest(col, k')
    ensures k == k'
  {
    assert DirectScore(col, k) == DirectScore(col, k');
  }

  /** The key letter chosen for position `pos`: the last best shift of column `pos`. */
  function KeyLetter(message: string, keyLen: int, pos: nat): (c: char)
    requires pos < keyLen
    ensures IsLetter(c) && LastBest(Column(message, pos, keyLen), IndexOf(c))
  {
    var col := Column(message, pos, keyLen);
    var scores := Scores(col);
    ScoresAreDirect(col);
    LetterAt(Reduce(scores, M))
  }

  /** `onProgress(charIndex, totalChars, currentKeyProgress)`. */
  datatype KeyEvent = KeyEvent(charIndex: int, totalChars: int, keyProgress: string)

  /** The recovered key and the progress notifications, in order. */
  datatype Recovered = Recovered(key: string, events: seq<KeyEvent>)

  datatype FindKeyError = EmptyMessage

  /** The key and events after the first `n` positions of the loop. */
  function RecoverUpTo(message: string, keyLen: int, n: nat): (r: Recovered)
    requires n <= Positions(keyLen)
    ensures |r.key| == n && |r.events| == n
    ensures forall pos :: 0 <= pos < n ==> r.key[pos] == KeyLetter(message, keyLen, pos)
    ensures forall pos :: 0 <= pos < n ==> r.events[pos] == KeyEvent(pos, keyLen, r.key[..pos + 1])
  {
    if n == 0 then Recovered("", [])
    else
      var prev := RecoverUpTo(message, keyLen, n - 1);
      var key := prev.key + [KeyLetter(message, keyLen, n - 1)];
      assert key[..n - 1] == prev.key;
      Recovered(key, prev.events + [KeyEvent(n - 1, keyLen, key)])
  }

  /** The number of loop iterations, `max(0, keyLen)`. */
  function Positions(keyLen: int): nat {
    if keyLen > 0 then keyLen else 0
  }

  /**
   * `findKey(message, keyLen)`: an empty message is rejected; otherwise one letter per key position,
   * each the last best shift of its column, with one progress event per letter carrying the key so far.
   */
  function FindKey(message: string, keyLen: int): (r: Result<Recovered, FindKeyError>)
    ensures r.Failure? <==> |message| == 0
    ensures r.Failure? ==> r.error == EmptyMessage
    ensures r.Success? ==>
      && |r.value.key| == Positions(keyLen)
      && AllLetters(r.value.key)
      && (forall pos :: 0 <= pos < |r.value.key| ==>
            LastBest(Column(message, pos, keyLen), IndexOf(r.value.key[pos])))
      && |r.value.events| == |r.value.key|
      && (forall pos :: 0 <= pos < |r.value.events| ==>
            r.value.events[pos] == KeyEvent(pos, keyLen, r.value.key[..pos + 1]))
  {
    if |message| == 0 then Failure(EmptyMessage)
    else Success(RecoverUpTo(message, keyLen, Positions(keyLen)))
  }

  /** A column with no letters scores 0 for every shift, so the tie rule picks the last letter, `я`. */
  lemma EmptyColumnGivesYa(message: string, keyLen: int, pos: nat)
    requires pos < keyLen && |message| <= pos
    ensures KeyLetter(message, keyLen, pos) == 'я'
  {
    var col := Column(message, pos, keyLen);
    assert col == "";
    var c := KeyLetter(message, keyLen, pos);
    assert !(DirectScore(col, M - 1) < DirectScore(col, IndexOf(c)));
    AlphabetIsBlock();
  }

  /** Shifting a ciphertext letter and a key letter by the same amount leaves the decryption unchanged. */
  lemma ShiftCancels(p: nat, j: nat, k0: nat)
    requires p < M && j < M && k0 < M
    ensures Shift((p + k0) % M, (j + k0) % M) == Shift(p, j)
  {
    var qa := if p + k0 < M then 0 else 1;
    var qb := if j + k0 < M then 0 else 1;
    DivModUnique(p + k0, M, qa, p + k0 - qa * M);
    DivModUnique(j + k0, M, qb, j + k0 - qb * M);
    var x := p - j + M;
    var qx, r := x / M, x % M;
    DivModUnique(x - qa * M + qb * M, M, qx - qa + qb, r);
  }

  /** Every letter of `cipher` is the letter of `plain` moved `k0` places on. */
  predicate Encrypted(plain: string, cipher: string, k0: nat)
    requires k0 < M
  {
    && |plain| == |cipher| && AllLetters(plain)
    && forall i :: 0 <= i < |plain| ==> cipher[i] == LetterAt((IndexOf(plain[i]) + k0) % M)
  }

  /**
   * Scores are shift-equivariant: if every letter of `cipher` is the letter of `plain` moved `k0`
   * places on, key index `j + k0` scores on `cipher` what `j` scores on `plain`.
   */
  lemma {:induction false} ScoreShift(plain: string, cipher: string, k0: nat, j: nat, k: nat)
    requires k0 < M && j < M && k == (j + k0) % M
    requires Encrypted(plain, cipher, k0)
    ensures DirectScore(cipher, k) == DirectScore(plain, j)
  {
    if plain != [] {
      var n := |plain| - 1;
      assert Encrypted(plain[..n], cipher[..n], k0);
      ScoreShift(plain[..n], cipher[..n], k0, j, k);
      var row := IndexOf(plain[n]);
      assert cipher[n] == LetterAt((row + k0) % M);
      ShiftCancels(row, j, k0);
      assert Shift(IndexOf(cipher[n]), k) == Shift(row, j);
    }
  }

  /**
   * Key recovery on one column: when the plaintext column scores strictly best unshifted, the column
   * encrypted with key index `k0` has `k0` as its last best shift, so that letter is recovered.
   */
  lemma RecoversShift(plain: string, cipher: string, k0: nat)
    requires k0 < M && Encrypted(plain, cipher, k0)
    requires forall j :: 0 < j < M ==> DirectScore(plain, j) < DirectScore(plain, 0)
    ensures LastBest(cipher, k0)
  {
    forall j' | 0 <= j' < M && j' != k0
      ensures DirectScore(cipher, j') < DirectScore(cipher, k0)
    {
      ScoreAt(plain, cipher, k0, j');
    }
  }

  lemma ScoreAt(plain: string, cipher: string, k0: nat, j': nat)
    requires k0 < M && j' < M && j' != k0 && Encrypted(plain, cipher, k0)
    requires forall j :: 0 < j < M ==> DirectScore(plain, j) < DirectScore(plain, 0)
    ensures DirectScore(cipher, j') < DirectScore(cipher, k0)
  {
    var j := Shift(j', k0);
    ShiftBack(j', k0);
    ScoreShift(plain, cipher, k0, j, j');
    ScoreKeyIndex(plain, cipher, k0);
  }

  /** Under the key index itself, the encrypted column scores what the plaintext scores unshifted. */
  lemma ScoreKeyIndex(plain: string, cipher: string, k0: nat)
    requires k0 < M && Encrypted(plain, cipher, k0)
    ensures DirectScore(cipher, k0) == DirectScore(plain, 0)
  {
    ShiftBack(k0, k0);
    ScoreShift(plain, cipher, k0, 0, k0);
  }

  /** Undoing a shift: the key index that moves plaintext index `Shift(j', k0)` to `j'` is `k0`. */
  lemma ShiftBack(j': nat, k0: nat)
    requires j' < M && k0 < M
    ensures (Shift(j', k0) + k0) % M == j'
    ensures (0 + k0) % M == k0
    ensures Shift(j', k0) == 0 <==> j' == k0
  {
    DivModUnique(k0, M, 0, k0);
    DivModUnique(M, M, 1, 0);
  }
}
