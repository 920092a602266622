/** The interleaved columns of a text under a candidate key length. */
module Columns {

  /**
   * The characters at positions `pos`, `pos + keyLen`, `pos + 2 * keyLen`, ... in order: the loop
   * `for (let i = pos; i < n; i += keyLen)`.
   */
  function Column(s: string, pos: nat, keyLen: int): string
    requires keyLen >= 1
    decreases |s| - pos
  {
    if pos >= |s| then "" else [s[pos]] + Column(s, pos + keyLen, keyLen)
  }

  /** Euclidean division is determined by a quotient and a remainder in range. */
  lemma DivModUnique(t: int, k: int, q: int, r: int)
    requires k >= 1 && 0 <= r < k && t == q * k + r
    ensures t % k == r && t / k == q
  {
    var q0, r0 := t / k, t % k;
    assert t == q0 * k + r0 && 0 <= r0 < k;
    var m := q - q0;
    assert m * k == q * k - q0 * k;
    assert m * k == r0 - r;
    if m >= 1 {
      MulAtLeast(m, k);
    } else if m <= -1 {
      MulAtLeast(-m, k);
    }
  }

  lemma MulAtLeast(a: int, k: int)
    requires a >= 1 && k >= 1
    ensures a * k >= k
  {
    assert a * k == (a - 1) * k + k;
  }

  /** Appending a character extends exactly the column its position belongs to. */
  lemma {:induction false} ColumnSnoc(t: string, x: char, pos: nat, keyLen: int)
    requires keyLen >= 1
    ensures Column(t + [x], pos, keyLen)
      == Column(t, pos, keyLen) + (if |t| >= pos && (|t| - pos) % keyLen == 0 then [x] else [])
    decreases |t| - pos
  {
    if pos < |t| {
      ColumnSnoc(t, x, pos + keyLen, keyLen);
      assert (t + [x])[pos] == t[pos];
      var d := |t| - pos;
      if |t| >= pos + keyLen {
        DivModUnique(d, keyLen, (d - keyLen) / keyLen + 1, (d - keyLen) % keyLen);
      } else {
        DivModUnique(d, keyLen, 0, d);
      }
    } else if pos == |t| {
      assert Column(t + [x], pos + keyLen, keyLen) == "";
      DivModUnique(0, keyLen, 0, 0);
    }
  }

  /** For a column index below the key length, the positions of the column are those congruent to it. */
  lemma InColumn(t: nat, pos: nat, keyLen: int)
    requires 1 <= keyLen && pos < keyLen
    ensures (t >= pos && (t - pos) % keyLen == 0) <==> t % keyLen == pos
  {
    if t % keyLen == pos {
      DivModUnique(t - pos, keyLen, t / keyLen, 0);
    }
    if t >= pos && (t - pos) % keyLen == 0 {
      DivModUnique(t, keyLen, (t - pos) / keyLen, pos);
    }
  }
}
