/** Facts about row-major index arithmetic that the solver does not find on its own. */
module Arith {

  /** Division with remainder has exactly one answer. */
  lemma DivModUnique(k: nat, d: nat, q: nat, r: nat)
    requires d > 0 && r < d && k == q * d + r
    ensures k / d == q && k % d == r
  {
    var q', r' := k / d, k % d;
    assert k == q' * d + r';
    Gap(q', q, d);
    Gap(q, q', d);
  }

  /** Distinct multiples of `d` lie at least `d` apart. */
  lemma Gap(a: nat, b: nat, d: nat)
    ensures a < b ==> a * d + d <= b * d
  {
    if a < b {
      var e := b - a;
      assert b * d == (a + e) * d == a * d + e * d;
      assert e * d >= d;
    }
  }

  /** The row-major index of an in-range cell is in range. */
  lemma CellBound(rows: nat, columns: nat, row: nat, column: nat)
    requires row < rows && column < columns
    ensures row * columns + column < rows * columns
  {
    assert row * columns + column < row * columns + columns == (row + 1) * columns;
    assert (row + 1) * columns <= rows * columns;
  }

  /** A quotient is bounded by the number of whole blocks. */
  lemma DivBound(k: nat, d: nat, m: nat)
    requires d > 0 && k < m * d
    ensures k / d < m
  {
  }

  /** Stepping `k` by one either bumps the remainder or carries into the quotient. */
  lemma DivModSucc(k: nat, d: nat)
    requires d > 0
    ensures k % d + 1 < d ==> (k + 1) / d == k / d && (k + 1) % d == k % d + 1
    ensures k % d + 1 == d ==> (k + 1) / d == k / d + 1 && (k + 1) % d == 0
  {
    var q, r := k / d, k % d;
    assert k == q * d + r;
    if r + 1 < d {
      DivModUnique(k + 1, d, q, r + 1);
    } else {
      assert k + 1 == (q + 1) * d + 0;
      DivModUnique(k + 1, d, q + 1, 0);
    }
  }
}
