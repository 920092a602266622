/** Facts about exact ratios of natural numbers, used for the frequency and coincidence statistics. */
module Reals {

  /** A count out of a positive total is a fraction in [0, 1]. */
  lemma RatioBounds(a: int, n: int)
    requires 0 <= a <= n && n > 0
    ensures 0.0 <= a as real / n as real <= 1.0
  {
    var x := a as real / n as real;
    assert x * n as real == a as real;
  }

  /** Ratios over a common denominator add like their numerators. */
  lemma RatioAdd(a: real, b: real, n: real)
    requires n > 0.0
    ensures a / n + b / n == (a + b) / n
  {
  }

  /** A positive total divided by itself is 1. */
  lemma RatioSelf(n: int)
    requires n > 0
    ensures n as real / n as real == 1.0
  {
  }

  /** A non-negative real no larger than a positive total is a fraction of it in [0, 1]. */
  lemma RealRatioBounds(a: real, n: real)
    requires 0.0 <= a <= n && n > 0.0
    ensures 0.0 <= a / n <= 1.0
  {
    var x := a / n;
    assert x * n == a;
  }
}
