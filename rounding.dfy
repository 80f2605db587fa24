/**
 * `Math.round(n / d)` for integers `n` and `d > 0`. `Math.round` rounds to
 * the nearest integer and sends halves towards +infinity, so on the exact
 * rational n/d it is floor(n/d + 1/2) = floor((2n + d) / 2d).
 */
module Rounding {

  /** The integer nearest to n/d, halves rounded up. */
  function RoundDiv(n: int, d: int): (r: int)
    requires d > 0
    ensures 2 * d * r <= 2 * n + d < 2 * d * (r + 1)
  {
    (2 * n + d) / (2 * d)
  }

  /** The defining inequalities single out one integer. */
  lemma RoundDivUnique(n: int, d: int, r: int)
    requires d > 0
    requires 2 * d * r <= 2 * n + d < 2 * d * (r + 1)
    ensures r == RoundDiv(n, d)
  {
    var q := RoundDiv(n, d);
    if r < q {
      assert 2 * d * (r + 1) <= 2 * d * q by { MulMono(2 * d, r + 1, q); }
    } else if r > q {
      assert 2 * d * (q + 1) <= 2 * d * r by { MulMono(2 * d, q + 1, r); }
    }
  }

  lemma MulMono(c: int, x: int, y: int)
    requires c > 0 && x <= y
    ensures c * x <= c * y
  {
  }

  /** Rounding a value that lies between lo and hi stays between lo and hi. */
  lemma RoundDivBounds(n: int, d: int, lo: int, hi: int)
    requires d > 0
    requires lo * d <= n <= hi * d
    ensures lo <= RoundDiv(n, d) <= hi
  {
    var r := RoundDiv(n, d);
    if r > hi {
      MulMono(2 * d, hi + 1, r);
    }
    if r < lo {
      MulMono(2 * d, r + 1, lo);
    }
  }

  /** Scaling numerator and denominator alike does not change the rounded quotient. */
  lemma RoundDivScale(n: int, d: int, k: int)
    requires d > 0 && k > 0
    ensures RoundDiv(k * n, k * d) == RoundDiv(n, d)
  {
    var r := RoundDiv(n, d);
    assert 2 * (k * d) * r == k * (2 * d * r);
    assert 2 * (k * n) + k * d == k * (2 * n + d);
    assert 2 * (k * d) * (r + 1) == k * (2 * d * (r + 1));
    MulMono(k, 2 * d * r, 2 * n + d);
    MulMono(k, 2 * n + d + 1, 2 * d * (r + 1));
    RoundDivUnique(k * n, k * d, r);
  }
}
