/**
 * `Math.round` applied to a ratio, in exact integer arithmetic.
 * `Math.round(x)` is the integer nearest to x with halves rounded up,
 * that is floor(x + 1/2); for a ratio a / b with b > 0 this is
 * floor((2a + b) / 2b), and Dafny's `/` by a positive divisor is floor division.
 */
module Rounding {

  /** `Math.round(a / b)`: the integer r with r - 1/2 <= a / b < r + 1/2. */
  function RoundDiv(a: int, b: int): (r: int)
    requires b > 0
    ensures 2 * b * r <= 2 * a + b < 2 * b * (r + 1)
  {
    var r := (2 * a + b) / (2 * b);
    DivBounds(2 * a + b, 2 * b);
    r
  }

  /** Euclidean division puts x between d * (x / d) and d * (x / d + 1). */
  lemma DivBounds(x: int, d: int)
    requires d > 0
    ensures d * (x / d) <= x < d * (x / d + 1)
  {
    assert x == d * (x / d) + x % d;
  }

  /** `Math.round(p / q * 100)`: a ratio of counts as a whole percentage. */
  function RoundPercent(p: nat, q: nat): (r: nat)
    requires q > 0
    ensures 2 * q * r <= 200 * p + q < 2 * q * (r + 1)
    ensures p <= q ==> r <= 100
  {
    var r := RoundDiv(100 * p, q);
    if p <= q then
      assert q * 100 - 100 * p == 100 * (q - p);
      RoundDivWithin(100 * p, q, 0, 100);
      r
    else
      r
  }

  /** Rounding a / b stays within [lo, hi] when the exact ratio does. */
  lemma RoundDivWithin(a: int, b: int, lo: int, hi: int)
    requires b > 0 && b * lo <= a <= b * hi
    ensures lo <= RoundDiv(a, b) <= hi
  {
    var r := RoundDiv(a, b);
    if r < lo {
      assert 2 * b * (r + 1) <= 2 * b * lo by { MulMono(2 * b, r + 1, lo); }
    }
    if r > hi {
      assert 2 * b * (hi + 1) <= 2 * b * r by { MulMono(2 * b, hi + 1, r); }
    }
  }

  lemma MulMono(c: int, x: int, y: int)
    requires c >= 0 && x <= y
    ensures c * x <= c * y
  {
    assert c * y - c * x == c * (y - x);
  }

  /** The percentage is 100 exactly when p / q is at least 99.5 %. */
  lemma PercentIsFull(p: nat, q: nat)
    requires 0 < q && p <= q
    ensures RoundPercent(p, q) == 100 <==> 200 * p >= 199 * q
  {
    var r := RoundPercent(p, q);
    if r == 100 {
      assert 200 * q <= 200 * p + q;
    } else {
      assert r <= 99;
      assert 2 * q * (r + 1) <= 2 * q * 100 by { MulMono(2 * q, r + 1, 100); }
    }
  }

  /** The percentage is 0 exactly when p / q is below 0.5 %. */
  lemma PercentIsZero(p: nat, q: nat)
    requires 0 < q
    ensures RoundPercent(p, q) == 0 <==> 200 * p < q
  {
    var r := RoundPercent(p, q);
    if r != 0 {
      assert 2 * q * 1 <= 2 * q * r by { MulMono(2 * q, 1, r); }
    }
  }

  /**
   * Below 200 the percentage is 100 only for p == q and 0 only for p == 0;
   * from 200 on, one miss can still round up to 100 and one hit down to 0.
   */
  lemma PercentExtremes(p: nat, q: nat)
    requires 0 < q < 200 && p <= q
    ensures RoundPercent(p, q) == 100 <==> p == q
    ensures RoundPercent(p, q) == 0 <==> p == 0
  {
    PercentIsFull(p, q);
    PercentIsZero(p, q);
    if p < q {
      assert 200 * p <= 200 * q - 200;
    }
  }
}
