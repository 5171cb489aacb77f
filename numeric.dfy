/** Exact-real arithmetic used throughout the scoring pipeline: Python's
    `round`, clamping, sums and means. Values are exact reals; the binary
    floating-point representation of the original is not modelled. */
module Numeric {

  /** Python's `round(y)`: the nearest integer, ties going to the even one. */
  function RoundHalfEven(y: real): (n: int)
    ensures -0.5 <= n as real - y <= 0.5
    ensures y.Floor as real == y ==> n == y.Floor
  {
    var f := y.Floor;
    var frac := y - f as real;
    if frac > 0.5 then f + 1
    else if frac < 0.5 then f
    else if f % 2 == 0 then f else f + 1
  }

  lemma RoundHalfEvenMonotone(x: real, y: real)
    requires x <= y
    ensures RoundHalfEven(x) <= RoundHalfEven(y)
  {
    var fx, fy := x.Floor, y.Floor;
    assert fx <= fy;
    if fx == fy {
      var ax, ay := x - fx as real, y - fy as real;
      assert ax <= ay;
      if ax == 0.5 && ay == 0.5 {
        assert x == y;
      }
    }
  }

  /** A value with at most one decimal: what `round(x, 1)` produces. */
  predicate OneDecimal(x: real) {
    (x * 10.0).Floor as real == x * 10.0
  }

  /** A value with at most two decimals: what `round(x, 2)` produces. */
  predicate TwoDecimals(x: real) {
    (x * 100.0).Floor as real == x * 100.0
  }

  /** Python's `round(x, 1)`. */
  function Round1(x: real): (r: real)
    ensures -0.05 <= r - x <= 0.05
    ensures OneDecimal(r)
    ensures OneDecimal(x) ==> r == x
  {
    var y := x * 10.0;
    var n := RoundHalfEven(y);
    var r := n as real / 10.0;
    assert r * 10.0 == n as real;
    assert r - x == (n as real - y) / 10.0;
    assert OneDecimal(x) ==> n as real == y;
    r
  }

  /** Python's `round(x, 2)`. */
  function Round2(x: real): (r: real)
    ensures -0.005 <= r - x <= 0.005
    ensures TwoDecimals(r)
    ensures TwoDecimals(x) ==> r == x
  {
    var y := x * 100.0;
    var n := RoundHalfEven(y);
    var r := n as real / 100.0;
    assert r * 100.0 == n as real;
    assert r - x == (n as real - y) / 100.0;
    assert TwoDecimals(x) ==> n as real == y;
    r
  }

  /** Python's `round(x, 4)`. */
  function Round4(x: real): (r: real)
    ensures -0.00005 <= r - x <= 0.00005
    ensures ((x * 10000.0).Floor as real == x * 10000.0) ==> r == x
  {
    var n := RoundHalfEven(x * 10000.0);
    n as real / 10000.0
  }

  lemma Round1Monotone(x: real, y: real)
    requires x <= y
    ensures Round1(x) <= Round1(y)
  {
    RoundHalfEvenMonotone(x * 10.0, y * 10.0);
  }

  lemma Round2Monotone(x: real, y: real)
    requires x <= y
    ensures Round2(x) <= Round2(y)
  {
    RoundHalfEvenMonotone(x * 100.0, y * 100.0);
  }

  /** Rounding to one decimal never leaves an interval whose ends have one decimal. */
  lemma Round1Within(x: real, lo: real, hi: real)
    requires OneDecimal(lo) && OneDecimal(hi)
    requires lo <= x <= hi
    ensures lo <= Round1(x) <= hi
  {
    Round1Monotone(lo, x);
    Round1Monotone(x, hi);
  }

  /** Rounding to two decimals keeps the sign, except that small values become 0. */
  lemma Round2Sign(x: real)
    ensures x >= 0.0 ==> Round2(x) >= 0.0
    ensures x <= 0.0 ==> Round2(x) <= 0.0
  {
    if x >= 0.0 { Round2Monotone(0.0, x); }
    if x <= 0.0 { Round2Monotone(x, 0.0); }
  }

  /** `max(lo, min(hi, x))`. */
  function Clamp(x: real, lo: real, hi: real): (r: real)
    requires lo <= hi
    ensures lo <= r <= hi
    ensures lo <= x <= hi ==> r == x
  {
    if x < lo then lo else if x > hi then hi else x
  }

  function Sum(xs: seq<real>): (s: real)
  {
    if xs == [] then 0.0 else Sum(xs[..|xs| - 1]) + xs[|xs| - 1]
  }

  predicate AllWithin(xs: seq<real>, lo: real, hi: real) {
    forall i :: 0 <= i < |xs| ==> lo <= xs[i] <= hi
  }

  lemma {:induction false} SumBounds(xs: seq<real>, lo: real, hi: real)
    requires AllWithin(xs, lo, hi)
    ensures |xs| as real * lo <= Sum(xs) <= |xs| as real * hi
  {
    if xs != [] {
      var init := xs[..|xs| - 1];
      assert AllWithin(init, lo, hi);
      SumBounds(init, lo, hi);
      assert |xs| as real * lo == |init| as real * lo + lo;
      assert |xs| as real * hi == |init| as real * hi + hi;
    }
  }

  /** numpy's `mean` of a non-empty list. */
  function Mean(xs: seq<real>): real
    requires |xs| > 0
  {
    Sum(xs) / |xs| as real
  }

  /** A mean lies between any common lower and upper bound of its terms. */
  lemma MeanWithin(xs: seq<real>, lo: real, hi: real)
    requires |xs| > 0
    requires AllWithin(xs, lo, hi)
    ensures lo <= Mean(xs) <= hi
  {
    SumBounds(xs, lo, hi);
    var n := |xs| as real;
    assert Mean(xs) * n == Sum(xs);
  }

  function Max(a: real, b: real): (r: real)
    ensures r >= a && r >= b && (r == a || r == b)
  {
    if a >= b then a else b
  }
}
