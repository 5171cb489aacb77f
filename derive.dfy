/** Derived factor series: date-aligned arithmetic on two or three input
    series, the positional momentum and the lower clip
    (data/fetch_data.py:280-343, the non-transcendental part). */
module Derive {
  import opened Numeric
  import opened Wrappers
  import opened TimeSeries

  /** `f(a, b)` on the days both series record, in the order of `a`: what
      index-aligned arithmetic leaves once the missing rows are dropped
      (the factor builders drop them before scoring). */
  function Join(a: Series, b: Series, f: (real, real) -> real): (r: Series)
    ensures |r| <= |a|
    ensures forall p :: p in r ==> exists i :: 0 <= i < |a| && a[i].day == p.day
  {
    if a == [] then []
    else
      var rest := Join(a[1..], b, f);
      assert forall p :: p in rest ==> exists i :: 0 <= i < |a| && a[i].day == p.day by {
        forall p | p in rest ensures exists i :: 0 <= i < |a| && a[i].day == p.day {
          var i :| 0 <= i < |a[1..]| && a[1..][i].day == p.day;
          assert a[i + 1].day == p.day;
        }
      }
      match Lookup(b, a[0].day)
      case Some(v) => [Point(a[0].day, f(a[0].value, v))] + rest
      case None => rest
  }

  /** A join of an increasing series stays increasing. */
  lemma {:induction false} JoinIncreasing(a: Series, b: Series, f: (real, real) -> real)
    requires Increasing(a)
    ensures Increasing(Join(a, b, f))
  {
    if a != [] {
      assert Increasing(a[1..]);
      JoinIncreasing(a[1..], b, f);
      var rest := Join(a[1..], b, f);
      forall j | 0 <= j < |rest| ensures a[0].day < rest[j].day {
        assert rest[j] in rest;
        var i :| 0 <= i < |a[1..]| && a[1..][i].day == rest[j].day;
        assert a[i + 1] == a[1..][i];
      }
    }
  }

  /** A day is in the join exactly when both series record it, and the
      joined value is `f` of the two recorded values. */
  lemma {:induction false} JoinRecords(a: Series, b: Series, f: (real, real) -> real, d: int)
    requires Increasing(a)
    ensures Lookup(Join(a, b, f), d).Some? <==> Lookup(a, d).Some? && Lookup(b, d).Some?
    ensures Lookup(Join(a, b, f), d).Some? ==>
              Lookup(Join(a, b, f), d).value == f(Lookup(a, d).value, Lookup(b, d).value)
  {
    if a != [] {
      assert Increasing(a[1..]);
      JoinRecords(a[1..], b, f, d);
      JoinIncreasing(a[1..], b, f);
      var rest := Join(a[1..], b, f);
      LookupCons(a, d);
      if d == a[0].day {
        // no later point of `a` and so no point of `rest` is dated d
        assert Lookup(a[1..], d).None? by {
          forall i | 0 <= i < |a[1..]| ensures a[1..][i].day != d {
            assert a[1..][i] == a[i + 1];
          }
        }
        match Lookup(b, d)
        case Some(v) =>
          LookupCons([Point(d, f(a[0].value, v))] + rest, d);
        case None =>
      } else {
        match Lookup(b, a[0].day)
        case Some(v) =>
          var r := [Point(a[0].day, f(a[0].value, v))] + rest;
          LookupCons(r, d);
          assert r[1..] == rest;
        case None =>
      }
    }
  }

  /** Lookup on a non-empty series: the first point, else the rest. */
  lemma LookupCons(s: Series, d: int)
    requires s != []
    ensures Lookup(s, d) == if s[0].day == d then Some(s[0].value) else Lookup(s[1..], d)
  {
  }

  /** `a - b` on shared days (the spreads and frictions). */
  function Spread(a: Series, b: Series): (r: Series)
    ensures |r| <= |a|
    ensures Increasing(a) ==> Increasing(r)
  {
    if Increasing(a) then
      JoinIncreasing(a, b, (x, y) => x - y);
      Join(a, b, (x, y) => x - y)
    else Join(a, b, (x, y) => x - y)
  }

  /** The spread is antisymmetric: on every day both record, swapping the
      two inputs negates it. */
  lemma SpreadAntisymmetric(a: Series, b: Series, d: int)
    requires Increasing(a) && Increasing(b)
    ensures Lookup(Spread(a, b), d).Some? <==> Lookup(Spread(b, a), d).Some?
    ensures Lookup(Spread(a, b), d).Some? ==> Lookup(Spread(a, b), d).value == -Lookup(Spread(b, a), d).value
  {
    JoinRecords(a, b, (x, y) => x - y, d);
    JoinRecords(b, a, (x, y) => x - y, d);
  }

  /** Fed net liquidity in $B: total assets and the TGA (both in $M) over
      1000, minus ON RRP (already in $B), on the days all three record. */
  function NetLiquidity(walcl: Series, wdtgal: Series, rrp: Series): (r: Series)
    ensures |r| <= |walcl|
    ensures Increasing(walcl) ==> Increasing(r)
  {
    if Increasing(walcl) then
      ScaleIncreasing(walcl, 1000.0);
      Spread(Spread(Scale(walcl, 1000.0), Scale(wdtgal, 1000.0)), rrp)
    else Spread(Spread(Scale(walcl, 1000.0), Scale(wdtgal, 1000.0)), rrp)
  }

  /** Net liquidity is recorded exactly on the days all three inputs are,
      and is there total assets / 1000 - TGA / 1000 - ON RRP. */
  lemma NetLiquidityValue(walcl: Series, wdtgal: Series, rrp: Series, d: int)
    requires Increasing(walcl)
    ensures Lookup(NetLiquidity(walcl, wdtgal, rrp), d).Some? <==>
              Lookup(walcl, d).Some? && Lookup(wdtgal, d).Some? && Lookup(rrp, d).Some?
    ensures Lookup(NetLiquidity(walcl, wdtgal, rrp), d).Some? ==>
              Lookup(NetLiquidity(walcl, wdtgal, rrp), d).value ==
                Lookup(walcl, d).value / 1000.0 - Lookup(wdtgal, d).value / 1000.0 - Lookup(rrp, d).value
  {
    var a, b := Scale(walcl, 1000.0), Scale(wdtgal, 1000.0);
    ScaleIncreasing(walcl, 1000.0);
    LookupScale(walcl, 1000.0, d);
    LookupScale(wdtgal, 1000.0, d);
    JoinRecords(a, b, (x, y) => x - y, d);
    JoinIncreasing(a, b, (x, y) => x - y);
    JoinRecords(Spread(a, b), rrp, (x, y) => x - y, d);
  }

  /** Scaling keeps the dates, so it keeps date order. */
  lemma ScaleIncreasing(s: Series, k: real)
    requires k != 0.0 && Increasing(s)
    ensures Increasing(Scale(s, k))
  {
    var r := Scale(s, k);
    forall i, j | 0 <= i < j < |r| ensures r[i].day < r[j].day {
      assert r[i].day == Days(r)[i] == Days(s)[i] == s[i].day;
      assert r[j].day == Days(r)[j] == Days(s)[j] == s[j].day;
    }
  }

  /** A scaled series records the same days, each value divided by k. */
  lemma {:induction false} LookupScale(s: Series, k: real, d: int)
    requires k != 0.0
    ensures Lookup(Scale(s, k), d).Some? <==> Lookup(s, d).Some?
    ensures Lookup(s, d).Some? ==> Lookup(Scale(s, k), d).value == Lookup(s, d).value / k
  {
    if s != [] {
      var r := Scale(s, k);
      assert r[0] == Point(s[0].day, s[0].value / k) by {
        assert r[0].day == Days(r)[0] == Days(s)[0];
      }
      assert r[1..] == Scale(s[1..], k) by {
        var t := Scale(s[1..], k);
        forall i | 0 <= i < |t| ensures r[1..][i] == t[i] {
          assert r[i + 1].day == Days(r)[i + 1] == Days(s)[i + 1] == s[i + 1].day;
          assert t[i].day == Days(t)[i] == Days(s[1..])[i] == s[i + 1].day;
        }
      }
      LookupScale(s[1..], k, d);
      LookupCons(s, d);
      LookupCons(r, d);
    }
  }

  /** Every value divided by `k` (a unit conversion). */
  function Scale(s: Series, k: real): (r: Series)
    requires k != 0.0
    ensures |r| == |s| && Days(r) == Days(s)
    ensures forall i :: 0 <= i < |s| ==> r[i].value == s[i].value / k
  {
    seq(|s|, i requires 0 <= i < |s| => Point(s[i].day, s[i].value / k))
  }

  /** The real rate level: 0.6 of the 5-year plus 0.4 of the 10-year rate. */
  function RealLevel(dfii5: Series, dfii10: Series): (r: Series)
    ensures |r| <= |dfii5|
    ensures Increasing(dfii5) ==> Increasing(r)
  {
    if Increasing(dfii5) then
      JoinIncreasing(dfii5, dfii10, (x, y) => 0.6 * x + 0.4 * y);
      Join(dfii5, dfii10, (x, y) => 0.6 * x + 0.4 * y)
    else Join(dfii5, dfii10, (x, y) => 0.6 * x + 0.4 * y)
  }

  /** The real rate level lies between the two rates it blends. */
  lemma RealLevelBetween(dfii5: Series, dfii10: Series, d: int)
    requires Increasing(dfii5)
    requires Lookup(dfii5, d).Some? && Lookup(dfii10, d).Some?
    ensures Lookup(RealLevel(dfii5, dfii10), d).Some?
    ensures var x, y, r := Lookup(dfii5, d).value, Lookup(dfii10, d).value, Lookup(RealLevel(dfii5, dfii10), d).value;
            (if x <= y then x else y) <= r <= (if x <= y then y else x)
  {
    JoinRecords(dfii5, dfii10, (x, y) => 0.6 * x + 0.4 * y, d);
  }

  function Abs(x: real): (r: real)
    ensures r >= 0.0 && (r == x || r == -x)
  {
    if x >= 0.0 then x else -x
  }

  /** Curve curvature: |2 * 10Y - 2Y - 30Y| on the days all three record. */
  function Curvature(dgs10: Series, dgs2: Series, dgs30: Series): (r: Series)
    ensures forall p :: p in r ==> p.value >= 0.0
  {
    var partial := Join(dgs10, dgs2, Bend);
    var r := Join(partial, dgs30, AbsDiff);
    CurvatureNonNegative(partial, dgs30);
    r
  }

  /** `2 * 10Y - 2Y`, the first step of the curvature. */
  function Bend(x: real, y: real): real {
    2.0 * x - y
  }

  function AbsDiff(x: real, z: real): real {
    Abs(x - z)
  }

  lemma {:induction false} CurvatureNonNegative(partial: Series, dgs30: Series)
    ensures forall p :: p in Join(partial, dgs30, AbsDiff) ==> p.value >= 0.0
  {
    if partial != [] {
      CurvatureNonNegative(partial[1..], dgs30);
    }
  }

  /** `s - s.shift(k)`, rows without a value k positions back dropped: the
      change over k observations, for every point from position k on. */
  method Momentum(s: Series, k: nat) returns (r: Series)
    ensures |r| == if |s| > k then |s| - k else 0
    ensures forall i :: 0 <= i < |r| ==> r[i] == Point(s[i + k].day, s[i + k].value - s[i].value)
    ensures Increasing(s) ==> Increasing(r)
  {
    r := [];
    var i := k;
    while i < |s|
      invariant k <= i <= if |s| > k then |s| else k
      invariant |r| == i - k
      invariant forall j :: 0 <= j < |r| ==> r[j] == Point(s[j + k].day, s[j + k].value - s[j].value)
    {
      r := r + [Point(s[i].day, s[i].value - s[i - k].value)];
      i := i + 1;
    }
    if Increasing(s) {
      forall i, j | 0 <= i < j < |r| ensures r[i].day < r[j].day {
        assert r[i].day == s[i + k].day && r[j].day == s[j + k].day;
      }
    }
  }

  /** |2 * 10Y - 2Y - 30Y| for one day's three yields. */
  function CurvatureOf(y10: real, y2: real, y30: real): real {
    Abs(2.0 * y10 - y2 - y30)
  }

  /** The two aligned steps of `Curvature` compute `CurvatureOf`. */
  lemma CurvatureSteps(y10: real, y2: real, y30: real)
    ensures AbsDiff(Bend(y10, y2), y30) == CurvatureOf(y10, y2, y30)
  {
    assert Bend(y10, y2) - y30 == 2.0 * y10 - y2 - y30;
  }

  /** On a day all three yields record, the curvature is recorded and is
      |2 * 10Y - 2Y - 30Y|; on any other day it is not. */
  lemma CurvatureValue(dgs10: Series, dgs2: Series, dgs30: Series, d: int)
    requires Increasing(dgs10)
    ensures Lookup(Curvature(dgs10, dgs2, dgs30), d).Some? <==>
              Lookup(dgs10, d).Some? && Lookup(dgs2, d).Some? && Lookup(dgs30, d).Some?
    ensures Lookup(Curvature(dgs10, dgs2, dgs30), d).Some? ==>
              Lookup(Curvature(dgs10, dgs2, dgs30), d).value ==
                CurvatureOf(Lookup(dgs10, d).value, Lookup(dgs2, d).value, Lookup(dgs30, d).value)
  {
    var partial := Join(dgs10, dgs2, Bend);
    JoinRecords(dgs10, dgs2, Bend, d);
    JoinIncreasing(dgs10, dgs2, Bend);
    JoinRecords(partial, dgs30, AbsDiff, d);
    assert Curvature(dgs10, dgs2, dgs30) == Join(partial, dgs30, AbsDiff);
    if Lookup(Curvature(dgs10, dgs2, dgs30), d).Some? {
      CurvatureSteps(Lookup(dgs10, d).value, Lookup(dgs2, d).value, Lookup(dgs30, d).value);
    }
  }

  /** No value of the series is zero. */
  predicate NonZero(s: Series) {
    forall i :: 0 <= i < |s| ==> s[i].value != 0.0
  }

  /** `x / y`; a zero `y` never reaches it from `VixTermStructure`. */
  function Ratio(x: real, y: real): (q: real)
    ensures y != 0.0 ==> q * y == x
  {
    if y == 0.0 then 0.0 else x / y
  }

  /** The VIX term structure `vix / vix3m` on the days both record. */
  function VixTermStructure(vix: Series, vix3m: Series): (r: Series)
    requires NonZero(vix3m)
    ensures |r| <= |vix|
    ensures Increasing(vix) ==> Increasing(r)
  {
    if Increasing(vix) then
      JoinIncreasing(vix, vix3m, Ratio);
      Join(vix, vix3m, Ratio)
    else Join(vix, vix3m, Ratio)
  }

  /** The term structure is recorded exactly on the days both indices are,
      and there VIX3M is nonzero and the value is VIX / VIX3M. */
  lemma VixTermValue(vix: Series, vix3m: Series, d: int)
    requires Increasing(vix) && NonZero(vix3m)
    ensures Lookup(VixTermStructure(vix, vix3m), d).Some? <==> Lookup(vix, d).Some? && Lookup(vix3m, d).Some?
    ensures Lookup(VixTermStructure(vix, vix3m), d).Some? ==>
              Lookup(vix3m, d).value != 0.0 &&
              Lookup(VixTermStructure(vix, vix3m), d).value == Ratio(Lookup(vix, d).value, Lookup(vix3m, d).value)
  {
    JoinRecords(vix, vix3m, Ratio, d);
    assert VixTermStructure(vix, vix3m) == Join(vix, vix3m, Ratio);
    if Lookup(VixTermStructure(vix, vix3m), d).Some? {
      var i :| 0 <= i < |vix3m| && vix3m[i].day == d && vix3m[i].value == Lookup(vix3m, d).value;
    }
  }

  /** `clip(lower=0)`: negative values become 0. */
  function ClipLower(s: Series): (r: Series)
    ensures |r| == |s| && Days(r) == Days(s)
    ensures forall i :: 0 <= i < |s| ==> r[i].value >= 0.0
    ensures forall i :: 0 <= i < |s| ==> s[i].value >= 0.0 ==> r[i].value == s[i].value
  {
    seq(|s|, i requires 0 <= i < |s| => Point(s[i].day, if s[i].value < 0.0 then 0.0 else s[i].value))
  }
}
