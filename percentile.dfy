/** The percentile engine: scipy's `percentileofscore(a, x, kind="rank")`
    and the 5-year `pct_rank` built on it (data/fetch_data.py:106-113). */
module Percentile {
  import opened TimeSeries

  /** Number of entries strictly below `x` (`np.count_nonzero(a < x)`). */
  function CountBelow(xs: seq<real>, x: real): (c: nat)
    ensures c <= |xs|
  {
    if xs == [] then 0
    else CountBelow(xs[..|xs| - 1], x) + (if xs[|xs| - 1] < x then 1 else 0)
  }

  /** Number of entries at most `x` (`np.count_nonzero(a <= x)`). */
  function CountAtMost(xs: seq<real>, x: real): (c: nat)
    ensures c <= |xs|
  {
    if xs == [] then 0
    else CountAtMost(xs[..|xs| - 1], x) + (if xs[|xs| - 1] <= x then 1 else 0)
  }

  lemma {:induction false} BelowAtMost(xs: seq<real>, x: real)
    ensures CountBelow(xs, x) <= CountAtMost(xs, x)
    ensures x in xs ==> CountBelow(xs, x) < CountAtMost(xs, x)
  {
    if xs != [] {
      var init := xs[..|xs| - 1];
      BelowAtMost(init, x);
      assert xs == init + [xs[|xs| - 1]];
    }
  }

  lemma {:induction false} CountsMonotone(xs: seq<real>, x: real, y: real)
    requires x <= y
    ensures CountBelow(xs, x) <= CountBelow(xs, y)
    ensures CountAtMost(xs, x) <= CountAtMost(xs, y)
    ensures x < y ==> CountAtMost(xs, x) <= CountBelow(xs, y)
  {
    if xs != [] {
      CountsMonotone(xs[..|xs| - 1], x, y);
    }
  }

  /** Every entry is below `x` exactly when all of them are counted. */
  lemma {:induction false} AllBelow(xs: seq<real>, x: real)
    ensures CountBelow(xs, x) == |xs| <==> forall i :: 0 <= i < |xs| ==> xs[i] < x
  {
    if xs != [] {
      var init := xs[..|xs| - 1];
      AllBelow(init, x);
      if CountBelow(xs, x) == |xs| {
        assert CountBelow(init, x) == |init|;
        forall i | 0 <= i < |xs| ensures xs[i] < x {
          if i < |init| { assert xs[i] == init[i]; }
        }
      }
      if forall i :: 0 <= i < |xs| ==> xs[i] < x {
        assert forall i :: 0 <= i < |init| ==> init[i] < x by {
          forall i | 0 <= i < |init| ensures init[i] < x { assert init[i] == xs[i]; }
        }
      }
    }
  }

  lemma CountsSnoc(init: seq<real>, v: real, x: real)
    ensures CountBelow(init + [v], x) == CountBelow(init, x) + (if v < x then 1 else 0)
    ensures CountAtMost(init + [v], x) == CountAtMost(init, x) + (if v <= x then 1 else 0)
  {
    assert (init + [v])[..|init|] == init;
  }

  /** The rank-kind percentile numerator: left + right + (1 if right > left). */
  function RankNumerator(xs: seq<real>, x: real): (k: nat)
    ensures k <= 2 * |xs|
    ensures x in xs ==> k > 0
  {
    var left := CountBelow(xs, x);
    var right := CountAtMost(xs, x);
    BelowAtMost(xs, x);
    left + right + (if left < right then 1 else 0)
  }

  /** scipy `percentileofscore(xs, x, kind="rank")`:
      (left + right + (1 if right > left else 0)) * (50 / n). */
  function PercentileOfScore(xs: seq<real>, x: real): (p: real)
    requires |xs| > 0
    ensures 0.0 <= p <= 100.0
  {
    Scaled(RankNumerator(xs, x), 0, |xs|);
    Scale(RankNumerator(xs, x), |xs|)
  }

  /** k * (50 / n): a numerator over a window of n values, as a percentage. */
  function Scale(k: nat, n: nat): real
    requires n > 0
  {
    k as real * (50.0 / n as real)
  }

  lemma Scaled(k: nat, m: nat, n: nat)
    requires n > 0
    ensures k <= m ==> Scale(k, n) <= Scale(m, n)
    ensures k < m ==> Scale(k, n) < Scale(m, n)
    ensures k == 2 * n <==> Scale(k, n) == 100.0
    ensures k <= 2 * n ==> Scale(k, n) <= 100.0
    ensures k > 0 ==> Scale(k, n) > 0.0
  {
    var c := 50.0 / n as real;
    assert c * n as real == 50.0;
    assert c > 0.0;
    assert (2 * n) as real * c == 100.0;
    if k as real * c == 100.0 {
      assert k as real * c == (2 * n) as real * c;
      assert (k as real - (2 * n) as real) * c == 0.0;
    }
  }

  /** A value of the window itself ranks in (0, 100]. */
  lemma RankOfMember(xs: seq<real>, x: real)
    requires x in xs
    ensures 0.0 < PercentileOfScore(xs, x) <= 100.0
  {
    BelowAtMost(xs, x);
    Scaled(RankNumerator(xs, x), 0, |xs|);
  }

  /** A higher value never ranks lower, within any window. */
  lemma PercentileMonotone(xs: seq<real>, x: real, y: real)
    requires |xs| > 0 && x <= y
    ensures PercentileOfScore(xs, x) <= PercentileOfScore(xs, y)
  {
    CountsMonotone(xs, x, y);
    BelowAtMost(xs, x);
    BelowAtMost(xs, y);
    var kx, ky := RankNumerator(xs, x), RankNumerator(xs, y);
    assert kx <= ky;
    Scaled(kx, ky, |xs|);
  }

  /** Between two values of the window, the larger ranks strictly higher. */
  lemma PercentileStrictOnMembers(xs: seq<real>, x: real, y: real)
    requires x in xs && y in xs && x < y
    ensures PercentileOfScore(xs, x) < PercentileOfScore(xs, y)
  {
    CountsMonotone(xs, x, y);
    BelowAtMost(xs, x);
    BelowAtMost(xs, y);
    var kx, ky := RankNumerator(xs, x), RankNumerator(xs, y);
    assert kx < ky;
    Scaled(kx, ky, |xs|);
  }

  /** The last value of a window ranks 100 exactly when it is above every
      earlier value of the window. */
  lemma {:induction false} LastRanksHundred(init: seq<real>, x: real)
    ensures PercentileOfScore(init + [x], x) == 100.0 <==> forall i :: 0 <= i < |init| ==> init[i] < x
  {
    var xs := init + [x];
    assert xs[..|xs| - 1] == init;
    assert CountBelow(xs, x) == CountBelow(init, x);
    assert CountAtMost(xs, x) == CountAtMost(init, x) + 1;
    BelowAtMost(init, x);
    AllBelow(init, x);
    Scaled(RankNumerator(xs, x), 0, |xs|);
  }

  /** `pct_rank`: the percentile of the latest value within the points dated
      on or after `cutoff`; 50 when fewer than two such points exist. */
  function PctRank(s: Series, cutoff: int): (r: real)
    ensures |Window(s, cutoff)| < 2 ==> r == 50.0
    ensures 0.0 < r <= 100.0
  {
    var hist := Values(Window(s, cutoff));
    if |hist| < 2 then 50.0
    else
      RankOfMember(hist, hist[|hist| - 1]);
      PercentileOfScore(hist, hist[|hist| - 1])
  }

  /** The latest point of a series ranks 100 among the series' values
      exactly when it is above every earlier point. */
  lemma LatestRanksHundred(w: Series)
    requires |w| >= 2
    ensures PercentileOfScore(Values(w), w[|w| - 1].value) == 100.0 <==>
              forall i :: 0 <= i < |w| - 1 ==> w[i].value < w[|w| - 1].value
  {
    var hist := Values(w);
    var last := w[|w| - 1].value;
    var init := hist[..|hist| - 1];
    assert hist == init + [last];
    LastRanksHundred(init, last);
    assert forall i :: 0 <= i < |init| ==> init[i] == w[i].value;
  }

  /** `pct_rank` reaches 100 exactly when the latest value is a strict high
      of the window. */
  lemma PctRankHundred(s: Series, cutoff: int)
    requires |Window(s, cutoff)| >= 2
    ensures var w := Window(s, cutoff);
            PctRank(s, cutoff) == 100.0 <==>
              forall i :: 0 <= i < |w| - 1 ==> w[i].value < w[|w| - 1].value
  {
    var w := Window(s, cutoff);
    assert PctRank(s, cutoff) == PercentileOfScore(Values(w), w[|w| - 1].value);
    LatestRanksHundred(w);
  }

  /** scipy's documented example: 3 in [1, 2, 3, 4] ranks 75. */
  lemma ScipyExample()
    ensures PercentileOfScore([1.0, 2.0, 3.0, 4.0], 3.0) == 75.0
  {
    assert CountBelow([1.0], 3.0) == 1 && CountAtMost([1.0], 3.0) == 1 by {
      CountsSnoc([], 1.0, 3.0);
      assert [] + [1.0] == [1.0];
    }
    assert CountBelow([1.0, 2.0], 3.0) == 2 && CountAtMost([1.0, 2.0], 3.0) == 2 by {
      CountsSnoc([1.0], 2.0, 3.0);
      assert [1.0] + [2.0] == [1.0, 2.0];
    }
    assert CountBelow([1.0, 2.0, 3.0], 3.0) == 2 && CountAtMost([1.0, 2.0, 3.0], 3.0) == 3 by {
      CountsSnoc([1.0, 2.0], 3.0, 3.0);
      assert [1.0, 2.0] + [3.0] == [1.0, 2.0, 3.0];
    }
    assert CountBelow([1.0, 2.0, 3.0, 4.0], 3.0) == 2 && CountAtMost([1.0, 2.0, 3.0, 4.0], 3.0) == 3 by {
      CountsSnoc([1.0, 2.0, 3.0], 4.0, 3.0);
      assert [1.0, 2.0, 3.0] + [4.0] == [1.0, 2.0, 3.0, 4.0];
    }
    assert Scale(6, 4) == 75.0;
  }

  /** The median of five distinct values ranks 60 (not 50). */
  lemma DistinctWindowExample()
    ensures PercentileOfScore([10.0, 20.0, 30.0, 40.0, 50.0], 30.0) == 60.0
  {
    assert CountBelow([10.0], 30.0) == 1 && CountAtMost([10.0], 30.0) == 1 by {
      CountsSnoc([], 10.0, 30.0);
      assert [] + [10.0] == [10.0];
    }
    assert CountBelow([10.0, 20.0], 30.0) == 2 && CountAtMost([10.0, 20.0], 30.0) == 2 by {
      CountsSnoc([10.0], 20.0, 30.0);
      assert [10.0] + [20.0] == [10.0, 20.0];
    }
    assert CountBelow([10.0, 20.0, 30.0], 30.0) == 2 && CountAtMost([10.0, 20.0, 30.0], 30.0) == 3 by {
      CountsSnoc([10.0, 20.0], 30.0, 30.0);
      assert [10.0, 20.0] + [30.0] == [10.0, 20.0, 30.0];
    }
    assert CountBelow([10.0, 20.0, 30.0, 40.0], 30.0) == 2 && CountAtMost([10.0, 20.0, 30.0, 40.0], 30.0) == 3 by {
      CountsSnoc([10.0, 20.0, 30.0], 40.0, 30.0);
      assert [10.0, 20.0, 30.0] + [40.0] == [10.0, 20.0, 30.0, 40.0];
    }
    assert CountBelow([10.0, 20.0, 30.0, 40.0, 50.0], 30.0) == 2 && CountAtMost([10.0, 20.0, 30.0, 40.0, 50.0], 30.0) == 3 by {
      CountsSnoc([10.0, 20.0, 30.0, 40.0], 50.0, 30.0);
      assert [10.0, 20.0, 30.0, 40.0] + [50.0] == [10.0, 20.0, 30.0, 40.0, 50.0];
    }
    assert Scale(6, 5) == 60.0;
  }

  /** Both copies of a repeated value share one rank, 62.5 here. */
  lemma TiedWindowExample()
    ensures PercentileOfScore([10.0, 20.0, 20.0, 30.0], 20.0) == 62.5
  {
    assert CountBelow([10.0], 20.0) == 1 && CountAtMost([10.0], 20.0) == 1 by {
      CountsSnoc([], 10.0, 20.0);
      assert [] + [10.0] == [10.0];
    }
    assert CountBelow([10.0, 20.0], 20.0) == 1 && CountAtMost([10.0, 20.0], 20.0) == 2 by {
      CountsSnoc([10.0], 20.0, 20.0);
      assert [10.0] + [20.0] == [10.0, 20.0];
    }
    assert CountBelow([10.0, 20.0, 20.0], 20.0) == 1 && CountAtMost([10.0, 20.0, 20.0], 20.0) == 3 by {
      CountsSnoc([10.0, 20.0], 20.0, 20.0);
      assert [10.0, 20.0] + [20.0] == [10.0, 20.0, 20.0];
    }
    assert CountBelow([10.0, 20.0, 20.0, 30.0], 20.0) == 1 && CountAtMost([10.0, 20.0, 20.0, 30.0], 20.0) == 3 by {
      CountsSnoc([10.0, 20.0, 20.0], 30.0, 20.0);
      assert [10.0, 20.0, 20.0] + [30.0] == [10.0, 20.0, 20.0, 30.0];
    }
    assert Scale(5, 4) == 62.5;
  }
}
