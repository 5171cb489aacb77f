/** The index aggregator: the overall score, previous score, history,
    percentile and trend (data/fetch_data.py:49-57, 570-616). */
module IndexAggregator {
  import opened Numeric
  import opened TimeSeries
  import opened Percentile
  import opened Scorer
  import opened ModuleAggregator

  /** One entry of the module weight table. */
  datatype Weight = Weight(slug: string, w: real)

  /** MODULE_WEIGHTS, in table order. */
  const ModuleWeights: seq<Weight> := [
    Weight("liquidity", 0.20),
    Weight("funding", 0.18),
    Weight("treasury", 0.15),
    Weight("rates", 0.15),
    Weight("credit", 0.15),
    Weight("risk", 0.12),
    Weight("external", 0.05)
  ]

  predicate NonNegative(ws: seq<Weight>) {
    forall k :: 0 <= k < |ws| ==> ws[k].w >= 0.0
  }

  function TotalWeight(ws: seq<Weight>): real {
    if ws == [] then 0.0 else TotalWeight(ws[..|ws| - 1]) + ws[|ws| - 1].w
  }

  /** The weight table is non-negative and sums to exactly 1. */
  lemma ModuleWeightsSumToOne()
    ensures NonNegative(ModuleWeights)
    ensures TotalWeight(ModuleWeights) == 1.0
    ensures WeightTable(ModuleWeights)
  {
    var ws := ModuleWeights;
    var p := [];
    for k := 0 to |ws|
      invariant p == ws[..k]
      invariant TotalWeight(p) == PartialTotals[k]
    {
      assert (p + [ws[k]])[..|p|] == p;
      p := p + [ws[k]];
    }
    assert p == ws;
  }

  /** A weight table the index can use: no negative weight, total exactly 1. */
  predicate WeightTable(ws: seq<Weight>) {
    NonNegative(ws) && TotalWeight(ws) == 1.0
  }

  /** The running totals of the weight table. */
  const PartialTotals: seq<real> := [0.0, 0.20, 0.38, 0.53, 0.68, 0.83, 0.95, 1.0]

  /** `sum(vals[slug] * w for slug, w in weights if slug in vals)`. */
  function WeightedSum(ws: seq<Weight>, vals: map<string, real>): (sum: real)
    ensures |vals| == 0 ==> sum == 0.0
  {
    if ws == [] then 0.0
    else
      var last := ws[|ws| - 1];
      WeightedSum(ws[..|ws| - 1], vals) + (if last.slug in vals then vals[last.slug] * last.w else 0.0)
  }

  /** The total weight of the entries whose slug has a value. */
  function PresentWeight(ws: seq<Weight>, vals: map<string, real>): (p: real)
    ensures NonNegative(ws) ==> 0.0 <= p <= TotalWeight(ws)
  {
    if ws == [] then 0.0
    else
      var last := ws[|ws| - 1];
      assert NonNegative(ws) ==> NonNegative(ws[..|ws| - 1]);
      PresentWeight(ws[..|ws| - 1], vals) + (if last.slug in vals then last.w else 0.0)
  }

  lemma MulNonNegative(a: real, b: real)
    requires a >= 0.0 && b >= 0.0
    ensures a * b >= 0.0
  {
  }

  /** A product of a score in [0, 100] and a non-negative weight. */
  lemma WeightedTerm(v: real, w: real)
    requires w >= 0.0 && 0.0 <= v <= 100.0
    ensures 0.0 <= v * w <= 100.0 * w
  {
    MulNonNegative(v, w);
    MulNonNegative(100.0 - v, w);
  }

  /** One more present module keeps the sum within 100 times the weight. */
  lemma WeightedStep(s0: real, p0: real, v: real, w: real)
    requires 0.0 <= s0 <= 100.0 * p0
    requires w >= 0.0 && 0.0 <= v <= 100.0
    ensures 0.0 <= s0 + v * w <= 100.0 * (p0 + w)
  {
    WeightedTerm(v, w);
  }

  /** With non-negative weights, the weighted sum of scores in [0, 100] lies
      between 0 and 100 times the weight of the scores present. */
  lemma {:induction false} WeightedSumBounds(ws: seq<Weight>, vals: map<string, real>)
    requires NonNegative(ws)
    requires forall s :: s in vals ==> 0.0 <= vals[s] <= 100.0
    ensures 0.0 <= WeightedSum(ws, vals) <= 100.0 * PresentWeight(ws, vals)
  {
    if ws != [] {
      var init, last := ws[..|ws| - 1], ws[|ws| - 1];
      assert NonNegative(init);
      WeightedSumBounds(init, vals);
      var s0, p0 := WeightedSum(init, vals), PresentWeight(init, vals);
      if last.slug in vals {
        var v, w := vals[last.slug], last.w;
        assert WeightedSum(ws, vals) == s0 + v * w;
        assert PresentWeight(ws, vals) == p0 + w;
        WeightedStep(s0, p0, v, w);
      } else {
        assert WeightedSum(ws, vals) == s0 && PresentWeight(ws, vals) == p0;
      }
    }
  }

  /** A larger value times the same non-negative weight adds at least as much. */
  lemma MonotoneStep(sa: real, sb: real, x: real, y: real, w: real)
    requires sa <= sb && x <= y && w >= 0.0
    ensures sa + x * w <= sb + y * w
  {
    MulNonNegative(y - x, w);
    assert (y - x) * w == y * w - x * w;
    AddLe(sa, sb, x * w, y * w);
  }

  /** Adding two inequalities side by side. */
  lemma AddLe(a: real, b: real, c: real, d: real)
    requires a <= b && c <= d
    ensures a + c <= b + d
  {
  }

  /** Raising any module's value never lowers the weighted sum. */
  lemma {:induction false} WeightedSumMonotone(ws: seq<Weight>, a: map<string, real>, b: map<string, real>)
    requires NonNegative(ws)
    requires a.Keys == b.Keys
    requires forall s :: s in a ==> a[s] <= b[s]
    ensures WeightedSum(ws, a) <= WeightedSum(ws, b)
  {
    if ws != [] {
      var init, last := ws[..|ws| - 1], ws[|ws| - 1];
      assert NonNegative(init);
      WeightedSumMonotone(init, a, b);
      if last.slug in a {
        var x, y, w := a[last.slug], b[last.slug], last.w;
        assert WeightedSum(ws, a) == WeightedSum(init, a) + x * w;
        assert WeightedSum(ws, b) == WeightedSum(init, b) + y * w;
        MonotoneStep(WeightedSum(init, a), WeightedSum(init, b), x, y, w);
      } else {
        assert WeightedSum(ws, a) == WeightedSum(init, a);
        assert WeightedSum(ws, b) == WeightedSum(init, b);
      }
    }
  }

  /** No renormalisation: a lone liquidity module scoring 50 puts the
      index at 10 (50 times the weight present), not at 50. */
  lemma LoneModuleExample()
    ensures WeightedSum(ModuleWeights, map["liquidity" := 50.0]) == 10.0
    ensures PresentWeight(ModuleWeights, map["liquidity" := 50.0]) == 0.20
  {
    var vals := map["liquidity" := 50.0];
    var ws := ModuleWeights;
    var p := [];
    for k := 0 to |ws|
      invariant p == ws[..k]
      invariant WeightedSum(p, vals) == if k == 0 then 0.0 else 10.0
      invariant PresentWeight(p, vals) == if k == 0 then 0.0 else 0.20
    {
      assert (p + [ws[k]])[..|p|] == p;
      p := p + [ws[k]];
    }
    assert p == ws;
  }

  function Scores(modules: map<string, Module>): (vals: map<string, real>)
    ensures vals.Keys == modules.Keys
  {
    map slug | slug in modules :: modules[slug].score
  }

  function PrevScores(modules: map<string, Module>): (vals: map<string, real>)
    ensures vals.Keys == modules.Keys
  {
    map slug | slug in modules :: modules[slug].prevScore
  }

  predicate WellFormedModules(modules: map<string, Module>) {
    forall slug :: slug in modules ==> WellFormedModule(modules[slug])
  }

  /** The weighted index of module values rounded to one decimal: in
      [0, 100], and at most 100 times the weight of the modules present. */
  function Index(ws: seq<Weight>, vals: map<string, real>): (r: real)
    requires WeightTable(ws)
    requires forall s :: s in vals ==> 0.0 <= vals[s] <= 100.0
    ensures 0.0 <= r <= 100.0
  {
    WeightedSumBounds(ws, vals);
    Round1Within(WeightedSum(ws, vals), 0.0, 100.0);
    Round1(WeightedSum(ws, vals))
  }

  lemma IndexPartial(ws: seq<Weight>, vals: map<string, real>)
    requires WeightTable(ws)
    requires forall s :: s in vals ==> 0.0 <= vals[s] <= 100.0
    ensures Index(ws, vals) <= Round1(100.0 * PresentWeight(ws, vals))
  {
    WeightedSumBounds(ws, vals);
    Round1Monotone(WeightedSum(ws, vals), 100.0 * PresentWeight(ws, vals));
  }

  /** The overall score: the weighted sum of the present modules' scores. */
  function OverallScore(ws: seq<Weight>, modules: map<string, Module>): (r: real)
    requires WeightTable(ws) && WellFormedModules(modules)
    ensures 0.0 <= r <= 100.0
  {
    Index(ws, Scores(modules))
  }

  /** The previous overall score: the same sum over the modules' previous scores. */
  function OverallPrev(ws: seq<Weight>, modules: map<string, Module>): (r: real)
    requires WeightTable(ws) && WellFormedModules(modules)
    ensures 0.0 <= r <= 100.0
  {
    Index(ws, PrevScores(modules))
  }

  /** A module whose score rises (the others unchanged) never lowers the
      overall score. */
  lemma OverallScoreMonotone(ws: seq<Weight>, a: map<string, Module>, b: map<string, Module>)
    requires WeightTable(ws)
    requires WellFormedModules(a) && WellFormedModules(b)
    requires a.Keys == b.Keys
    requires forall s :: s in a ==> a[s].score <= b[s].score
    ensures OverallScore(ws, a) <= OverallScore(ws, b)
  {
    WeightedSumMonotone(ws, Scores(a), Scores(b));
    Round1Monotone(WeightedSum(ws, Scores(a)), WeightedSum(ws, Scores(b)));
  }

  /** A series with every value multiplied by w (`series * w`). */
  function ScaleSeries(s: Series, w: real): (r: Series)
    ensures |r| == |s| && Days(r) == Days(s)
    ensures forall i :: 0 <= i < |s| ==> r[i].value == s[i].value * w
  {
    seq(|s|, i requires 0 <= i < |s| => Point(s[i].day, s[i].value * w))
  }

  lemma ScaleWithin(s: Series, w: real)
    requires AllWithin(Values(s), 0.0, 100.0)
    ensures w >= 0.0 ==> AllWithin(Values(ScaleSeries(s, w)), 0.0, 100.0 * w)
  {
    if w >= 0.0 {
      forall i | 0 <= i < |s| ensures 0.0 <= s[i].value * w <= 100.0 * w {
        assert Values(s)[i] == s[i].value;
        MulNonNegative(s[i].value, w);
        MulNonNegative(100.0 - s[i].value, w);
      }
    }
  }

  /** One module's part of the overall history: w times the mean of its
      scored factors' histories, read from the global score-series map;
      nothing when none of them has a history. */
  function ModulePart(m: Module, w: real, allFss: map<string, Series>): (part: Series)
    requires WellFormedScores(allFss)
    ensures Increasing(part)
    ensures w >= 0.0 ==> AllWithin(Values(part), 0.0, 100.0 * w)
  {
    var hs := ScoredHistories(Scored(m.factors), allFss);
    if |hs| == 0 then []
    else
      var h := ModuleHistory(hs);
      ScaleWithin(h, w);
      ScaleSeries(h, w)
  }

  /** `overall_score_ts_parts` after the loop over the weight table. */
  function OverallParts(ws: seq<Weight>, modules: map<string, Module>, allFss: map<string, Series>): (parts: seq<Series>)
    requires WellFormedScores(allFss)
    ensures AllIncreasing(parts)
  {
    if ws == [] then []
    else
      var init := OverallParts(ws[..|ws| - 1], modules, allFss);
      var last := ws[|ws| - 1];
      if last.slug in modules && |ModulePart(modules[last.slug], last.w, allFss)| > 0 then
        init + [ModulePart(modules[last.slug], last.w, allFss)]
      else init
  }

  /** The loop that appends one weighted module history per present module
      that has one. */
  method BuildOverallParts(ws: seq<Weight>, modules: map<string, Module>, allFss: map<string, Series>)
    returns (parts: seq<Series>)
    requires WellFormedScores(allFss)
    ensures parts == OverallParts(ws, modules, allFss)
  {
    parts := [];
    var i := 0;
    while i < |ws|
      invariant 0 <= i <= |ws|
      invariant parts == OverallParts(ws[..i], modules, allFss)
    {
      var weight := ws[i];
      assert ws[..i + 1][..i] == ws[..i];
      if weight.slug in modules {
        var part := ModulePart(modules[weight.slug], weight.w, allFss);
        if |part| > 0 {
          parts := parts + [part];
        }
      }
      i := i + 1;
    }
    assert ws[..|ws|] == ws;
  }

  /** What the last weight of the table adds to the parts' sum on day d:
      nothing, or one value in [0, 100 times that weight]. */
  lemma LastPartOn(ws: seq<Weight>, modules: map<string, Module>, allFss: map<string, Series>, d: int)
    returns (x: real)
    requires WellFormedScores(allFss) && ws != [] && ws[|ws| - 1].w >= 0.0
    ensures Sum(ValuesOn(OverallParts(ws, modules, allFss), d))
            == Sum(ValuesOn(OverallParts(ws[..|ws| - 1], modules, allFss), d)) + x
    ensures 0.0 <= x <= 100.0 * ws[|ws| - 1].w
  {
    var last := ws[|ws| - 1];
    var before := OverallParts(ws[..|ws| - 1], modules, allFss);
    var vs := ValuesOn(before, d);
    x := 0.0;
    if last.slug in modules && |ModulePart(modules[last.slug], last.w, allFss)| > 0 {
      var part := ModulePart(modules[last.slug], last.w, allFss);
      var all := before + [part];
      assert all[..|all| - 1] == before;
      assert OverallParts(ws, modules, allFss) == all;
      match Lookup(part, d)
      case Some(v) =>
        var i :| 0 <= i < |part| && part[i].day == d && part[i].value == v;
        assert Values(part)[i] == v;
        assert ValuesOn(all, d) == vs + [v];
        assert (vs + [v])[..|vs|] == vs;
        assert Sum(vs + [v]) == Sum(vs) + v;
        x := v;
      case None =>
        assert ValuesOn(all, d) == vs;
    } else {
      assert OverallParts(ws, modules, allFss) == before;
    }
  }

  /** On any day, the parts add up to at most 100 times the total weight. */
  lemma {:induction false} PartsSumBound(ws: seq<Weight>, modules: map<string, Module>,
                                         allFss: map<string, Series>, d: int)
    requires WellFormedScores(allFss) && NonNegative(ws)
    ensures 0.0 <= Sum(ValuesOn(OverallParts(ws, modules, allFss), d)) <= 100.0 * TotalWeight(ws)
  {
    if ws != [] {
      var init, last := ws[..|ws| - 1], ws[|ws| - 1];
      assert NonNegative(init);
      PartsSumBound(init, modules, allFss, d);
      var x := LastPartOn(ws, modules, allFss, d);
      AddLe(Sum(ValuesOn(OverallParts(init, modules, allFss), d)), 100.0 * TotalWeight(init), x, 100.0 * last.w);
    }
  }

  /** The overall history: for each day any part covers, the sum of the
      parts that have a value that day (`concat(parts).sum(axis=1)`). */
  function OverallHistory(parts: seq<Series>): (r: Series)
    requires AllIncreasing(parts)
    ensures Days(r) == UnionDays(parts) && Increasing(r)
  {
    var days := UnionDays(parts);
    seq(|days|, i requires 0 <= i < |days| => Point(days[i], Sum(ValuesOn(parts, days[i]))))
  }

  /** Every point of the overall history lies in [0, 100]. */
  lemma OverallHistoryBounds(ws: seq<Weight>, modules: map<string, Module>, allFss: map<string, Series>)
    requires WeightTable(ws) && WellFormedScores(allFss)
    ensures AllWithin(Values(OverallHistory(OverallParts(ws, modules, allFss))), 0.0, 100.0)
  {
    var parts := OverallParts(ws, modules, allFss);
    var r := OverallHistory(parts);
    forall i | 0 <= i < |r| ensures 0.0 <= r[i].value <= 100.0 {
      PartsSumBound(ws, modules, allFss, r[i].day);
    }
  }

  /** The numeric fields of the dashboard's top level. */
  datatype Overall = Overall(
    score: real,
    prevScore: real,
    trend: Trend,
    percentile5Y: real,
    history: Series)

  /** The overall block: score and previous score from the module table,
      the history from the weighted parts, then its percentile (50 for a
      history of at most 10 points) and its trend with a 0.5 dead band. */
  method ComputeOverall(ws: seq<Weight>, modules: map<string, Module>, allFss: map<string, Series>, today: int)
    returns (o: Overall)
    requires WeightTable(ws) && WellFormedModules(modules) && WellFormedScores(allFss)
    ensures 0.0 <= o.score <= 100.0 && 0.0 <= o.prevScore <= 100.0
    ensures o.score == Index(ws, Scores(modules)) && o.prevScore == Index(ws, PrevScores(modules))
    ensures o.history == OverallHistory(OverallParts(ws, modules, allFss))
    ensures AllWithin(Values(o.history), 0.0, 100.0) && Increasing(o.history)
    ensures o.percentile5Y == ModulePercentile(o.history, today)
    ensures o.trend == TrendDirection(Values(o.history), 0.5)
    ensures o.trend == Improving <==> Rose(Values(o.history), 0.5)
    ensures o.trend == Declining <==> Fell(Values(o.history), 0.5)
  {
    var score := OverallScore(ws, modules);
    var prev := OverallPrev(ws, modules);
    var parts := BuildOverallParts(ws, modules, allFss);
    var h := OverallHistory(parts);
    OverallHistoryBounds(ws, modules, allFss);
    TrendIff(Values(h), 0.5);
    o := Overall(score, prev, TrendDirection(Values(h), 0.5), ModulePercentile(h, today), h);
  }
}
