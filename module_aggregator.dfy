/** The module aggregator: `build_module_obj` (data/fetch_data.py:412-492)
    and the loop that builds every module (data/fetch_data.py:560-568). */
module ModuleAggregator {
  import opened Numeric
  import opened Wrappers
  import opened TimeSeries
  import opened Percentile
  import opened Scorer

  datatype Trend = Improving | Declining | Stable

  /** Trend of a score history: the last of its final (at most three)
      points against the first of them, with a dead band of `threshold`
      (1 for a module, 0.5 for the overall index). */
  function TrendDirection(h: seq<real>, threshold: real): (t: Trend)
    ensures |h| < 2 ==> t == Stable
  {
    var recent := if |h| <= 3 then h else h[|h| - 3..];
    if |recent| >= 2 && recent[|recent| - 1] > recent[0] + threshold then Improving
    else if |recent| >= 2 && recent[|recent| - 1] < recent[0] - threshold then Declining
    else Stable
  }

  /** The position of the first of the last (at most three) points. */
  function RecentStart(n: nat): (k: nat)
    ensures n > 0 ==> k < n && n - k <= 3
  {
    if n <= 3 then 0 else n - 3
  }

  /** The last point is more than `threshold` above the first of the last
      (at most three) points. */
  predicate Rose(h: seq<real>, threshold: real) {
    |h| >= 2 && h[|h| - 1] > h[RecentStart(|h|)] + threshold
  }

  /** The last point is more than `threshold` below the first of the last
      (at most three) points. */
  predicate Fell(h: seq<real>, threshold: real) {
    |h| >= 2 && h[|h| - 1] < h[RecentStart(|h|)] - threshold
  }

  /** Improving exactly on a rise past the dead band, declining exactly on a
      fall past it (a rise wins, which a non-negative band makes moot), and
      stable otherwise. */
  lemma TrendIff(h: seq<real>, threshold: real)
    ensures TrendDirection(h, threshold) == Improving <==> Rose(h, threshold)
    ensures TrendDirection(h, threshold) == Declining <==> Fell(h, threshold) && !Rose(h, threshold)
    ensures TrendDirection(h, threshold) == Stable <==> !Rose(h, threshold) && !Fell(h, threshold)
    ensures threshold >= 0.0 ==> !(Rose(h, threshold) && Fell(h, threshold))
  {
    if |h| > 3 {
      var recent := h[|h| - 3..];
      assert recent[0] == h[|h| - 3] && recent[|recent| - 1] == h[|h| - 1];
    }
  }

  /** The module record (the numeric fields of the dict
      `build_module_obj` returns). */
  datatype Module = Module(
    slug: string,
    name: string,
    score: real,
    prevScore: real,
    changePct: real,
    trend: Trend,
    percentile5Y: real,
    history: Series,
    factors: seq<Factor>)

  /** A factor record as `make_factor` produces it: a percentile in
      [0, 100] with one decimal. */
  predicate WellFormedFactor(f: Factor) {
    0.0 <= f.percentile5Y <= 100.0 && OneDecimal(f.percentile5Y)
  }

  /** The factors that `make_factor` keeps, in spec order
      (`factors.append(f)` under `if f`). */
  function MadeFactors(specs: seq<FactorSpec>, today: int, invert: set<string>): (fs: seq<Factor>)
    ensures |fs| <= |specs|
    ensures forall i :: 0 <= i < |fs| ==> WellFormedFactor(fs[i])
  {
    if specs == [] then []
    else
      var init := MadeFactors(specs[..|specs| - 1], today, invert);
      match MakeFactor(specs[|specs| - 1], today, invert)
      case Some(f) => init + [f]
      case None => init
  }

  /** Every score series in a map is increasing and scored in [0, 100]. */
  predicate WellFormedScores(fss: map<string, Series>) {
    forall id :: id in fss ==> Increasing(fss[id]) && AllWithin(Values(fss[id]), 0.0, 100.0)
  }

  predicate CleanSpecs(specs: seq<FactorSpec>) {
    forall k :: 0 <= k < |specs| ==> Increasing(specs[k].series)
  }

  lemma CleanPrefix(specs: seq<FactorSpec>, n: nat)
    requires CleanSpecs(specs) && n <= |specs|
    ensures CleanSpecs(specs[..n])
  {
    assert forall k :: 0 <= k < n ==> specs[..n][k] == specs[k];
  }

  /** Merging two well-formed maps (`dict.update`) gives a well-formed map. */
  lemma MergeWellFormed(a: map<string, Series>, b: map<string, Series>)
    requires WellFormedScores(a) && WellFormedScores(b)
    ensures WellFormedScores(a + b)
  {
    forall id | id in a + b
      ensures Increasing((a + b)[id]) && AllWithin(Values((a + b)[id]), 0.0, 100.0)
    {
      if id in b { assert (a + b)[id] == b[id]; } else { assert (a + b)[id] == a[id]; }
    }
  }

  /** `factor_score_series[fid] = make_score_series(...)` for each kept factor. */
  function ScoreSeriesMap(specs: seq<FactorSpec>, today: int, invert: set<string>): (fss: map<string, Series>)
    requires CleanSpecs(specs)
    ensures WellFormedScores(fss)
  {
    if specs == [] then map[]
    else
      var spec := specs[|specs| - 1];
      CleanPrefix(specs, |specs| - 1);
      var init := ScoreSeriesMap(specs[..|specs| - 1], today, invert);
      if MakeFactor(spec, today, invert).Some? then
        ScoreSeriesStep(init, spec, today, invert);
        init[spec.id := MakeScoreSeries(spec.series, today, spec.id, invert)]
      else init
  }

  /** Recording one more factor's score history keeps every history well formed. */
  lemma ScoreSeriesStep(init: map<string, Series>, spec: FactorSpec, today: int, invert: set<string>)
    requires WellFormedScores(init) && Increasing(spec.series)
    ensures WellFormedScores(init[spec.id := MakeScoreSeries(spec.series, today, spec.id, invert)])
  {
    WindowIncreasing(spec.series, HistoryCutoff(today));
  }

  /** The scored factors: those not marked extra. */
  function Scored(fs: seq<Factor>): (r: seq<Factor>)
    ensures |r| <= |fs|
  {
    if fs == [] then []
    else Scored(fs[..|fs| - 1]) + (if fs[|fs| - 1].isExtra then [] else [fs[|fs| - 1]])
  }

  lemma {:induction false} ScoredWellFormed(fs: seq<Factor>)
    requires forall i :: 0 <= i < |fs| ==> WellFormedFactor(fs[i])
    ensures forall i :: 0 <= i < |Scored(fs)| ==> WellFormedFactor(Scored(fs)[i]) && !Scored(fs)[i].isExtra
  {
    if fs != [] {
      ScoredWellFormed(fs[..|fs| - 1]);
    }
  }

  /** A module has no scored factor exactly when every one of its specs is
      extra or has fewer than 10 points. */
  lemma {:induction false} NoScoredFactor(specs: seq<FactorSpec>, today: int, invert: set<string>)
    ensures |Scored(MadeFactors(specs, today, invert))| == 0 <==> !HasScoredFactor(specs)
  {
    if specs != [] {
      var init := specs[..|specs| - 1];
      var last := specs[|specs| - 1];
      NoScoredFactor(init, today, invert);
      HasScoredFactorSnoc(specs);
      var fs0 := MadeFactors(init, today, invert);
      match MakeFactor(last, today, invert)
      case Some(f) =>
        assert MadeFactors(specs, today, invert) == fs0 + [f];
        assert (fs0 + [f])[..|fs0|] == fs0;
        assert Scored(fs0 + [f]) == Scored(fs0) + (if f.isExtra then [] else [f]);
      case None =>
        assert MadeFactors(specs, today, invert) == fs0;
    }
  }

  lemma HasScoredFactorSnoc(specs: seq<FactorSpec>)
    requires specs != []
    ensures var init, last := specs[..|specs| - 1], specs[|specs| - 1];
            HasScoredFactor(specs) <==> HasScoredFactor(init) || (!last.isExtra && |last.series| >= 10)
  {
    var init := specs[..|specs| - 1];
    if HasScoredFactor(specs) {
      var j :| 0 <= j < |specs| && !specs[j].isExtra && |specs[j].series| >= 10;
      if j < |init| { assert init[j] == specs[j]; }
    }
    if HasScoredFactor(init) {
      var j :| 0 <= j < |init| && !init[j].isExtra && |init[j].series| >= 10;
      assert specs[j] == init[j];
    }
  }

  /** The value a factor contributes to its module's score: its rounded
      percentile, or 100 minus it for an inverted id. */
  function Oriented(f: Factor, invert: set<string>): real {
    if f.id in invert then 100.0 - f.percentile5Y else f.percentile5Y
  }

  function OrientedAll(fs: seq<Factor>, invert: set<string>): (vs: seq<real>)
    ensures |vs| == |fs| && forall i :: 0 <= i < |fs| ==> vs[i] == Oriented(fs[i], invert)
  {
    seq(|fs|, i requires 0 <= i < |fs| => Oriented(fs[i], invert))
  }

  /** The module score: the unweighted mean of the oriented percentiles of
      the scored factors, rounded (data/fetch_data.py:432-435). */
  function ModuleScore(scored: seq<Factor>, invert: set<string>): (score: real)
    requires |scored| > 0
    ensures OneDecimal(score)
  {
    Round1(Mean(OrientedAll(scored, invert)))
  }

  /** The module score lies between any one-decimal bounds of its
      constituents, so between the smallest and the largest of them. */
  lemma ModuleScoreBetween(scored: seq<Factor>, invert: set<string>, lo: real, hi: real)
    requires |scored| > 0
    requires OneDecimal(lo) && OneDecimal(hi)
    requires AllWithin(OrientedAll(scored, invert), lo, hi)
    ensures lo <= ModuleScore(scored, invert) <= hi
  {
    var vs := OrientedAll(scored, invert);
    MeanWithin(vs, lo, hi);
    Round1Within(Mean(vs), lo, hi);
  }

  lemma ModuleScoreBounds(scored: seq<Factor>, invert: set<string>)
    requires |scored| > 0
    requires forall i :: 0 <= i < |scored| ==> WellFormedFactor(scored[i])
    ensures 0.0 <= ModuleScore(scored, invert) <= 100.0
  {
    ModuleScoreBetween(scored, invert, 0.0, 100.0);
  }

  /** The score histories of the scored factors that exist and are
      non-empty (`ss_list`, data/fetch_data.py:438-439). */
  function ScoredHistories(scored: seq<Factor>, fss: map<string, Series>): (hs: seq<Series>)
    ensures WellFormedScores(fss) ==>
              forall k :: 0 <= k < |hs| ==> Increasing(hs[k]) && AllWithin(Values(hs[k]), 0.0, 100.0)
  {
    if scored == [] then []
    else
      var id := scored[|scored| - 1].id;
      ScoredHistories(scored[..|scored| - 1], fss) + (if id in fss && |fss[id]| > 0 then [fss[id]] else [])
  }

  /** Row-wise mean of aligned series over `days`, rows with no value
      dropped (`pd.concat(hs, axis=1).mean(axis=1).dropna()`). */
  function MeanRows(hs: seq<Series>, days: seq<int>): (r: Series)
    ensures |r| <= |days|
  {
    if days == [] then []
    else
      var d := days[|days| - 1];
      var vs := ValuesOn(hs, d);
      MeanRows(hs, days[..|days| - 1]) + (if |vs| > 0 then [Point(d, Mean(vs))] else [])
  }

  /** When every day has a value, no row is dropped and each row is the mean
      of what the series record that day. */
  lemma {:induction false} MeanRowsFull(hs: seq<Series>, days: seq<int>)
    requires forall i :: 0 <= i < |days| ==> |ValuesOn(hs, days[i])| > 0
    ensures |MeanRows(hs, days)| == |days|
    ensures forall i :: 0 <= i < |days| ==>
              MeanRows(hs, days)[i] == Point(days[i], Mean(ValuesOn(hs, days[i])))
  {
    if days != [] {
      var init, d := days[..|days| - 1], days[|days| - 1];
      assert forall i :: 0 <= i < |init| ==> init[i] == days[i];
      MeanRowsFull(hs, init);
      var r0, p := MeanRows(hs, init), Point(d, Mean(ValuesOn(hs, d)));
      var r := MeanRows(hs, days);
      assert r == r0 + [p];
      forall i | 0 <= i < |days| ensures r[i] == Point(days[i], Mean(ValuesOn(hs, days[i]))) {
        if i < |init| {
          assert r[i] == r0[i] && init[i] == days[i];
        } else {
          assert r[i] == p;
        }
      }
    }
  }

  /** The module's score history: for each day any scored factor history
      covers, the mean of the histories that have a value that day. */
  function ModuleHistory(hs: seq<Series>): (r: Series)
    requires forall k :: 0 <= k < |hs| ==> Increasing(hs[k]) && AllWithin(Values(hs[k]), 0.0, 100.0)
    ensures Increasing(r)
    ensures Days(r) == UnionDays(hs)
    ensures forall i :: 0 <= i < |r| ==> |ValuesOn(hs, r[i].day)| > 0 && r[i].value == Mean(ValuesOn(hs, r[i].day))
    ensures AllWithin(Values(r), 0.0, 100.0)
  {
    var days := UnionDays(hs);
    forall j | 0 <= j < |days| ensures |ValuesOn(hs, days[j])| > 0 {
      assert days[j] in days;
      var k, i :| 0 <= k < |hs| && 0 <= i < |hs[k]| && hs[k][i].day == days[j];
      ValuesOnNonEmpty(hs, days[j], k, i);
    }
    MeanRowsFull(hs, days);
    var r := MeanRows(hs, days);
    forall i | 0 <= i < |r| ensures 0.0 <= r[i].value <= 100.0 {
      ValuesOnWithin(hs, days[i], 0.0, 100.0);
      MeanWithin(ValuesOn(hs, days[i]), 0.0, 100.0);
    }
    r
  }

  /** `prevScore`: the history value 8 points from the end (7 observations
      back) when the history is long enough, else the current score. */
  function PrevScore(h: Series, score: real): (prev: real)
    ensures |h| <= 7 ==> prev == score
    ensures |h| > 7 ==> OneDecimal(prev) && -0.05 <= prev - h[|h| - 8].value <= 0.05
  {
    if |h| > 7 then Round1(h[|h| - 8].value) else score
  }

  /** `sevenDayChangePct`: the relative change with the divisor floored at
      0.01, rounded to two decimals. */
  function ChangePct(score: real, prev: real): (pct: real)
    ensures TwoDecimals(pct)
  {
    Round2((score - prev) / Max(prev, 0.01) * 100.0)
  }

  /** The divisor is at least 0.01, so the change always has the sign of
      score - prev (or rounds to 0). */
  lemma ChangePctSign(score: real, prev: real)
    ensures score >= prev ==> ChangePct(score, prev) >= 0.0
    ensures score <= prev ==> ChangePct(score, prev) <= 0.0
    ensures score == prev ==> ChangePct(score, prev) == 0.0
  {
    var d := Max(prev, 0.01);
    var q := (score - prev) / d;
    assert q * d == score - prev;
    Round2Sign(q * 100.0);
  }

  /** The module percentile: the rounded `pct_rank` of its own history when
      that has more than 10 points, else 50. */
  function ModulePercentile(h: Series, today: int): (r: real)
    ensures 0.0 <= r <= 100.0
    ensures |h| <= 10 ==> r == 50.0
    ensures OneDecimal(r)
  {
    if |h| > 10 then
      var p := PctRank(h, PercentileCutoff(today));
      Round1Within(p, 0.0, 100.0);
      Round1(p)
    else 50.0
  }

  /** Everything after the factor loop of `build_module_obj`: `None` when no
      factor is scored, otherwise the module record. */
  function ModuleFromFactors(slug: string, name: string, factors: seq<Factor>,
                             fss: map<string, Series>, today: int, invert: set<string>): (m: Option<Module>)
    requires WellFormedScores(fss)
    requires forall i :: 0 <= i < |factors| ==> WellFormedFactor(factors[i])
    ensures m.None? <==> |Scored(factors)| == 0
    ensures m.Some? ==> && m.value.slug == slug && m.value.name == name && m.value.factors == factors
                        && 0.0 <= m.value.score <= 100.0
                        && 0.0 <= m.value.prevScore <= 100.0
                        && Increasing(m.value.history)
                        && AllWithin(Values(m.value.history), 0.0, 100.0)
  {
    var scored := Scored(factors);
    if |scored| == 0 then None
    else
      ScoredWellFormed(factors);
      ModuleScoreBounds(scored, invert);
      var score := ModuleScore(scored, invert);
      var hs := ScoredHistories(scored, fss);
      var h := if |hs| > 0 then ModuleHistory(hs) else [];
      var prev := PrevScore(h, score);
      assert 0.0 <= prev <= 100.0 by {
        if |h| > 7 {
          assert Values(h)[|h| - 8] == h[|h| - 8].value;
          Round1Within(h[|h| - 8].value, 0.0, 100.0);
        }
      }
      Some(Module(slug, name, score, prev, ChangePct(score, prev),
                  TrendDirection(Values(h), 1.0), ModulePercentile(h, today), h, factors))
  }

  /** Each field of the module record is the value its definition gives:
      the mean of the oriented percentiles, the mean history over the
      scored factors' histories (empty when none has one), and the previous
      score, change, trend (dead band 1.0) and percentile of that history. */
  lemma ModuleRecordFields(slug: string, name: string, factors: seq<Factor>,
                           fss: map<string, Series>, today: int, invert: set<string>)
    requires WellFormedScores(fss)
    requires forall i :: 0 <= i < |factors| ==> WellFormedFactor(factors[i])
    requires ModuleFromFactors(slug, name, factors, fss, today, invert).Some?
    ensures |Scored(factors)| > 0
    ensures var m := ModuleFromFactors(slug, name, factors, fss, today, invert).value;
            var hs := ScoredHistories(Scored(factors), fss);
            && m.score == ModuleScore(Scored(factors), invert)
            && m.history == (if |hs| > 0 then ModuleHistory(hs) else [])
            && m.prevScore == PrevScore(m.history, m.score)
            && m.changePct == ChangePct(m.score, m.prevScore)
            && m.trend == TrendDirection(Values(m.history), 1.0)
            && m.percentile5Y == ModulePercentile(m.history, today)
  {
  }

  /** The module record obeys the laws of its parts: the change has the sign
      of score minus previous score and is 0 on a history too short for a
      previous score; the trend is improving or declining exactly on a move
      of more than 1 across the last three points; the percentile is 50
      on a history of at most 10 points. */
  lemma ModuleRecordLaws(slug: string, name: string, factors: seq<Factor>,
                         fss: map<string, Series>, today: int, invert: set<string>)
    requires WellFormedScores(fss)
    requires forall i :: 0 <= i < |factors| ==> WellFormedFactor(factors[i])
    requires ModuleFromFactors(slug, name, factors, fss, today, invert).Some?
    ensures var m := ModuleFromFactors(slug, name, factors, fss, today, invert).value;
            && (m.score >= m.prevScore ==> m.changePct >= 0.0)
            && (m.score <= m.prevScore ==> m.changePct <= 0.0)
            && (|m.history| <= 7 ==> m.changePct == 0.0)
            && (m.trend != Stable ==> |m.history| >= 2)
            && (m.trend == Improving <==> Rose(Values(m.history), 1.0))
            && (m.trend == Declining <==> Fell(Values(m.history), 1.0))
            && (|m.history| <= 10 ==> m.percentile5Y == 50.0)
  {
    var m := ModuleFromFactors(slug, name, factors, fss, today, invert).value;
    ModuleRecordFields(slug, name, factors, fss, today, invert);
    ChangePctSign(m.score, m.prevScore);
    TrendIff(Values(m.history), 1.0);
  }

  /** The module record's score lies between any one-decimal bounds of the
      oriented percentiles of its scored factors. */
  lemma ModuleRecordBetween(slug: string, name: string, factors: seq<Factor>,
                            fss: map<string, Series>, today: int, invert: set<string>, lo: real, hi: real)
    requires WellFormedScores(fss)
    requires forall i :: 0 <= i < |factors| ==> WellFormedFactor(factors[i])
    requires OneDecimal(lo) && OneDecimal(hi)
    requires AllWithin(OrientedAll(Scored(factors), invert), lo, hi)
    requires ModuleFromFactors(slug, name, factors, fss, today, invert).Some?
    ensures lo <= ModuleFromFactors(slug, name, factors, fss, today, invert).value.score <= hi
  {
    ModuleRecordFields(slug, name, factors, fss, today, invert);
    ModuleScoreBetween(Scored(factors), invert, lo, hi);
  }

  /** `build_module_obj`: runs `make_factor` over the specs, keeping each
      factor it returns and recording its score series; then drops the
      module when no scored factor remains (returning no series either). */
  method BuildModuleObj(slug: string, name: string, specs: seq<FactorSpec>, today: int, invert: set<string>)
    returns (m: Option<Module>, fss: map<string, Series>)
    requires CleanSpecs(specs)
    ensures m.None? <==> forall k :: 0 <= k < |specs| ==> specs[k].isExtra || |specs[k].series| < 10
    ensures m.None? ==> fss == map[]
    ensures m.Some? ==> fss == ScoreSeriesMap(specs, today, invert)
    ensures m == ModuleFromFactors(slug, name, MadeFactors(specs, today, invert),
                                   ScoreSeriesMap(specs, today, invert), today, invert)
  {
    var factors: seq<Factor> := [];
    fss := map[];
    var i := 0;
    while i < |specs|
      invariant 0 <= i <= |specs|
      invariant factors == MadeFactors(specs[..i], today, invert)
      invariant fss == ScoreSeriesMap(specs[..i], today, invert)
    {
      var spec := specs[i];
      assert specs[..i + 1][..i] == specs[..i];
      var f := MakeFactor(spec, today, invert);
      if f.Some? {
        factors := factors + [f.value];
        fss := fss[spec.id := MakeScoreSeries(spec.series, today, spec.id, invert)];
      }
      i := i + 1;
    }
    assert specs[..|specs|] == specs;
    NoScoredFactor(specs, today, invert);
    m := ModuleFromFactors(slug, name, factors, fss, today, invert);
    if m.None? {
      fss := map[];
    }
  }

  /** One entry of the module table: slug, display name and factor specs. */
  datatype ModuleSpec = ModuleSpec(slug: string, name: string, specs: seq<FactorSpec>)

  predicate CleanModuleSpecs(mspecs: seq<ModuleSpec>) {
    forall k :: 0 <= k < |mspecs| ==> CleanSpecs(mspecs[k].specs)
  }

  lemma CleanModulePrefix(mspecs: seq<ModuleSpec>, n: nat)
    requires CleanModuleSpecs(mspecs) && n <= |mspecs|
    ensures CleanModuleSpecs(mspecs[..n])
  {
    assert forall k :: 0 <= k < n ==> mspecs[..n][k] == mspecs[k];
  }

  /** Some factor spec is scored and long enough to survive `make_factor`. */
  predicate HasScoredFactor(specs: seq<FactorSpec>) {
    exists j :: 0 <= j < |specs| && !specs[j].isExtra && |specs[j].series| >= 10
  }

  /** What `build_module_obj` returns for one module spec. */
  function ModuleOf(ms: ModuleSpec, today: int, invert: set<string>): (m: Option<Module>)
    requires CleanSpecs(ms.specs)
    ensures m.Some? <==> HasScoredFactor(ms.specs)
    ensures m.Some? ==> m.value.slug == ms.slug && WellFormedModule(m.value)
  {
    NoScoredFactor(ms.specs, today, invert);
    ModuleFromFactors(ms.slug, ms.name, MadeFactors(ms.specs, today, invert),
                      ScoreSeriesMap(ms.specs, today, invert), today, invert)
  }

  /** A module as `build_module_obj` returns it: score, previous score and
      history all in [0, 100]. */
  predicate WellFormedModule(m: Module) {
    && 0.0 <= m.score <= 100.0
    && 0.0 <= m.prevScore <= 100.0
    && AllWithin(Values(m.history), 0.0, 100.0)
    && forall i :: 0 <= i < |m.factors| ==> WellFormedFactor(m.factors[i])
  }

  /** The `modules` dict after the loop over the module table: each module
      that is not `None`, keyed by its slug. */
  function ModulesOf(mspecs: seq<ModuleSpec>, today: int, invert: set<string>): (ms: map<string, Module>)
    requires CleanModuleSpecs(mspecs)
    ensures forall slug :: slug in ms ==> ms[slug].slug == slug && WellFormedModule(ms[slug])
  {
    if mspecs == [] then map[]
    else
      CleanModulePrefix(mspecs, |mspecs| - 1);
      var init := ModulesOf(mspecs[..|mspecs| - 1], today, invert);
      var last := mspecs[|mspecs| - 1];
      match ModuleOf(last, today, invert)
      case Some(m) => KeyedUpdate(init, last.slug, m, init[last.slug := m]); init[last.slug := m]
      case None => init
  }

  /** Storing a well-formed module under its own slug keeps every module
      keyed by its slug. */
  lemma KeyedUpdate(ms: map<string, Module>, slug: string, m: Module, updated: map<string, Module>)
    requires forall k :: k in ms ==> ms[k].slug == k && WellFormedModule(ms[k])
    requires m.slug == slug && WellFormedModule(m) && updated == ms[slug := m]
    ensures forall k :: k in updated ==> updated[k].slug == k && WellFormedModule(updated[k])
  {
  }

  /** `all_factor_score_series` after the loop: the union of the score
      series of the modules kept, later modules winning on a shared id. */
  function AllScoreSeries(mspecs: seq<ModuleSpec>, today: int, invert: set<string>): (fss: map<string, Series>)
    requires CleanModuleSpecs(mspecs)
    ensures WellFormedScores(fss)
  {
    if mspecs == [] then map[]
    else
      CleanModulePrefix(mspecs, |mspecs| - 1);
      var init := AllScoreSeries(mspecs[..|mspecs| - 1], today, invert);
      var last := mspecs[|mspecs| - 1];
      if ModuleOf(last, today, invert).Some? then
        var fss := ScoreSeriesMap(last.specs, today, invert);
        MergeWellFormed(init, fss);
        init + fss
      else init
  }

  /** A slug is present exactly when some module spec with that slug yields
      a module, that is, has a scored factor with at least 10 points. */
  lemma {:induction false} ModulePresent(mspecs: seq<ModuleSpec>, today: int, invert: set<string>, slug: string)
    requires CleanModuleSpecs(mspecs)
    ensures slug in ModulesOf(mspecs, today, invert) <==> SlugFound(mspecs, slug)
  {
    if mspecs != [] {
      var init := mspecs[..|mspecs| - 1];
      var last := mspecs[|mspecs| - 1];
      ModulePresent(init, today, invert, slug);
      var before := ModulesOf(init, today, invert);
      SlugFoundSnoc(mspecs, slug);
      if ModuleOf(last, today, invert).Some? {
        assert ModulesOf(mspecs, today, invert) == before[last.slug := ModuleOf(last, today, invert).value];
      } else {
        assert ModulesOf(mspecs, today, invert) == before;
      }
    }
  }

  /** Some module spec has this slug and a scored factor that survives. */
  predicate SlugFound(mspecs: seq<ModuleSpec>, slug: string) {
    exists k :: 0 <= k < |mspecs| && mspecs[k].slug == slug && HasScoredFactor(mspecs[k].specs)
  }

  lemma SlugFoundSnoc(all: seq<ModuleSpec>, slug: string)
    requires |all| > 0
    ensures var init, last := all[..|all| - 1], all[|all| - 1];
            SlugFound(all, slug) <==> SlugFound(init, slug) || (last.slug == slug && HasScoredFactor(last.specs))
  {
    var init, last := all[..|all| - 1], all[|all| - 1];
    if SlugFound(all, slug) {
      var k :| 0 <= k < |all| && all[k].slug == slug && HasScoredFactor(all[k].specs);
      if k < |init| { assert init[k] == all[k]; }
    }
    if SlugFound(init, slug) {
      var k :| 0 <= k < |init| && init[k].slug == slug && HasScoredFactor(init[k].specs);
      assert all[k] == init[k];
    }
  }

  /** One more entry of the module table adds its module, if any, under its
      slug. */
  lemma ModulesOfSnoc(mspecs: seq<ModuleSpec>, i: nat, today: int, invert: set<string>)
    requires CleanModuleSpecs(mspecs) && i < |mspecs|
    ensures CleanModuleSpecs(mspecs[..i]) && CleanModuleSpecs(mspecs[..i + 1])
    ensures ModulesOf(mspecs[..i + 1], today, invert) ==
              match ModuleOf(mspecs[i], today, invert)
              case Some(m) => ModulesOf(mspecs[..i], today, invert)[mspecs[i].slug := m]
              case None => ModulesOf(mspecs[..i], today, invert)
  {
    CleanModulePrefix(mspecs, i);
    CleanModulePrefix(mspecs, i + 1);
    var all := mspecs[..i + 1];
    assert all[..|all| - 1] == mspecs[..i];
  }

  /** One more entry of the module table merges the score series of its
      module, if any, over the earlier ones. */
  lemma AllScoreSeriesSnoc(mspecs: seq<ModuleSpec>, i: nat, today: int, invert: set<string>)
    requires CleanModuleSpecs(mspecs) && i < |mspecs|
    ensures CleanModuleSpecs(mspecs[..i]) && CleanModuleSpecs(mspecs[..i + 1])
    ensures AllScoreSeries(mspecs[..i + 1], today, invert) ==
              if ModuleOf(mspecs[i], today, invert).Some?
              then AllScoreSeries(mspecs[..i], today, invert) + ScoreSeriesMap(mspecs[i].specs, today, invert)
              else AllScoreSeries(mspecs[..i], today, invert)
  {
    CleanModulePrefix(mspecs, i);
    CleanModulePrefix(mspecs, i + 1);
    var all := mspecs[..i + 1];
    assert all[..|all| - 1] == mspecs[..i];
  }

  /** One pass of the module loop: `build_module_obj`, then the module
      stored under its slug and its score series merged, unless it is
      `None`. */
  method AddModule(modules: map<string, Module>, allFss: map<string, Series>, ms: ModuleSpec,
                   today: int, invert: set<string>)
    returns (modules': map<string, Module>, allFss': map<string, Series>)
    requires CleanSpecs(ms.specs)
    ensures modules' == match ModuleOf(ms, today, invert)
                        case Some(m) => modules[ms.slug := m]
                        case None => modules
    ensures allFss' == if ModuleOf(ms, today, invert).Some?
                       then allFss + ScoreSeriesMap(ms.specs, today, invert)
                       else allFss
  {
    var m, fss := BuildModuleObj(ms.slug, ms.name, ms.specs, today, invert);
    assert m == ModuleOf(ms, today, invert);
    modules', allFss' := modules, allFss;
    if m.Some? {
      modules' := modules[ms.slug := m.value];
      allFss' := allFss + fss;
    }
  }

  /** The module loop: builds each module and, when it is not `None`,
      stores it under its slug and merges its score series into the
      global map. */
  method BuildModules(mspecs: seq<ModuleSpec>, today: int, invert: set<string>)
    returns (modules: map<string, Module>, allFss: map<string, Series>)
    requires CleanModuleSpecs(mspecs)
    ensures modules == ModulesOf(mspecs, today, invert)
    ensures allFss == AllScoreSeries(mspecs, today, invert)
    ensures forall slug :: slug in modules ==> modules[slug].slug == slug && WellFormedModule(modules[slug])
    ensures WellFormedScores(allFss)
  {
    modules, allFss := map[], map[];
    var i := 0;
    while i < |mspecs|
      invariant 0 <= i <= |mspecs|
      invariant CleanModuleSpecs(mspecs[..i])
      invariant modules == ModulesOf(mspecs[..i], today, invert)
      invariant allFss == AllScoreSeries(mspecs[..i], today, invert)
    {
      ModulesOfSnoc(mspecs, i, today, invert);
      AllScoreSeriesSnoc(mspecs, i, today, invert);
      modules, allFss := AddModule(modules, allFss, mspecs[i], today, invert);
      i := i + 1;
    }
    assert mspecs[..|mspecs|] == mspecs;
  }
}
