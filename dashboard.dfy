/** The whole scoring run: every module, then the overall block and its
    90-day trend data, then the lift/drag lists (data/fetch_data.py:558-656, without the output file). */
module Dashboard {
  import opened Numeric
  import opened TimeSeries
  import opened Scorer
  import opened ModuleAggregator
  import opened IndexAggregator
  import opened Attribution

  /** The numeric content of the dashboard document. */
  datatype DashboardData = DashboardData(
    overall: Overall,
    overallTrend: Series,
    modules: map<string, Module>,
    lift: seq<Entry>,
    drag: seq<Entry>)

  /** Scores every module of the table against INVERT_FACTORS, then builds
      the overall block and the lift/drag lists from the modules kept. */
  method BuildDashboard(mspecs: seq<ModuleSpec>, today: int) returns (d: DashboardData)
    requires CleanModuleSpecs(mspecs)
    ensures d.modules == ModulesOf(mspecs, today, InvertFactors)
    ensures forall slug :: slug in d.modules <==> SlugFound(mspecs, slug)
    ensures forall slug :: slug in d.modules ==> 0.0 <= d.modules[slug].score <= 100.0
    ensures 0.0 <= d.overall.score <= 100.0 && 0.0 <= d.overall.prevScore <= 100.0
    ensures AllWithin(Values(d.overall.history), 0.0, 100.0)
    ensures WeightTable(ModuleWeights)
            && d.overall.score == Index(ModuleWeights, Scores(d.modules))
            && d.overall.prevScore == Index(ModuleWeights, PrevScores(d.modules))
    ensures d.overall.history == OverallHistory(OverallParts(ModuleWeights, d.modules, AllScoreSeries(mspecs, today, InvertFactors)))
    ensures Increasing(d.overall.history)
    ensures d.overall.percentile5Y == ModulePercentile(d.overall.history, today)
    ensures d.overall.trend == TrendDirection(Values(d.overall.history), 0.5)
    ensures d.overall.trend == Improving <==> Rose(Values(d.overall.history), 0.5)
    ensures d.overall.trend == Declining <==> Fell(Values(d.overall.history), 0.5)
    ensures var t := Tail(d.overall.history, 90);
            && |d.overallTrend| == |t| && Increasing(d.overallTrend)
            && forall i :: 0 <= i < |t| ==>
                 d.overallTrend[i].day == t[i].day && d.overallTrend[i].value == Round4(t[i].value)
    ensures Descending(d.lift) && Descending(d.drag)
    ensures var entries := AllEntries(ModuleWeights, d.modules, AllScoreSeries(mspecs, today, InvertFactors));
            && multiset(d.lift) == multiset(Split(entries, true))
            && multiset(d.drag) == multiset(Split(entries, false))
            && (forall e :: e in d.lift <==> e in entries && e.pts > 0.0)
            && (forall e :: e in d.drag <==> e in entries && e.pts < 0.0)
            && (forall p :: p > 0.0 ==> Ties(d.lift, p) == Ties(entries, p))
            && (forall p :: p < 0.0 ==> Ties(d.drag, p) == Ties(entries, p))
  {
    var modules, allFss := BuildModules(mspecs, today, InvertFactors);
    forall slug ensures slug in modules <==> SlugFound(mspecs, slug) {
      ModulePresent(mspecs, today, InvertFactors, slug);
    }
    ModuleWeightsSumToOne();
    var overall := ComputeOverall(ModuleWeights, modules, allFss, today);
    var trend := BuildTrendData(overall.history, 90);
    var lift, drag := LiftDrag(ModuleWeights, modules, allFss);
    d := DashboardData(overall, trend, modules, lift, drag);
  }
}
