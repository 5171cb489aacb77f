/** The factor scorer: percentile to score with inversion and clamping,
    status and velocity classification, the fixed-window score history and
    the factor record (data/fetch_data.py:116-140, 185-190, 347-405). */
module Scorer {
  import opened Numeric
  import opened Wrappers
  import opened TimeSeries
  import opened Percentile

  /** Factors whose lower raw value means better conditions
      (INVERT_FACTORS, data/fetch_data.py:70-84). */
  const InvertFactors: set<string> := {
    "tga-deviation", "on-rrp-buffer-risk",
    "collateral-repo-friction",
    "corridor-friction-1", "corridor-friction-2",
    "effr-iorb-spread", "cp-tbill-spread",
    "funding-fragmentation", "10y-rate-volatility",
    "real-rate-level",
    "nfci", "vix", "vix-term-structure",
    "fx-realized-volatility", "oil-volatility-deviation",
    "natural-gas",
    "dxy",
    "10y-breakeven"
  }

  /** First day `pct_rank` looks at: TODAY - 5 * 365 days. */
  function PercentileCutoff(today: int): int {
    today - 5 * 365
  }

  /** First day of the score history: TODAY - (5 * 365 + 90) days. */
  function HistoryCutoff(today: int): int {
    today - (5 * 365 + 90)
  }

  /** `score_from_pct`: invert for ids in `invert`, clamp to [0, 100],
      round to one decimal. */
  function ScoreFromPct(rawPct: real, id: string, invert: set<string>): (r: real)
    ensures 0.0 <= r <= 100.0
    ensures OneDecimal(r)
  {
    var c := Clamp(if id in invert then 100.0 - rawPct else rawPct, 0.0, 100.0);
    Round1Within(c, 0.0, 100.0);
    Round1(c)
  }

  /** On a percentile the clamp does nothing: the score is the rounded
      percentile, or the rounded complement for an inverted id. */
  lemma InversionLaw(rawPct: real, id: string, invert: set<string>)
    requires 0.0 <= rawPct <= 100.0
    ensures id !in invert ==> ScoreFromPct(rawPct, id, invert) == Round1(rawPct)
    ensures id in invert ==> ScoreFromPct(rawPct, id, invert) == Round1(100.0 - rawPct)
  {
  }

  /** Inverting a factor reflects its score about 50. */
  lemma InversionReflects(rawPct: real, id: string, invert: set<string>)
    requires 0.0 <= rawPct <= 100.0
    ensures ScoreFromPct(rawPct, id, invert + {id}) == 100.0 - ScoreFromPct(rawPct, id, invert - {id})
  {
    RoundHalfEvenReflect(rawPct * 10.0, 1000);
    assert (100.0 - rawPct) * 10.0 == 1000 as real - rawPct * 10.0;
  }

  /** Python rounds ties to even, so rounding commutes with reflection
      about an even integer. */
  lemma RoundHalfEvenReflect(y: real, n: int)
    requires n % 2 == 0
    ensures RoundHalfEven(n as real - y) == n - RoundHalfEven(y)
  {
    var f := y.Floor;
    if f as real != y {
      assert (n as real - y).Floor == n - f - 1;
    }
  }

  /** A higher percentile never lowers a normal factor's score and never
      raises an inverted one's. */
  lemma ScoreFromPctMonotone(a: real, b: real, id: string, invert: set<string>)
    requires a <= b
    ensures id !in invert ==> ScoreFromPct(a, id, invert) <= ScoreFromPct(b, id, invert)
    ensures id in invert ==> ScoreFromPct(a, id, invert) >= ScoreFromPct(b, id, invert)
  {
    if id in invert {
      Round1Monotone(Clamp(100.0 - b, 0.0, 100.0), Clamp(100.0 - a, 0.0, 100.0));
    } else {
      Round1Monotone(Clamp(a, 0.0, 100.0), Clamp(b, 0.0, 100.0));
    }
  }

  datatype Status = Supportive | Neutral | Restrictive

  /** `get_status`: three bands of the score, cut at 66 and 33. */
  function GetStatus(score: real): (st: Status)
    ensures st == Supportive <==> score >= 66.0
    ensures st == Restrictive <==> score < 33.0
  {
    if score >= 66.0 then Supportive
    else if score >= 33.0 then Neutral
    else Restrictive
  }

  /** Position of a status from worst (0) to best (2). */
  function StatusLevel(st: Status): nat {
    match st
    case Restrictive => 0
    case Neutral => 1
    case Supportive => 2
  }

  /** A higher score never gets a worse status, and the band edges sit
      exactly at 66 and 33. */
  lemma StatusMonotone(a: real, b: real)
    requires a <= b
    ensures StatusLevel(GetStatus(a)) <= StatusLevel(GetStatus(b))
  {
  }

  lemma StatusBoundaries()
    ensures GetStatus(66.0) == Supportive && GetStatus(65.9) == Neutral
    ensures GetStatus(33.0) == Neutral && GetStatus(32.9) == Restrictive
  {
  }

  datatype Velocity = Rising | Falling | Flat

  /** `get_velocity`: compares the last score with the one `window`
      observations earlier; "flat" without enough observations. */
  function GetVelocity(s: seq<real>, window: nat): (v: Velocity)
    ensures v == Rising <==> |s| > window && s[|s| - 1] > s[|s| - 1 - window] + 2.0
    ensures v == Falling <==> |s| > window && s[|s| - 1] < s[|s| - 1 - window] - 2.0
  {
    if |s| < window + 1 then Flat
    else
      var diff := s[|s| - 1] - s[|s| - 1 - window];
      if diff > 2.0 then Rising
      else if diff < -2.0 then Falling
      else Flat
  }

  function Mirror(v: Velocity): Velocity {
    match v
    case Rising => Falling
    case Falling => Rising
    case Flat => Flat
  }

  /** Reflecting every score about 50 (what inversion does) mirrors the
      velocity: rising becomes falling and the reverse. */
  lemma VelocityOfReflection(s: seq<real>, t: seq<real>, window: nat)
    requires |t| == |s|
    requires forall i :: 0 <= i < |s| ==> t[i] == 100.0 - s[i]
    ensures GetVelocity(t, window) == Mirror(GetVelocity(s, window))
  {
  }

  datatype Direction = Up | Down | Unchanged

  /** The direction part of `fmt_change`: the sign of value - previous. */
  function ChangeDirection(value: real, prev: real): (dir: Direction)
    ensures dir == Up <==> value > prev
    ensures dir == Down <==> value < prev
  {
    if value - prev > 0.0 then Up
    else if value - prev < 0.0 then Down
    else Unchanged
  }

  lemma ChangeDirectionSwaps(value: real, prev: real)
    ensures ChangeDirection(value, prev) == Up <==> ChangeDirection(prev, value) == Down
    ensures ChangeDirection(value, prev) == Unchanged <==> value == prev
  {
  }

  /** The fixed-window score history: every point of `hist` ranked against
      the whole of `hist`, then scored (data/fetch_data.py:366-370, 403-405). */
  function FixedWindowScores(hist: Series, id: string, invert: set<string>): (r: Series)
    ensures |r| == |hist|
    ensures forall i :: 0 <= i < |r| ==> r[i].day == hist[i].day && 0.0 <= r[i].value <= 100.0
  {
    var vs := Values(hist);
    seq(|hist|, i requires 0 <= i < |hist| =>
      Point(hist[i].day, ScoreFromPct(PercentileOfScore(vs, vs[i]), id, invert)))
  }

  /** Scores follow raw values: equal values score equally, a larger value
      scores at least as high for a normal factor and at most as high for an
      inverted one. */
  lemma FixedWindowOrder(hist: Series, id: string, invert: set<string>, i: nat, j: nat)
    requires i < |hist| && j < |hist|
    requires hist[i].value <= hist[j].value
    ensures var r := FixedWindowScores(hist, id, invert);
            && (id !in invert ==> r[i].value <= r[j].value)
            && (id in invert ==> r[i].value >= r[j].value)
            && (hist[i].value == hist[j].value ==> r[i].value == r[j].value)
  {
    var vs := Values(hist);
    PercentileMonotone(vs, vs[i], vs[j]);
    ScoreFromPctMonotone(PercentileOfScore(vs, vs[i]), PercentileOfScore(vs, vs[j]), id, invert);
  }

  /** `make_score_series`: empty when fewer than 5 points fall in the
      5-year-plus-90-day window, otherwise the fixed-window scores of exactly
      the window's days. */
  function MakeScoreSeries(s: Series, today: int, id: string, invert: set<string>): (r: Series)
    ensures |Window(s, HistoryCutoff(today))| < 5 <==> r == []
    ensures r != [] ==> Days(r) == Days(Window(s, HistoryCutoff(today)))
    ensures forall i :: 0 <= i < |r| ==> 0.0 <= r[i].value <= 100.0
  {
    var hist := Window(s, HistoryCutoff(today));
    if |hist| < 5 then []
    else FixedWindowScores(hist, id, invert)
  }

  /** One entry of a module's factor list: (id, name, series, is_extra);
      the display format arguments are presentation only. */
  datatype FactorSpec = FactorSpec(id: string, name: string, series: Series, isExtra: bool)

  /** The numeric fields of the factor record `make_factor` returns. */
  datatype Factor = Factor(
    id: string,
    name: string,
    current: real,
    changeDirection: Direction,
    percentile5Y: real,
    status: Status,
    velocity: Velocity,
    isExtra: bool)

  /** `make_factor`: `None` for a series of fewer than 10 points; otherwise
      the latest value, the direction against the point nearest 7 days
      earlier, the rounded 5-year percentile, the status of the score and the
      velocity of the fixed-window score history. */
  function MakeFactor(spec: FactorSpec, today: int, invert: set<string>): (r: Option<Factor>)
    ensures r.None? <==> |spec.series| < 10
    ensures r.Some? ==> && r.value.id == spec.id && r.value.name == spec.name
                        && r.value.isExtra == spec.isExtra
                        && r.value.current == spec.series[|spec.series| - 1].value
    ensures r.Some? ==> 0.0 <= r.value.percentile5Y <= 100.0 && OneDecimal(r.value.percentile5Y)
    ensures r.Some? ==> r.value.percentile5Y == Round1(PctRank(spec.series, PercentileCutoff(today)))
    ensures r.Some? ==> r.value.status == GetStatus(ScoreFromPct(PctRank(spec.series, PercentileCutoff(today)), spec.id, invert))
    ensures r.Some? ==> var s := spec.series;
              r.value.changeDirection == ChangeDirection(s[|s| - 1].value, s[NearestIndex(s, s[|s| - 1].day - 7)].value)
    ensures r.Some? ==>
              r.value.velocity == GetVelocity(Values(FixedWindowScores(Window(spec.series, HistoryCutoff(today)), spec.id, invert)), 7)
  {
    var s := spec.series;
    if |s| < 10 then None
    else
      var current := s[|s| - 1].value;
      var past := s[NearestIndex(s, s[|s| - 1].day - 7)].value;
      var rawPct := PctRank(s, PercentileCutoff(today));
      var score := ScoreFromPct(rawPct, spec.id, invert);
      var scores := FixedWindowScores(Window(s, HistoryCutoff(today)), spec.id, invert);
      Round1Within(rawPct, 0.0, 100.0);
      Some(Factor(spec.id, spec.name, current, ChangeDirection(current, past),
                  Round1(rawPct), GetStatus(score), GetVelocity(Values(scores), 7), spec.isExtra))
  }
}
