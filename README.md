# Macro conditions dashboard: the scoring pipeline in Dafny

The dashboard turns about forty daily market and Federal Reserve series into
the following scores:

- factor scores between 0 and 100;
- seven module scores (liquidity, funding, treasury, rates, credit, risk,
  external);
- one overall index;
- a list of the factors that lifted or dragged the index over the last week.

This project models the scoring pipeline of `data/fetch_data.py` and proves
properties of it. The model covers:

- **Percentile engine** (`percentile.dfy`, module `Percentile`). This is
  scipy's `percentileofscore(kind="rank")`:
  `(count(< x) + count(<= x) + (1 if count(<= x) > count(< x))) * 50 / n`.
  On top of it sits `pct_rank`, which ranks the latest value in a 5-year
  window and returns 50 when fewer than two points fall in the window.
- **Factor scorer** (`scorer.dfy`, module `Scorer`). It covers:
  - inversion, clamping and rounding (`score_from_pct`);
  - the status bands and the velocity;
  - the sign of the seven-day change;
  - the fixed-window score history, where every point is ranked against the
    whole 5-years-plus-90-days window;
  - the numeric part of `make_factor`.
- **Module aggregator** (`module_aggregator.dfy`, module `ModuleAggregator`).
  It covers:
  - `build_module_obj` as a method with a loop, proved against the function
    `ModuleFromFactors`;
  - the loop over the module table that fills the `modules` and
    `all_factor_score_series` dictionaries;
  - the module score, the module history (a mean over whichever factor
    histories have a value on each day), the percentile, the previous score,
    the change and the trend.
- **Index aggregator** (`index_aggregator.dfy`, module `IndexAggregator`). It
  covers `MODULE_WEIGHTS`, the overall score and previous score (weighted sums
  over the modules present), the overall history built from the weighted
  module parts, its percentile and its trend.
- **Attribution** (`attribution.dfy`, module `Attribution`). It covers the
  lift/drag entries, the stable descending sort and the split by sign.
- **Derived series** (`derive.dfy`, module `Derive`). It covers the
  date-aligned arithmetic behind net liquidity, the spreads, the real-rate
  blend, the curve curvature and the VIX term structure, plus the
  91-observation momentum and the lower clip.
- **The whole run** (`dashboard.dfy`, module `Dashboard`).

Supporting modules:

- `numeric.dfy`, module `Numeric`: round-half-to-even at 1, 2 and 4
  decimals, clamp, sum and mean.
- `timeseries.dfy`, modules `Wrappers` and `TimeSeries`: a series is a
  sequence of `Point(day, value)` with strictly increasing days. It also
  holds windows, lookup, the union of dates and `build_trend_data`.

Values are exact reals. Python's `round(x, k)` is modelled as exact
round-half-to-even. The global inputs are explicit parameters:

- `TODAY` is the `today` day number;
- `INVERT_FACTORS` is a set of ids;
- `MODULE_WEIGHTS` is a sequence `ws` of (slug, weight) pairs in table
  order. The index members (`Index`, `IndexPartial`, `OverallScore`,
  `OverallPrev`, `OverallScoreMonotone`, `OverallHistoryBounds`,
  `ComputeOverall`) take any table with `WeightTable(ws)`, meaning no
  weight is negative and the weights sum to 1. `Attribution.LiftDrag` takes
  any table.

`Dashboard.BuildDashboard` is the program's own run. It passes the
program's constants, `Scorer.InvertFactors` and
`IndexAggregator.ModuleWeights`. `ModuleWeightsSumToOne` proves that the
latter is a `WeightTable`.

The two windows are distinct:

- `PercentileCutoff(today) = today - 5 * 365` (line 108);
- `HistoryCutoff(today) = today - (5 * 365 + 90)` (lines 366 and 399).

The code settles five points that a quick reading could get wrong:

- **Rank formula.** The rank is scipy's rank-kind formula above, not
  `(c_lt + c_le) / (2n)`. For a value that occurs in the window the two
  always differ by `50 / n`. 30 in `[10, 20, 30, 40, 50]` ranks 60, not 50.
  20 in `[10, 20, 20, 30]` ranks 62.5, not 50
  (`Percentile.DistinctWindowExample`, `Percentile.TiedWindowExample`).
- **Module score.** The module score is the unweighted mean of the rounded
  5-year percentiles, with `100 - p` for inverted ids. No per-factor weight
  table exists.
- **Overall score.** The overall score is `round(sum(w * score), 1)` over the
  modules present. It is not renormalised over them, so a missing module
  pulls the index towards 0 (`IndexAggregator.IndexPartial`,
  `IndexAggregator.LoneModuleExample`).
- **Trend.** The trend compares the last point with the first of the last
  three points, which is two observations back, not three.
- **Attribution weight.** Each factor's attribution weight is
  `module weight / number of scored factors`. Factors whose score history
  has fewer than 9 points are skipped rather than given zero.

## Model

| member | source | states |
|---|---|---|
| Numeric.RoundHalfEven | data/fetch_data.py:118 | the nearest integer, within 1/2, and exact on integers |
| Numeric.RoundHalfEvenMonotone | data/fetch_data.py:118 | rounding never reverses the order of two values |
| Numeric.Round1 | data/fetch_data.py:118 | `round(x, 1)` is within 0.05 of x, has one decimal, and fixes values that already have one |
| Numeric.Round2 | data/fetch_data.py:638 | `round(x, 2)` is within 0.005 of x, has two decimals, and fixes values that already have two |
| Numeric.Round4 | data/fetch_data.py:150 | `round(x, 4)` is within 0.00005 of x and fixes values with four decimals |
| Numeric.Round1Monotone | data/fetch_data.py:118 | one-decimal rounding is monotone |
| Numeric.Round2Monotone | data/fetch_data.py:638 | two-decimal rounding is monotone |
| Numeric.Round1Within | data/fetch_data.py:118 | rounding keeps a value inside bounds that have one decimal, e.g. [0, 100] |
| Numeric.Round2Sign | data/fetch_data.py:638-642 | two-decimal rounding keeps the sign, up to zero |
| Numeric.Clamp | data/fetch_data.py:118 | `max(lo, min(hi, x))` lies in [lo, hi] and is x when x is already there |
| Numeric.SumBounds | data/fetch_data.py:441 | a sum of n values in [lo, hi] lies in [n*lo, n*hi] |
| Numeric.MeanWithin | data/fetch_data.py:432-435 | a mean lies between the bounds of its values |
| Numeric.Max | data/fetch_data.py:457 | `max(a, b)` is at least both and is one of them |
| TimeSeries.Values | data/fetch_data.py:109 | the values of a series, position by position |
| TimeSeries.Days | data/fetch_data.py:109 | the dates of a series, position by position |
| TimeSeries.DaysOfIncreasing | data/fetch_data.py:109 | the dates of a date-ordered series are strictly increasing |
| TimeSeries.Window | data/fetch_data.py:109 | `series[index >= cutoff]` holds exactly the points dated on or after the cutoff |
| TimeSeries.FirstFrom | data/fetch_data.py:109 | the position of the first point on or after the cutoff |
| TimeSeries.WindowIsSuffix | data/fetch_data.py:109 | on a date-ordered series the window is the suffix from that position |
| TimeSeries.WindowAllFrom | data/fetch_data.py:400 | a window that starts before every date keeps the whole series |
| TimeSeries.WindowIncreasing | data/fetch_data.py:367 | the window of a date-ordered series is date-ordered |
| TimeSeries.Lookup | data/fetch_data.py:441 | the value on a date is present exactly when some point has that date, and is that point's value |
| TimeSeries.NearestUpTo | data/fetch_data.py:358 | `get_indexer(method="nearest")`: no point is closer to the target, and among equally close points the later one wins |
| TimeSeries.NearestIndex | data/fetch_data.py:358-359 | the nearest position is a valid position |
| TimeSeries.Merge | data/fetch_data.py:441 | the sorted union of two date lists: strictly increasing, holding exactly the dates of either |
| TimeSeries.ConsIncreasing | data/fetch_data.py:441 | a date below every later date keeps the list increasing |
| TimeSeries.UnionDays | data/fetch_data.py:441 | the index of `pd.concat(..., axis=1)`: increasing, exactly the dates on which some series has a point |
| TimeSeries.UnionDaysSnoc | data/fetch_data.py:441 | adding the dates of one more series to the union of the others gives the dates of them all |
| TimeSeries.ValuesOn | data/fetch_data.py:441 | the row of a date: at most one value per series |
| TimeSeries.ValuesOnNonEmpty | data/fetch_data.py:441 | a date of the union has at least one value in its row |
| TimeSeries.ValuesOnWithin | data/fetch_data.py:441 | a row of values in [lo, hi] series stays in [lo, hi] |
| TimeSeries.Tail | data/fetch_data.py:145 | `tail(n)` holds the last min(n, len) points in order |
| TimeSeries.BuildTrendData | data/fetch_data.py:143-152 | the loop emits, for each point of the tail, its date and its value rounded to 4 decimals, in date order |
| Percentile.CountBelow | data/fetch_data.py:113 | the number of values strictly below x is at most n |
| Percentile.CountAtMost | data/fetch_data.py:113 | the number of values at most x is at most n |
| Percentile.BelowAtMost | data/fetch_data.py:113 | count(< x) <= count(<= x), strictly when x is a member |
| Percentile.CountsMonotone | data/fetch_data.py:113 | both counts grow with x, and count(<= x) <= count(< y) when x < y |
| Percentile.AllBelow | data/fetch_data.py:113 | count(< x) == n exactly when every value is below x |
| Percentile.CountsSnoc | data/fetch_data.py:113 | how appending one value changes both counts |
| Percentile.Scaled | data/fetch_data.py:113 | `k * 50 / n` is monotone in k, positive for k > 0, and 100 exactly at k = 2n |
| Percentile.RankNumerator | data/fetch_data.py:113 | the numerator `count(<) + count(<=) + tie bonus` is at most 2n and positive for a member |
| Percentile.PercentileOfScore | data/fetch_data.py:113 | `percentileofscore(kind="rank")` lies in [0, 100] |
| Percentile.RankOfMember | data/fetch_data.py:112-113 | the rank of a window member lies in (0, 100] |
| Percentile.PercentileMonotone | data/fetch_data.py:113 | the rank never decreases as the score grows |
| Percentile.PercentileStrictOnMembers | data/fetch_data.py:369 | of two distinct members, the larger ranks strictly higher |
| Percentile.LastRanksHundred | data/fetch_data.py:112-113 | the latest value ranks 100 exactly when it is above every earlier value |
| Percentile.LatestRanksHundred | data/fetch_data.py:111-113 | the last point of a window of two or more ranks 100 exactly when every earlier value is below it |
| Percentile.PctRank | data/fetch_data.py:106-113 | 50 when fewer than two points are on or after the cutoff, otherwise in (0, 100] |
| Percentile.PctRankHundred | data/fetch_data.py:106-113 | `pct_rank` is 100 exactly when the latest value is a strict high of the window |
| Percentile.ScipyExample | data/fetch_data.py:113 | 3 in [1, 2, 3, 4] ranks 75 |
| Percentile.DistinctWindowExample | data/fetch_data.py:113 | 30 in [10, 20, 30, 40, 50] ranks 60 |
| Percentile.TiedWindowExample | data/fetch_data.py:113 | 20 in [10, 20, 20, 30] ranks 62.5 |
| Scorer.ScoreFromPct | data/fetch_data.py:116-118 | every factor score is in [0, 100] with one decimal |
| Scorer.InversionLaw | data/fetch_data.py:116-118 | a score is the rounded percentile for ids outside the inverted set and the rounded `100 - pct` for ids inside it |
| Scorer.InversionReflects | data/fetch_data.py:116-118 | inverting an id reflects its score about 50 |
| Scorer.RoundHalfEvenReflect | data/fetch_data.py:117-118 | half-to-even rounding commutes with reflection about an even integer |
| Scorer.ScoreFromPctMonotone | data/fetch_data.py:116-118 | scores rise with the percentile for plain ids and fall for inverted ids |
| Scorer.GetStatus | data/fetch_data.py:121-126 | supportive exactly when the score is at least 66, restrictive exactly when it is below 33 |
| Scorer.StatusMonotone | data/fetch_data.py:121-126 | a higher score never gets a worse status |
| Scorer.StatusBoundaries | data/fetch_data.py:121-126 | the band edges are at 66 (supportive) and 33 (neutral) |
| Scorer.GetVelocity | data/fetch_data.py:129-140 | rising exactly when there are more than `window` points and the last beats the one `window` back by more than 2; falling exactly when it trails it by more than 2 |
| Scorer.VelocityOfReflection | data/fetch_data.py:129-140 | reflecting the scores about 50 swaps rising and falling |
| Scorer.ChangeDirection | data/fetch_data.py:187-190 | up exactly when the value exceeds the previous one, down exactly when it is below it |
| Scorer.ChangeDirectionSwaps | data/fetch_data.py:187-190 | up for (value, prev) is down for (prev, value); unchanged exactly when equal |
| Scorer.FixedWindowScores | data/fetch_data.py:366-370 | one score per window point, on the same date, each in [0, 100] |
| Scorer.FixedWindowOrder | data/fetch_data.py:403-405 | equal raw values get equal scores; the order of raw values is kept for plain ids and reversed for inverted ids |
| Scorer.MakeScoreSeries | data/fetch_data.py:396-405 | empty exactly when the window has fewer than 5 points, otherwise the window's dates with scores in [0, 100] |
| Scorer.MakeFactor | data/fetch_data.py:347-393 | no factor exactly when the series has fewer than 10 points; otherwise the id, name, extra flag and latest value; the percentile is the one-decimal `pct_rank` of the series; the status is that of the score; the direction compares the latest value with the one nearest 7 days back; the velocity is that of the fixed-window scores |
| ModuleAggregator.TrendIff | data/fetch_data.py:459-466 | improving exactly when the last point is more than the threshold above the first of the last (at most) three, declining exactly when it is more than the threshold below (a rise wins, which a non-negative threshold makes moot), stable otherwise |
| ModuleAggregator.TrendDirection | data/fetch_data.py:459-466 | stable whenever fewer than two points are given |
| ModuleAggregator.MadeFactors | data/fetch_data.py:417-424 | the factors kept are at most the specs, each well formed |
| ModuleAggregator.ScoreSeriesMap | data/fetch_data.py:418-425 | every recorded score history is date-ordered with scores in [0, 100] |
| ModuleAggregator.Scored | data/fetch_data.py:428 | the non-extra factors, at most as many as all |
| ModuleAggregator.ScoredWellFormed | data/fetch_data.py:428 | every scored factor is well formed and not extra |
| ModuleAggregator.NoScoredFactor | data/fetch_data.py:428-430 | no scored factor is made exactly when no spec is both non-extra and 10 or more points long |
| ModuleAggregator.OrientedAll | data/fetch_data.py:432-435 | each factor's percentile, as `100 - p` for inverted ids |
| ModuleAggregator.ModuleScore | data/fetch_data.py:432-435 | the rounded mean of the oriented percentiles has one decimal |
| ModuleAggregator.ModuleScoreBetween | data/fetch_data.py:432-435 | the module score lies between any one-decimal bounds of its oriented percentiles |
| ModuleAggregator.ModuleScoreBounds | data/fetch_data.py:432-435 | the module score is in [0, 100] |
| ModuleAggregator.ScoredHistories | data/fetch_data.py:438-439 | the non-empty recorded histories of the scored factors, each date-ordered in [0, 100] |
| ModuleAggregator.MeanRows | data/fetch_data.py:441 | at most one row per date |
| ModuleAggregator.MeanRowsFull | data/fetch_data.py:441 | with a value on every date, each row is the mean of that date's values |
| ModuleAggregator.ModuleHistory | data/fetch_data.py:440-443 | date-ordered on exactly the union of dates, each value the mean of that day's available factor scores, all in [0, 100] |
| ModuleAggregator.ChangePctSign | data/fetch_data.py:457 | the change has the sign of score - prev, and is 0 when they are equal |
| ModuleAggregator.PrevScore | data/fetch_data.py:452-455 | the score itself for a history of 7 points or fewer, otherwise a one-decimal value within 0.05 of the 8th-from-last point |
| ModuleAggregator.ChangePct | data/fetch_data.py:457 | the change is rounded to two decimals |
| ModuleAggregator.ModulePercentile | data/fetch_data.py:449 | the module percentile is 50 for a history of 10 points or fewer, otherwise a one-decimal value in [0, 100] |
| ModuleAggregator.ModuleFromFactors | data/fetch_data.py:427-492 | no module exactly when no factor is scored; otherwise the slug, name, factors, score and prev score in [0, 100], and a date-ordered history in [0, 100] |
| ModuleAggregator.ModuleRecordFields | data/fetch_data.py:427-466 | a built module's score, history, prev score, change, trend (threshold 1) and percentile are those of the mean, concatenation, prev, change, trend and rank rules above |
| ModuleAggregator.ModuleRecordLaws | data/fetch_data.py:449-466 | the change has the sign of score - prev and is 0 for a history of 7 points or fewer; the trend is improving exactly on a rise of more than 1 across the last three points and declining exactly on such a fall; the percentile is 50 for a history of 10 points or fewer |
| ModuleAggregator.ModuleRecordBetween | data/fetch_data.py:432-435 | a built module's score lies between any one-decimal bounds of its oriented percentiles |
| ModuleAggregator.BuildModuleObj | data/fetch_data.py:412-492 | the loop's result is the module function's; no module, and an empty map, exactly when every spec is extra or has fewer than 10 points; otherwise the map of score histories |
| ModuleAggregator.ModuleOf | data/fetch_data.py:565 | a module exactly when some spec is scored and long enough, well formed under its slug |
| ModuleAggregator.ModulesOf | data/fetch_data.py:561-568 | every module is stored under its own slug and is well formed |
| ModuleAggregator.AllScoreSeries | data/fetch_data.py:562-568 | the merged score histories are date-ordered in [0, 100] |
| ModuleAggregator.ModulePresent | data/fetch_data.py:563-567 | a slug is in `modules` exactly when its table entry has a scored factor with 10 or more points |
| ModuleAggregator.SlugFoundSnoc | data/fetch_data.py:563 | a slug is found in a table exactly when it is in all but the last entry, or in the last one |
| ModuleAggregator.ModulesOfSnoc | data/fetch_data.py:563-567 | one more table entry stores its module, if any, under its slug and leaves the other modules alone |
| ModuleAggregator.AllScoreSeriesSnoc | data/fetch_data.py:563-568 | one more table entry merges its score histories over the earlier ones exactly when its module is kept |
| ModuleAggregator.AddModule | data/fetch_data.py:565-568 | one pass of the loop stores the module and merges its score histories, or changes nothing when the module is `None` |
| ModuleAggregator.BuildModules | data/fetch_data.py:560-568 | the loop builds exactly `ModulesOf` and `AllScoreSeries`, every module well formed |
| IndexAggregator.ModuleWeightsSumToOne | data/fetch_data.py:49-57 | the program's module weights are non-negative and sum to 1, so they form a WeightTable |
| IndexAggregator.WeightedSum | data/fetch_data.py:574-578 | the sum over no present module is 0 |
| IndexAggregator.WeightedStep | data/fetch_data.py:574-578 | adding one term in [0, 100 w] keeps the partial sum in [0, 100 x present weight] |
| IndexAggregator.MonotoneStep | data/fetch_data.py:574-578 | adding a larger term with the same weight to a larger partial sum keeps the order |
| IndexAggregator.PresentWeight | data/fetch_data.py:574-578 | the weight of the present modules is between 0 and the total weight |
| IndexAggregator.WeightedTerm | data/fetch_data.py:575 | one weighted term lies in [0, 100 w] |
| IndexAggregator.WeightedSumBounds | data/fetch_data.py:574-578 | the weighted sum is in [0, 100 x present weight] |
| IndexAggregator.WeightedSumMonotone | data/fetch_data.py:574-578 | the weighted sum grows with every module value |
| IndexAggregator.LoneModuleExample | data/fetch_data.py:574-578 | with only liquidity present at 50, the sum is 10 and the present weight 0.20: no renormalisation |
| IndexAggregator.Scores | data/fetch_data.py:575 | one score per present module |
| IndexAggregator.PrevScores | data/fetch_data.py:582 | one previous score per present module |
| IndexAggregator.Index | data/fetch_data.py:574-585 | for any WeightTable, the rounded weighted sum is in [0, 100] |
| IndexAggregator.IndexPartial | data/fetch_data.py:574-578 | the index is at most 100 x the weight of the present modules |
| IndexAggregator.OverallScore | data/fetch_data.py:574-578 | for any WeightTable, the overall score is in [0, 100] |
| IndexAggregator.OverallPrev | data/fetch_data.py:581-585 | for any WeightTable, the previous overall score is in [0, 100] |
| IndexAggregator.OverallScoreMonotone | data/fetch_data.py:574-578 | raising module scores never lowers the overall score |
| IndexAggregator.ScaleSeries | data/fetch_data.py:596 | `series * w` keeps the dates and multiplies each value |
| IndexAggregator.ScaleWithin | data/fetch_data.py:596 | a series in [0, 100] times w >= 0 is in [0, 100 w] |
| IndexAggregator.ModulePart | data/fetch_data.py:592-596 | a module's part is date-ordered and in [0, 100 w] |
| IndexAggregator.OverallParts | data/fetch_data.py:588-598 | every part is date-ordered |
| IndexAggregator.BuildOverallParts | data/fetch_data.py:588-598 | the loop appends exactly the parts of the present modules, in weight-table order |
| IndexAggregator.PartsSumBound | data/fetch_data.py:600 | any day's sum of parts is in [0, 100 x total weight] |
| IndexAggregator.OverallHistory | data/fetch_data.py:599-602 | date-ordered on exactly the union of the parts' dates |
| IndexAggregator.OverallHistoryBounds | data/fetch_data.py:599-602 | for any WeightTable, every overall history value is in [0, 100] |
| IndexAggregator.ComputeOverall | data/fetch_data.py:574-616 | score and prev are the rounded weighted sums in [0, 100]; the history is the parts' daily sum in [0, 100]; the percentile; the trend is improving exactly on a rise of more than 0.5 across the last three points and declining exactly on such a fall |
| Attribution.ScaledChange | data/fetch_data.py:637 | a change in [-100, 100] times a share s >= 0 is in [-100 s, 100 s] |
| Attribution.Share | data/fetch_data.py:627 | `w / max(len(scored), 1)`: the shares of the scored factors add back to w, each in [0, w] |
| Attribution.Change | data/fetch_data.py:635-637 | the 7-observation change of a score history in [0, 100] lies in [-100, 100] |
| Attribution.SignOfProduct | data/fetch_data.py:637 | a product with a positive factor has the sign of the other factor |
| Attribution.Contribution | data/fetch_data.py:637 | with a positive share the contribution has the sign of the change; with a zero share it is 0 |
| Attribution.ContributionBound | data/fetch_data.py:635-637 | a factor's contribution is at most 100 x its share in size |
| Attribution.FactorEntry | data/fetch_data.py:629-638 | an entry exactly when the factor has a history of 9 or more points; its name, and its points within 0.005 of the contribution |
| Attribution.EntryBound | data/fetch_data.py:637-638 | an entry's points are at most 100 x share + 0.005 in size |
| Attribution.ModuleEntries | data/fetch_data.py:628-638 | at most one entry per scored factor, each bounded by the share |
| Attribution.CollectModuleEntries | data/fetch_data.py:628-638 | the inner loop collects exactly the entries of one module's scored factors, in factor order |
| Attribution.CollectEntries | data/fetch_data.py:622-638 | the outer loop collects exactly the entries of the present modules in weight-table order |
| Attribution.AllEntries | data/fetch_data.py:622-638 | no present module gives no entry |
| Attribution.ConsDescending | data/fetch_data.py:640 | an item at least as large as the rest heads a descending list |
| Attribution.Insert | data/fetch_data.py:640 | inserting adds exactly one item and keeps a list descending |
| Attribution.SortDesc | data/fetch_data.py:640 | the sort is a permutation and is descending |
| Attribution.InsertTies | data/fetch_data.py:640 | inserting puts an item ahead of the items that tie with it |
| Attribution.SortStable | data/fetch_data.py:640 | items with equal points keep their original order |
| Attribution.Split | data/fetch_data.py:641-642 | lift holds exactly the items above 0 and drag those below 0, each still descending |
| Attribution.SplitCounts | data/fetch_data.py:641-642 | each kept item appears as often as in the input |
| Attribution.SplitPermutation | data/fetch_data.py:641-642 | splitting permuted lists gives permuted results |
| Attribution.SplitTies | data/fetch_data.py:641-642 | within each side the tied items are those of the input, in order |
| Attribution.SplitPartition | data/fetch_data.py:641-642 | every entry is in lift, in drag or has zero points, and in only one |
| Attribution.LiftDrag | data/fetch_data.py:622-642 | lift and drag hold exactly the positive and negative entries, descending, and stable among ties |
| Dashboard.BuildDashboard | data/fetch_data.py:558-658 | the modules are exactly those with a scored factor; every score and history is in [0, 100]; the overall score, prev score, history, percentile and trend (threshold 0.5, as an if-and-only-if on the last three points) are those of the index rules; the overall trend data is the last 90 history points, dates kept and values rounded to 4 decimals, in date order; lift and drag are exactly the positive and negative entries of the present modules, as multisets, descending and in input order among ties |
| Derive.Join | data/fetch_data.py:288 | the aligned result is no longer than its first input and only has its dates |
| Derive.JoinIncreasing | data/fetch_data.py:288 | an aligned result stays date-ordered |
| Derive.JoinRecords | data/fetch_data.py:300-306 | a date is in the result exactly when both inputs have it, and its value is f of their values |
| Derive.LookupCons | data/fetch_data.py:288 | the lookup of a date is the first point's value or the lookup in the rest |
| Derive.SpreadAntisymmetric | data/fetch_data.py:300-303 | `a - b` and `b - a` cover the same dates with opposite values |
| Derive.Spread | data/fetch_data.py:300-303 | `a - b` is no longer than a and date-ordered when a is |
| Derive.NetLiquidity | data/fetch_data.py:281-288 | net liquidity is no longer than total assets and date-ordered when they are |
| Derive.NetLiquidityValue | data/fetch_data.py:281-288 | net liquidity has a date exactly when all three inputs have it, and its value is assets / 1000 - TGA / 1000 - ON RRP |
| Derive.ScaleIncreasing | data/fetch_data.py:281-282 | a unit conversion keeps a series date-ordered |
| Derive.LookupScale | data/fetch_data.py:281-282 | a converted series has the same dates, each value divided by the factor |
| Derive.Scale | data/fetch_data.py:281-284 | the $M to $B conversion keeps the dates and divides each value by 1000 |
| Derive.RealLevel | data/fetch_data.py:328 | the blend is no longer than the 5-year series and date-ordered when it is |
| Derive.RealLevelBetween | data/fetch_data.py:328 | the real-rate level lies between the 5-year and 10-year real rates |
| Derive.Abs | data/fetch_data.py:325 | an absolute value is non-negative and is x or -x |
| Derive.Curvature | data/fetch_data.py:325 | the curve curvature is never negative |
| Derive.CurvatureNonNegative | data/fetch_data.py:325 | the aligned absolute values are all non-negative |
| Derive.CurvatureSteps | data/fetch_data.py:325 | the two aligned steps compute abs(2 x 10Y - 2Y - 30Y) for one day |
| Derive.CurvatureValue | data/fetch_data.py:325 | the curvature has a date exactly when all three yields have it, and its value is abs(2 x 10Y - 2Y - 30Y) |
| Derive.Ratio | data/fetch_data.py:339 | for a nonzero divisor the ratio times the divisor gives back the dividend |
| Derive.VixTermStructure | data/fetch_data.py:339 | `vix / vix3m` is no longer than VIX and date-ordered when VIX is |
| Derive.VixTermValue | data/fetch_data.py:339 | the term structure has a date exactly when both indices have it; there VIX3M is nonzero and the value is VIX / VIX3M |
| Derive.Momentum | data/fetch_data.py:291 | one point per position from k on, with that point's date and its change over k positions, date-ordered |
| Derive.ClipLower | data/fetch_data.py:343 | the same dates, no value below 0, and non-negative values kept |

## Left out

- Data acquisition is not modelled: the FRED and Yahoo fetches, the API-key
  check and the SSL patch (lines 28-40, 199-275). They are network I/O; the
  model takes the fetched series as inputs.
- `resample("D").last().ffill()` (lines 212-230) is pandas library behaviour.
  The model takes series that are already daily and date-ordered, with the
  missing values dropped.
- `rel_log_return`, `realized_vol`, the square root in `on_rrp_risk` and the
  rolling standard deviations (lines 94-103, 297, 308-317, 323-324, 332-338,
  342) are not modelled. They are logarithms, square roots and floating-point
  statistics.
- Derive.VixTermStructure: requires every VIX3M value to be nonzero. At a
  zero VIX3M pandas produces `inf` or `NaN`, which exact reals do not have.
- The `trendData` of each factor (line 390) and of each module (line 446) is
  not stored in the model's records. `TimeSeries.BuildTrendData` states the
  step that builds it.
  - A factor's trend data comes from its input series after the `dropna` of
    line 351. The model's `FactorSpec.series` is that cleaned series, since
    a `Series` has no missing values. `Scorer.Factor` has no series field.
  - A module's trend data comes from the series its record holds,
    `Module.history`.

  `Dashboard.BuildDashboard` applies the step to the overall history (line
  604).
- The rolling medians of the TGA and OVX deviations (lines 294, 343) are not
  modelled. They are window statistics over floating data. The clip applied
  after the OVX median is modelled (`Derive.ClipLower`).
- `percentile_dist` (lines 160-170) is not modelled. It rests on numpy's
  interpolated percentiles.
- The value and change strings of `fmt_value` and `fmt_change`
  (lines 173-194) are not modelled; only the direction is
  (`Scorer.ChangeDirection`). The `strftime` dates of `build_trend_data`
  (line 149) are dropped as well. All of this is presentation.
- Module colours, the `lastUpdated`/`updatedAt` timestamps, the JSON file and
  the console output (lines 468-475, 486-487, 652-653, 660-667) are not
  modelled. They are presentation, the clock and file I/O.
- Python float arithmetic is not modelled. Values are exact reals and
  `round` is exact round-half-to-even, so binary-representation effects are
  not captured.
- Derive.Momentum: the model shifts by 91 positions of the series it is
  given. In the program `net_liq` is indexed by calendar day, because the
  forward-filled weekly series span every day. ON RRP is not forward-filled,
  so days without an ON RRP value are missing values in `net_liq`, and
  `shift(91)` still reaches back 91 calendar days. The model's `NetLiquidity`
  drops those days, so its momentum reaches back 91 recorded days. The two
  agree only when every calendar day has a value.
- Derive.Join: the model keeps only the dates both inputs have. The program
  keeps the other dates as missing values and drops them when the factor is
  built (lines 351, 398).
- Attribution.SortDesc: `list.sort` sorts in place. The model states it as a
  function (a stable insertion sort) on the collected list.
- The order of the `modules` dictionary (line 655) is not modelled. The model
  keeps the modules in a map keyed by slug.
- ModuleAggregator.BuildModuleObj: the `fss` dictionary is `{}` whenever the
  module is dropped, as in the program. The score histories are always
  computed before that check, and the model does not state them.
- Attribution.FactorEntry: the `len(ss) > 8` fallback to `score_now`
  (line 636) cannot be reached after the skip at line 633. The contract uses
  the 8th-from-last value directly. `Attribution.CollectModuleEntries` keeps
  the branch.
