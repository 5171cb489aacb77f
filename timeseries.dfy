/** The optional value used where the pipeline returns `None`. */
module Wrappers {
  datatype Option<+T> = None | Some(value: T)
}

/** Daily series after cleaning: points in strictly increasing day order,
    missing observations already dropped. A day is an integer day number. */
module TimeSeries {
  import opened Numeric
  import opened Wrappers

  datatype Point = Point(day: int, value: real)

  type Series = seq<Point>

  predicate Increasing(s: Series) {
    forall i, j :: 0 <= i < j < |s| ==> s[i].day < s[j].day
  }

  predicate StrictlyIncreasing(ds: seq<int>) {
    forall i, j :: 0 <= i < j < |ds| ==> ds[i] < ds[j]
  }

  function Values(s: Series): (vs: seq<real>)
    ensures |vs| == |s| && forall i :: 0 <= i < |s| ==> vs[i] == s[i].value
  {
    seq(|s|, i requires 0 <= i < |s| => s[i].value)
  }

  function Days(s: Series): (ds: seq<int>)
    ensures |ds| == |s| && forall i :: 0 <= i < |s| ==> ds[i] == s[i].day
  {
    seq(|s|, i requires 0 <= i < |s| => s[i].day)
  }

  lemma DaysOfIncreasing(s: Series)
    requires Increasing(s)
    ensures StrictlyIncreasing(Days(s))
  {
  }

  /** `series[series.index >= cutoff]`: the points dated on or after `cutoff`. */
  function Window(s: Series, cutoff: int): (w: Series)
    ensures forall p :: p in w <==> p in s && p.day >= cutoff
    ensures |w| <= |s|
  {
    if s == [] then []
    else if s[0].day >= cutoff then [s[0]] + Window(s[1..], cutoff)
    else Window(s[1..], cutoff)
  }

  /** Index of the first point dated on or after `cutoff` (|s| if none). */
  function FirstFrom(s: Series, cutoff: int): (k: nat)
    ensures k <= |s|
  {
    if s == [] || s[0].day >= cutoff then 0 else 1 + FirstFrom(s[1..], cutoff)
  }

  /** On an increasing series the window is a suffix: the last |w| points. */
  lemma {:induction false} WindowIsSuffix(s: Series, cutoff: int)
    requires Increasing(s)
    ensures Window(s, cutoff) == s[FirstFrom(s, cutoff)..]
  {
    if s != [] {
      assert Increasing(s[1..]);
      WindowIsSuffix(s[1..], cutoff);
      if s[0].day >= cutoff {
        WindowAllFrom(s[1..], cutoff);
        assert Window(s[1..], cutoff) == s[1..];
      }
    }
  }

  /** When the first point is already past the cutoff, nothing is cut. */
  lemma {:induction false} WindowAllFrom(s: Series, cutoff: int)
    requires forall i :: 0 <= i < |s| ==> s[i].day >= cutoff
    ensures Window(s, cutoff) == s
  {
    if s != [] {
      WindowAllFrom(s[1..], cutoff);
    }
  }

  lemma WindowIncreasing(s: Series, cutoff: int)
    requires Increasing(s)
    ensures Increasing(Window(s, cutoff))
  {
    WindowIsSuffix(s, cutoff);
  }

  /** The value recorded on day `d`, if any. */
  function Lookup(s: Series, d: int): (r: Option<real>)
    ensures r.Some? <==> exists i :: 0 <= i < |s| && s[i].day == d
    ensures r.Some? ==> exists i :: 0 <= i < |s| && s[i].day == d && s[i].value == r.value
  {
    if s == [] then None
    else if s[0].day == d then Some(s[0].value)
    else
      var r := Lookup(s[1..], d);
      assert r.Some? ==> exists i :: 1 <= i < |s| && s[i].day == d && s[i].value == r.value by {
        if r.Some? {
          var i :| 0 <= i < |s[1..]| && s[1..][i].day == d && s[1..][i].value == r.value;
          assert s[i + 1] == s[1..][i];
        }
      }
      assert (exists i :: 0 <= i < |s| && s[i].day == d) ==> r.Some? by {
        if exists i :: 0 <= i < |s| && s[i].day == d {
          var i :| 0 <= i < |s| && s[i].day == d;
          assert i > 0 && s[1..][i - 1] == s[i];
        }
      }
      r
  }

  function Distance(a: int, b: int): nat {
    if a >= b then a - b else b - a
  }

  /** pandas `get_indexer(..., method="nearest")` over the first k+1 points:
      the point dated closest to `target`, the later one on a tie. */
  function NearestUpTo(s: Series, target: int, k: nat): (i: nat)
    requires k < |s|
    ensures i <= k
    ensures forall j :: 0 <= j <= k ==> Distance(s[i].day, target) <= Distance(s[j].day, target)
    ensures forall j :: 0 <= j <= k && Distance(s[j].day, target) == Distance(s[i].day, target) ==> j <= i
  {
    if k == 0 then 0
    else
      var b := NearestUpTo(s, target, k - 1);
      if Distance(s[k].day, target) <= Distance(s[b].day, target) then k else b
  }

  function NearestIndex(s: Series, target: int): (i: nat)
    requires |s| > 0
    ensures i < |s|
  {
    NearestUpTo(s, target, |s| - 1)
  }

  /** Merge of two increasing day lists: the sorted union `pd.concat(axis=1)` aligns on. */
  function Merge(a: seq<int>, b: seq<int>): (r: seq<int>)
    requires StrictlyIncreasing(a) && StrictlyIncreasing(b)
    ensures StrictlyIncreasing(r)
    ensures forall d :: d in r <==> d in a || d in b
    decreases |a| + |b|
  {
    if a == [] then b
    else if b == [] then a
    else if a[0] < b[0] then
      var rest := Merge(a[1..], b);
      BelowAll(a[0], a[1..], b, rest);
      [a[0]] + rest
    else if b[0] < a[0] then
      var rest := Merge(a, b[1..]);
      BelowAll(b[0], a, b[1..], rest);
      [b[0]] + rest
    else
      var rest := Merge(a[1..], b[1..]);
      BelowAll(a[0], a[1..], b[1..], rest);
      [a[0]] + rest
  }

  /** A day below the heads of two increasing lists is below every day drawn
      from them, so it can head their merge. */
  lemma BelowAll(x: int, a: seq<int>, b: seq<int>, rest: seq<int>)
    requires StrictlyIncreasing(a) && StrictlyIncreasing(b) && StrictlyIncreasing(rest)
    requires a != [] ==> x < a[0]
    requires b != [] ==> x < b[0]
    requires forall d :: d in rest <==> d in a || d in b
    ensures StrictlyIncreasing([x] + rest)
  {
    forall d | d in rest ensures x < d {
      if d in a {
        var i :| 0 <= i < |a| && a[i] == d;
        assert a[0] <= a[i];
      } else {
        var i :| 0 <= i < |b| && b[i] == d;
        assert b[0] <= b[i];
      }
    }
    ConsIncreasing(x, rest);
  }

  lemma ConsIncreasing(x: int, rest: seq<int>)
    requires StrictlyIncreasing(rest)
    requires forall d :: d in rest ==> x < d
    ensures StrictlyIncreasing([x] + rest)
  {
    forall i, j | 0 <= i < j < |[x] + rest| ensures ([x] + rest)[i] < ([x] + rest)[j] {
      assert ([x] + rest)[j] == rest[j - 1];
      assert rest[j - 1] in rest;
    }
  }

  predicate AllIncreasing(hs: seq<Series>) {
    forall k :: 0 <= k < |hs| ==> Increasing(hs[k])
  }

  /** The sorted union of the days of all the series. */
  function UnionDays(hs: seq<Series>): (ds: seq<int>)
    requires AllIncreasing(hs)
    ensures StrictlyIncreasing(ds)
    ensures forall d :: d in ds <==> exists k, i :: 0 <= k < |hs| && 0 <= i < |hs[k]| && hs[k][i].day == d
  {
    if hs == [] then []
    else
      var init := hs[..|hs| - 1];
      var last := hs[|hs| - 1];
      assert AllIncreasing(init);
      DaysOfIncreasing(last);
      var ds := Merge(UnionDays(init), Days(last));
      UnionDaysSnoc(hs, UnionDays(init), ds);
      ds
  }

  /** Adding the days of the last series to the union of the others gives
      the union of them all. */
  lemma UnionDaysSnoc(hs: seq<Series>, u: seq<int>, ds: seq<int>)
    requires hs != []
    requires forall d :: d in u <==> exists k, i :: 0 <= k < |hs| - 1 && 0 <= i < |hs[k]| && hs[k][i].day == d
    requires forall d :: d in ds <==> d in u || d in Days(hs[|hs| - 1])
    ensures forall d :: d in ds <==> exists k, i :: 0 <= k < |hs| && 0 <= i < |hs[k]| && hs[k][i].day == d
  {
    var last := hs[|hs| - 1];
    forall d
      ensures d in ds <==> exists k, i :: 0 <= k < |hs| && 0 <= i < |hs[k]| && hs[k][i].day == d
    {
      if d in ds && d !in u {
        var i :| 0 <= i < |last| && Days(last)[i] == d;
        assert hs[|hs| - 1][i].day == d;
      }
      if exists k, i :: 0 <= k < |hs| && 0 <= i < |hs[k]| && hs[k][i].day == d {
        var k, i :| 0 <= k < |hs| && 0 <= i < |hs[k]| && hs[k][i].day == d;
        if k == |hs| - 1 {
          assert Days(last)[i] == d;
        }
      }
    }
  }

  /** The values the series record on day `d`, in series order (the
      non-missing cells of one row of `pd.concat(..., axis=1)`). */
  function ValuesOn(hs: seq<Series>, d: int): (vs: seq<real>)
    ensures |vs| <= |hs|
  {
    if hs == [] then []
    else
      var init := ValuesOn(hs[..|hs| - 1], d);
      match Lookup(hs[|hs| - 1], d)
      case Some(v) => init + [v]
      case None => init
  }

  lemma {:induction false} ValuesOnNonEmpty(hs: seq<Series>, d: int, k: nat, i: nat)
    requires k < |hs| && i < |hs[k]| && hs[k][i].day == d
    ensures |ValuesOn(hs, d)| > 0
  {
    if k < |hs| - 1 {
      ValuesOnNonEmpty(hs[..|hs| - 1], d, k, i);
    } else {
      assert Lookup(hs[k], d).Some?;
    }
  }

  /** Every value seen on a day lies in [lo, hi] when every series does. */
  lemma {:induction false} ValuesOnWithin(hs: seq<Series>, d: int, lo: real, hi: real)
    requires forall k :: 0 <= k < |hs| ==> AllWithin(Values(hs[k]), lo, hi)
    ensures AllWithin(ValuesOn(hs, d), lo, hi)
  {
    if hs != [] {
      ValuesOnWithin(hs[..|hs| - 1], d, lo, hi);
      var last := hs[|hs| - 1];
      var r := Lookup(last, d);
      if r.Some? {
        var i :| 0 <= i < |last| && last[i].day == d && last[i].value == r.value;
        assert Values(last)[i] == r.value;
      }
    }
  }

  /** The last `n` points of a series (`series.tail(n)`). */
  function Tail(s: Series, n: nat): (t: Series)
    ensures |t| == if n < |s| then n else |s|
    ensures forall i :: 0 <= i < |t| ==> t[i] == s[|s| - |t| + i]
  {
    if n < |s| then s[|s| - n..] else s
  }

  /** `build_trend_data`: the last `n` points, each value rounded to four
      decimals, in order. */
  method BuildTrendData(s: Series, n: nat) returns (r: Series)
    ensures |r| == |Tail(s, n)|
    ensures forall i :: 0 <= i < |r| ==>
              r[i].day == Tail(s, n)[i].day && r[i].value == Round4(Tail(s, n)[i].value)
    ensures Increasing(s) ==> Increasing(r)
  {
    var t := Tail(s, n);
    r := [];
    for i := 0 to |t|
      invariant |r| == i
      invariant forall k :: 0 <= k < i ==> r[k].day == t[k].day && r[k].value == Round4(t[k].value)
    {
      var q := Point(t[i].day, Round4(t[i].value));
      assert forall k :: 0 <= k < i ==> (r + [q])[k] == r[k];
      r := r + [q];
    }
    if Increasing(s) {
      var off := |s| - |t|;
      assert forall k :: 0 <= k < |t| ==> t[k] == s[off + k];
      forall i, j | 0 <= i < j < |r| ensures r[i].day < r[j].day {
        assert r[i].day == s[off + i].day && r[j].day == s[off + j].day;
      }
    }
  }
}
