/** Score lift and drag: each scored factor's seven-observation score
    change times its share of the module weight, sorted from largest to
    smallest and split by sign (data/fetch_data.py:618-642). */
module Attribution {
  import opened Numeric
  import opened Wrappers
  import opened TimeSeries
  import opened Scorer
  import opened ModuleAggregator
  import opened IndexAggregator

  /** One `{"name", "pts"}` item of the lift/drag list. */
  datatype Entry = Entry(name: string, pts: real)

  /** A factor's share of its module weight: w / max(number scored, 1). */
  function Share(w: real, scoredCount: nat): (share: real)
    ensures share * (if scoredCount > 1 then scoredCount else 1) as real == w
    ensures w >= 0.0 ==> 0.0 <= share <= w
  {
    w / (if scoredCount > 1 then scoredCount else 1) as real
  }

  /** The seven-observation change of a score history: its last value
      minus the value 7 observations earlier (`ss.iloc[-1] - ss.iloc[-8]`). */
  function Change(ss: Series): (change: real)
    requires |ss| >= 9
    ensures AllWithin(Values(ss), 0.0, 100.0) ==> -100.0 <= change <= 100.0
  {
    assert Values(ss)[|ss| - 1] == ss[|ss| - 1].value && Values(ss)[|ss| - 8] == ss[|ss| - 8].value;
    ss[|ss| - 1].value - ss[|ss| - 8].value
  }

  /** The unrounded contribution: the change times the share. */
  function Contribution(ss: Series, share: real): (contrib: real)
    requires |ss| >= 9
    ensures share > 0.0 ==> (contrib > 0.0 <==> Change(ss) > 0.0) && (contrib < 0.0 <==> Change(ss) < 0.0)
    ensures share == 0.0 ==> contrib == 0.0
  {
    SignOfProduct(Change(ss), share);
    Change(ss) * share
  }

  /** A product with a positive factor has the sign of the other factor. */
  lemma SignOfProduct(c: real, s: real)
    ensures s > 0.0 ==> (c * s > 0.0 <==> c > 0.0) && (c * s < 0.0 <==> c < 0.0)
  {
    if s > 0.0 {
      if c > 0.0 { MulNonNegative(c, s); assert c * s != 0.0; }
      if c < 0.0 { MulNonNegative(-c, s); assert c * s != 0.0; }
    }
  }

  /** A change of at most 100 either way, times a non-negative share, is at
      most 100 times the share either way. */
  lemma ScaledChange(c: real, share: real)
    requires -100.0 <= c <= 100.0 && share >= 0.0
    ensures -100.0 * share <= c * share <= 100.0 * share
  {
    MulNonNegative(100.0 - c, share);
    MulNonNegative(100.0 + c, share);
  }

  /** Scores lie in [0, 100], so a contribution is at most 100 times the
      share either way. */
  lemma ContributionBound(ss: Series, share: real)
    requires |ss| >= 9 && share >= 0.0
    requires AllWithin(Values(ss), 0.0, 100.0)
    ensures -100.0 * share <= Contribution(ss, share) <= 100.0 * share
  {
    assert Values(ss)[|ss| - 1] == ss[|ss| - 1].value;
    assert Values(ss)[|ss| - 8] == ss[|ss| - 8].value;
    var c := Change(ss);
    ScaledChange(c, share);
    assert Contribution(ss, share) == c * share;
    assert c * share <= 100.0 * share;
  }

  /** The item of one scored factor: none when it has no score history or
      one of fewer than 9 points, else its contribution rounded to two
      decimals. */
  function FactorEntry(f: Factor, share: real, allFss: map<string, Series>): (r: Option<Entry>)
    ensures r.Some? <==> f.id in allFss && |allFss[f.id]| >= 9
    ensures r.Some? ==> r.value.name == f.name
    ensures r.Some? ==> -0.005 <= r.value.pts - Contribution(allFss[f.id], share) <= 0.005
  {
    if f.id in allFss && |allFss[f.id]| >= 9 then
      Some(Entry(f.name, Round2(Contribution(allFss[f.id], share))))
    else None
  }

  lemma EntryBound(f: Factor, share: real, allFss: map<string, Series>)
    requires FactorEntry(f, share, allFss).Some?
    ensures share >= 0.0 && WellFormedScores(allFss) ==>
              -100.0 * share - 0.005 <= FactorEntry(f, share, allFss).value.pts <= 100.0 * share + 0.005
  {
    if share >= 0.0 && WellFormedScores(allFss) {
      ContributionBound(allFss[f.id], share);
    }
  }

  /** The items of one module's scored factors, in factor order. */
  function ModuleEntries(scored: seq<Factor>, share: real, allFss: map<string, Series>): (es: seq<Entry>)
    ensures |es| <= |scored|
    ensures share >= 0.0 && WellFormedScores(allFss) ==>
              forall k :: 0 <= k < |es| ==> -100.0 * share - 0.005 <= es[k].pts <= 100.0 * share + 0.005
  {
    if scored == [] then []
    else
      var init := ModuleEntries(scored[..|scored| - 1], share, allFss);
      var f := scored[|scored| - 1];
      match FactorEntry(f, share, allFss)
      case Some(e) =>
        EntryBound(f, share, allFss);
        init + [e]
      case None => init
  }

  /** All items, module by module in weight-table order (`lift_drag` before
      the sort). */
  function AllEntries(ws: seq<Weight>, modules: map<string, Module>, allFss: map<string, Series>): (es: seq<Entry>)
    ensures |modules| == 0 ==> es == []
  {
    if ws == [] then []
    else
      var last := ws[|ws| - 1];
      AllEntries(ws[..|ws| - 1], modules, allFss) +
        (if last.slug in modules then
           var scored := Scored(modules[last.slug].factors);
           ModuleEntries(scored, Share(last.w, |scored|), allFss)
         else [])
  }

  /** The inner loop of the `lift_drag` block: one module's scored factors. */
  method CollectModuleEntries(scored: seq<Factor>, share: real, allFss: map<string, Series>)
    returns (es: seq<Entry>)
    ensures es == ModuleEntries(scored, share, allFss)
  {
    es := [];
    for j := 0 to |scored|
      invariant es == ModuleEntries(scored[..j], share, allFss)
    {
      var f := scored[j];
      assert scored[..j + 1][..j] == scored[..j];
      if f.id in allFss {
        var ss := allFss[f.id];
        if |ss| >= 9 {
          var now := ss[|ss| - 1].value;
          var past := if |ss| > 8 then ss[|ss| - 8].value else now;
          var e := Entry(f.name, Round2((now - past) * share));
          assert FactorEntry(f, share, allFss) == Some(e) by {
            assert Contribution(ss, share) == (now - past) * share;
          }
          es := es + [e];
        }
      }
    }
    assert scored[..|scored|] == scored;
  }

  /** The nested loop that fills `lift_drag`, module by module in
      weight-table order. */
  method CollectEntries(ws: seq<Weight>, modules: map<string, Module>, allFss: map<string, Series>)
    returns (entries: seq<Entry>)
    ensures entries == AllEntries(ws, modules, allFss)
  {
    entries := [];
    for i := 0 to |ws|
      invariant entries == AllEntries(ws[..i], modules, allFss)
    {
      var weight := ws[i];
      assert ws[..i + 1][..i] == ws[..i];
      if weight.slug in modules {
        var scored := Scored(modules[weight.slug].factors);
        var es := CollectModuleEntries(scored, Share(weight.w, |scored|), allFss);
        entries := entries + es;
      }
    }
    assert ws[..|ws|] == ws;
  }

  /** Largest points first. */
  predicate Descending(s: seq<Entry>) {
    forall i, j :: 0 <= i < j < |s| ==> s[i].pts >= s[j].pts
  }

  lemma ConsDescending(x: Entry, rest: seq<Entry>)
    requires Descending(rest)
    requires forall e :: e in rest ==> e.pts <= x.pts
    ensures Descending([x] + rest)
  {
    forall i, j | 0 <= i < j < |[x] + rest| ensures ([x] + rest)[i].pts >= ([x] + rest)[j].pts {
      assert ([x] + rest)[j] == rest[j - 1];
      assert rest[j - 1] in rest;
    }
  }

  /** Inserts `x` before the first item with at most its points, so that
      it stays ahead of the equal items that follow it. */
  function Insert(x: Entry, s: seq<Entry>): (r: seq<Entry>)
    ensures multiset(r) == multiset(s) + multiset{x}
    ensures Descending(s) ==> Descending(r)
  {
    if s == [] then [x]
    else if s[0].pts <= x.pts then
      ConsDescendingWhen(x, s);
      [x] + s
    else
      var rest := Insert(x, s[1..]);
      assert s == [s[0]] + s[1..];
      InsertBehind(x, s, rest);
      [s[0]] + rest
  }

  lemma InsertBehind(x: Entry, s: seq<Entry>, rest: seq<Entry>)
    requires s != [] && s[0].pts > x.pts
    requires multiset(rest) == multiset(s[1..]) + multiset{x}
    requires Descending(s[1..]) ==> Descending(rest)
    ensures Descending(s) ==> Descending([s[0]] + rest)
  {
    if Descending(s) {
      forall e | e in rest ensures e.pts <= s[0].pts {
        assert e in multiset(rest);
        if e != x {
          var k :| 0 <= k < |s[1..]| && s[1..][k] == e;
          assert s[k + 1] == e;
        }
      }
      ConsDescending(s[0], rest);
    }
  }

  lemma ConsDescendingWhen(x: Entry, s: seq<Entry>)
    requires s != [] && s[0].pts <= x.pts
    ensures Descending(s) ==> Descending([x] + s)
  {
    if Descending(s) {
      forall e | e in s ensures e.pts <= x.pts {
        var k :| 0 <= k < |s| && s[k] == e;
      }
      ConsDescending(x, s);
    }
  }

  /** `lift_drag.sort(key=pts, reverse=True)`: a stable insertion sort,
      largest points first. */
  function SortDesc(xs: seq<Entry>): (r: seq<Entry>)
    ensures multiset(r) == multiset(xs)
    ensures Descending(r)
  {
    if xs == [] then []
    else
      assert xs == [xs[0]] + xs[1..];
      Insert(xs[0], SortDesc(xs[1..]))
  }

  /** The items with exactly `p` points, in order. */
  function Ties(xs: seq<Entry>, p: real): (r: seq<Entry>)
    ensures |r| <= |xs|
  {
    if xs == [] then []
    else (if xs[0].pts == p then [xs[0]] else []) + Ties(xs[1..], p)
  }

  lemma {:induction false} InsertTies(x: Entry, s: seq<Entry>, p: real)
    ensures Ties(Insert(x, s), p) == (if x.pts == p then [x] else []) + Ties(s, p)
  {
    if s == [] {
      TiesCons(x, [], p);
    } else if s[0].pts <= x.pts {
      TiesCons(x, s, p);
    } else {
      var rest := Insert(x, s[1..]);
      InsertTies(x, s[1..], p);
      assert Insert(x, s) == [s[0]] + rest;
      TiesCons(s[0], rest, p);
      TiesCons(s[0], s[1..], p);
      assert s == [s[0]] + s[1..];
      SwapEmpty(if s[0].pts == p then [s[0]] else [], if x.pts == p then [x] else [], Ties(s[1..], p));
    }
  }

  lemma TiesCons(h: Entry, t: seq<Entry>, p: real)
    ensures Ties([h] + t, p) == (if h.pts == p then [h] else []) + Ties(t, p)
  {
    assert ([h] + t)[1..] == t;
  }

  lemma SwapEmpty(a: seq<Entry>, b: seq<Entry>, tail: seq<Entry>)
    requires a == [] || b == []
    ensures a + (b + tail) == b + (a + tail)
  {
    if a == [] {
      assert a + (b + tail) == b + tail == b + (a + tail);
    } else {
      assert a + (b + tail) == a + tail == b + (a + tail);
    }
  }

  /** The sort is stable: items with equal points keep their order. */
  lemma {:induction false} SortStable(xs: seq<Entry>, p: real)
    ensures Ties(SortDesc(xs), p) == Ties(xs, p)
  {
    if xs != [] {
      SortStable(xs[1..], p);
      InsertTies(xs[0], SortDesc(xs[1..]), p);
    }
  }

  /** The items with points above zero (`lift`) or below zero (`drag`). */
  function Split(xs: seq<Entry>, lift: bool): (r: seq<Entry>)
    ensures |r| <= |xs|
    ensures forall e :: e in r <==> e in xs && (if lift then e.pts > 0.0 else e.pts < 0.0)
    ensures Descending(xs) ==> Descending(r)
  {
    if xs == [] then []
    else
      var rest := Split(xs[1..], lift);
      assert forall e :: e in xs <==> e == xs[0] || e in xs[1..] by {
        assert xs == [xs[0]] + xs[1..];
      }
      if (if lift then xs[0].pts > 0.0 else xs[0].pts < 0.0) then
        KeepHead(xs, rest);
        [xs[0]] + rest
      else rest
  }

  lemma KeepHead(xs: seq<Entry>, rest: seq<Entry>)
    requires xs != []
    requires forall e :: e in rest ==> e in xs[1..]
    requires Descending(xs[1..]) ==> Descending(rest)
    ensures Descending(xs) ==> Descending([xs[0]] + rest)
  {
    if Descending(xs) {
      forall e | e in rest ensures e.pts <= xs[0].pts {
        var k :| 0 <= k < |xs[1..]| && xs[1..][k] == e;
        assert xs[k + 1] == e;
      }
      ConsDescending(xs[0], rest);
    }
  }

  /** The split keeps each kept item as often as the input has it. */
  lemma {:induction false} SplitCounts(xs: seq<Entry>, lift: bool, e: Entry)
    ensures multiset(Split(xs, lift))[e] == if (if lift then e.pts > 0.0 else e.pts < 0.0) then multiset(xs)[e] else 0
  {
    if xs != [] {
      SplitCounts(xs[1..], lift, e);
      assert xs == [xs[0]] + xs[1..];
    }
  }

  /** Splitting a permutation gives a permutation of the split. */
  lemma SplitPermutation(xs: seq<Entry>, ys: seq<Entry>, lift: bool)
    requires multiset(xs) == multiset(ys)
    ensures multiset(Split(xs, lift)) == multiset(Split(ys, lift))
  {
    forall e ensures multiset(Split(xs, lift))[e] == multiset(Split(ys, lift))[e] {
      SplitCounts(xs, lift, e);
      SplitCounts(ys, lift, e);
    }
  }

  /** Within one side of the split, the items with `p` points are exactly
      those of the input, in the input's order. */
  lemma {:induction false} SplitTies(xs: seq<Entry>, lift: bool, p: real)
    ensures Ties(Split(xs, lift), p) == if (if lift then p > 0.0 else p < 0.0) then Ties(xs, p) else []
  {
    if xs != [] {
      SplitTies(xs[1..], lift, p);
      var rest := Split(xs[1..], lift);
      if (if lift then xs[0].pts > 0.0 else xs[0].pts < 0.0) {
        TiesCons(xs[0], rest, p);
      }
    }
  }

  /** Every item lands in exactly one of lift, drag and the zero items. */
  lemma {:induction false} SplitPartition(xs: seq<Entry>)
    ensures |Split(xs, true)| + |Split(xs, false)| + |Ties(xs, 0.0)| == |xs|
  {
    if xs != [] {
      SplitPartition(xs[1..]);
    }
  }

  /** The lift/drag block: collect, sort largest first, split by sign. */
  method LiftDrag(ws: seq<Weight>, modules: map<string, Module>, allFss: map<string, Series>)
    returns (lift: seq<Entry>, drag: seq<Entry>)
    ensures var entries := AllEntries(ws, modules, allFss);
            && multiset(lift) == multiset(Split(entries, true))
            && multiset(drag) == multiset(Split(entries, false))
    ensures Descending(lift) && Descending(drag)
    ensures forall e :: e in lift <==> e in AllEntries(ws, modules, allFss) && e.pts > 0.0
    ensures forall e :: e in drag <==> e in AllEntries(ws, modules, allFss) && e.pts < 0.0
    ensures forall p :: p > 0.0 ==> Ties(lift, p) == Ties(AllEntries(ws, modules, allFss), p)
    ensures forall p :: p < 0.0 ==> Ties(drag, p) == Ties(AllEntries(ws, modules, allFss), p)
  {
    var entries := CollectEntries(ws, modules, allFss);
    var sorted := SortDesc(entries);
    SplitPermutation(sorted, entries, true);
    SplitPermutation(sorted, entries, false);
    forall e ensures e in sorted <==> e in entries {
      assert e in sorted <==> e in multiset(sorted);
    }
    lift := Split(sorted, true);
    drag := Split(sorted, false);
    forall p ensures Ties(lift, p) == (if p > 0.0 then Ties(entries, p) else [])
                  && Ties(drag, p) == (if p < 0.0 then Ties(entries, p) else []) {
      SplitTies(sorted, true, p);
      SplitTies(sorted, false, p);
      SortStable(entries, p);
    }
  }
}
