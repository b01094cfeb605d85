/** The multi-variant comparison of a submission: the spec with the smallest index is the baseline, every other
    spec is compared against it. */
module MultiVariant {
  import opened Wrappers
  import opened Comparison

  type Id = string

  datatype Spec = Spec(id: Id, index: int)

  type Metrics = map<Id, seq<Metric>>

  function RunsOf(metrics: Metrics, s: Spec): seq<Metric> {
    if s.id in metrics then metrics[s.id] else []
  }

  datatype Delta = Delta(spec: Spec, stats: Stats, comparison: Option<Comparison>, unavailable: Option<Unavailable>)

  datatype Multi = Multi(baseline: Spec, stats: Stats, variants: seq<Delta>)

  // ----- sorting by spec index -----

  function Insert(s: Spec, sorted: seq<Spec>): seq<Spec> {
    if sorted == [] || s.index <= sorted[0].index then [s] + sorted else [sorted[0]] + Insert(s, sorted[1..])
  }

  /** A stable sort by index. */
  function Sort(specs: seq<Spec>): seq<Spec> {
    if specs == [] then [] else Insert(specs[0], Sort(specs[1..]))
  }

  ghost predicate InOrder(specs: seq<Spec>) {
    forall i, j :: 0 <= i < j < |specs| ==> specs[i].index <= specs[j].index
  }

  ghost predicate AllFrom(index: int, specs: seq<Spec>) {
    forall k :: 0 <= k < |specs| ==> index <= specs[k].index
  }

  lemma {:induction false} InsertKeepsBound(index: int, s: Spec, sorted: seq<Spec>)
    requires AllFrom(index, sorted) && index <= s.index
    ensures AllFrom(index, Insert(s, sorted))
  {
    if sorted != [] && s.index > sorted[0].index {
      InsertKeepsBound(index, s, sorted[1..]);
    }
  }

  lemma {:induction false} InsertOrders(s: Spec, sorted: seq<Spec>)
    requires InOrder(sorted)
    ensures InOrder(Insert(s, sorted))
  {
    if sorted != [] && s.index > sorted[0].index {
      InsertOrders(s, sorted[1..]);
      InsertKeepsBound(sorted[0].index, s, sorted[1..]);
    }
  }

  lemma {:induction false} InsertAdds(s: Spec, sorted: seq<Spec>)
    ensures multiset(Insert(s, sorted)) == multiset(sorted) + multiset{s}
  {
    if sorted != [] && s.index > sorted[0].index {
      InsertAdds(s, sorted[1..]);
      assert sorted == [sorted[0]] + sorted[1..];
    }
  }

  lemma {:induction false} SortSorts(specs: seq<Spec>)
    ensures InOrder(Sort(specs)) && multiset(Sort(specs)) == multiset(specs)
  {
    if specs != [] {
      SortSorts(specs[1..]);
      InsertOrders(specs[0], Sort(specs[1..]));
      InsertAdds(specs[0], Sort(specs[1..]));
      assert specs == [specs[0]] + specs[1..];
    }
  }

  ghost predicate DistinctIndices(specs: seq<Spec>) {
    forall i, j :: 0 <= i < j < |specs| ==> specs[i].index != specs[j].index
  }

  /** No two specs of `m` share an index. */
  ghost predicate IndexDetermines(m: multiset<Spec>) {
    forall x, y :: x in m && y in m && x.index == y.index ==> x == y
  }

  lemma FirstIsSmallest(a: seq<Spec>, x: Spec)
    requires InOrder(a) && a != [] && x in multiset(a)
    ensures a[0] in multiset(a) && a[0].index <= x.index
  {
    var k :| 0 <= k < |a| && a[k] == x;
  }

  lemma TailOf(a: seq<Spec>)
    requires a != []
    ensures a == [a[0]] + a[1..] && multiset(a[1..]) == multiset(a) - multiset{a[0]}
  {
    assert a == [a[0]] + a[1..];
  }

  lemma TailInOrder(a: seq<Spec>)
    requires a != [] && InOrder(a)
    ensures InOrder(a[1..])
  {
  }

  lemma FewerDetermined(m: multiset<Spec>, x: Spec)
    requires IndexDetermines(m)
    ensures IndexDetermines(m - multiset{x})
  {
  }

  lemma FirstsAgree(a: seq<Spec>, b: seq<Spec>)
    requires InOrder(a) && InOrder(b) && multiset(a) == multiset(b) && IndexDetermines(multiset(a))
    requires a != [] && b != []
    ensures a[0] == b[0]
  {
    hide InOrder;
    assert a[0] in multiset(a) && b[0] in multiset(b);
    FirstIsSmallest(b, a[0]);
    FirstIsSmallest(a, b[0]);
  }

  lemma {:induction false} OrderIsUnique(a: seq<Spec>, b: seq<Spec>)
    requires InOrder(a) && InOrder(b) && multiset(a) == multiset(b) && IndexDetermines(multiset(a))
    ensures a == b
  {
    hide InOrder, IndexDetermines;
    assert |a| == |multiset(a)| == |multiset(b)| == |b|;
    if a != [] {
      FirstsAgree(a, b);
      TailOf(a);
      TailOf(b);
      TailInOrder(a);
      TailInOrder(b);
      FewerDetermined(multiset(a), a[0]);
      OrderIsUnique(a[1..], b[1..]);
    }
  }

  /** With distinct indices, the sorted list does not depend on the listing order. */
  lemma SortIgnoresListing(a: seq<Spec>, b: seq<Spec>)
    requires DistinctIndices(a) && multiset(a) == multiset(b)
    ensures Sort(a) == Sort(b)
  {
    SortSorts(a);
    SortSorts(b);
    forall x, y | x in multiset(a) && y in multiset(a) && x.index == y.index ensures x == y {
      var i :| 0 <= i < |a| && a[i] == x;
      var j :| 0 <= j < |a| && a[j] == y;
    }
    OrderIsUnique(Sort(a), Sort(b));
  }

  // ----- the comparison -----

  /** What a multi-variant comparison of the sorted specs is. */
  ghost predicate IsMulti(sorted: seq<Spec>, metrics: Metrics, noiseCvPct: Option<real>, m: Multi) {
    && |sorted| == |m.variants| + 1 >= 2
    && m.baseline == sorted[0] && IsStats(RunsOf(metrics, sorted[0]), m.stats)
    && forall i :: 0 <= i < |m.variants| ==> IsDelta(sorted[i + 1], metrics, noiseCvPct, m.stats, m.variants[i])
  }

  ghost predicate IsDelta(s: Spec, metrics: Metrics, noiseCvPct: Option<real>, base: Stats, d: Delta) {
    && d.spec == s && IsStats(RunsOf(metrics, s), d.stats)
    && (d.comparison, d.unavailable) == CompareVariant(base, d.stats, noiseCvPct)
  }

  lemma SortKeepsLength(specs: seq<Spec>)
    ensures |Sort(specs)| == |specs|
  {
    SortSorts(specs);
    assert |Sort(specs)| == |multiset(Sort(specs))| == |multiset(specs)| == |specs|;
  }

  method FromSpecs(specs: seq<Spec>, metrics: Metrics, noiseCvPct: Option<real>) returns (r: Option<Multi>)
    ensures r.None? <==> |specs| < 2
    ensures r.Some? ==> IsMulti(Sort(specs), metrics, noiseCvPct, r.value)
  {
    hide Sort, IsStats, CompareVariant, RunsOf;
    var sorted := Sort(specs);
    SortKeepsLength(specs);
    if |sorted| < 2 {
      return None;
    }
    var base := StatsFromMetrics(RunsOf(metrics, sorted[0]));
    var variants: seq<Delta> := [];
    for i := 1 to |sorted|
      invariant |variants| == i - 1
      invariant forall k :: 0 <= k < |variants| ==> IsDelta(sorted[k + 1], metrics, noiseCvPct, base, variants[k])
    {
      var stats := StatsFromMetrics(RunsOf(metrics, sorted[i]));
      var (comparison, unavailable) := CompareVariant(base, stats, noiseCvPct);
      variants := variants + [Delta(sorted[i], stats, comparison, unavailable)];
    }
    r := Some(Multi(sorted[0], base, variants));
  }

  /** The baseline is the spec with the smallest index, and no other spec is left out. */
  lemma BaselineIsSmallest(specs: seq<Spec>, metrics: Metrics, noiseCvPct: Option<real>, m: Multi)
    requires IsMulti(Sort(specs), metrics, noiseCvPct, m)
    ensures m.baseline in specs && forall s :: s in specs ==> m.baseline.index <= s.index
    ensures forall s :: s in specs ==> s == m.baseline || exists i :: 0 <= i < |m.variants| && m.variants[i].spec == s
    ensures |specs| == |m.variants| + 1
  {
    hide Sort, IsStats, CompareVariant, RunsOf;
    var sorted := Sort(specs);
    SortSorts(specs);
    SortKeepsLength(specs);
    assert sorted[0] in multiset(specs);
    forall s | s in specs
      ensures m.baseline.index <= s.index
      ensures s == m.baseline || exists i :: 0 <= i < |m.variants| && m.variants[i].spec == s
    {
      assert s in multiset(sorted);
      var k :| 0 <= k < |sorted| && sorted[k] == s;
      if k > 0 {
        assert IsDelta(sorted[k - 1 + 1], metrics, noiseCvPct, m.stats, m.variants[k - 1]);
      }
    }
  }

  /** Every variant is judged on the runs recorded for it and no others; one without runs has none completed. */
  lemma VariantsUseTheirRuns(specs: seq<Spec>, metrics: Metrics, noiseCvPct: Option<real>, m: Multi, i: nat)
    requires IsMulti(Sort(specs), metrics, noiseCvPct, m) && i < |m.variants|
    ensures var d := m.variants[i];
      d.stats.completed == if d.spec.id in metrics then |metrics[d.spec.id]| else 0
    ensures m.stats.completed == if m.baseline.id in metrics then |metrics[m.baseline.id]| else 0
    ensures m.stats.aggregate.None? ==> m.variants[i].unavailable == Some(MissingBaselineMetric)
  {
    hide Sort;
  }

  /** Same specs in another listing order, same runs in another order within each spec. */
  ghost predicate SameRuns(a: Metrics, b: Metrics) {
    a.Keys == b.Keys && forall id :: id in a ==> multiset(a[id]) == multiset(b[id])
  }

  /** Neither the listing order of the specs nor the order of the runs within a spec changes any outcome. */
  lemma OutcomesIgnoreOrder(
    s1: seq<Spec>, s2: seq<Spec>, m1: Metrics, m2: Metrics, noiseCvPct: Option<real>, r1: Multi, r2: Multi)
    requires DistinctIndices(s1) && multiset(s1) == multiset(s2) && SameRuns(m1, m2)
    requires IsMulti(Sort(s1), m1, noiseCvPct, r1) && IsMulti(Sort(s2), m2, noiseCvPct, r2)
    ensures r1.baseline == r2.baseline && |r1.variants| == |r2.variants|
    ensures forall i :: 0 <= i < |r1.variants| ==>
      && r1.variants[i].spec == r2.variants[i].spec
      && r1.variants[i].comparison == r2.variants[i].comparison
      && r1.variants[i].unavailable == r2.variants[i].unavailable
  {
    hide CompareVariant, IsStats;
    SortIgnoresListing(s1, s2);
    var sorted := Sort(s1);
    forall i | 0 <= i < |r1.variants|
      ensures r1.variants[i].spec == r2.variants[i].spec
        && r1.variants[i].comparison == r2.variants[i].comparison
        && r1.variants[i].unavailable == r2.variants[i].unavailable
    {
      var d1, d2 := r1.variants[i], r2.variants[i];
      assert IsDelta(sorted[i + 1], m1, noiseCvPct, r1.stats, d1);
      assert IsDelta(sorted[i + 1], m2, noiseCvPct, r2.stats, d2);
      RunsPermute(m1, m2, sorted[0]);
      RunsPermute(m1, m2, sorted[i + 1]);
      RunOrderIrrelevant(
        RunsOf(m1, sorted[0]), RunsOf(m2, sorted[0]), RunsOf(m1, sorted[i + 1]), RunsOf(m2, sorted[i + 1]),
        r1.stats, r2.stats, d1.stats, d2.stats, noiseCvPct);
    }
  }

  lemma RunsPermute(m1: Metrics, m2: Metrics, s: Spec)
    requires SameRuns(m1, m2)
    ensures multiset(RunsOf(m1, s)) == multiset(RunsOf(m2, s))
  {
  }
}
