/** Benchmark comparison over real numbers. A number of sigmas enters only through its square, so that no root is
    taken: `z < 1, 2, 3` becomes `z * z < 1, 4, 9`. */
module Comparison {
  import opened Wrappers

  datatype Shape = Shape(measuredBlocks: int, warmupBlocks: int)

  datatype Metric = Metric(executionUs: int, commitUs: int, shape: Shape)

  function Combined(m: Metric): int {
    m.executionUs + m.commitUs
  }

  datatype Verdict = Inconclusive | Weak | Moderate | Strong | Provisional

  /** The square of a number of sigmas; a difference without any noise is infinitely significant. */
  datatype Sigma = Squared(value: real) | Infinite

  datatype Comparison = Comparison(baseUs: int, prUs: int, deltaPct: real, sigma: Option<Sigma>, verdict: Verdict)

  /** The verdict table, as the reports state it. */
  function VerdictFor(z: real): Verdict {
    if z < 1.0 then Inconclusive else if z < 2.0 then Weak else if z < 3.0 then Moderate else Strong
  }

  function VerdictOf(s: Sigma): Verdict {
    if s.Infinite? then Strong
    else if s.value < 1.0 then Inconclusive
    else if s.value < 4.0 then Weak
    else if s.value < 9.0 then Moderate
    else Strong
  }

  /** Squaring changes no verdict. */
  lemma SquaredVerdict(z: real, zz: real)
    requires z >= 0.0 && zz == z * z
    ensures VerdictOf(Squared(zz)) == VerdictFor(z)
  {
    SquareOrder(z, 1.0);
    SquareOrder(z, 2.0);
    SquareOrder(z, 3.0);
  }

  /** The bands: below one sigma, below two, below three, and the rest. */
  lemma VerdictBands(z: real)
    ensures VerdictFor(z) == Inconclusive <==> z < 1.0
    ensures VerdictFor(z) == Weak <==> 1.0 <= z < 2.0
    ensures VerdictFor(z) == Moderate <==> 2.0 <= z < 3.0
    ensures VerdictFor(z) == Strong <==> 3.0 <= z
    ensures VerdictOf(Infinite) == Strong
  {
  }

  lemma SquareOrder(z: real, t: real)
    requires z >= 0.0 && t > 0.0
    ensures z < t <==> z * z < t * t
  {
    assert t * t - z * z == (t - z) * (t + z);
    PositiveProduct(t - z, t + z);
  }

  lemma PositiveProduct(a: real, b: real)
    requires b > 0.0
    ensures a > 0.0 <==> a * b > 0.0
  {
    if a <= 0.0 {
      assert -a * b >= 0.0;
    }
  }

  /** Confidence against a configured noise floor: one sigma on a difference of two runs is `sqrt(2) * cv`. */
  function NoiseConfidence(deltaPct: real, noiseCvPct: Option<real>): (Option<Sigma>, Verdict) {
    if noiseCvPct.Some? && noiseCvPct.value > 0.0 then
      var cv := noiseCvPct.value;
      SquareSign(cv);
      var s := Squared(Square(deltaPct) / (2.0 * Square(cv)));
      (Some(s), VerdictOf(s))
    else (None, Provisional)
  }

  /** One run against one baseline run. */
  function Compare(pr: Metric, base: Metric, noiseCvPct: Option<real>): Option<Comparison> {
    if pr.shape != base.shape || Combined(base) <= 0 then None
    else
      var b, p := Combined(base), Combined(pr);
      var delta := (p - b) as real / b as real * 100.0;
      var (sigma, verdict) := NoiseConfidence(delta, noiseCvPct);
      Some(Comparison(b, p, delta, sigma, verdict))
  }

  // ----- sums -----

  ghost function SumOf(f: int -> real, values: seq<int>): real {
    if values == [] then 0.0 else SumOf(f, values[..|values| - 1]) + f(values[|values| - 1])
  }

  function Real(v: int): real {
    v as real
  }

  function Square(d: real): real {
    d * d
  }

  function SquaredDeviation(mean: real): int -> real {
    (v: int) => Square(v as real - mean)
  }

  /** A sum does not depend on the order of its terms. */
  lemma {:induction false} SumPermutes(f: int -> real, a: seq<int>, b: seq<int>)
    requires multiset(a) == multiset(b)
    ensures SumOf(f, a) == SumOf(f, b)
  {
    if a == [] {
      assert |b| == |multiset(b)| == 0;
    } else {
      var n := |a| - 1;
      assert a == a[..n] + [a[n]];
      assert a[n] in multiset(b);
      var k :| 0 <= k < |b| && b[k] == a[n];
      Removed(b, k);
      assert multiset(a[..n]) == multiset(a) - multiset{a[n]};
      SumPermutes(f, a[..n], b[..k] + b[k + 1..]);
      SumRemove(f, b, k);
    }
  }

  lemma Removed<T>(b: seq<T>, k: nat)
    requires k < |b|
    ensures multiset(b[..k] + b[k + 1..]) == multiset(b) - multiset{b[k]}
  {
    assert b == b[..k] + [b[k]] + b[k + 1..];
  }

  lemma {:induction false} SumRemove(f: int -> real, b: seq<int>, k: nat)
    requires k < |b|
    ensures SumOf(f, b) == SumOf(f, b[..k] + b[k + 1..]) + f(b[k])
  {
    var n := |b| - 1;
    if k == n {
      assert b[..k] + b[k + 1..] == b[..n];
    } else {
      SumRemove(f, b[..n], k);
      var shorter := b[..k] + b[k + 1..];
      assert shorter[..|shorter| - 1] == b[..n][..k] + b[..n][k + 1..];
      assert shorter[|shorter| - 1] == b[n];
    }
  }

  // ----- aggregates -----

  datatype Aggregate = Aggregate(min: int, max: int, mean: real, variance: real)

  /** What an aggregate of a non-empty list of totals is. */
  ghost predicate IsAggregate(values: seq<int>, g: Aggregate) {
    && values != []
    && g.min in values && g.max in values
    && (forall v :: v in values ==> g.min <= v <= g.max)
    && g.mean == SumOf(Real, values) / |values| as real
    && g.variance == if |values| > 1 then SumOf(SquaredDeviation(g.mean), values) / (|values| - 1) as real else 0.0
  }

  method AggregateValues(values: seq<int>) returns (r: Option<Aggregate>)
    ensures r.None? <==> values == []
    ensures r.Some? ==> IsAggregate(values, r.value)
  {
    if values == [] {
      return None;
    }
    var min, max := values[0], values[0];
    var sum := 0.0;
    for i := 0 to |values|
      invariant min in values && max in values
      invariant forall k :: 0 <= k < i ==> min <= values[k] <= max
      invariant sum == SumOf(Real, values[..i])
    {
      assert values[..i + 1][..i] == values[..i];
      min := if values[i] < min then values[i] else min;
      max := if values[i] > max then values[i] else max;
      sum := sum + values[i] as real;
    }
    assert values[..|values|] == values;
    var mean := sum / |values| as real;
    var variance := 0.0;
    if |values| > 1 {
      var squares := SumSquares(values, mean);
      variance := squares / (|values| - 1) as real;
    }
    r := Some(Aggregate(min, max, mean, variance));
  }

  method SumSquares(values: seq<int>, mean: real) returns (squares: real)
    ensures squares == SumOf(SquaredDeviation(mean), values)
  {
    squares := 0.0;
    for i := 0 to |values|
      invariant squares == SumOf(SquaredDeviation(mean), values[..i])
    {
      assert values[..i + 1][..i] == values[..i];
      var delta := values[i] as real - mean;
      squares := squares + Square(delta);
    }
    assert values[..|values|] == values;
  }

  /** `x` added up `n` times. */
  ghost function Multiple(x: real, n: nat): real {
    if n == 0 then 0.0 else Multiple(x, n - 1) + x
  }

  lemma {:induction false} MultipleIsProduct(x: real, n: nat)
    ensures Multiple(x, n) == x * n as real
  {
    if n > 0 {
      MultipleIsProduct(x, n - 1);
      OneMore(x, (n - 1) as real);
    }
  }

  lemma OneMore(x: real, n: real)
    ensures x * (n + 1.0) == x * n + x
  {
  }

  lemma {:induction false} SumBetween(values: seq<int>, lo: int, hi: int)
    requires forall k :: 0 <= k < |values| ==> lo <= values[k] <= hi
    ensures Multiple(lo as real, |values|) <= SumOf(Real, values) <= Multiple(hi as real, |values|)
  {
    if values != [] {
      SumBetween(values[..|values| - 1], lo, hi);
    }
  }

  lemma SumBounds(values: seq<int>, lo: int, hi: int)
    requires forall k :: 0 <= k < |values| ==> lo <= values[k] <= hi
    ensures lo as real * |values| as real <= SumOf(Real, values) <= hi as real * |values| as real
  {
    hide SumOf, Multiple;
    SumBetween(values, lo, hi);
    MultipleIsProduct(lo as real, |values|);
    MultipleIsProduct(hi as real, |values|);
  }

  lemma QuotientBounds(lo: real, sum: real, hi: real, n: real)
    requires n > 0.0 && lo * n <= sum <= hi * n
    ensures lo <= sum / n <= hi
  {
    assert sum / n * n == sum;
  }

  ghost predicate AllAt(values: seq<int>, mean: real) {
    forall k :: 0 <= k < |values| ==> values[k] as real == mean
  }

  lemma DeviationSign(mean: real, v: int)
    ensures SquaredDeviation(mean)(v) >= 0.0
    ensures SquaredDeviation(mean)(v) == 0.0 <==> v as real == mean
  {
    hide Square;
    SquareSign(v as real - mean);
  }

  lemma {:induction false} SquaresNonNegative(mean: real, values: seq<int>)
    ensures SumOf(SquaredDeviation(mean), values) >= 0.0
    ensures SumOf(SquaredDeviation(mean), values) == 0.0 <==> AllAt(values, mean)
  {
    hide SquaredDeviation;
    if values != [] {
      var n := |values| - 1;
      SquaresNonNegative(mean, values[..n]);
      DeviationSign(mean, values[n]);
      assert AllAt(values, mean) <==> AllAt(values[..n], mean) && values[n] as real == mean by {
        assert forall k :: 0 <= k < n ==> values[..n][k] == values[k];
      }
    }
  }

  lemma SameSignProduct(a: real, b: real, p: real)
    requires p == a * b && ((a < 0.0 && b < 0.0) || (a > 0.0 && b > 0.0))
    ensures p > 0.0
  {
  }

  lemma SquareSign(d: real)
    ensures d == 0.0 ==> Square(d) == 0.0
    ensures d != 0.0 ==> Square(d) > 0.0
  {
    if d != 0.0 {
      SameSignProduct(d, d, Square(d));
    }
  }

  ghost predicate AllEqual(values: seq<int>) {
    forall i, j :: 0 <= i < |values| && 0 <= j < |values| ==> values[i] == values[j]
  }

  lemma MeanIsBetween(values: seq<int>, g: Aggregate)
    requires IsAggregate(values, g)
    ensures g.min as real <= g.mean <= g.max as real
  {
    hide SquaredDeviation;
    assert forall k :: 0 <= k < |values| ==> values[k] in values;
    SumBounds(values, g.min, g.max);
    QuotientBounds(g.min as real, SumOf(Real, values), g.max as real, |values| as real);
  }

  lemma EqualIffAtMean(values: seq<int>, g: Aggregate)
    requires IsAggregate(values, g) && g.min as real <= g.mean <= g.max as real
    ensures AllEqual(values) <==> AllAt(values, g.mean)
  {
    hide SquaredDeviation, SumOf;
    if AllEqual(values) {
      assert g.min == g.max;
      assert forall k :: 0 <= k < |values| ==> values[k] in values;
    }
  }

  /** The mean lies between the extremes, and the spread is zero exactly when all runs agree. */
  lemma AggregateMeaning(values: seq<int>, g: Aggregate)
    requires IsAggregate(values, g)
    ensures g.min as real <= g.mean <= g.max as real
    ensures g.variance >= 0.0
    ensures g.variance == 0.0 <==> AllEqual(values)
  {
    hide SquaredDeviation, SumOf;
    MeanIsBetween(values, g);
    EqualIffAtMean(values, g);
    SquaresNonNegative(g.mean, values);
    if |values| > 1 {
      ZeroQuotient(SumOf(SquaredDeviation(g.mean), values), (|values| - 1) as real);
    }
  }

  lemma ZeroQuotient(a: real, n: real)
    requires a >= 0.0 && n > 0.0
    ensures a / n >= 0.0 && (a / n == 0.0 <==> a == 0.0)
  {
    assert a / n * n == a;
  }

  /** The aggregate is determined by the multiset of totals. */
  lemma AggregatePermutes(a: seq<int>, b: seq<int>, g: Aggregate, h: Aggregate)
    requires multiset(a) == multiset(b) && IsAggregate(a, g) && IsAggregate(b, h)
    ensures g == h
  {
    assert |a| == |multiset(a)| == |multiset(b)| == |b|;
    assert forall v :: v in a <==> v in b by {
      assert forall v :: v in a <==> v in multiset(a);
      assert forall v :: v in b <==> v in multiset(b);
    }
    SumPermutes(Real, a, b);
    SumPermutes(SquaredDeviation(g.mean), a, b);
  }

  // ----- variants -----

  datatype Stats = Stats(completed: nat, aggregate: Option<Aggregate>, workload: Option<Shape>, consistent: bool)

  function Totals(runs: seq<Metric>): (r: seq<int>)
    ensures |r| == |runs| && forall i :: 0 <= i < |r| ==> r[i] == Combined(runs[i])
  {
    seq(|runs|, i requires 0 <= i < |runs| => Combined(runs[i]))
  }

  ghost predicate SameShapes(runs: seq<Metric>) {
    forall i, j :: 0 <= i < |runs| && 0 <= j < |runs| ==> runs[i].shape == runs[j].shape
  }

  /** What the statistics of a variant are: aggregates of its totals, the first run's shape, and whether all
      runs share it. */
  ghost predicate IsStats(runs: seq<Metric>, s: Stats) {
    && s.completed == |runs|
    && (s.aggregate.None? <==> runs == [])
    && (runs != [] ==> IsAggregate(Totals(runs), s.aggregate.value))
    && s.workload == (if runs == [] then None else Some(runs[0].shape))
    && (s.consistent <==> SameShapes(runs))
  }

  method StatsFromMetrics(runs: seq<Metric>) returns (s: Stats)
    ensures IsStats(runs, s)
  {
    var values: seq<int> := [];
    var workload: Option<Shape> := None;
    var consistent := true;
    for i := 0 to |runs|
      invariant values == Totals(runs[..i])
      invariant workload == if i == 0 then None else Some(runs[0].shape)
      invariant consistent <==> forall k :: 0 <= k < i ==> runs[k].shape == runs[0].shape
    {
      values := values + [Combined(runs[i])];
      var shape := runs[i].shape;
      match workload {
        case Some(existing) =>
          if existing != shape {
            consistent := false;
          }
        case None =>
          workload := Some(shape);
      }
    }
    assert runs[..|runs|] == runs;
    var aggregate := AggregateValues(values);
    s := Stats(|runs|, aggregate, workload, consistent);
  }

  datatype Unavailable = MissingBaselineMetric | MissingVariantMetric | IncomparableWorkload | DegenerateBaseline

  /** Nearest integer, halves away from zero. */
  function Round(x: real): int {
    if x >= 0.0 then (x + 0.5).Floor else -((-x + 0.5).Floor)
  }

  /** Squared standard error of the difference of the means. */
  function SquaredError(b: Stats, v: Stats): real
    requires b.completed > 1 && v.completed > 1 && b.aggregate.Some? && v.aggregate.Some?
  {
    b.aggregate.value.variance / b.completed as real + v.aggregate.value.variance / v.completed as real
  }

  function Confidence(b: Stats, v: Stats, base: real, deltaPct: real, noiseCvPct: Option<real>)
    : (Option<Sigma>, Verdict)
    requires base > 0.0 && b.aggregate.Some? && v.aggregate.Some?
  {
    if b.completed > 1 && v.completed > 1 then
      var error := SquaredError(b, v);
      var s :=
        if error > 0.0 then Squared((deltaPct * deltaPct) * (base * base) / (error * 10000.0))
        else if deltaPct == 0.0 then Squared(0.0)
        else Infinite;
      (Some(s), VerdictOf(s))
    else NoiseConfidence(deltaPct, noiseCvPct)
  }

  function CompareVariant(b: Stats, v: Stats, noiseCvPct: Option<real>): (r: (Option<Comparison>, Option<Unavailable>))
    ensures r.0.Some? <==> r.1.None?
  {
    if b.aggregate.None? then (None, Some(MissingBaselineMetric))
    else if v.aggregate.None? then (None, Some(MissingVariantMetric))
    else if !(b.consistent && v.consistent && b.workload.Some? && b.workload == v.workload) then
      (None, Some(IncomparableWorkload))
    else
      var base, mean := b.aggregate.value.mean, v.aggregate.value.mean;
      if base <= 0.0 then (None, Some(DegenerateBaseline))
      else
        var delta := (mean - base) / base * 100.0;
        var (sigma, verdict) := Confidence(b, v, base, delta, noiseCvPct);
        (Some(Comparison(Round(base), Round(mean), delta, sigma, verdict)), None)
  }

  /** The reason there is no comparison is the first of these that holds, and there is one exactly when none does. */
  lemma UnavailableExactly(b: Stats, v: Stats, noiseCvPct: Option<real>)
    ensures var r := CompareVariant(b, v, noiseCvPct);
      var comparable := b.consistent && v.consistent && b.workload.Some? && v.workload == b.workload;
      && (r.1 == Some(MissingBaselineMetric) <==> b.aggregate.None?)
      && (r.1 == Some(MissingVariantMetric) <==> b.aggregate.Some? && v.aggregate.None?)
      && (r.1 == Some(IncomparableWorkload) <==> b.aggregate.Some? && v.aggregate.Some? && !comparable)
      && (r.1 == Some(DegenerateBaseline) <==>
            b.aggregate.Some? && v.aggregate.Some? && comparable && b.aggregate.value.mean <= 0.0)
      && (r.0.Some? <==>
            b.aggregate.Some? && v.aggregate.Some? && comparable && b.aggregate.value.mean > 0.0)
  {
    hide Confidence, Round;
  }

  /** Half a microsecond is all that rounding moves a total. */
  lemma RoundIsNear(x: real)
    ensures x - 0.5 <= Round(x) as real <= x + 0.5
    ensures Round(-x) == -Round(x)
  {
  }

  lemma RelativeDelta(x: real, base: real)
    requires base > 0.0
    ensures x / base * 100.0 * base == x * 100.0
  {
    assert x / base * base == x;
  }

  /** A comparison shows both means, rounded, and the variant's excess over the baseline in percent of the baseline:
      positive exactly when the variant is slower. */
  lemma ComparisonMeans(b: Stats, v: Stats, noiseCvPct: Option<real>)
    requires CompareVariant(b, v, noiseCvPct).0.Some?
    ensures b.aggregate.Some? && v.aggregate.Some? && b.aggregate.value.mean > 0.0
    ensures var c := CompareVariant(b, v, noiseCvPct).0.value;
      var base, mean := b.aggregate.value.mean, v.aggregate.value.mean;
      && c.deltaPct * base == (mean - base) * 100.0
      && (c.deltaPct > 0.0 <==> mean > base)
      && base - 0.5 <= c.baseUs as real <= base + 0.5 && mean - 0.5 <= c.prUs as real <= mean + 0.5
  {
    hide Confidence, Round;
    var base, mean := b.aggregate.value.mean, v.aggregate.value.mean;
    var delta := (mean - base) / base * 100.0;
    RelativeDelta(mean - base, base);
    PositiveProduct(delta, base);
    RoundIsNear(base);
    RoundIsNear(mean);
  }

  /** The same for one run against one baseline run, on the sum of execution and commit time. */
  lemma PairwiseMeans(pr: Metric, base: Metric, noiseCvPct: Option<real>)
    ensures var b, p := base.executionUs + base.commitUs, pr.executionUs + pr.commitUs;
      var c := Compare(pr, base, noiseCvPct);
      && (c.Some? <==> pr.shape == base.shape && b > 0)
      && (c.Some? ==> c.value.baseUs == b && c.value.prUs == p
                      && c.value.deltaPct * b as real == (p - b) as real * 100.0)
  {
    hide NoiseConfidence;
    var b, p := base.executionUs + base.commitUs, pr.executionUs + pr.commitUs;
    if b > 0 {
      RelativeDelta((p - b) as real, b as real);
    }
  }

  /** Without repeated runs on both sides and without a noise floor a comparison is provisional and has no sigma, and
      only then. */
  lemma ProvisionalExactly(b: Stats, v: Stats, base: real, deltaPct: real, noiseCvPct: Option<real>)
    requires base > 0.0 && b.aggregate.Some? && v.aggregate.Some?
    ensures var (sigma, verdict) := Confidence(b, v, base, deltaPct, noiseCvPct);
      var provisional := (b.completed <= 1 || v.completed <= 1) && (noiseCvPct.None? || noiseCvPct.value <= 0.0);
      (sigma.None? <==> provisional) && (verdict == Provisional <==> provisional)
  {
    hide Square, SquaredError;
  }

  /** Repeated runs without any spread decide at once: no difference is inconclusive, any difference is strong. */
  lemma NoSpreadDecides(b: Stats, v: Stats, base: real, deltaPct: real, noiseCvPct: Option<real>)
    requires base > 0.0 && b.aggregate.Some? && v.aggregate.Some? && b.completed > 1 && v.completed > 1
    requires b.aggregate.value.variance == 0.0 && v.aggregate.value.variance == 0.0
    ensures Confidence(b, v, base, deltaPct, noiseCvPct) ==
      if deltaPct == 0.0 then (Some(Squared(0.0)), Inconclusive) else (Some(Infinite), Strong)
  {
    assert SquaredError(b, v) == 0.0;
  }

  // ----- means and spreads in terms of the runs -----

  ghost function Execution(runs: seq<Metric>): int {
    if runs == [] then 0 else Execution(runs[..|runs| - 1]) + runs[|runs| - 1].executionUs
  }

  ghost function Commit(runs: seq<Metric>): int {
    if runs == [] then 0 else Commit(runs[..|runs| - 1]) + runs[|runs| - 1].commitUs
  }

  lemma {:induction false} TotalsAddUp(runs: seq<Metric>)
    ensures SumOf(Real, Totals(runs)) == (Execution(runs) + Commit(runs)) as real
  {
    if runs != [] {
      var n := |runs| - 1;
      TotalsAddUp(runs[..n]);
      assert Totals(runs)[..n] == Totals(runs[..n]);
    }
  }

  lemma QuotientTimes(x: real, n: real)
    requires n > 0.0
    ensures x / n * n == x
  {
  }

  /** A variant's mean times its runs is all the execution and commit time measured. */
  lemma MeanCountsBothTimes(runs: seq<Metric>, s: Stats)
    requires IsStats(runs, s) && runs != []
    ensures s.aggregate.value.mean * |runs| as real == (Execution(runs) + Commit(runs)) as real
  {
    hide Execution, Commit, SumOf, SameShapes, SquaredDeviation;
    TotalsAddUp(runs);
    QuotientTimes(SumOf(Real, Totals(runs)), |runs| as real);
  }

  function Times(a: real, b: real): real {
    a * b
  }

  lemma SquareExpands(v: real, m: real)
    ensures Square(v - m) == Square(v) - 2.0 * Times(m, v) + Square(m)
  {
  }

  /** The sum of the squared totals. */
  ghost function SquareSum(values: seq<int>): real {
    if values == [] then 0.0
    else SquareSum(values[..|values| - 1]) + Square(values[|values| - 1] as real)
  }

  /** The sum of the totals, each times `m`. */
  ghost function Scaled(m: real, values: seq<int>): real {
    if values == [] then 0.0
    else Scaled(m, values[..|values| - 1]) + Times(m, values[|values| - 1] as real)
  }

  lemma {:induction false} ScaledIsProduct(m: real, values: seq<int>)
    ensures Scaled(m, values) == Times(m, SumOf(Real, values))
  {
    if values != [] {
      hide Times;
      var n := |values| - 1;
      ScaledIsProduct(m, values[..n]);
      Distributes(m, SumOf(Real, values[..n]), values[n] as real);
    } else {
      assert Times(m, 0.0) == 0.0;
    }
  }

  lemma Distributes(m: real, a: real, b: real)
    ensures Times(m, a + b) == Times(m, a) + Times(m, b)
  {
  }

  lemma {:induction false} SquaresExpand(values: seq<int>, m: real)
    ensures SumOf(SquaredDeviation(m), values)
         == SquareSum(values) - 2.0 * Scaled(m, values) + Multiple(Square(m), |values|)
  {
    if values != [] {
      hide Square, Times;
      var n := |values| - 1;
      SquaresExpand(values[..n], m);
      SquareExpands(values[n] as real, m);
    }
  }

  /** The variance is the sample variance: `n - 1` times it is the sum of the squares less `n` squared means. */
  lemma VarianceIsSample(values: seq<int>, g: Aggregate)
    requires IsAggregate(values, g) && |values| > 1
    ensures g.variance * (|values| - 1) as real == SquareSum(values) - g.mean * g.mean * |values| as real
  {
    hide SumOf, SquareSum, SquaredDeviation, Scaled, Multiple;
    var n, sum := |values| as real, SumOf(Real, values);
    var squares := SumOf(SquaredDeviation(g.mean), values);
    SquaresExpand(values, g.mean);
    ScaledIsProduct(g.mean, values);
    MultipleIsProduct(Square(g.mean), |values|);
    QuotientTimes(sum, n);
    QuotientTimes(squares, (|values| - 1) as real);
    Regrouped(g.mean, n);
  }

  lemma Regrouped(m: real, n: real)
    ensures m * (m * n) == m * m * n
  {
  }

  /** Squares of quotients, without products of equal terms on both sides of a division. */
  lemma SquareOfQuotient(x: real, y: real)
    requires y > 0.0
    ensures y * y > 0.0 && (x / y) * (x / y) == x * x / (y * y)
  {
    var q, yy := x / y, y * y;
    SameSignProduct(y, y, yy);
    assert q * y == x;
    assert (q * y) * (q * y) == (q * q) * yy;
    QuotientOfProduct(q * q, yy, x * x);
  }

  lemma QuotientOfProduct(q: real, y: real, p: real)
    requires y > 0.0 && q * y == p
    ensures q == p / y
  {
    assert p / y * y == p;
    assert (p / y - q) * y == 0.0;
  }

  function Abs(x: real): (r: real)
    ensures r >= 0.0
  {
    if x < 0.0 then -x else x
  }

  /** With repeated runs, the sigma `z` is |delta| over the standard error in percent, `root` being the standard
      error: its square `zz` is what is reported, and `z` decides the verdict. */
  lemma RepeatedRunSigma(
    b: Stats, v: Stats, base: real, deltaPct: real, noiseCvPct: Option<real>,
    root: real, errorPct: real, z: real, zz: real)
    requires base > 0.0 && b.aggregate.Some? && v.aggregate.Some? && b.completed > 1 && v.completed > 1
    requires root > 0.0
    requires root * root ==
      b.aggregate.value.variance / b.completed as real + v.aggregate.value.variance / v.completed as real
    requires errorPct == root / base * 100.0 && errorPct > 0.0 && z == Abs(deltaPct) / errorPct && zz == z * z
    ensures Confidence(b, v, base, deltaPct, noiseCvPct) == (Some(Squared(zz)), VerdictFor(z))
  {
    assert root * root == SquaredError(b, v);
    hide Confidence, VerdictOf, VerdictFor, SquaredError, Abs;
    SigmaSquare(SquaredError(b, v), base, deltaPct, root, errorPct, z, zz);
    ConfidenceOf(b, v, base, deltaPct, noiseCvPct, zz);
    ZNonNegative(Abs(deltaPct), errorPct);
    SquaredVerdict(z, zz);
  }

  lemma SigmaSquare(error: real, base: real, deltaPct: real, root: real, errorPct: real, z: real, zz: real)
    requires base > 0.0 && root > 0.0 && root * root == error
    requires errorPct == root / base * 100.0 && errorPct > 0.0 && z == Abs(deltaPct) / errorPct && zz == z * z
    ensures error > 0.0 && zz == (deltaPct * deltaPct) * (base * base) / (error * 10000.0)
  {
    var d := Abs(deltaPct);
    assert root / base * base == root;
    assert errorPct * base == root * 100.0;
    SameSign(root, base);
    SameSignProduct(root, root, error);
    SquareOfQuotient(d, errorPct);
    AbsSquare(deltaPct);
    PercentSquare(errorPct, base, root, error);
    ScaledQuotient(d * d, base * base, errorPct * errorPct, error * 10000.0);
  }

  /** Against the noise floor, `z` is |delta| over `sqrt(2) * cv`, for any positive `root2` squaring to two. */
  lemma NoiseFloorSigma(deltaPct: real, cv: real, root2: real, z: real, zz: real)
    requires cv > 0.0 && root2 > 0.0 && root2 * root2 == 2.0
    requires root2 * cv > 0.0 && z == Abs(deltaPct) / (root2 * cv) && zz == z * z
    ensures NoiseConfidence(deltaPct, Some(cv)) == (Some(Squared(zz)), VerdictFor(z))
  {
    hide VerdictOf, VerdictFor, NoiseConfidence, Abs, Square;
    NoiseSquare(deltaPct, cv, root2, z, zz);
    NoiseConfidenceOf(deltaPct, cv, zz);
    ZNonNegative(Abs(deltaPct), root2 * cv);
    SquaredVerdict(z, zz);
  }

  lemma NoiseConfidenceOf(deltaPct: real, cv: real, zz: real)
    requires cv > 0.0 && Square(cv) > 0.0 && zz == Square(deltaPct) / (2.0 * Square(cv))
    ensures NoiseConfidence(deltaPct, Some(cv)) == (Some(Squared(zz)), VerdictOf(Squared(zz)))
  {
    hide Square;
  }

  lemma NoiseSquare(deltaPct: real, cv: real, root2: real, z: real, zz: real)
    requires cv > 0.0 && root2 > 0.0 && root2 * root2 == 2.0
    requires root2 * cv > 0.0 && z == Abs(deltaPct) / (root2 * cv) && zz == z * z
    ensures Square(cv) > 0.0 && zz == Square(deltaPct) / (2.0 * Square(cv))
  {
    SquareOfQuotient(Abs(deltaPct), root2 * cv);
    AbsSquare(deltaPct);
    SquareSign(cv);
    assert (root2 * cv) * (root2 * cv) == (root2 * root2) * (cv * cv);
  }

  lemma ConfidenceOf(b: Stats, v: Stats, base: real, deltaPct: real, noiseCvPct: Option<real>, zz: real)
    requires base > 0.0 && b.aggregate.Some? && v.aggregate.Some? && b.completed > 1 && v.completed > 1
    requires SquaredError(b, v) > 0.0
    requires zz == (deltaPct * deltaPct) * (base * base) / (SquaredError(b, v) * 10000.0)
    ensures Confidence(b, v, base, deltaPct, noiseCvPct) == (Some(Squared(zz)), VerdictOf(Squared(zz)))
  {
  }

  lemma SameSign(root: real, base: real)
    requires root > 0.0 && base > 0.0
    ensures root / base > 0.0 && base * base > 0.0
  {
    assert root / base * base == root;
    SameSignProduct(base, base, base * base);
  }

  lemma ZNonNegative(d: real, e: real)
    requires d >= 0.0 && e > 0.0
    ensures d / e >= 0.0
  {
    assert d / e * e == d;
  }

  lemma AbsSquare(x: real)
    ensures Abs(x) * Abs(x) == x * x
  {
  }

  lemma PercentSquare(errorPct: real, base: real, root: real, error: real)
    requires errorPct * base == root * 100.0 && root * root == error
    ensures (errorPct * errorPct) * (base * base) == error * 10000.0
  {
    assert (errorPct * errorPct) * (base * base) == (errorPct * base) * (errorPct * base);
    assert (root * 100.0) * (root * 100.0) == (root * root) * 10000.0;
  }

  /** Scaling numerator and denominator alike. */
  lemma ScaledQuotient(p: real, k: real, e: real, f: real)
    requires k > 0.0 && e > 0.0 && e * k == f && f > 0.0
    ensures p / e == p * k / f
  {
    var q := p / e;
    assert q * e == p;
    assert q * f == q * (e * k) == (q * e) * k == p * k;
    QuotientOfProduct(q, f, p * k);
  }

  lemma RoundOfInt(n: int)
    ensures Round(n as real) == n
  {
  }

  lemma OneRunAggregate(m: Metric, s: Stats)
    requires IsStats([m], s)
    ensures s.aggregate.Some? && s.aggregate.value.mean == Combined(m) as real
    ensures s.consistent && s.workload == Some(m.shape) && s.completed == 1
  {
    var values := Totals([m]);
    assert values == [Combined(m)] && values[..0] == [];
    assert SumOf(Real, values) == Combined(m) as real;
  }

  /** With one run per variant, the multi-variant path gives exactly the pairwise comparison: one exists when the
      other does, with equal totals, delta, sigma and verdict. */
  lemma OneRunIsPairwise(base: Metric, variant: Metric, b: Stats, v: Stats, noiseCvPct: Option<real>)
    requires IsStats([base], b) && IsStats([variant], v)
    ensures CompareVariant(b, v, noiseCvPct).0 == Compare(variant, base, noiseCvPct)
    ensures CompareVariant(b, v, noiseCvPct).1 ==
      if base.shape != variant.shape then Some(IncomparableWorkload)
      else if Combined(base) <= 0 then Some(DegenerateBaseline)
      else None
  {
    OneRunAggregate(base, b);
    OneRunAggregate(variant, v);
    RoundOfInt(Combined(base));
    RoundOfInt(Combined(variant));
  }

  // ----- run order -----

  lemma {:induction false} TotalsPermute(a: seq<Metric>, b: seq<Metric>)
    requires multiset(a) == multiset(b)
    ensures multiset(Totals(a)) == multiset(Totals(b))
  {
    if a == [] {
      assert |b| == |multiset(b)| == 0;
    } else {
      var n := |a| - 1;
      assert a == a[..n] + [a[n]];
      assert a[n] in multiset(b);
      var k :| 0 <= k < |b| && b[k] == a[n];
      Removed(a, n);
      Removed(b, k);
      assert a[..n] + a[n + 1..] == a[..n];
      TotalsPermute(a[..n], b[..k] + b[k + 1..]);
      TotalsRemove(a, n);
      TotalsRemove(b, k);
    }
  }

  lemma TotalsRemove(b: seq<Metric>, k: nat)
    requires k < |b|
    ensures multiset(Totals(b)) == multiset(Totals(b[..k] + b[k + 1..])) + multiset{Combined(b[k])}
  {
    hide Combined;
    var t := Totals(b);
    Removed(t, k);
    assert Totals(b[..k] + b[k + 1..]) == t[..k] + t[k + 1..];
    assert t[k] in multiset(t);
  }

  lemma ShapesPermute(a: seq<Metric>, b: seq<Metric>)
    requires multiset(a) == multiset(b) && SameShapes(a)
    ensures SameShapes(b) && (a != [] ==> b != [] && a[0].shape == b[0].shape)
  {
    assert |a| == |multiset(a)| == |multiset(b)| == |b|;
    forall i | 0 <= i < |b| ensures b[i].shape == a[0].shape {
      assert b[i] in multiset(a);
    }
  }

  /** A comparison's outcome does not depend on the order of the runs within either variant. */
  lemma RunOrderIrrelevant(
    b1: seq<Metric>, b2: seq<Metric>, v1: seq<Metric>, v2: seq<Metric>,
    sb1: Stats, sb2: Stats, sv1: Stats, sv2: Stats, noiseCvPct: Option<real>)
    requires multiset(b1) == multiset(b2) && multiset(v1) == multiset(v2)
    requires IsStats(b1, sb1) && IsStats(b2, sb2) && IsStats(v1, sv1) && IsStats(v2, sv2)
    ensures CompareVariant(sb1, sv1, noiseCvPct) == CompareVariant(sb2, sv2, noiseCvPct)
  {
    StatsPermute(b1, b2, sb1, sb2);
    StatsPermute(v1, v2, sv1, sv2);
  }

  lemma StatsPermute(a: seq<Metric>, b: seq<Metric>, s: Stats, t: Stats)
    requires multiset(a) == multiset(b) && IsStats(a, s) && IsStats(b, t)
    ensures s.completed == t.completed && s.aggregate == t.aggregate && s.consistent == t.consistent
    ensures s.consistent ==> s.workload == t.workload
  {
    assert |a| == |multiset(a)| == |multiset(b)| == |b|;
    if s.consistent {
      ShapesPermute(a, b);
    }
    if t.consistent {
      ShapesPermute(b, a);
    }
    if a != [] {
      TotalsPermute(a, b);
      AggregatePermutes(Totals(a), Totals(b), s.aggregate.value, t.aggregate.value);
    }
  }
}
