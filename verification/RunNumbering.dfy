/** Numbering the measured runs of a submission across its specs. */
module RunNumbering {

  datatype TaskKind = Benchmark | BlockValidation | BuildOnly

  datatype Spec = Spec(index: int, kind: TaskKind, requested: int)

  function MeasuredRunCount(s: Spec): (n: nat)
    ensures n == 0 <==> s.kind.BuildOnly?
    ensures !s.kind.BuildOnly? ==> s.requested <= n && (n == s.requested || n == 1)
  {
    if s.kind.BuildOnly? then 0 else if s.requested < 1 then 1 else s.requested
  }

  /** The measured runs of all specs, in whatever order the store lists them. */
  function RequestedRuns(specs: seq<Spec>): nat {
    if specs == [] then 0 else MeasuredRunCount(specs[0]) + RequestedRuns(specs[1..])
  }

  /** The measured runs of the specs numbered below `index`. */
  function PriorRuns(specs: seq<Spec>, index: int): nat {
    if specs == [] then 0
    else (if specs[0].index < index then MeasuredRunCount(specs[0]) else 0) + PriorRuns(specs[1..], index)
  }

  function SubmissionRunIndex(specs: seq<Spec>, spec: Spec, run: int): int {
    PriorRuns(specs, spec.index) + run
  }

  ghost predicate DistinctIndices(specs: seq<Spec>) {
    forall i, j :: 0 <= i < j < |specs| ==> specs[i].index != specs[j].index
  }

  /** A run that exists: a spec of the submission and a run below its measured count. */
  ghost predicate IsRun(specs: seq<Spec>, spec: Spec, run: int) {
    spec in specs && 0 <= run < MeasuredRunCount(spec)
  }

  // ----- removing one spec -----

  function Without(specs: seq<Spec>, k: nat): seq<Spec>
    requires k < |specs|
  {
    specs[..k] + specs[k + 1..]
  }

  lemma {:induction false} RemoveOne(specs: seq<Spec>, k: nat, index: int)
    requires k < |specs|
    ensures RequestedRuns(specs) == RequestedRuns(Without(specs, k)) + MeasuredRunCount(specs[k])
    ensures PriorRuns(specs, index)
         == PriorRuns(Without(specs, k), index) + if specs[k].index < index then MeasuredRunCount(specs[k]) else 0
  {
    if k == 0 {
      assert Without(specs, 0) == specs[1..];
    } else {
      RemoveOne(specs[1..], k - 1, index);
      assert Without(specs, k)[1..] == Without(specs[1..], k - 1);
    }
  }

  lemma WithoutFacts(specs: seq<Spec>, k: nat)
    requires k < |specs|
    ensures multiset(Without(specs, k)) == multiset(specs) - multiset{specs[k]}
    ensures DistinctIndices(specs) ==> DistinctIndices(Without(specs, k))
    ensures forall s :: s in Without(specs, k) ==> s in specs
    ensures forall s :: s in specs && s != specs[k] ==> s in Without(specs, k)
  {
    var rest := Without(specs, k);
    WithoutCounts(specs, k);
    assert forall i :: 0 <= i < |rest| ==> rest[i] == specs[if i < k then i else i + 1];
    forall s | s in specs && s != specs[k] ensures s in rest {
      var i :| 0 <= i < |specs| && specs[i] == s;
      assert rest[if i < k then i else i - 1] == s;
    }
  }

  lemma WithoutCounts(specs: seq<Spec>, k: nat)
    requires k < |specs|
    ensures multiset(Without(specs, k)) == multiset(specs) - multiset{specs[k]}
  {
    assert specs == specs[..k] + [specs[k]] + specs[k + 1..];
  }

  // ----- listing order does not matter -----

  /** The numbering depends on the specs, not on the order the store returns them in. */
  lemma {:induction false} ListingOrderIrrelevant(a: seq<Spec>, b: seq<Spec>, spec: Spec, run: int)
    requires multiset(a) == multiset(b)
    ensures RequestedRuns(a) == RequestedRuns(b)
    ensures SubmissionRunIndex(a, spec, run) == SubmissionRunIndex(b, spec, run)
  {
    if a == [] {
      assert |b| == |multiset(b)| == 0;
    } else {
      assert a[0] in multiset(b);
      var k :| 0 <= k < |b| && b[k] == a[0];
      WithoutFacts(b, k);
      WithoutFacts(a, 0);
      assert Without(a, 0) == a[1..];
      ListingOrderIrrelevant(a[1..], Without(b, k), spec, run);
      RemoveOne(b, k, spec.index);
      RemoveOne(a, 0, spec.index);
    }
  }

  // ----- the bijection -----

  /** Every run's number lies below the total. */
  lemma RunIndexInRange(specs: seq<Spec>, spec: Spec, run: int)
    requires IsRun(specs, spec, run)
    ensures 0 <= SubmissionRunIndex(specs, spec, run) < RequestedRuns(specs)
  {
    var k :| 0 <= k < |specs| && specs[k] == spec;
    RemoveOne(specs, k, spec.index);
    PriorIsPart(Without(specs, k), spec.index);
  }

  lemma {:induction false} PriorIsPart(specs: seq<Spec>, index: int)
    ensures PriorRuns(specs, index) <= RequestedRuns(specs)
  {
    if specs != [] {
      PriorIsPart(specs[1..], index);
    }
  }

  lemma {:induction false} PriorMonotone(specs: seq<Spec>, lo: int, hi: int)
    requires lo <= hi
    ensures PriorRuns(specs, lo) <= PriorRuns(specs, hi)
  {
    if specs != [] {
      PriorMonotone(specs[1..], lo, hi);
    }
  }

  /** A spec's runs are all numbered below those of every later spec. */
  lemma PriorSkipsSpec(specs: seq<Spec>, spec: Spec, hi: int)
    requires spec in specs && spec.index < hi
    ensures PriorRuns(specs, spec.index) + MeasuredRunCount(spec) <= PriorRuns(specs, hi)
  {
    var k :| 0 <= k < |specs| && specs[k] == spec;
    RemoveOne(specs, k, spec.index);
    RemoveOne(specs, k, hi);
    PriorMonotone(Without(specs, k), spec.index, hi);
  }

  /** Numbers follow (spec index, run index) order, both ways. */
  lemma RunIndexFollowsOrder(specs: seq<Spec>, a: Spec, i: int, b: Spec, j: int)
    requires DistinctIndices(specs) && IsRun(specs, a, i) && IsRun(specs, b, j)
    ensures SubmissionRunIndex(specs, a, i) < SubmissionRunIndex(specs, b, j)
      <==> a.index < b.index || (a.index == b.index && i < j)
    ensures SubmissionRunIndex(specs, a, i) == SubmissionRunIndex(specs, b, j) <==> a == b && i == j
  {
    if a.index < b.index {
      PriorSkipsSpec(specs, a, b.index);
    } else if b.index < a.index {
      PriorSkipsSpec(specs, b, a.index);
    } else {
      var x :| 0 <= x < |specs| && specs[x] == a;
      var y :| 0 <= y < |specs| && specs[y] == b;
      assert x == y;
    }
  }

  ghost predicate IsLast(specs: seq<Spec>, k: nat)
    requires k < |specs|
  {
    forall i :: 0 <= i < |specs| ==> specs[i].index <= specs[k].index
  }

  lemma {:induction false} LastSpec(specs: seq<Spec>) returns (k: nat)
    requires specs != []
    ensures k < |specs| && IsLast(specs, k)
  {
    if |specs| == 1 {
      k := 0;
    } else {
      var j := LastSpec(specs[1..]);
      k := if specs[0].index > specs[1..][j].index then 0 else j + 1;
      forall i | 0 <= i < |specs| ensures specs[i].index <= specs[k].index {
        assert i > 0 ==> specs[1..][i - 1] == specs[i];
      }
    }
  }

  lemma {:induction false} AllPrior(specs: seq<Spec>, index: int)
    requires forall i :: 0 <= i < |specs| ==> specs[i].index < index
    ensures PriorRuns(specs, index) == RequestedRuns(specs)
  {
    if specs != [] {
      AllPrior(specs[1..], index);
    }
  }

  /** Every number below the total is some run's number. */
  lemma {:induction false} EveryNumberIsUsed(specs: seq<Spec>, n: nat) returns (spec: Spec, run: nat)
    requires DistinctIndices(specs) && n < RequestedRuns(specs)
    ensures IsRun(specs, spec, run) && SubmissionRunIndex(specs, spec, run) == n
    decreases |specs|
  {
    assert specs != [];
    hide RequestedRuns, PriorRuns, DistinctIndices, MeasuredRunCount, Without, IsLast, SubmissionRunIndex;
    var k := LastSpec(specs);
    var rest := Without(specs, k);
    LastComesLast(specs, k);
    if n >= RequestedRuns(rest) {
      spec, run := specs[k], n - RequestedRuns(rest);
      LastRunIs(specs, k, run);
    } else {
      RestIsDistinct(specs, k);
      spec, run := EveryNumberIsUsed(rest, n);
      RestRunIs(specs, k, spec, run);
    }
  }

  lemma RestIsDistinct(specs: seq<Spec>, k: nat)
    requires DistinctIndices(specs) && k < |specs|
    ensures DistinctIndices(Without(specs, k)) && |Without(specs, k)| == |specs| - 1
  {
    WithoutFacts(specs, k);
  }

  lemma LastRunIs(specs: seq<Spec>, k: nat, run: nat)
    requires k < |specs| && run < MeasuredRunCount(specs[k])
    requires PriorRuns(specs, specs[k].index) == RequestedRuns(Without(specs, k))
    ensures IsRun(specs, specs[k], run)
    ensures SubmissionRunIndex(specs, specs[k], run) == RequestedRuns(Without(specs, k)) + run
  {
    hide RequestedRuns, PriorRuns;
  }

  lemma RestRunIs(specs: seq<Spec>, k: nat, spec: Spec, run: nat)
    requires DistinctIndices(specs) && k < |specs| && IsLast(specs, k) && IsRun(Without(specs, k), spec, run)
    ensures IsRun(specs, spec, run)
    ensures SubmissionRunIndex(specs, spec, run) == SubmissionRunIndex(Without(specs, k), spec, run)
  {
    hide RequestedRuns, PriorRuns, DistinctIndices;
    WithoutFacts(specs, k);
    LastComesLast(specs, k);
    EarlierKeepsNumber(specs, k, spec);
  }

  /** The runs of the last spec follow all others. */
  lemma LastComesLast(specs: seq<Spec>, k: nat)
    requires DistinctIndices(specs) && k < |specs| && IsLast(specs, k)
    ensures var rest := Without(specs, k);
      && PriorRuns(specs, specs[k].index) == RequestedRuns(rest)
      && RequestedRuns(specs) == RequestedRuns(rest) + MeasuredRunCount(specs[k])
      && forall i :: 0 <= i < |rest| ==> rest[i].index < specs[k].index
  {
    hide RequestedRuns, PriorRuns;
    var last, rest := specs[k], Without(specs, k);
    forall i | 0 <= i < |rest| ensures rest[i].index < last.index {
      assert rest[i] == if i < k then specs[i] else specs[i + 1];
    }
    RemoveOne(specs, k, last.index);
    AllPrior(rest, last.index);
  }

  lemma EarlierKeepsNumber(specs: seq<Spec>, k: nat, spec: Spec)
    requires k < |specs| && spec.index < specs[k].index
    ensures PriorRuns(specs, spec.index) == PriorRuns(Without(specs, k), spec.index)
  {
    hide RequestedRuns, PriorRuns;
    RemoveOne(specs, k, spec.index);
  }

  ghost predicate IsNumber(specs: seq<Spec>, n: int) {
    exists s, r :: IsRun(specs, s, r) && SubmissionRunIndex(specs, s, r) == n
  }

  /** The numbering is a bijection from the runs onto `0..RequestedRuns`. */
  lemma RunNumberingIsABijection(specs: seq<Spec>)
    requires DistinctIndices(specs)
    ensures forall n :: IsNumber(specs, n) <==> 0 <= n < RequestedRuns(specs)
    ensures forall s, r, s', r' ::
      (&& IsRun(specs, s, r) && IsRun(specs, s', r')
       && SubmissionRunIndex(specs, s, r) == SubmissionRunIndex(specs, s', r'))
      ==> s == s' && r == r'
  {
    forall n ensures IsNumber(specs, n) <==> 0 <= n < RequestedRuns(specs) {
      if IsNumber(specs, n) {
        var s, r :| IsRun(specs, s, r) && SubmissionRunIndex(specs, s, r) == n;
        RunIndexInRange(specs, s, r);
      }
      if 0 <= n < RequestedRuns(specs) {
        var s, r := EveryNumberIsUsed(specs, n);
      }
    }
    forall s, r, s', r' | IsRun(specs, s, r) && IsRun(specs, s', r')
        && SubmissionRunIndex(specs, s, r) == SubmissionRunIndex(specs, s', r')
      ensures s == s' && r == r'
    {
      RunIndexFollowsOrder(specs, s, r, s', r');
    }
  }

  // ----- 32-bit sums -----

  const I32_MAX: int := 0x7FFF_FFFF

  /** A sum as 32-bit arithmetic without overflow checks leaves it. */
  function Wrap(n: int): int {
    (n + I32_MAX + 1) % (2 * (I32_MAX + 1)) - (I32_MAX + 1)
  }

  /** The source's running sums. */
  function WrappedRuns(specs: seq<Spec>): int {
    if specs == [] then 0 else Wrap(MeasuredRunCount(specs[0]) + WrappedRuns(specs[1..]))
  }

  function WrappedPrior(specs: seq<Spec>, index: int): int {
    if specs == [] then 0
    else Wrap((if specs[0].index < index then MeasuredRunCount(specs[0]) else 0) + WrappedPrior(specs[1..], index))
  }

  lemma WrapTwice(a: int, b: int)
    ensures Wrap(a + Wrap(b)) == Wrap(a + b)
  {
  }

  lemma {:induction false} WrappedIsWrap(specs: seq<Spec>, index: int)
    ensures WrappedRuns(specs) == Wrap(RequestedRuns(specs))
    ensures WrappedPrior(specs, index) == Wrap(PriorRuns(specs, index))
  {
    if specs != [] {
      hide Wrap;
      WrappedIsWrap(specs[1..], index);
      WrapTwice(MeasuredRunCount(specs[0]), RequestedRuns(specs[1..]));
      var own := if specs[0].index < index then MeasuredRunCount(specs[0]) else 0;
      WrapTwice(own, PriorRuns(specs[1..], index));
    } else {
      assert Wrap(0) == 0;
    }
  }

  lemma WrapExactly(n: nat)
    ensures Wrap(n) == n <==> n <= I32_MAX
  {
  }

  /** The 32-bit total is the true one if and only if the true one fits, and then every run's number is true too. */
  lemma NumbersFitExactly(specs: seq<Spec>)
    ensures WrappedRuns(specs) == RequestedRuns(specs) <==> RequestedRuns(specs) <= I32_MAX
    ensures RequestedRuns(specs) <= I32_MAX ==> forall spec, run :: IsRun(specs, spec, run) ==>
      Wrap(WrappedPrior(specs, spec.index) + run) == SubmissionRunIndex(specs, spec, run)
  {
    hide Wrap, RequestedRuns, WrappedRuns, PriorRuns, WrappedPrior;
    WrappedIsWrap(specs, 0);
    WrapExactly(RequestedRuns(specs));
    if RequestedRuns(specs) <= I32_MAX {
      forall spec, run | IsRun(specs, spec, run)
        ensures Wrap(WrappedPrior(specs, spec.index) + run) == SubmissionRunIndex(specs, spec, run)
      {
        RunIndexInRange(specs, spec, run);
        WrappedIsWrap(specs, spec.index);
        WrapTwice(run, PriorRuns(specs, spec.index));
        WrapExactly(SubmissionRunIndex(specs, spec, run));
      }
    }
  }
}
