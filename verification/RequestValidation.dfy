/** The validation gate for benchmark requests. */
module RequestValidation {
  import opened Wrappers
  import opened Decimal
  import Text
  import Workload

  datatype Request = Single(workload: Workload.Spec) | Comparison(workload: Workload.Spec, variants: seq<string>)

  datatype Limits = Limits(maxCleanRepetitions: nat, maxVariants: nat, maxLifecycles: nat)

  datatype Error =
    | TooManyCleanRepetitions(requested: nat, max: nat)
    | TooFewVariants(requested: nat)
    | TooManyVariants(requested: nat, max: nat)
    | TooManyLifecycles(requested: nat, max: nat)
    | EmptyVariantRef
    | DuplicateVariantRef(rev: string)
    | WorkloadCarriesRev

  function AtLeastOne(n: nat): nat {
    if n == 0 then 1 else n
  }

  /** Limits as they are built from 32-bit settings. */
  function NewLimits(maxCleanRepetitions: nat, maxVariants: nat, maxLifecycles: nat): (l: Limits)
    requires maxCleanRepetitions <= U32_MAX && maxVariants <= U32_MAX && maxLifecycles <= U32_MAX
    ensures LimitsOk(l)
    ensures l.maxCleanRepetitions >= maxCleanRepetitions && l.maxVariants >= maxVariants
    ensures l.maxLifecycles >= maxLifecycles
  {
    Limits(AtLeastOne(maxCleanRepetitions), AtLeastOne(maxVariants), AtLeastOne(maxLifecycles))
  }

  /** Every cap is a positive 32-bit number. */
  predicate LimitsOk(l: Limits) {
    && 1 <= l.maxCleanRepetitions <= U32_MAX
    && 1 <= l.maxVariants <= U32_MAX
    && 1 <= l.maxLifecycles <= U32_MAX
  }

  function SaturatingMul(a: nat, b: nat): nat {
    if a * b > U32_MAX then U32_MAX else a * b
  }

  function TrimAll(refs: seq<string>): (r: seq<string>)
    ensures |r| == |refs| && forall i :: 0 <= i < |r| ==> r[i] == Text.Trim(refs[i])
  {
    seq(|refs|, i requires 0 <= i < |refs| => Text.Trim(refs[i]))
  }

  /** The first complaint about the refs from `i` on. */
  function CheckRefs(refs: seq<string>, i: nat): Option<Error>
    requires i <= |refs|
    decreases |refs| - i
  {
    if i == |refs| then None
    else if refs[i] == [] then Some(EmptyVariantRef)
    else if refs[i] in refs[..i] then Some(DuplicateVariantRef(refs[i]))
    else CheckRefs(refs, i + 1)
  }

  /** The checks made before any ref is looked at. */
  function CheckCaps(r: Request, l: Limits): Option<Error> {
    if r.workload.cleanRepetitions > l.maxCleanRepetitions then
      Some(TooManyCleanRepetitions(r.workload.cleanRepetitions, l.maxCleanRepetitions))
    else if r.Single? then None
    else if r.workload.rev.Some? then Some(WorkloadCarriesRev)
    else if |r.variants| < 2 then Some(TooFewVariants(|r.variants|))
    else if |r.variants| > l.maxVariants then Some(TooManyVariants(|r.variants|, l.maxVariants))
    else
      var lifecycles := SaturatingMul(|r.variants|, r.workload.cleanRepetitions);
      if lifecycles > l.maxLifecycles then Some(TooManyLifecycles(lifecycles, l.maxLifecycles)) else None
  }

  function Validated(r: Request, l: Limits): Result<Request, Error> {
    match CheckCaps(r, l)
    case Some(error) => Err(error)
    case None =>
      if r.Single? then Ok(r)
      else
        var refs := TrimAll(r.variants);
        match CheckRefs(refs, 0)
        case Some(error) => Err(error)
        case None => Ok(r.(variants := refs))
  }

  /** The gate trims the refs in place while it grows the set of refs already seen. */
  method ValidateBenchmarkRequest(request: Request, limits: Limits) returns (r: Result<Request, Error>)
    requires LimitsOk(limits)
    ensures r == Validated(request, limits)
  {
    var early := CheckCaps(request, limits);
    if early.Some? {
      return Err(early.value);
    }
    if request.Single? {
      return Ok(request);
    }
    var error, variants := TrimRefs(request.variants, TrimAll(request.variants));
    r := if error.Some? then Err(error.value) else Ok(request.(variants := variants));
  }

  method TrimRefs(given: seq<string>, ghost refs: seq<string>) returns (error: Option<Error>, variants: seq<string>)
    requires |refs| == |given| && forall k :: 0 <= k < |given| ==> refs[k] == Text.Trim(given[k])
    ensures error == CheckRefs(refs, 0)
    ensures error.None? ==> variants == refs
  {
    hide Text.Trim;
    variants := given;
    var seen: set<string> := {};
    var i := 0;
    while i < |given|
      invariant 0 <= i <= |given| == |variants|
      invariant forall k :: 0 <= k < i ==> variants[k] == refs[k]
      invariant forall k :: i <= k < |given| ==> variants[k] == given[k]
      invariant Holds(seen, refs[..i])
      invariant CheckRefs(refs, i) == CheckRefs(refs, 0)
    {
      variants := variants[i := Text.Trim(variants[i])];
      if variants[i] == [] {
        return Some(EmptyVariantRef), variants;
      }
      if variants[i] in seen {
        return Some(DuplicateVariantRef(variants[i])), variants;
      }
      SeenGrows(seen, refs, i);
      seen := seen + {variants[i]};
      i := i + 1;
    }
    error := None;
  }

  ghost predicate Holds(seen: set<string>, refs: seq<string>) {
    forall s :: s in seen <==> s in refs
  }

  lemma SeenGrows(seen: set<string>, refs: seq<string>, i: nat)
    requires i < |refs| && Holds(seen, refs[..i])
    ensures Holds(seen + {refs[i]}, refs[..i + 1])
  {
    assert refs[..i + 1] == refs[..i] + [refs[i]];
  }

  // ----- what an accepted request satisfies -----

  ghost predicate DistinctRefs(refs: seq<string>) {
    TrimAll(refs) == refs && Distinct(refs)
  }

  ghost predicate Distinct(refs: seq<string>) {
    && (forall i :: 0 <= i < |refs| ==> refs[i] != [])
    && (forall i, j :: 0 <= i < j < |refs| ==> refs[i] != refs[j])
  }

  lemma {:induction false} RefsAccepted(refs: seq<string>, i: nat)
    requires i <= |refs|
    ensures CheckRefs(refs, i) == None <==> forall k :: i <= k < |refs| ==> refs[k] != [] && refs[k] !in refs[..k]
    decreases |refs| - i
  {
    if i < |refs| {
      RefsAccepted(refs, i + 1);
    }
  }

  lemma RefsPass(refs: seq<string>)
    ensures CheckRefs(refs, 0) == None <==> Distinct(refs)
  {
    RefsAccepted(refs, 0);
    if forall k :: 0 <= k < |refs| ==> refs[k] != [] && refs[k] !in refs[..k] {
      forall i, j | 0 <= i < j < |refs| ensures refs[i] != refs[j] {
        assert refs[..j][i] == refs[i];
      }
    }
  }

  /** The refs pass exactly when, trimmed, they are non-empty and pairwise distinct. */
  lemma RefsPassIffDistinct(variants: seq<string>)
    ensures CheckRefs(TrimAll(variants), 0) == None <==> DistinctRefs(TrimAll(variants))
  {
    hide TrimAll, Text.Trim, CheckRefs;
    RefsPass(TrimAll(variants));
    TrimAllIdempotent(variants);
  }

  lemma TrimAllIdempotent(variants: seq<string>)
    ensures TrimAll(TrimAll(variants)) == TrimAll(variants)
  {
    hide TrimAll, Text.Trim;
    var refs := TrimAll(variants);
    forall i | 0 <= i < |refs| ensures TrimAll(refs)[i] == refs[i] {
      Text.TrimIdempotent(variants[i]);
    }
  }

  /** The caps compare true products, except that the largest possible cap lets an overflowing product pass. */
  lemma LifecycleCapIsExact(variants: nat, repetitions: nat, cap: nat)
    requires cap <= U32_MAX
    ensures SaturatingMul(variants, repetitions) <= cap <==> variants * repetitions <= cap || cap == U32_MAX
  {
  }

  /** A single request is accepted exactly within the repetition cap, and as it is. */
  lemma SingleExactly(w: Workload.Spec, l: Limits)
    ensures var n, max := w.cleanRepetitions, l.maxCleanRepetitions;
      Validated(Single(w), l) == if n <= max then Ok(Single(w)) else Err(TooManyCleanRepetitions(n, max))
  {
  }

  /** The reason a comparison is refused is the first of the failing checks. */
  lemma ReasonExactly(r: Request, l: Limits)
    requires r.Comparison?
    ensures var v, n, k := Validated(r, l), r.workload.cleanRepetitions, |r.variants|;
      && (v == Err(TooManyCleanRepetitions(n, l.maxCleanRepetitions)) <==> n > l.maxCleanRepetitions)
      && (v == Err(WorkloadCarriesRev) <==> n <= l.maxCleanRepetitions && r.workload.rev.Some?)
      && (v == Err(TooFewVariants(k)) <==> n <= l.maxCleanRepetitions && r.workload.rev.None? && k < 2)
      && (v == Err(TooManyVariants(k, l.maxVariants)) <==>
            n <= l.maxCleanRepetitions && r.workload.rev.None? && 2 <= k && k > l.maxVariants)
  {
    hide CheckRefs, TrimAll, SaturatingMul;
    RefErrors(TrimAll(r.variants), 0);
  }

  /** Too many lifecycles are reported as the product, or as the largest 32-bit number if it does not fit. */
  lemma LifecycleReason(r: Request, l: Limits)
    requires r.Comparison? && r.workload.cleanRepetitions <= l.maxCleanRepetitions && r.workload.rev.None?
    requires 2 <= |r.variants| <= l.maxVariants
    ensures var product := |r.variants| * r.workload.cleanRepetitions;
      var shown := if product <= U32_MAX then product else U32_MAX;
      Validated(r, l) == Err(TooManyLifecycles(shown, l.maxLifecycles)) <==> shown > l.maxLifecycles
  {
    hide CheckRefs, TrimAll;
    RefErrors(TrimAll(r.variants), 0);
  }

  lemma {:induction false} RefErrors(refs: seq<string>, i: nat)
    requires i <= |refs|
    ensures var e := CheckRefs(refs, i); e == None || e.value.EmptyVariantRef? || e.value.DuplicateVariantRef?
    decreases |refs| - i
  {
    if i < |refs| && refs[i] != [] && refs[i] !in refs[..i] {
      RefErrors(refs, i + 1);
    }
  }

  /** The first bad ref decides: an empty one, or one that an earlier ref already names. */
  lemma {:induction false} FirstBadRef(refs: seq<string>, i: nat, k: nat)
    requires i <= k < |refs| && forall j :: i <= j < k ==> refs[j] != [] && refs[j] !in refs[..j]
    ensures refs[k] == [] ==> CheckRefs(refs, i) == Some(EmptyVariantRef)
    ensures refs[k] != [] && refs[k] in refs[..k] ==> CheckRefs(refs, i) == Some(DuplicateVariantRef(refs[k]))
    decreases k - i
  {
    if i < k {
      FirstBadRef(refs, i + 1, k);
    }
  }

  /** Everything an accepted comparison promises. */
  lemma AcceptedComparison(r: Request, l: Limits)
    requires LimitsOk(l) && r.Comparison? && Validated(r, l).Ok?
    ensures var a := Validated(r, l).value;
      && a == r.(variants := TrimAll(r.variants)) && DistinctRefs(a.variants)
      && a.workload.rev == None
      && 2 <= |a.variants| <= l.maxVariants
      && a.workload.cleanRepetitions <= l.maxCleanRepetitions
      && (l.maxLifecycles < U32_MAX ==> |a.variants| * a.workload.cleanRepetitions <= l.maxLifecycles)
  {
    hide TrimAll, Text.Trim, CheckRefs, DistinctRefs;
    RefsPassIffDistinct(r.variants);
  }

  /** A comparison is accepted exactly when it is within its caps, by true arithmetic unless the lifecycle cap is the
      largest there is, names no shared revision, and has distinct non-empty refs. */
  lemma ComparisonAcceptedExactly(r: Request, l: Limits)
    requires LimitsOk(l) && r.Comparison?
    ensures Validated(r, l).Ok? <==>
      && r.workload.rev == None && DistinctRefs(TrimAll(r.variants))
      && r.workload.cleanRepetitions <= l.maxCleanRepetitions && 2 <= |r.variants| <= l.maxVariants
      && (|r.variants| * r.workload.cleanRepetitions <= l.maxLifecycles || l.maxLifecycles == U32_MAX)
  {
    hide TrimAll, Text.Trim, CheckRefs, DistinctRefs;
    RefsPassIffDistinct(r.variants);
    LifecycleCapIsExact(|r.variants|, r.workload.cleanRepetitions, l.maxLifecycles);
  }

  /** Validating an accepted request again returns it unchanged. */
  lemma ValidationIdempotent(r: Request, l: Limits)
    requires Validated(r, l).Ok?
    ensures Validated(Validated(r, l).value, l) == Validated(r, l)
  {
    hide TrimAll, Text.Trim, CheckRefs;
    if r.Comparison? {
      TrimAllIdempotent(r.variants);
    }
  }
}
