/** Any number of promoters of one manifest, interleaved request by request and retried at will. A request
    that fails for its caller stays in limbo: it may take effect at any later moment, once, often, or never. */
module PromotionRuns {
  import opened Wrappers
  import opened Promotion

  /** Where a promoter stands: the request it is about to send. */
  datatype Phase = HeadStaging | CopyOver | HeadLogical(deleteNext: bool) | DeleteStaging | Returned(ok: bool)

  datatype Promoter = Promoter(artifact: nat, phase: Phase)

  datatype Request = LateCopy(artifact: nat) | LateDelete(artifact: nat)

  datatype State = State(objects: Objects, promoters: seq<Promoter>, limbo: set<Request>)

  /** How the store answers one request of the system. */
  datatype Answer = Good | Empty | Failed

  datatype Step =
    | Advance(p: nat, answer: Answer)
    | Retry(p: nat)
    | Join(artifact: nat)
    | Land(request: Request)
    | Upload(artifact: nat, object_: Object)

  predicate Enabled(m: seq<Artifact>, s: State, step: Step) {
    match step
    case Advance(p, answer) =>
      && p < |s.promoters| && s.promoters[p].artifact < |m| && !s.promoters[p].phase.Returned?
      && (answer.Empty? ==> s.promoters[p].phase.CopyOver? || s.promoters[p].phase.DeleteStaging?)
    case Retry(p) => p < |s.promoters| && s.promoters[p].phase.Returned?
    case Join(a) => a < |m|
    case Land(request) => request in s.limbo && request.artifact < |m|
    case Upload(a, object_) => a < |m| && Matches(object_, m[a])
  }

  function Effect(m: seq<Artifact>, objects: Objects, r: Request): Objects
    requires r.artifact < |m|
  {
    match r
    case LateCopy(a) => CopyEffect(objects, m[a].key, m[a].logicalKey)
    case LateDelete(a) => objects - {m[a].key}
  }

  /** The phase a promoter of `a` moves to. */
  function Next(a: Artifact, objects: Objects, phase: Phase, answer: Answer): Phase
    requires !phase.Returned?
  {
    match phase
    case HeadStaging => if answer.Good? && a.key in objects then CopyOver else HeadLogical(false)
    case CopyOver =>
      if answer.Empty? || (answer.Good? && a.key in objects) then HeadLogical(true) else Returned(false)
    case HeadLogical(deleteNext) =>
      var seen := answer.Good? && MatchesAt(objects, a.logicalKey, a);
      if seen && deleteNext then DeleteStaging else Returned(seen)
    case DeleteStaging => Returned(!answer.Failed?)
  }

  /** The request a phase sends, when it changes the bucket. */
  function Sent(artifact: nat, phase: Phase): Option<Request> {
    match phase
    case CopyOver => Some(LateCopy(artifact))
    case DeleteStaging => Some(LateDelete(artifact))
    case _ => None
  }

  function Apply(m: seq<Artifact>, s: State, step: Step): State
    requires Enabled(m, s, step)
  {
    match step
    case Advance(p, answer) =>
      var w := s.promoters[p];
      var moved := s.(promoters := s.promoters[p := w.(phase := Next(m[w.artifact], s.objects, w.phase, answer))]);
      var r := Sent(w.artifact, w.phase);
      if r.Some? && answer.Good? then moved.(objects := Effect(m, s.objects, r.value))
      else if r.Some? && answer.Failed? then moved.(limbo := s.limbo + {r.value})
      else moved
    case Retry(p) => s.(promoters := s.promoters[p := s.promoters[p].(phase := HeadStaging)])
    case Join(a) => s.(promoters := s.promoters + [Promoter(a, HeadStaging)])
    case Land(request) => s.(objects := Effect(m, s.objects, request))
    case Upload(a, object_) => s.(objects := s.objects[m[a].key := object_])
  }

  /** Any request may be served or fail, copies and deletes may also be answered without effect, a failed one may take
      effect whenever it likes, promoters join and start over at will, and uploads may come again. */
  lemma NothingIsRuledOut(m: seq<Artifact>, s: State, p: nat, a: nat, o: Object, r: Request)
    ensures p < |s.promoters| && s.promoters[p].artifact < |m| && !s.promoters[p].phase.Returned? ==>
      && Enabled(m, s, Advance(p, Good)) && Enabled(m, s, Advance(p, Failed))
      && (s.promoters[p].phase.CopyOver? || s.promoters[p].phase.DeleteStaging? ==> Enabled(m, s, Advance(p, Empty)))
    ensures p < |s.promoters| && s.promoters[p].phase.Returned? ==> Enabled(m, s, Retry(p))
    ensures a < |m| ==> Enabled(m, s, Join(a))
    ensures a < |m| && Matches(o, m[a]) ==> Enabled(m, s, Upload(a, o))
    ensures r in s.limbo && r.artifact < |m| ==> Enabled(m, s, Land(r))
  {
  }

  /** A failed copy or delete is kept, to take effect later. */
  lemma FailedRequestsLinger(m: seq<Artifact>, s: State, p: nat)
    requires Enabled(m, s, Advance(p, Failed))
    ensures var t, w := Apply(m, s, Advance(p, Failed)), s.promoters[p];
      && t.objects == s.objects
      && (w.phase.CopyOver? ==> t.limbo == s.limbo + {LateCopy(w.artifact)})
      && (w.phase.DeleteStaging? ==> t.limbo == s.limbo + {LateDelete(w.artifact)})
  {
  }

  // ----- the invariant -----

  predicate PromoterOk(m: seq<Artifact>, objects: Objects, w: Promoter) {
    && w.artifact < |m|
    && (w.phase.DeleteStaging? || w.phase == Returned(true) ==> Promoted(objects, m[w.artifact]))
  }

  predicate RequestOk(m: seq<Artifact>, objects: Objects, r: Request) {
    r.artifact < |m| && (r.LateDelete? ==> Promoted(objects, m[r.artifact]))
  }

  ghost predicate Inv(m: seq<Artifact>, s: State) {
    && AllKept(m, s.objects)
    && (forall p :: 0 <= p < |s.promoters| ==> PromoterOk(m, s.objects, s.promoters[p]))
    && (forall r :: r in s.limbo ==> RequestOk(m, s.objects, r))
  }

  /** No artifact is lost and no promotion is undone between two buckets. */
  ghost predicate Grows(m: seq<Artifact>, before: Objects, after: Objects) {
    && AllKept(m, after)
    && (forall a :: 0 <= a < |m| && Promoted(before, m[a]) ==> Promoted(after, m[a]))
  }

  lemma EffectGrows(m: seq<Artifact>, objects: Objects, r: Request)
    requires Separate(m) && AllKept(m, objects) && RequestOk(m, objects, r)
    ensures Grows(m, objects, Effect(m, objects, r))
  {
    hide Matches, SafeKey;
    var after := Effect(m, objects, r);
    forall a | 0 <= a < |m|
      ensures Kept(after, m[a]) && (Promoted(objects, m[a]) ==> Promoted(after, m[a]))
    {
      assert Kept(objects, m[a]) && Kept(objects, m[r.artifact]);
    }
  }

  lemma UploadGrows(m: seq<Artifact>, objects: Objects, a: nat, o: Object)
    requires Separate(m) && AllKept(m, objects) && a < |m| && Matches(o, m[a])
    ensures Grows(m, objects, objects[m[a].key := o])
  {
    hide Matches, SafeKey;
    forall b | 0 <= b < |m|
      ensures Kept(objects[m[a].key := o], m[b])
      ensures Promoted(objects, m[b]) ==> Promoted(objects[m[a].key := o], m[b])
    {
      assert Kept(objects, m[b]);
    }
  }

  /** Promoters and late requests keep their guarantees when the bucket grows. */
  lemma GrowthKeeps(m: seq<Artifact>, s: State, after: Objects)
    requires Inv(m, s) && Grows(m, s.objects, after)
    ensures Inv(m, s.(objects := after))
  {
    hide Matches, SafeKey;
    forall p | 0 <= p < |s.promoters| ensures PromoterOk(m, after, s.promoters[p]) {
      assert PromoterOk(m, s.objects, s.promoters[p]);
    }
    forall r | r in s.limbo ensures RequestOk(m, after, r) {
      assert RequestOk(m, s.objects, r);
    }
  }

  lemma AdvanceKeeps(m: seq<Artifact>, s: State, step: Step)
    requires Separate(m) && Inv(m, s) && Enabled(m, s, step) && step.Advance?
    ensures Inv(m, Apply(m, s, step))
    ensures Grows(m, s.objects, Apply(m, s, step).objects)
  {
    hide Matches, SafeKey;
    var w := s.promoters[step.p];
    var s' := Apply(m, s, step);
    assert PromoterOk(m, s.objects, w);
    var r := Sent(w.artifact, w.phase);
    if r.Some? {
      EffectGrows(m, s.objects, r.value);
    }
    GrowthKeeps(m, s, s'.objects);
    assert PromoterOk(m, s'.objects, s'.promoters[step.p]);
  }

  lemma StepKeepsInv(m: seq<Artifact>, s: State, step: Step)
    requires Separate(m) && Inv(m, s) && Enabled(m, s, step)
    ensures Inv(m, Apply(m, s, step))
    ensures Grows(m, s.objects, Apply(m, s, step).objects)
  {
    hide Matches, SafeKey;
    match step
    case Advance(_, _) => AdvanceKeeps(m, s, step);
    case Retry(p) => assert PromoterOk(m, s.objects, s.promoters[p]);
    case Join(_) =>
    case Land(request) => EffectGrows(m, s.objects, request); GrowthKeeps(m, s, Effect(m, s.objects, request));
    case Upload(a, o) => UploadGrows(m, s.objects, a, o); GrowthKeeps(m, s, s.objects[m[a].key := o]);
  }

  // ----- whole runs -----

  /** The state after `steps` from a bucket with no promoter yet, or nothing if a step was not possible. */
  function Exec(m: seq<Artifact>, start: Objects, steps: seq<Step>): Option<State> {
    if steps == [] then Some(State(start, [], {}))
    else
      var last := |steps| - 1;
      match Exec(m, start, steps[..last])
      case None => None
      case Some(s) => if Enabled(m, s, steps[last]) then Some(Apply(m, s, steps[last])) else None
  }

  lemma {:induction false} RunInv(m: seq<Artifact>, start: Objects, steps: seq<Step>)
    requires GoodManifest(m) && AllKept(m, start) && Exec(m, start, steps).Some?
    ensures Inv(m, Exec(m, start, steps).value)
    ensures Grows(m, start, Exec(m, start, steps).value.objects)
  {
    hide Matches, SafeKey, GoodManifest;
    AcceptedIsSeparate(m);
    if steps != [] {
      var last := |steps| - 1;
      RunInv(m, start, steps[..last]);
      StepKeepsInv(m, Exec(m, start, steps[..last]).value, steps[last]);
    }
  }

  /** From a bucket whose staging keys hold the accepted uploads, no run ever loses an artifact, and a
      promoter that returned `true` is right, then and for the rest of the run. */
  lemma ArtifactsAreNeverLost(m: seq<Artifact>, start: Objects, steps: seq<Step>)
    requires GoodManifest(m) && Exec(m, start, steps).Some?
    requires forall a :: 0 <= a < |m| ==> MatchesAt(start, m[a].key, m[a])
    ensures var s := Exec(m, start, steps).value;
      && (forall a :: 0 <= a < |m| ==> MatchesAt(s.objects, m[a].key, m[a]) || Promoted(s.objects, m[a]))
      && (forall p :: 0 <= p < |s.promoters| ==>
            s.promoters[p].artifact < |m|
            && (s.promoters[p].phase == Returned(true) ==> Promoted(s.objects, m[s.promoters[p].artifact])))
  {
    hide Matches, SafeKey;
    RunInv(m, start, steps);
    var s := Exec(m, start, steps).value;
    assert forall p :: 0 <= p < |s.promoters| ==> PromoterOk(m, s.objects, s.promoters[p]);
  }

  /** Once promoted, an artifact stays promoted through every continuation of the run. */
  lemma {:induction false} PromotionIsPermanent(m: seq<Artifact>, start: Objects, steps: seq<Step>, k: nat, a: nat)
    requires GoodManifest(m) && AllKept(m, start) && a < |m|
    requires k <= |steps| && Exec(m, start, steps).Some? && Exec(m, start, steps[..k]).Some?
    requires Promoted(Exec(m, start, steps[..k]).value.objects, m[a])
    ensures Promoted(Exec(m, start, steps).value.objects, m[a])
  {
    hide Matches, SafeKey;
    if k == |steps| {
      assert steps[..k] == steps;
    } else {
      LastStepGrows(m, start, steps);
      assert steps[..|steps| - 1][..k] == steps[..k];
      PromotionIsPermanent(m, start, steps[..|steps| - 1], k, a);
    }
  }

  lemma LastStepGrows(m: seq<Artifact>, start: Objects, steps: seq<Step>)
    requires GoodManifest(m) && AllKept(m, start) && Exec(m, start, steps).Some? && steps != []
    ensures var before := Exec(m, start, steps[..|steps| - 1]);
      before.Some? && Grows(m, before.value.objects, Exec(m, start, steps).value.objects)
  {
    hide Matches, SafeKey, GoodManifest;
    AcceptedIsSeparate(m);
    var last := |steps| - 1;
    RunInv(m, start, steps[..last]);
    StepKeepsInv(m, Exec(m, start, steps[..last]).value, steps[last]);
  }

  /** From every reachable bucket, one undisturbed attempt without faults returns `true`. */
  lemma RetryConverges(m: seq<Artifact>, start: Objects, steps: seq<Step>, a: nat)
    requires GoodManifest(m) && AllKept(m, start) && a < |m| && Exec(m, start, steps).Some?
    ensures var (after, ok) := Promote(Exec(m, start, steps).value.objects, m[a], Fates(true, Served, true, Served));
      ok && Promoted(after, m[a]) && m[a].key !in after
  {
    hide Matches, SafeKey, GoodManifest;
    AcceptedIsSeparate(m);
    RunInv(m, start, steps);
    PromoteOutcome(Exec(m, start, steps).value.objects, m[a], Fates(true, Served, true, Served));
  }

  /** Every prefix of a run is a run, and its next step was possible. */
  lemma {:induction false} RunPrefix(m: seq<Artifact>, start: Objects, steps: seq<Step>, k: nat)
    requires Exec(m, start, steps).Some? && k <= |steps|
    ensures Exec(m, start, steps[..k]).Some?
    ensures k < |steps| ==>
      && Enabled(m, Exec(m, start, steps[..k]).value, steps[k])
      && Exec(m, start, steps[..k + 1]) == Some(Apply(m, Exec(m, start, steps[..k]).value, steps[k]))
  {
    hide Enabled, Apply;
    var last := |steps| - 1;
    if k == |steps| {
      assert steps[..k] == steps;
    } else {
      if k < last {
        RunPrefix(m, start, steps[..last], k);
        assert steps[..last][..k] == steps[..k] && steps[..last][..k + 1] == steps[..k + 1];
      } else {
        assert steps[..k + 1] == steps && steps[..k + 1][..k] == steps[..k];
      }
    }
  }

  /** The state before step `k`. */
  function At(m: seq<Artifact>, start: Objects, steps: seq<Step>, k: nat): State
    requires Exec(m, start, steps).Some? && k <= |steps|
  {
    RunPrefix(m, start, steps, k);
    Exec(m, start, steps[..k]).value
  }

  lemma Onward(m: seq<Artifact>, start: Objects, steps: seq<Step>, k: nat)
    requires Exec(m, start, steps).Some? && k < |steps|
    ensures Enabled(m, At(m, start, steps, k), steps[k])
    ensures At(m, start, steps, k + 1) == Apply(m, At(m, start, steps, k), steps[k])
  {
    hide Enabled, Apply, Exec;
    RunPrefix(m, start, steps, k);
    RunPrefix(m, start, steps, k + 1);
  }

  /** A promoter past its copy has seen, or will see, a promoted artifact. */
  predicate PastCopy(phase: Phase) {
    phase.HeadLogical? || phase.DeleteStaging? || phase.Returned?
  }

  predicate Knows(m: seq<Artifact>, objects: Objects, w: Promoter) {
    w.artifact < |m| && (PastCopy(w.phase) ==> Promoted(objects, m[w.artifact]))
  }

  /** The requests promoter `p` has sent since it last started over were all served. Those of others, and its own of
      earlier attempts, may have failed, and may still take effect. */
  ghost predicate OwnServed(steps: seq<Step>, p: nat) {
    forall k :: 0 <= k < |steps| && Requests(steps[k], p) && !RetriedAfter(steps, p, k) ==> steps[k].answer.Good?
  }

  predicate Requests(step: Step, p: nat) {
    step.Advance? && step.p == p
  }

  ghost predicate RetriedAfter(steps: seq<Step>, p: nat, k: nat) {
    exists j :: k < j < |steps| && steps[j] == Retry(p)
  }

  lemma ServedBefore(steps: seq<Step>, p: nat)
    requires steps != [] && OwnServed(steps, p) && steps[|steps| - 1] != Retry(p)
    ensures OwnServed(steps[..|steps| - 1], p)
    ensures Requests(steps[|steps| - 1], p) ==> steps[|steps| - 1].answer.Good?
  {
    var last := |steps| - 1;
    var before := steps[..last];
    forall k | 0 <= k < last && Requests(before[k], p) && !RetriedAfter(before, p, k) ensures before[k].answer.Good? {
      assert before[k] == steps[k];
      RetryWasBefore(steps, p, k);
    }
    assert !RetriedAfter(steps, p, last);
  }

  lemma RetryWasBefore(steps: seq<Step>, p: nat, k: nat)
    requires steps != [] && steps[|steps| - 1] != Retry(p)
    ensures RetriedAfter(steps, p, k) ==> RetriedAfter(steps[..|steps| - 1], p, k)
  {
    if RetriedAfter(steps, p, k) {
      var j :| k < j < |steps| && steps[j] == Retry(p);
      assert steps[..|steps| - 1][j] == Retry(p);
    }
  }

  /** Another's step, or a served one of its own, leaves the promoter knowing what it knows. */
  lemma StepKnows(m: seq<Artifact>, s: State, step: Step, p: nat)
    requires Separate(m) && Inv(m, s) && Enabled(m, s, step)
    requires p < |s.promoters| ==> Knows(m, s.objects, s.promoters[p])
    requires Requests(step, p) ==> step.answer.Good?
    ensures var t := Apply(m, s, step); p < |t.promoters| ==> Knows(m, t.objects, t.promoters[p])
  {
    hide Matches, SafeKey, Separate, Inv;
    StepKeepsInv(m, s, step);
    if Requests(step, p) {
      ServedKnows(m, s, p);
    }
  }

  lemma ServedKnows(m: seq<Artifact>, s: State, p: nat)
    requires Separate(m) && Inv(m, s) && Enabled(m, s, Advance(p, Good)) && Knows(m, s.objects, s.promoters[p])
    ensures var t := Apply(m, s, Advance(p, Good)); Knows(m, t.objects, t.promoters[p])
  {
    hide Matches, SafeKey;
    var w := s.promoters[p];
    assert Kept(s.objects, m[w.artifact]) && PromoterOk(m, s.objects, w);
    AdvanceKeeps(m, s, Advance(p, Good));
  }

  lemma RetryKnows(m: seq<Artifact>, s: State, p: nat)
    requires Inv(m, s) && Enabled(m, s, Retry(p))
    ensures var t := Apply(m, s, Retry(p)); Knows(m, t.objects, t.promoters[p])
  {
    hide Matches, SafeKey;
    assert PromoterOk(m, s.objects, s.promoters[p]);
  }

  /** A promoter whose own requests were served knows a promoted artifact once it is past its copy, whatever became of
      the requests of others: whatever it then answers, the artifact is promoted. */
  lemma {:induction false} ServedReturnMeansPromoted(m: seq<Artifact>, start: Objects, steps: seq<Step>, p: nat)
    requires GoodManifest(m) && AllKept(m, start) && OwnServed(steps, p) && Exec(m, start, steps).Some?
    ensures var s := Exec(m, start, steps).value; p < |s.promoters| ==> Knows(m, s.objects, s.promoters[p])
  {
    hide Matches, SafeKey, GoodManifest, Inv, Enabled, Apply, OwnServed, Knows;
    AcceptedIsSeparate(m);
    if steps != [] {
      var last := |steps| - 1;
      var s := Exec(m, start, steps[..last]).value;
      RunInv(m, start, steps[..last]);
      if steps[last] == Retry(p) {
        RetryKnows(m, s, p);
      } else {
        ServedBefore(steps, p);
        ServedReturnMeansPromoted(m, start, steps[..last], p);
        StepKnows(m, s, steps[last], p);
      }
    }
  }

  // ----- when a served promoter answers `false` -----

  /** Step `k` serves promoter `p` in the given phase. */
  predicate Serves(m: seq<Artifact>, start: Objects, steps: seq<Step>, k: nat, p: nat, phase: Phase)
    requires Exec(m, start, steps).Some? && k < |steps|
  {
    steps[k] == Advance(p, Good) && p < |At(m, start, steps, k).promoters|
    && At(m, start, steps, k).promoters[p].phase == phase
  }

  /** The one way to `false` for a promoter whose requests are served: its copy finds its staging object gone. */
  lemma FalseExactly(m: seq<Artifact>, start: Objects, steps: seq<Step>, p: nat)
    requires GoodManifest(m) && AllKept(m, start) && OwnServed(steps, p) && Exec(m, start, steps).Some?
    requires steps != [] && steps[|steps| - 1] == Advance(p, Good)
    ensures var before, after := At(m, start, steps, |steps| - 1), Exec(m, start, steps).value;
      && p < |before.promoters| == |after.promoters| && before.promoters[p].artifact < |m|
      && (after.promoters[p].phase == Returned(false) <==>
            before.promoters[p].phase.CopyOver? && m[before.promoters[p].artifact].key !in before.objects)
  {
    hide Matches, SafeKey, GoodManifest, Exec, OwnServed;
    var last := |steps| - 1;
    Onward(m, start, steps, last);
    assert steps[..last + 1] == steps;
    RunPrefix(m, start, steps, last);
    ServedBefore(steps, p);
    ServedReturnMeansPromoted(m, start, steps[..last], p);
  }

  /** Step `k` removes the staging object of artifact `a`: a delete that is served, or a failed one that takes effect
      late. */
  predicate Removes(m: seq<Artifact>, start: Objects, steps: seq<Step>, k: nat, a: nat)
    requires Exec(m, start, steps).Some? && k < |steps|
  {
    || steps[k] == Land(LateDelete(a))
    || (&& steps[k].Advance? && Serves(m, start, steps, k, steps[k].p, DeleteStaging)
        && At(m, start, steps, k).promoters[steps[k].p].artifact == a)
  }

  /** Between `h` and `n` the staging object of `a` was removed and not uploaded again. */
  ghost predicate RemovedBetween(m: seq<Artifact>, start: Objects, steps: seq<Step>, h: nat, n: nat, a: nat)
    requires Exec(m, start, steps).Some? && n <= |steps|
  {
    exists d :: h <= d < n && Removes(m, start, steps, d, a)
      && forall j :: d < j < n ==> !(steps[j].Upload? && steps[j].artifact == a)
  }

  lemma StagingChanges(m: seq<Artifact>, s: State, step: Step, a: nat)
    requires Separate(m) && a < |m| && Enabled(m, s, step)
    ensures var removes := || step == Land(LateDelete(a))
                           || (step.Advance? && step.answer.Good? && s.promoters[step.p] == Promoter(a, DeleteStaging));
      m[a].key in Apply(m, s, step).objects <==>
        if removes then false else (step.Upload? && step.artifact == a) || m[a].key in s.objects
  {
    hide Matches, SafeKey;
  }

  lemma {:induction false} GoneExactly(m: seq<Artifact>, start: Objects, steps: seq<Step>, h: nat, n: nat, a: nat)
    requires GoodManifest(m) && Exec(m, start, steps).Some?
    requires h <= n <= |steps| && a < |m| && m[a].key in At(m, start, steps, h).objects
    ensures m[a].key !in At(m, start, steps, n).objects <==> RemovedBetween(m, start, steps, h, n, a)
    decreases n - h
  {
    hide Matches, SafeKey, GoodManifest, Exec, Apply, At, Enabled;
    if h < n {
      GoneExactly(m, start, steps, h, n - 1, a);
      StagingAfter(m, start, steps, n - 1, a);
      RemovedStep(m, start, steps, h, n, a);
    }
  }

  lemma StagingAfter(m: seq<Artifact>, start: Objects, steps: seq<Step>, k: nat, a: nat)
    requires GoodManifest(m) && Exec(m, start, steps).Some? && k < |steps| && a < |m|
    ensures m[a].key in At(m, start, steps, k + 1).objects <==>
      if Removes(m, start, steps, k, a) then false
      else (steps[k].Upload? && steps[k].artifact == a) || m[a].key in At(m, start, steps, k).objects
  {
    hide Matches, SafeKey, GoodManifest, Exec, Apply;
    AcceptedIsSeparate(m);
    Onward(m, start, steps, k);
    StagingChanges(m, At(m, start, steps, k), steps[k], a);
  }

  lemma RemovedStep(m: seq<Artifact>, start: Objects, steps: seq<Step>, h: nat, n: nat, a: nat)
    requires Exec(m, start, steps).Some? && h < n <= |steps|
    ensures RemovedBetween(m, start, steps, h, n, a) <==>
      || Removes(m, start, steps, n - 1, a)
      || (RemovedBetween(m, start, steps, h, n - 1, a) && !(steps[n - 1].Upload? && steps[n - 1].artifact == a))
  {
    hide Exec, Removes;
    if RemovedBetween(m, start, steps, h, n, a) && !Removes(m, start, steps, n - 1, a) {
      var d :| h <= d < n && Removes(m, start, steps, d, a)
        && forall j :: d < j < n ==> !(steps[j].Upload? && steps[j].artifact == a);
      assert d < n - 1;
    }
  }

  /** Step `k` is not promoter `p`'s. */
  predicate Elsewhere(step: Step, p: nat) {
    !(step.Advance? && step.p == p) && !(step.Retry? && step.p == p)
  }

  /** Promoter `p`, about to copy at `n`, saw its staging object at `h` and has not moved since. */
  ghost predicate SawStaging(m: seq<Artifact>, start: Objects, steps: seq<Step>, h: nat, n: nat, p: nat, a: nat)
    requires Exec(m, start, steps).Some? && n <= |steps|
  {
    && h < n && Serves(m, start, steps, h, p, HeadStaging) && At(m, start, steps, h).promoters[p].artifact == a
    && a < |m| && m[a].key in At(m, start, steps, h).objects
    && forall j :: h < j < n ==> Elsewhere(steps[j], p)
  }

  ghost predicate Saw(m: seq<Artifact>, start: Objects, steps: seq<Step>, n: nat, p: nat, a: nat)
    requires Exec(m, start, steps).Some? && n <= |steps|
  {
    exists h: nat :: SawStaging(m, start, steps, h, n, p, a)
  }

  lemma CopyingStep(m: seq<Artifact>, s: State, step: Step, p: nat, a: nat)
    requires Enabled(m, s, step)
    ensures var t := Apply(m, s, step);
      p < |t.promoters| && t.promoters[p] == Promoter(a, CopyOver) <==>
        && p < |s.promoters| && s.promoters[p].artifact == a
        && if Elsewhere(step, p) then s.promoters[p].phase.CopyOver?
           else step == Advance(p, Good) && s.promoters[p].phase.HeadStaging? && m[a].key in s.objects
  {
    hide Matches;
  }

  /** A promoter about to copy saw its staging object there. */
  lemma {:induction false} CopyingSawStaging(m: seq<Artifact>, start: Objects, steps: seq<Step>, n: nat, p: nat, a: nat)
    requires Exec(m, start, steps).Some? && n <= |steps| && a < |m|
    ensures p < |At(m, start, steps, n).promoters| && At(m, start, steps, n).promoters[p] == Promoter(a, CopyOver) <==>
      Saw(m, start, steps, n, p, a)
  {
    hide Exec, Apply, Enabled, Saw;
    if n > 0 {
      CopyingSawStaging(m, start, steps, n - 1, p, a);
      Onward(m, start, steps, n - 1);
      CopyingStep(m, At(m, start, steps, n - 1), steps[n - 1], p, a);
      SawStagingStep(m, start, steps, n, p, a);
    } else {
      NobodyAtFirst(m, start, steps, p, a);
    }
  }

  lemma NobodyAtFirst(m: seq<Artifact>, start: Objects, steps: seq<Step>, p: nat, a: nat)
    requires Exec(m, start, steps).Some?
    ensures At(m, start, steps, 0).promoters == [] && !Saw(m, start, steps, 0, p, a)
  {
    assert steps[..0] == [];
  }

  lemma SawStagingStep(m: seq<Artifact>, start: Objects, steps: seq<Step>, n: nat, p: nat, a: nat)
    requires Exec(m, start, steps).Some? && 0 < n <= |steps|
    ensures Saw(m, start, steps, n, p, a) <==>
      || SawStaging(m, start, steps, n - 1, n, p, a)
      || (Elsewhere(steps[n - 1], p) && Saw(m, start, steps, n - 1, p, a))
  {
    hide Exec, At, Serves;
    if Saw(m, start, steps, n, p, a) {
      var h: nat :| SawStaging(m, start, steps, h, n, p, a);
      if h < n - 1 {
        assert SawStaging(m, start, steps, h, n - 1, p, a);
      }
    }
    if Elsewhere(steps[n - 1], p) && Saw(m, start, steps, n - 1, p, a) {
      var h: nat :| SawStaging(m, start, steps, h, n - 1, p, a);
      assert SawStaging(m, start, steps, h, n, p, a);
    }
  }

  /** A promoter whose requests are served answers `false` exactly when it was overtaken: after it saw the staging
      object, and before its own copy, a delete for the same artifact removed that object, and no later upload put it
      back. */
  lemma FalseMeansOvertaken(m: seq<Artifact>, start: Objects, steps: seq<Step>, p: nat, a: nat)
    requires GoodManifest(m) && AllKept(m, start) && OwnServed(steps, p) && Exec(m, start, steps).Some?
    requires steps != [] && steps[|steps| - 1] == Advance(p, Good) && a < |m|
    ensures var last := |steps| - 1;
      p < |Exec(m, start, steps).value.promoters| &&
      (Exec(m, start, steps).value.promoters[p] == Promoter(a, Returned(false)) <==>
         exists h: nat :: SawStaging(m, start, steps, h, last, p, a) && RemovedBetween(m, start, steps, h, last, a))
  {
    hide Exec, Apply, Enabled, At, SawStaging, RemovedBetween, GoodManifest, Matches, SafeKey, OwnServed;
    var last := |steps| - 1;
    FalseExactly(m, start, steps, p);
    SameArtifact(m, start, steps, p);
    CopyingSawStaging(m, start, steps, last, p, a);
    forall h: nat | SawStaging(m, start, steps, h, last, p, a)
      ensures m[a].key !in At(m, start, steps, last).objects <==> RemovedBetween(m, start, steps, h, last, a)
    {
      SawIsEarlier(m, start, steps, h, last, p, a);
      GoneExactly(m, start, steps, h, last, a);
    }
  }

  lemma SawIsEarlier(m: seq<Artifact>, start: Objects, steps: seq<Step>, h: nat, n: nat, p: nat, a: nat)
    requires Exec(m, start, steps).Some? && n <= |steps| && SawStaging(m, start, steps, h, n, p, a)
    ensures h < n && a < |m| && m[a].key in At(m, start, steps, h).objects
  {
    hide Exec, At;
  }

  lemma SameArtifact(m: seq<Artifact>, start: Objects, steps: seq<Step>, p: nat)
    requires Exec(m, start, steps).Some? && steps != [] && steps[|steps| - 1] == Advance(p, Good)
    ensures var before, after := At(m, start, steps, |steps| - 1), Exec(m, start, steps).value;
      && p < |before.promoters| == |after.promoters|
      && before.promoters[p].artifact == after.promoters[p].artifact
  {
    hide Matches;
    Onward(m, start, steps, |steps| - 1);
    assert steps[..|steps|] == steps;
  }

  predicate FaultFree(steps: seq<Step>) {
    forall k :: 0 <= k < |steps| ==> steps[k].Advance? ==> steps[k].answer.Good?
  }

  /** Two promoters of one artifact, each of them served: the slower one has seen the staging object when the
      faster one removes it. */
  const RACE: seq<Step> := [
    Join(0), Join(0), Advance(0, Good), Advance(1, Good),
    Advance(0, Good), Advance(0, Good), Advance(0, Good), Advance(1, Good)]

  function Racing(objects: Objects, x: Phase, y: Phase): State {
    State(objects, [Promoter(0, x), Promoter(0, y)], {})
  }

  /** The race does occur: no fault, and the slower promoter returns `false`. */
  lemma FalseIsPossibleWithoutFaults(a: Artifact, o: Object)
    requires a.key != a.logicalKey && Matches(o, a)
    ensures FaultFree(RACE) && Exec([a], map[a.key := o], RACE).Some?
    ensures Exec([a], map[a.key := o], RACE).value.promoters
         == [Promoter(0, Returned(true)), Promoter(0, Returned(false))]
  {
    hide Matches, SafeKey, Exec;
    var start := map[a.key := o];
    var both := start[a.logicalKey := o];
    var after := both - {a.key};
    RaceRuns(a, o);
    RaceStep(a, start, 6, Racing(both, DeleteStaging, CopyOver), Racing(after, Returned(true), CopyOver));
    RaceStep(a, start, 7, Racing(after, Returned(true), CopyOver), Racing(after, Returned(true), Returned(false)));
    assert RACE[..8] == RACE;
  }

  lemma RaceRuns(a: Artifact, o: Object)
    requires a.key != a.logicalKey && Matches(o, a)
    ensures Exec([a], map[a.key := o], RACE[..6])
         == Some(Racing(map[a.key := o][a.logicalKey := o], DeleteStaging, CopyOver))
  {
    hide Matches, SafeKey, Exec;
    var start := map[a.key := o];
    var both := start[a.logicalKey := o];
    RaceOpens(a, o);
    RaceStep(a, start, 4, Racing(start, CopyOver, CopyOver), Racing(both, HeadLogical(true), CopyOver));
    RaceStep(a, start, 5, Racing(both, HeadLogical(true), CopyOver), Racing(both, DeleteStaging, CopyOver));
  }

  lemma RaceOpens(a: Artifact, o: Object)
    ensures Exec([a], map[a.key := o], RACE[..4]) == Some(Racing(map[a.key := o], CopyOver, CopyOver))
  {
    hide Matches, SafeKey, Exec;
    var start := map[a.key := o];
    RaceJoins(a, o);
    RaceStep(a, start, 2, Racing(start, HeadStaging, HeadStaging), Racing(start, CopyOver, HeadStaging));
    RaceStep(a, start, 3, Racing(start, CopyOver, HeadStaging), Racing(start, CopyOver, CopyOver));
  }

  lemma RaceJoins(a: Artifact, o: Object)
    ensures Exec([a], map[a.key := o], RACE[..2]) == Some(Racing(map[a.key := o], HeadStaging, HeadStaging))
  {
    hide Matches, SafeKey;
    var start := map[a.key := o];
    var one := State(start, [Promoter(0, HeadStaging)], {});
    RaceStep(a, start, 0, State(start, [], {}), one);
    RaceStep(a, start, 1, one, Racing(start, HeadStaging, HeadStaging));
  }

  lemma RaceStep(a: Artifact, start: Objects, k: nat, s: State, s': State)
    requires k < |RACE| && Exec([a], start, RACE[..k]) == Some(s) && Enabled([a], s, RACE[k])
    requires var t := Apply([a], s, RACE[k]);
      t.promoters == s'.promoters && t.objects == s'.objects && t.limbo == s'.limbo
    ensures Exec([a], start, RACE[..k + 1]) == Some(s')
  {
    hide Matches, SafeKey;
    assert RACE[..k + 1][..k] == RACE[..k];
  }

  // ----- a promoter running alone is one attempt -----

  function AnswerOf(fate: Fate): Answer {
    match fate
    case Served => Good
    case Hollow => Empty
    case Lost(_) => Failed
  }

  function AnswerFor(f: Fates, phase: Phase): Answer
    requires !phase.Returned?
  {
    match phase
    case HeadStaging => if f.stagingAnswered then Good else Failed
    case CopyOver => AnswerOf(f.copy)
    case HeadLogical(_) => if f.logicalAnswered then Good else Failed
    case DeleteStaging => AnswerOf(f.delete)
  }

  /** Requests still to send. */
  function Remaining(phase: Phase): nat {
    match phase
    case HeadStaging => 4
    case CopyOver => 3
    case HeadLogical(_) => 2
    case DeleteStaging => 1
    case Returned(_) => 0
  }

  /** Promoter 0 runs alone to its return; a lost request takes effect at once or never, as `f` says. */
  function RunAlone(m: seq<Artifact>, s: State, f: Fates): (Objects, bool)
    requires |s.promoters| == 1 && s.promoters[0].artifact < |m|
    decreases Remaining(s.promoters[0].phase)
  {
    var w := s.promoters[0];
    if w.phase.Returned? then (s.objects, w.phase.ok)
    else
      var moved := Apply(m, s, Advance(0, AnswerFor(f, w.phase)));
      var fate := if w.phase.CopyOver? then f.copy else f.delete;
      var r := Sent(w.artifact, w.phase);
      if r.Some? && fate.Lost? && fate.applied
      then RunAlone(m, Apply(m, moved, Land(r.value)), f)
      else RunAlone(m, moved, f)
  }

  /** The interleaved system, run with one promoter, is the attempt the store object performs. */
  lemma SoloRunIsPromote(m: seq<Artifact>, objects: Objects, a: nat, f: Fates)
    requires a < |m| && SafeKey(m[a].key) && SafeKey(m[a].logicalKey)
    ensures RunAlone(m, State(objects, [Promoter(a, HeadStaging)], {}), f) == Promote(objects, m[a], f)
  {
    hide Matches, SafeKey;
    var s0 := State(objects, [Promoter(a, HeadStaging)], {});
    var s1 := Apply(m, s0, Advance(0, AnswerFor(f, HeadStaging)));
    if s1.promoters[0].phase.CopyOver? {
      AloneFromCopy(m, s1, f);
    } else {
      AloneFromHead(m, s1, f);
    }
  }

  lemma AloneFromCopy(m: seq<Artifact>, s: State, f: Fates)
    requires |s.promoters| == 1 && s.promoters[0].artifact < |m| && s.promoters[0].phase.CopyOver?
    requires m[s.promoters[0].artifact].key in s.objects
    ensures var a := m[s.promoters[0].artifact];
      var copied := if TakesEffect(f.copy) then CopyEffect(s.objects, a.key, a.logicalKey) else s.objects;
      RunAlone(m, s, f) ==
        if !Succeeds(f.copy) || !f.logicalAnswered || !MatchesAt(copied, a.logicalKey, a) then (copied, false)
        else (if TakesEffect(f.delete) then copied - {a.key} else copied, Succeeds(f.delete))
  {
    hide Matches, SafeKey;
    var w := s.promoters[0];
    var moved := Apply(m, s, Advance(0, AnswerFor(f, w.phase)));
    var landed := if f.copy == Lost(true) then Apply(m, moved, Land(LateCopy(w.artifact))) else moved;
    assert RunAlone(m, s, f) == RunAlone(m, landed, f);
    if landed.promoters[0].phase.HeadLogical? {
      AloneFromHead(m, landed, f);
    }
  }

  lemma AloneFromHead(m: seq<Artifact>, s: State, f: Fates)
    requires |s.promoters| == 1 && s.promoters[0].artifact < |m| && s.promoters[0].phase.HeadLogical?
    ensures var a := m[s.promoters[0].artifact];
      var seen := f.logicalAnswered && MatchesAt(s.objects, a.logicalKey, a);
      RunAlone(m, s, f) ==
        if !seen || !s.promoters[0].phase.deleteNext then (s.objects, seen)
        else (if TakesEffect(f.delete) then s.objects - {a.key} else s.objects, Succeeds(f.delete))
  {
    hide Matches, SafeKey;
    var w := s.promoters[0];
    var moved := Apply(m, s, Advance(0, AnswerFor(f, w.phase)));
    assert RunAlone(m, s, f) == RunAlone(m, moved, f);
    if moved.promoters[0].phase.DeleteStaging? {
      var gone := Apply(m, moved, Advance(0, AnswerFor(f, DeleteStaging)));
      var landed := if f.delete == Lost(true) then Apply(m, gone, Land(LateDelete(w.artifact))) else gone;
      assert RunAlone(m, moved, f) == RunAlone(m, landed, f);
    }
  }
}
