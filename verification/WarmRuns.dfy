/** Many warming passes at once: every pass asks whether a build is needed and submits it later, and nothing keeps
    another pass from submitting in between. */
module WarmRuns {
  import opened Warming

  /** A query that found nothing, whose submission is still to come. `asked` is how many jobs there were then. */
  datatype Request = Request(target: Target, now: int, asked: nat)

  datatype State = State(jobs: seq<Job>, requests: seq<Request>)

  /** `Submit` carries a request out, at any time after its query and whether or not its pass hears of it; `Drop` is a
      request that never is; `End` is a build that finishes, fails or is cancelled. */
  datatype Step =
    | Ask(target: Target, now: int)
    | Submit(k: nat)
    | Drop(k: nat)
    | End(i: nat, status: Status)

  ghost predicate Enabled(s: State, step: Step) {
    match step
    case Ask(t, now) => !Recent(s.jobs, t, now - RETRY_COOLDOWN)
    case Submit(k) => k < |s.requests|
    case Drop(k) => k < |s.requests|
    case End(i, status) => i < |s.jobs| && s.jobs[i].status.InFlight? && !status.InFlight?
  }

  function JobOf(r: Request): Job {
    NewJob(r.target, r.now)
  }

  function Without(requests: seq<Request>, k: nat): seq<Request>
    requires k < |requests|
  {
    requests[..k] + requests[k + 1..]
  }

  ghost function Apply(s: State, step: Step): State
    requires Enabled(s, step)
  {
    match step
    case Ask(t, now) => s.(requests := s.requests + [Request(t, now, |s.jobs|)])
    case Submit(k) => State(s.jobs + [JobOf(s.requests[k])], Without(s.requests, k))
    case Drop(k) => s.(requests := Without(s.requests, k))
    case End(i, status) => s.(jobs := s.jobs[i := s.jobs[i].(status := status)])
  }

  /** Any pass may ask at any time, and is turned away only by a build that blocks it; any request may be carried out or
      lost at any time, and any build may end in any way. */
  lemma NothingIsRuledOut(s: State, t: Target, now: int, k: nat, i: nat, status: Status)
    ensures (forall j :: 0 <= j < |s.jobs| ==> !Blocks(s.jobs[j], t, now - RETRY_COOLDOWN)) ==> Enabled(s, Ask(t, now))
    ensures k < |s.requests| ==> Enabled(s, Submit(k)) && Enabled(s, Drop(k))
    ensures i < |s.jobs| && s.jobs[i].status == InFlight && status != InFlight ==> Enabled(s, End(i, status))
  {
    hide Blocks;
  }

  // ----- builds kept apart -----

  predicate SameBuild(a: Job, b: Job) {
    a.repo == b.repo && a.commit == b.commit
  }

  /** An earlier build of the same commit for the same repo is over, and if it failed, its cooldown was too when the
      later one was queued. */
  predicate Apart(earlier: Job, later: Job) {
    && !earlier.status.InFlight?
    && (earlier.status.Failed? ==> earlier.status.at + RETRY_COOLDOWN < later.queuedAt)
  }

  ghost predicate Spaced(jobs: seq<Job>) {
    forall i, j :: 0 <= i < j < |jobs| && SameBuild(jobs[i], jobs[j]) ==> Apart(jobs[i], jobs[j])
  }

  /** None of the jobs from `lo` to `hi` blocks the request. */
  ghost predicate FreeBetween(jobs: seq<Job>, r: Request, lo: nat, hi: nat)
    requires hi <= |jobs|
  {
    forall i :: lo <= i < hi ==> !Blocks(jobs[i], r.target, r.now - RETRY_COOLDOWN)
  }

  /** What a query found stays true of the jobs there were: those that were over stay over. */
  ghost predicate StillTrue(jobs: seq<Job>, r: Request) {
    r.asked <= |jobs| && FreeBetween(jobs, r, 0, r.asked)
  }

  ghost predicate Inv(s: State) {
    forall k :: 0 <= k < |s.requests| ==> StillTrue(s.jobs, s.requests[k])
  }

  lemma StepKeepsInv(s: State, step: Step)
    requires Inv(s) && Enabled(s, step)
    ensures Inv(Apply(s, step))
  {
    hide Blocks;
    var t := Apply(s, step);
    forall k | 0 <= k < |t.requests| ensures StillTrue(t.jobs, t.requests[k]) {
      if step.Ask? && k == |s.requests| {
        AskIsTrue(s, step);
      } else {
        var from := if (step.Submit? || step.Drop?) && k >= step.k then k + 1 else k;
        assert t.requests[k] == s.requests[from];
        QueueKeepsTrue(s, step, s.requests[from]);
      }
    }
  }

  lemma AskIsTrue(s: State, step: Step)
    requires Enabled(s, step) && step.Ask?
    ensures StillTrue(s.jobs, Request(step.target, step.now, |s.jobs|))
    ensures Apply(s, step) == State(s.jobs, s.requests + [Request(step.target, step.now, |s.jobs|)])
  {
    hide Blocks;
  }

  lemma QueueKeepsTrue(s: State, step: Step, r: Request)
    requires Enabled(s, step) && StillTrue(s.jobs, r)
    ensures StillTrue(Apply(s, step).jobs, r)
  {
    var t := Apply(s, step);
    forall i | 0 <= i < r.asked ensures !Blocks(t.jobs[i], r.target, r.now - RETRY_COOLDOWN) {
      assert !Blocks(s.jobs[i], r.target, r.now - RETRY_COOLDOWN);
    }
  }

  /** A build that does not block a request is apart from it, and the other way round. */
  lemma ApartIsFree(job: Job, r: Request)
    ensures Blocks(job, r.target, r.now - RETRY_COOLDOWN) <==> SameBuild(job, JobOf(r)) && !Apart(job, JobOf(r))
  {
  }

  /** A submission keeps builds apart if and only if no build queued since its own query blocks it. */
  lemma SubmitExactly(jobs: seq<Job>, r: Request)
    requires Spaced(jobs) && StillTrue(jobs, r)
    ensures Spaced(jobs + [JobOf(r)]) <==> FreeBetween(jobs, r, r.asked, |jobs|)
  {
    hide Blocks, Apart, SameBuild;
    var more := jobs + [JobOf(r)];
    var n := |jobs|;
    assert more[n] == JobOf(r);
    if Spaced(more) {
      forall i | r.asked <= i < n ensures !Blocks(jobs[i], r.target, r.now - RETRY_COOLDOWN) {
        assert more[i] == jobs[i];
        ApartIsFree(jobs[i], r);
      }
    }
    if FreeBetween(jobs, r, r.asked, n) {
      forall i, j | 0 <= i < j < |more| && SameBuild(more[i], more[j]) ensures Apart(more[i], more[j]) {
        assert more[i] == jobs[i];
        if j < n {
          assert more[j] == jobs[j];
        } else {
          assert i < r.asked ==> !Blocks(jobs[i], r.target, r.now - RETRY_COOLDOWN);
          ApartIsFree(jobs[i], r);
        }
      }
    }
  }

  lemma EndKeepsSpaced(s: State, step: Step)
    requires Enabled(s, step) && step.End? && Spaced(s.jobs)
    ensures Spaced(Apply(s, step).jobs)
  {
    var t := Apply(s, step);
    forall a, b | 0 <= a < b < |t.jobs| && SameBuild(t.jobs[a], t.jobs[b]) ensures Apart(t.jobs[a], t.jobs[b]) {
      assert SameBuild(s.jobs[a], s.jobs[b]);
    }
  }

  // ----- whole runs -----

  ghost predicate Run(states: seq<State>, steps: seq<Step>) {
    && |states| == |steps| + 1 && states[0] == State([], [])
    && forall k :: 0 <= k < |steps| ==> Enabled(states[k], steps[k]) && states[k + 1] == Apply(states[k], steps[k])
  }

  /** If this step submits, no build queued since its query blocks it. */
  ghost predicate Unraced(s: State, step: Step) {
    step.Submit? && step.k < |s.requests| && s.requests[step.k].asked <= |s.jobs| ==>
      FreeBetween(s.jobs, s.requests[step.k], s.requests[step.k].asked, |s.jobs|)
  }

  lemma {:induction false} RunInv(states: seq<State>, steps: seq<Step>, n: nat)
    requires Run(states, steps) && n <= |steps|
    ensures Inv(states[n])
  {
    hide Enabled, Apply, StillTrue;
    if n > 0 {
      RunInv(states, steps, n - 1);
      StepKeepsInv(states[n - 1], steps[n - 1]);
    }
  }

  lemma StepExactly(s: State, step: Step)
    requires Inv(s) && Enabled(s, step) && Spaced(s.jobs)
    ensures Spaced(Apply(s, step).jobs) <==> Unraced(s, step)
  {
    hide Spaced, FreeBetween, Recent;
    if step.Submit? {
      assert StillTrue(s.jobs, s.requests[step.k]);
      SubmitExactly(s.jobs, s.requests[step.k]);
    } else if step.End? {
      EndKeepsSpaced(s, step);
    }
  }

  ghost predicate AlwaysSpaced(states: seq<State>, n: nat)
    requires n < |states|
  {
    forall k :: 0 <= k <= n ==> Spaced(states[k].jobs)
  }

  ghost predicate AlwaysUnraced(states: seq<State>, steps: seq<Step>, n: nat)
    requires n <= |steps| && |states| == |steps| + 1
  {
    forall k :: 0 <= k < n ==> Unraced(states[k], steps[k])
  }

  /** Over any run of any number of passes, builds of one commit for one repo are kept apart all along if and only if
      no submission was raced: none found a build that blocks it queued since its own query. */
  lemma {:induction false} ApartExactly(states: seq<State>, steps: seq<Step>, n: nat)
    requires Run(states, steps) && n <= |steps|
    ensures AlwaysSpaced(states, n) <==> AlwaysUnraced(states, steps, n)
  {
    hide Enabled, Apply, Spaced, Unraced, Inv;
    if n == 0 {
      NothingIsSpaced();
    } else {
      ApartExactly(states, steps, n - 1);
      assert states[n] == Apply(states[n - 1], steps[n - 1]);
      if AlwaysSpaced(states, n - 1) {
        RunInv(states, steps, n - 1);
        StepExactly(states[n - 1], steps[n - 1]);
      }
    }
  }

  lemma NothingIsSpaced()
    ensures Spaced([])
  {
  }

  /** The loop of a pass makes exactly these steps: where it submits, it asked first and what it found was true, and
      where it does not, the queue is only what others made of it. */
  lemma PassMakesTheseSteps(w: World, jobs: seq<Job>, targets: seq<Target>, now: int, i: nat)
    requires i < |targets|
    ensures var asked := AskedAt(w, jobs, targets, now, i);
      var o := LogOf(w, jobs, targets, now)[i];
      var r := Request(targets[i], now, |asked|);
      var after := Warmed(w, jobs, targets, now, i + 1).0;
      if o.Queued? || o == SubmitFailed(true) then
        && Enabled(State(asked, []), Ask(targets[i], now)) && StillTrue(asked, r)
        && after == Apply(State(w.between(i, asked), [r]), Submit(0)).jobs
      else after == asked || after == w.between(i, asked)
  {
    hide Recent, Blocks;
    LogAt(w, jobs, targets, now, |targets|, i);
    LogAt(w, jobs, targets, now, i + 1, i);
    var asked := AskedAt(w, jobs, targets, now, i);
    if !Recent(asked, targets[i], now - RETRY_COOLDOWN) {
      AskIsTrue(State(asked, []), Ask(targets[i], now));
    }
  }

  /** Passes that do not overlap race nothing: a submission before which nobody queued a build since its query. */
  lemma SerialIsUnraced(s: State, k: nat)
    requires k < |s.requests| && s.requests[k].asked == |s.jobs|
    ensures Unraced(s, Submit(k))
  {
  }

  /** The state of two passes that have asked for one build, with `queued` of them submitted. */
  function Racing(r: Request, asked: nat, queued: nat): State
    requires queued <= asked
  {
    State(seq(queued, _ => JobOf(r)), seq(asked - queued, _ => r))
  }

  /** Two passes at once: both find nothing, both submit, and one commit is built twice for one repo. */
  lemma TwoPassesBuildTwice(t: Target, now: int)
    ensures var r := Request(t, now, 0);
      var steps := [Ask(t, now), Ask(t, now), Submit(0), Submit(0)];
      var states := [Racing(r, 0, 0), Racing(r, 1, 0), Racing(r, 2, 0), Racing(r, 2, 1), Racing(r, 2, 2)];
      Run(states, steps) && !Spaced(Racing(r, 2, 2).jobs)
  {
    hide Enabled, Apply, Spaced, Racing;
    var r := Request(t, now, 0);
    AsksAgain(r, 0);
    AsksAgain(r, 1);
    SubmitsFirst(r, 0);
    SubmitsFirst(r, 1);
    TwiceOverlaps(r);
  }

  lemma AsksAgain(r: Request, asked: nat)
    requires r.asked == 0
    ensures Enabled(Racing(r, asked, 0), Ask(r.target, r.now))
    ensures Apply(Racing(r, asked, 0), Ask(r.target, r.now)) == Racing(r, asked + 1, 0)
    ensures Racing(r, 0, 0) == State([], [])
  {
    var s := Racing(r, asked, 0);
    assert s.requests + [r] == Racing(r, asked + 1, 0).requests;
  }

  lemma SubmitsFirst(r: Request, queued: nat)
    requires queued < 2
    ensures Enabled(Racing(r, 2, queued), Submit(0))
    ensures Apply(Racing(r, 2, queued), Submit(0)) == Racing(r, 2, queued + 1)
  {
    var s, t := Racing(r, 2, queued), Racing(r, 2, queued + 1);
    assert s.requests[0] == r && Without(s.requests, 0) == t.requests;
    assert s.jobs + [JobOf(r)] == t.jobs;
  }

  lemma TwiceOverlaps(r: Request)
    ensures !Spaced(Racing(r, 2, 2).jobs)
  {
    var jobs := Racing(r, 2, 2).jobs;
    assert SameBuild(jobs[0], jobs[1]) && !Apart(jobs[0], jobs[1]);
  }
}
