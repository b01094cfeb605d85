/** The read-only waits: poll until a milestone, pinned to one policy generation and one session. */
module WaitLoops {
  import opened Wrappers

  datatype Admission = Admission(schedulable: bool, blockers: seq<string>)

  datatype Snapshot = Snapshot(
    generation: int,
    cordoned: bool,
    sessionId: Option<string>,
    sessionStatus: Option<string>,
    sessionLive: bool,
    admission: Option<Admission>,
    activeAttempts: int,
    pendingCleanup: int)

  datatype Until = Quiescent | Deregistered | Schedulable

  datatype Args = Args(until: Until, generation: Option<int>, sessionId: Option<string>)

  datatype WaitError =
    | RequestFailed | WrongCordon | GenerationChanged | SessionChanged | NoAdmissionReport | NoSession | TimedOut

  /** One poll: an answer, or a failed request. The wait's deadline cuts the polls off at some point. */
  datatype Poll<T> = Seen(snapshot: T) | Broken

  predicate IsQuiescent(s: Snapshot) {
    s.activeAttempts == 0 && s.pendingCleanup == 0
  }

  /** What the operator is waiting for. */
  predicate Milestone(until: Until, s: Snapshot) {
    match until
    case Schedulable => s.admission.Some? && s.admission.value.schedulable && s.admission.value.blockers == []
    case Quiescent => IsQuiescent(s)
    case Deregistered =>
      IsQuiescent(s) && s.sessionId.Some? && !s.sessionLive && s.sessionStatus == Some("deregistered")
  }

  /** The generation and session a wait holds on to, once the first snapshot is in. */
  function PinnedGeneration(args: Args, first: Snapshot): int {
    if args.generation.Some? then args.generation.value else first.generation
  }

  function PinnedSession(args: Args, first: Snapshot): Option<string> {
    if args.sessionId.Some? then args.sessionId else first.sessionId
  }

  /** A snapshot the wait may build on: right cordon state, pinned generation, pinned session. */
  predicate OnCourse(args: Args, first: Snapshot, s: Snapshot) {
    && s.cordoned == !args.until.Schedulable?
    && s.generation == PinnedGeneration(args, first)
    && s.sessionId == PinnedSession(args, first)
  }

  /** The reason to give up on a snapshot, in the order the checks are made. */
  function Complaint(args: Args, first: Snapshot, s: Snapshot): Option<WaitError> {
    if s.cordoned == args.until.Schedulable? then Some(WrongCordon)
    else if s.generation != PinnedGeneration(args, first) then Some(GenerationChanged)
    else if s.sessionId != PinnedSession(args, first) then Some(SessionChanged)
    else if args.until.Schedulable? && s.admission.None? then Some(NoAdmissionReport)
    else if args.until.Deregistered? && s.sessionId.None? then Some(NoSession)
    else None
  }

  /** A snapshot that neither ends the wait nor speaks against it. */
  predicate KeepsWaiting(args: Args, first: Snapshot, s: Snapshot) {
    OnCourse(args, first, s) && Complaint(args, first, s) == None && !Milestone(args.until, s)
  }

  /** The first `n` polls all keep the wait going. */
  ghost predicate Waited(args: Args, polls: seq<Poll<Snapshot>>, n: int) {
    && n <= |polls| && (n > 0 ==> polls[0].Seen?)
    && forall k :: 0 <= k < n ==> polls[k].Seen? && KeepsWaiting(args, polls[0].snapshot, polls[k].snapshot)
  }

  /** How a wait may end after `n` polls: with the first snapshot that meets its milestone, with the first thing
      that went wrong, or with the deadline. */
  ghost predicate Outcome(args: Args, polls: seq<Poll<Snapshot>>, r: Result<Snapshot, WaitError>, n: nat) {
    n <= |polls| &&
    match r
    case Ok(s) =>
      && n > 0 && Waited(args, polls, n - 1) && polls[n - 1] == Seen(s)
      && OnCourse(args, polls[0].snapshot, s) && Milestone(args.until, s)
    case Err(TimedOut) => n == |polls| && Waited(args, polls, n)
    case Err(RequestFailed) => n > 0 && Waited(args, polls, n - 1) && polls[n - 1].Broken?
    case Err(error) =>
      && n > 0 && Waited(args, polls, n - 1) && polls[n - 1].Seen?
      && Complaint(args, polls[0].snapshot, polls[n - 1].snapshot) == Some(error)
  }

  method WaitInner(args: Args, polls: seq<Poll<Snapshot>>) returns (r: Result<Snapshot, WaitError>, n: nat)
    ensures Outcome(args, polls, r, n)
  {
    var generation := args.generation;
    var session: Option<Option<string>> := if args.sessionId.Some? then Some(args.sessionId) else None;
    n := 0;
    while n < |polls|
      invariant Waited(args, polls, n)
      invariant generation == if n == 0 then args.generation else Some(PinnedGeneration(args, polls[0].snapshot))
      invariant session ==
        if n > 0 then Some(PinnedSession(args, polls[0].snapshot))
        else if args.sessionId.Some? then Some(args.sessionId) else None
    {
      var poll := polls[n];
      n := n + 1;
      if poll.Broken? {
        return Err(RequestFailed), n;
      }
      var s := poll.snapshot;
      if args.until.Schedulable? {
        if s.cordoned { return Err(WrongCordon), n; }
      } else {
        if !s.cordoned { return Err(WrongCordon), n; }
      }
      if generation.None? { generation := Some(s.generation); }
      if s.generation != generation.value {
        return Err(GenerationChanged), n;
      }
      if session.None? { session := Some(s.sessionId); }
      if s.sessionId != session.value {
        return Err(SessionChanged), n;
      }
      var reached := false;
      match args.until {
        case Schedulable =>
          if s.admission.None? { return Err(NoAdmissionReport), n; }
          reached := s.admission.value.schedulable && s.admission.value.blockers == [];
        case Quiescent =>
          reached := IsQuiescent(s);
        case Deregistered =>
          if s.sessionId.None? { return Err(NoSession), n; }
          reached := IsQuiescent(s) && !s.sessionLive && s.sessionStatus == Some("deregistered");
      }
      if reached {
        return Ok(s), n;
      }
    }
    return Err(TimedOut), n;
  }

  // ----- the scheduler-wide wait -----

  datatype Status = Status(
    paused: bool,
    generation: int,
    activeAttempts: int,
    pendingCleanup: int,
    pendingProjection: int,
    pendingArtifacts: int)

  predicate SchedulerQuiescent(s: Status) {
    && s.paused && s.activeAttempts == 0 && s.pendingCleanup == 0
    && s.pendingProjection == 0 && s.pendingArtifacts == 0
  }

  function PausedGeneration(given: Option<int>, first: Status): int {
    if given.Some? then given.value else first.generation
  }

  predicate SteadyPause(given: Option<int>, first: Status, s: Status) {
    s.paused && s.generation == PausedGeneration(given, first)
  }

  ghost predicate Paused(given: Option<int>, polls: seq<Poll<Status>>, n: int) {
    && n <= |polls| && (n > 0 ==> polls[0].Seen?)
    && forall k :: 0 <= k < n ==>
      && polls[k].Seen? && SteadyPause(given, polls[0].snapshot, polls[k].snapshot)
      && !SchedulerQuiescent(polls[k].snapshot)
  }

  ghost predicate SchedulerOutcome(given: Option<int>, polls: seq<Poll<Status>>, r: Result<Status, WaitError>, n: nat) {
    n <= |polls| &&
    match r
    case Ok(s) =>
      && n > 0 && Paused(given, polls, n - 1) && polls[n - 1] == Seen(s)
      && SteadyPause(given, polls[0].snapshot, s) && SchedulerQuiescent(s)
    case Err(TimedOut) => n == |polls| && Paused(given, polls, n)
    case Err(RequestFailed) => n > 0 && Paused(given, polls, n - 1) && polls[n - 1].Broken?
    case Err(error) =>
      && n > 0 && Paused(given, polls, n - 1) && polls[n - 1].Seen?
      && !SteadyPause(given, polls[0].snapshot, polls[n - 1].snapshot)
      && error == if polls[n - 1].snapshot.paused then GenerationChanged else WrongCordon
  }

  /** The wait for the whole scheduler: one uninterrupted pause, pinned to its generation. */
  method WaitForScheduler(given: Option<int>, polls: seq<Poll<Status>>) returns (r: Result<Status, WaitError>, n: nat)
    ensures SchedulerOutcome(given, polls, r, n)
  {
    var generation := given;
    n := 0;
    while n < |polls|
      invariant Paused(given, polls, n)
      invariant generation == if n == 0 then given else Some(PausedGeneration(given, polls[0].snapshot))
    {
      var poll := polls[n];
      n := n + 1;
      if poll.Broken? {
        return Err(RequestFailed), n;
      }
      var s := poll.snapshot;
      if !s.paused {
        return Err(WrongCordon), n;
      }
      if generation.None? { generation := Some(s.generation); }
      if s.generation != generation.value {
        return Err(GenerationChanged), n;
      }
      if SchedulerQuiescent(s) {
        return Ok(s), n;
      }
    }
    return Err(TimedOut), n;
  }

  // ----- what a wait certifies -----

  /** The polls decide the wait: no two endings are possible. */
  lemma OutcomeIsUnique(
    args: Args, polls: seq<Poll<Snapshot>>,
    r1: Result<Snapshot, WaitError>, n1: nat, r2: Result<Snapshot, WaitError>, n2: nat)
    requires Outcome(args, polls, r1, n1) && Outcome(args, polls, r2, n2)
    ensures r1 == r2 && n1 == n2
  {
    EndingStops(args, polls, r1, n1);
    EndingStops(args, polls, r2, n2);
  }

  /** The poll a wait ended on would not have kept it going. */
  lemma EndingStops(args: Args, polls: seq<Poll<Snapshot>>, r: Result<Snapshot, WaitError>, n: nat)
    requires Outcome(args, polls, r, n)
    ensures n < |polls| ==> r != Err(TimedOut)
    ensures r != Err(TimedOut) ==> n > 0 && !Waited(args, polls, n)
  {
    if r != Err(TimedOut) && polls[n - 1].Seen? {
      assert !KeepsWaiting(args, polls[0].snapshot, polls[n - 1].snapshot);
    }
  }

  /** A successful wait certifies that nothing was replaced under it: all snapshots up to the returned one share
      one generation, one session and the required cordon state, the requested ones if any were requested. */
  lemma OneGenerationOneSession(args: Args, polls: seq<Poll<Snapshot>>, s: Snapshot, n: nat, i: nat)
    requires Outcome(args, polls, Ok(s), n) && i < n
    ensures polls[i].Seen? && polls[i].snapshot.generation == s.generation && polls[i].snapshot.sessionId == s.sessionId
    ensures polls[i].snapshot.cordoned == !args.until.Schedulable?
    ensures args.generation.Some? ==> s.generation == args.generation.value
    ensures args.sessionId.Some? ==> s.sessionId == args.sessionId
    ensures Milestone(args.until, polls[i].snapshot) <==> i == n - 1
  {
    if i < n - 1 {
      assert KeepsWaiting(args, polls[0].snapshot, polls[i].snapshot);
    }
  }

  /** The same for the scheduler: it stayed paused at one generation from the first poll on. */
  lemma OnePause(given: Option<int>, polls: seq<Poll<Status>>, s: Status, n: nat, i: nat)
    requires SchedulerOutcome(given, polls, Ok(s), n) && i < n
    ensures polls[i].Seen? && polls[i].snapshot.paused && polls[i].snapshot.generation == s.generation
    ensures given.Some? ==> s.generation == given.value
    ensures SchedulerQuiescent(polls[i].snapshot) <==> i == n - 1
  {
    if i < n - 1 {
      assert SteadyPause(given, polls[0].snapshot, polls[i].snapshot);
    }
  }

  /** What a successful wait has waited for, spelled out. */
  lemma SuccessMeans(args: Args, polls: seq<Poll<Snapshot>>, s: Snapshot, n: nat)
    requires Outcome(args, polls, Ok(s), n)
    ensures args.until.Schedulable? ==>
      s.admission.Some? && s.admission.value.schedulable && s.admission.value.blockers == []
    ensures !args.until.Schedulable? ==> s.activeAttempts == 0 && s.pendingCleanup == 0
    ensures args.until.Deregistered? ==> s.sessionId.Some? && !s.sessionLive && s.sessionStatus == Some("deregistered")
  {
  }

  /** A snapshot on course that shows all of it ends the wait at once. */
  lemma ReachedEnds(args: Args, polls: seq<Poll<Snapshot>>, r: Result<Snapshot, WaitError>, n: nat, s: Snapshot)
    requires Outcome(args, polls, r, n) && n > 0 && polls[n - 1] == Seen(s) && r != Ok(s)
    requires OnCourse(args, polls[0].snapshot, s)
    ensures args.until.Quiescent? ==> s.activeAttempts != 0 || s.pendingCleanup != 0
    ensures args.until.Schedulable? ==>
      s.admission.None? || !s.admission.value.schedulable || s.admission.value.blockers != []
    ensures args.until.Deregistered? ==>
      s.activeAttempts != 0 || s.pendingCleanup != 0 || s.sessionId.None? || s.sessionLive
      || s.sessionStatus != Some("deregistered")
  {
    if r == Err(TimedOut) {
      assert KeepsWaiting(args, polls[0].snapshot, polls[n - 1].snapshot);
    }
  }

  /** What each failure of a wait means of the last snapshot. */
  lemma FailureMeans(args: Args, polls: seq<Poll<Snapshot>>, error: WaitError, n: nat)
    requires Outcome(args, polls, Err(error), n) && error != TimedOut && error != RequestFailed
    ensures n > 0 && polls[0].Seen? && polls[n - 1].Seen?
    ensures var first, s := polls[0].snapshot, polls[n - 1].snapshot;
      var generation := if args.generation.Some? then args.generation.value else first.generation;
      var session := if args.sessionId.Some? then args.sessionId else first.sessionId;
      var cordonOk := s.cordoned <==> !args.until.Schedulable?;
      && (error == WrongCordon <==> !cordonOk)
      && (error == GenerationChanged <==> cordonOk && s.generation != generation)
      && (error == SessionChanged <==> cordonOk && s.generation == generation && s.sessionId != session)
      && (error == NoAdmissionReport <==>
            && cordonOk && s.generation == generation && s.sessionId == session
            && args.until.Schedulable? && s.admission.None?)
      && (error == NoSession <==>
            && cordonOk && s.generation == generation && s.sessionId == session
            && args.until.Deregistered? && s.sessionId.None?)
  {
  }

  /** The same for the scheduler-wide wait. */
  lemma SchedulerEndMeans(given: Option<int>, polls: seq<Poll<Status>>, r: Result<Status, WaitError>, n: nat)
    requires SchedulerOutcome(given, polls, r, n)
    ensures r.Ok? ==> r.value.paused && r.value.activeAttempts == 0 && r.value.pendingCleanup == 0
                      && r.value.pendingProjection == 0 && r.value.pendingArtifacts == 0
    ensures r == Err(WrongCordon) ==> n > 0 && polls[n - 1].Seen? && !polls[n - 1].snapshot.paused
    ensures r == Err(GenerationChanged) ==>
      && n > 0 && polls[0].Seen? && polls[n - 1].Seen? && polls[n - 1].snapshot.paused
      && polls[n - 1].snapshot.generation != if given.Some? then given.value else polls[0].snapshot.generation
    ensures r == Err(TimedOut) ==> forall i :: 0 <= i < |polls| ==>
      && polls[i].Seen? && polls[i].snapshot.paused
      && (polls[i].snapshot.activeAttempts != 0 || polls[i].snapshot.pendingCleanup != 0
          || polls[i].snapshot.pendingProjection != 0 || polls[i].snapshot.pendingArtifacts != 0)
  {
  }
}
