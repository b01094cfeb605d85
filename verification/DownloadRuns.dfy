/** Whole-run theorems about the ordered window: safety, disk use, retry budget, termination. */
module DownloadRuns {
  import opened Wrappers
  import opened RangePlan
  import opened RangeTransfer
  import opened OrderedWindow

  /** The state after `steps`, or nothing when one of them was not possible. */
  ghost function Exec(c: Config, steps: seq<Step>): (r: Option<State>)
    requires ValidConfig(c)
    ensures r.Some? ==> Inv(c, r.value)
  {
    if steps == [] then
      InitialInv(c);
      Some(Initial(c))
    else
      var last := |steps| - 1;
      match Exec(c, steps[..last])
      case None => None
      case Some(s) =>
        if Enabled(c, s, steps[last]) then
          StepKeepsInv(c, s, steps[last]);
          Some(Apply(c, s, steps[last]))
        else None
  }

  // ----- safety -----

  /** Whatever the server, the network, the disk and the scheduler do, the writer has received a prefix of
      the object, and a report is returned only for the whole object, with exact totals. */
  lemma OutputIsAlwaysAPrefix(c: Config, steps: seq<Step>)
    requires ValidConfig(c) && Exec(c, steps).Some?
    ensures var s := Exec(c, steps).value;
      && s.out <= c.obj
      && (s.stage.Reported? ==>
            && s.out == c.obj
            && s.stage.report == Report(|c.obj|, |c.ranges|, Total(RetriesOf, s.tasks))
            && (forall i :: 0 <= i < |s.tasks| ==> s.tasks[i].Finished? && s.tasks[i].retries <= c.src.maxRetries))
  {
    var s := Exec(c, steps).value;
    if s.stage.Reported? {
      assert s.tasks[..s.head] == s.tasks;
      forall i | 0 <= i < |s.tasks|
        ensures s.tasks[i].Finished? && s.tasks[i].retries <= c.src.maxRetries
      {
        assert OkAt(c, s, i);
      }
    }
  }

  /** The emitter's own consistency checks never fire. */
  lemma InternalChecksNeverFail(c: Config, steps: seq<Step>)
    requires ValidConfig(c) && Exec(c, steps).Some?
    ensures Exec(c, steps).value.stage != Aborted(ShortSpool)
    ensures Exec(c, steps).value.stage != Aborted(ShortOutput)
  {
    assert Inv(c, Exec(c, steps).value);
  }

  // ----- progress reports -----

  /** What the progress record shows: bytes and chunks emitted so far, retries, and tasks running. */
  datatype Progress = Progress(emittedBytes: nat, completedChunks: nat, retries: nat, activeChunks: int)

  function Shown(s: State): Progress {
    Progress(s.emittedBytes, s.head, s.retries, s.active)
  }

  lemma StepAdvances(c: Config, s: State, step: Step)
    requires ValidConfig(c) && Inv(c, s) && Enabled(c, s, step)
    ensures var p, q := Shown(s), Shown(Apply(c, s, step));
      p.emittedBytes <= q.emittedBytes && p.completedChunks <= q.completedChunks && p.retries <= q.retries
  {
    hide OkAt, Total, TaskOk, OnReply, OnBody, Written;
  }

  /** No report ever goes back, none shows more than the object, its chunks or the connections, and the emitted bytes
      are those of the completed chunks. */
  lemma {:induction false} ProgressNeverFalls(c: Config, steps: seq<Step>, k: nat)
    requires ValidConfig(c) && Exec(c, steps).Some? && k <= |steps|
    ensures Exec(c, steps[..k]).Some?
    ensures var p, q := Shown(Exec(c, steps[..k]).value), Shown(Exec(c, steps).value);
      && p.emittedBytes <= q.emittedBytes <= |c.obj| && p.completedChunks <= q.completedChunks <= |c.ranges|
      && p.retries <= q.retries && q.emittedBytes == Offset(c, q.completedChunks)
  {
    hide Exec, Apply, Enabled, OkAt, Total, RangeOk;
    var s := Exec(c, steps).value;
    OffsetInside(c, s.head);
    if k == |steps| {
      assert steps[..k] == steps;
    } else {
      var last := |steps| - 1;
      LastStep(c, steps);
      StepAdvances(c, Exec(c, steps[..last]).value, steps[last]);
      ProgressNeverFalls(c, steps[..last], k);
      assert steps[..last][..k] == steps[..k];
    }
  }

  lemma OffsetInside(c: Config, k: nat)
    requires ValidConfig(c) && k <= |c.ranges|
    ensures Offset(c, k) <= |c.obj|
  {
    if k > 0 {
      assert RangeOk(c, k - 1);
    }
  }

  // ----- disk use and concurrency -----

  /** Bytes held by the first `n` spool files. */
  ghost function DiskBytes(disk: seq<Option<seq<byte>>>, n: nat): nat
    requires n <= |disk|
  {
    if n == 0 then 0
    else DiskBytes(disk, n - 1) + if disk[n - 1].Some? then |disk[n - 1].value| else 0
  }

  /** Spool files in the first `n` places. */
  ghost function DiskFiles(disk: seq<Option<seq<byte>>>, n: nat): nat
    requires n <= |disk|
  {
    if n == 0 then 0 else DiskFiles(disk, n - 1) + if disk[n - 1].Some? then 1 else 0
  }

  ghost function Clamp(n: int, lo: int, hi: int): int
    requires lo <= hi
  {
    if n < lo then lo else if n > hi then hi else n
  }

  /** Only window places hold files, each of at most one chunk, and only window tasks are active. */
  ghost predicate InsideWindow(tasks: seq<Task>, disk: seq<Option<seq<byte>>>, head: nat, pulled: nat, chunk: nat) {
    && |tasks| == |disk| && head <= pulled
    && forall i :: 0 <= i < |disk| ==>
         && (Active(tasks[i]) || disk[i].Some? ==> head <= i < pulled)
         && (disk[i].Some? ==> |disk[i].value| <= chunk)
  }

  lemma InvInsideWindow(c: Config, s: State)
    requires ValidConfig(c) && Inv(c, s)
    ensures InsideWindow(s.tasks, s.disk, s.head, s.pulled, c.chunk)
  {
    forall i | 0 <= i < |s.disk|
      ensures (Active(s.tasks[i]) || s.disk[i].Some? ==> s.head <= i < s.pulled)
           && (s.disk[i].Some? ==> |s.disk[i].value| <= c.chunk)
    {
      assert OkAt(c, s, i) && RangeOk(c, i);
    }
  }

  lemma {:induction false} FilesInWindow(
    tasks: seq<Task>, disk: seq<Option<seq<byte>>>, head: nat, pulled: nat, chunk: nat, n: nat)
    requires InsideWindow(tasks, disk, head, pulled, chunk) && n <= |disk|
    ensures DiskFiles(disk, n) <= Clamp(n, head, pulled) - head
    ensures DiskBytes(disk, n) <= DiskFiles(disk, n) * chunk
  {
    if n > 0 {
      FilesInWindow(tasks, disk, head, pulled, chunk, n - 1);
      var k := DiskFiles(disk, n - 1);
      assert (k + 1) * chunk == k * chunk + chunk;
    }
  }

  lemma {:induction false} ActiveInWindow(
    tasks: seq<Task>, disk: seq<Option<seq<byte>>>, head: nat, pulled: nat, chunk: nat, n: nat)
    requires InsideWindow(tasks, disk, head, pulled, chunk) && n <= |disk|
    ensures Total(ActiveOne, tasks[..n]) <= Clamp(n, head, pulled) - head
  {
    if n > 0 {
      ActiveInWindow(tasks, disk, head, pulled, chunk, n - 1);
      assert tasks[..n][..n - 1] == tasks[..n - 1];
    }
  }

  /** At most `connections` chunks exist at once, so the spool never outgrows the window, and the
      `active_chunks` counter is exact, never negative and never above `connections`. */
  lemma WindowNeverOverflows(c: Config, steps: seq<Step>, o: Options)
    requires ValidConfig(c) && Exec(c, steps).Some?
    requires c.connections * c.chunk <= o.windowBytes
    ensures var s := Exec(c, steps).value;
      && s.pulled - s.head <= c.connections
      && DiskFiles(s.disk, |s.disk|) <= c.connections
      && DiskBytes(s.disk, |s.disk|) <= o.windowBytes
      && s.active == Total(ActiveOne, s.tasks)
      && 0 <= s.active <= c.connections
  {
    var s := Exec(c, steps).value;
    InvInsideWindow(c, s);
    FilesInWindow(s.tasks, s.disk, s.head, s.pulled, c.chunk, |s.disk|);
    ActiveInWindow(s.tasks, s.disk, s.head, s.pulled, c.chunk, |s.disk|);
    assert s.tasks[..|s.tasks|] == s.tasks;
    MulMonotone(c.chunk, DiskFiles(s.disk, |s.disk|), c.connections);
  }

  /** Tasks among the first `n` that have started and not ended. */
  ghost function Running(tasks: seq<Task>, n: nat): nat
    requires n <= |tasks|
  {
    if n == 0 then 0
    else
      var t := tasks[n - 1];
      Running(tasks, n - 1) + if t.Queued? || t.Finished? || t.Dead? then 0 else 1
  }

  lemma {:induction false} ActiveIsRunning(tasks: seq<Task>, n: nat)
    requires n <= |tasks|
    ensures Total(ActiveOne, tasks[..n]) == Running(tasks, n)
  {
    if n > 0 {
      ActiveIsRunning(tasks, n - 1);
      assert tasks[..n][..n - 1] == tasks[..n - 1];
    }
  }

  /** In every run the counter shows how many tasks have started and not ended. */
  lemma CounterIsExact(c: Config, steps: seq<Step>)
    requires ValidConfig(c) && Exec(c, steps).Some?
    ensures var s := Exec(c, steps).value; s.active == Running(s.tasks, |s.tasks|)
  {
    hide Exec, Total, Running, OkAt, StageOk;
    var s := Exec(c, steps).value;
    ActiveIsRunning(s.tasks, |s.tasks|);
    assert s.tasks[..|s.tasks|] == s.tasks;
  }

  // ----- the retry budget -----

  function AttemptsLeft(maxRetries: nat): Task -> nat {
    (t: Task) =>
      match t
      case Queued => maxRetries + 1
      case Opening => maxRetries + 1
      case Idle(_, retries) => if retries <= maxRetries then maxRetries + 1 - retries else 0
      case Streaming(_, retries, _, _) => if retries <= maxRetries then maxRetries - retries else 0
      case Finished(_) => 0
      case Dead(_) => 0
  }

  lemma ReplySpends(c: Config, range: Range, t: Task, e: Exchange)
    requires range.start <= range.end && t.Idle? && t.received < range.Len() && t.retries <= c.src.maxRetries
    ensures AttemptsLeft(c.src.maxRetries)(OnReply(c, range, t, e)) < AttemptsLeft(c.src.maxRetries)(t)
  {
  }

  lemma BodyReads(c: Config, range: Range, t: Task, flushOk: bool)
    requires t.Streaming? && t.retries <= c.src.maxRetries
    ensures var u := OnBody(c, range, t, flushOk);
      && AttemptsLeft(c.src.maxRetries)(u) <= AttemptsLeft(c.src.maxRetries)(t)
      && BodyLeft(u) < BodyLeft(t)
  {
  }

  /** The server's answers to the requests for range `i`, in order. */
  function Replies(steps: seq<Step>, i: nat): seq<Exchange> {
    if steps == [] then []
    else
      var last := steps[|steps| - 1];
      Replies(steps[..|steps| - 1], i) + if last.Reply? && last.i == i then [last.exchange] else []
  }

  /** Requests sent for range `i`. */
  function Requests(steps: seq<Step>, i: nat): nat {
    |Replies(steps, i)|
  }

  /** No range is ever requested more than `maxRetries + 1` times. */
  lemma {:induction false} RequestsPerRange(c: Config, steps: seq<Step>, i: nat)
    requires ValidConfig(c) && Exec(c, steps).Some? && i < |c.ranges|
    ensures Requests(steps, i) + AttemptsLeft(c.src.maxRetries)(Exec(c, steps).value.tasks[i]) <= c.src.maxRetries + 1
  {
    if steps != [] {
      var last := |steps| - 1;
      RequestsPerRange(c, steps[..last], i);
      BudgetShrinks(c, Exec(c, steps[..last]).value, steps[last], i);
    }
  }

  /** A step never adds attempts to any task, and a request takes one from its own. */
  lemma BudgetShrinks(c: Config, s: State, step: Step, i: nat)
    requires ValidConfig(c) && Inv(c, s) && Enabled(c, s, step) && i < |c.ranges|
    ensures |Apply(c, s, step).tasks| == |c.ranges|
    ensures var left := AttemptsLeft(c.src.maxRetries);
      left(Apply(c, s, step).tasks[i]) + (if step.Reply? && step.i == i then 1 else 0) <= left(s.tasks[i])
  {
    assert OkAt(c, s, i) && RangeOk(c, i);
    if step.Reply? && step.i == i {
      ReplySpends(c, c.ranges[i], s.tasks[i], step.exchange);
    } else if step.Body? && step.i == i {
      BodyReads(c, c.ranges[i], s.tasks[i], step.flushOk);
    }
  }

  /** Every reachable state is reached by an enabled step from the state before it. */
  lemma LastStep(c: Config, steps: seq<Step>)
    requires ValidConfig(c) && Exec(c, steps).Some? && steps != []
    ensures var before := Exec(c, steps[..|steps| - 1]);
      && before.Some? && Enabled(c, before.value, steps[|steps| - 1])
      && Exec(c, steps).value == Apply(c, before.value, steps[|steps| - 1])
  {
    hide Enabled, Apply, Inv;
  }

  // ----- termination -----

  function BodyLeft(t: Task): nat {
    if t.Streaming? then |t.body| + 1 else 0
  }

  /** Steps a task takes before its first request. */
  function StartWork(t: Task): nat {
    if t.Queued? then 2 else if t.Opening? then 1 else 0
  }

  function StageWeight(s: Stage): nat {
    match s
    case Polling => 2
    case Copying(_) => 1
    case _ => 0
  }

  ghost function Requested(c: Config, s: State): nat {
    Total(AttemptsLeft(c.src.maxRetries), s.tasks)
  }

  ghost function Unread(s: State): nat {
    Total(BodyLeft, s.tasks)
  }

  ghost function Rest(c: Config, s: State): nat
    requires Inv(c, s)
  {
    Total(StartWork, s.tasks) + (|s.tasks| - s.pulled) + 3 * (|s.tasks| - s.head) + StageWeight(s.stage)
    + (|c.obj| - |s.out|)
  }

  ghost predicate Lower(c: Config, s': State, s: State)
    requires Inv(c, s) && Inv(c, s')
  {
    || Requested(c, s') < Requested(c, s)
    || (Requested(c, s') == Requested(c, s) && Unread(s') < Unread(s))
    || (Requested(c, s') == Requested(c, s) && Unread(s') == Unread(s) && Rest(c, s') < Rest(c, s))
  }

  lemma TaskStepDecreases(c: Config, s: State, step: Step)
    requires ValidConfig(c) && Inv(c, s) && Enabled(c, s, step)
    requires step.Start? || step.Open? || step.Reply? || step.Body?
    requires Inv(c, Apply(c, s, step))
    ensures Lower(c, Apply(c, s, step), s)
  {
    hide StageOk, SpoolHolds, BodyAgrees, Honest, OnReply, OnBody, Written;
    var i := step.i;
    var t := Apply(c, s, step).tasks[i];
    assert OkAt(c, s, i) && RangeOk(c, i);
    assert Apply(c, s, step).tasks == s.tasks[i := t];
    TotalUpdate(AttemptsLeft(c.src.maxRetries), s.tasks, i, t);
    TotalUpdate(BodyLeft, s.tasks, i, t);
    if step.Reply? {
      ReplySpends(c, c.ranges[i], s.tasks[i], step.exchange);
    } else if step.Body? {
      BodyReads(c, c.ranges[i], s.tasks[i], step.flushOk);
    } else {
      TotalUpdate(StartWork, s.tasks, i, t);
    }
  }

  /** Every step lowers the triple (requests allowed, body events unread, local work left). */
  lemma StepDecreases(c: Config, s: State, step: Step)
    requires ValidConfig(c) && Inv(c, s) && Enabled(c, s, step)
    ensures Inv(c, Apply(c, s, step)) && Lower(c, Apply(c, s, step), s)
  {
    StepKeepsInv(c, s, step);
    if step.Start? || step.Open? || step.Reply? || step.Body? {
      TaskStepDecreases(c, s, step);
    }
  }

  predicate Final(s: State) {
    s.stage.Reported? || s.stage.Aborted?
  }

  /** Until it has reported or failed, the download can always move: no deadlock in the window. */
  lemma NeverStuck(c: Config, s: State) returns (step: Step)
    requires ValidConfig(c) && Inv(c, s) && !Final(s)
    ensures Enabled(c, s, step)
  {
    if s.stage.Copying? {
      assert OkAt(c, s, s.head);
      var left := |HeadFile(s)| - s.stage.copied;
      return if left > 0 then Copy(left, true) else EndCopy(true);
    }
    if s.head == s.pulled {
      return if s.pulled == |s.tasks| then Finish(true) else Pull;
    }
    match s.tasks[s.head]
    case Queued => step := Start(s.head);
    case Opening => step := Open(s.head, true, true);
    case Idle(_, _) => step := Reply(s.head, NoResponse);
    case Streaming(_, _, _, _) => step := Body(s.head, true);
    case _ => step := Take(true);
  }

  /** A final state stays as it is. */
  lemma FinalIsFinal(c: Config, s: State, step: Step)
    requires Inv(c, s) && Final(s)
    ensures !Enabled(c, s, step)
  {
  }

  predicate LocalFault(step: Step) {
    match step
    case Take(openOk) => !openOk
    case Copy(_, ok) => !ok
    case EndCopy(removeOk) => !removeOk
    case Finish(flushOk) => !flushOk
    case _ => false
  }

  /** A run that failed either lost the chunk it had to emit next, or met a fault in its last local operation. */
  lemma AbortHasCause(c: Config, steps: seq<Step>)
    requires ValidConfig(c) && Exec(c, steps).Some? && Exec(c, steps).value.stage.Aborted?
    ensures steps != []
    ensures var s := Exec(c, steps).value;
      || LocalFault(steps[|steps| - 1])
      || (s.head < |s.tasks| && s.tasks[s.head].Dead? && s.stage.fault == TaskFailed(s.tasks[s.head].error))
  {
    var last := |steps| - 1;
    var s := Exec(c, steps[..last]).value;
    assert Inv(c, Exec(c, steps).value);
    assert Enabled(c, s, steps[last]);
  }

  ghost predicate Maximal(c: Config, steps: seq<Step>)
    requires ValidConfig(c) && Exec(c, steps).Some?
  {
    forall step :: !Enabled(c, Exec(c, steps).value, step)
  }

  predicate HasLocalFault(steps: seq<Step>) {
    exists k :: 0 <= k < |steps| && LocalFault(steps[k])
  }

  ghost predicate NoneDead(tasks: seq<Task>) {
    forall i :: 0 <= i < |tasks| ==> !tasks[i].Dead?
  }

  /** A run that has come to its end reported exactly when it met no local fault and lost no range. */
  lemma SuccessExactly(c: Config, steps: seq<Step>)
    requires ValidConfig(c) && Exec(c, steps).Some? && Maximal(c, steps)
    ensures var s := Exec(c, steps).value; s.stage.Reported? <==> !HasLocalFault(steps) && NoneDead(s.tasks)
  {
    hide Enabled, Apply, Inv, Exec, LocalFault;
    var s := Exec(c, steps).value;
    if !Final(s) {
      var step := NeverStuck(c, s);
      assert false;
    }
    if s.stage.Aborted? {
      AbortHasCause(c, steps);
    } else {
      OutputIsAlwaysAPrefix(c, steps);
      if HasLocalFault(steps) {
        FaultAborts(c, steps);
      }
    }
  }

  lemma {:induction false} FaultAborts(c: Config, steps: seq<Step>)
    requires ValidConfig(c) && Exec(c, steps).Some? && HasLocalFault(steps)
    ensures Exec(c, steps).value.stage.Aborted?
  {
    hide Exec, Inv, Enabled, Apply, LocalFault;
    var last := |steps| - 1;
    LastStep(c, steps);
    var s := Exec(c, steps[..last]).value;
    FaultIsLastOrBefore(steps);
    if HasLocalFault(steps[..last]) {
      FaultAborts(c, steps[..last]);
      FinalIsFinal(c, s, steps[last]);
    } else {
      FaultStops(c, s, steps[last]);
    }
  }

  lemma FaultIsLastOrBefore(steps: seq<Step>)
    requires HasLocalFault(steps)
    ensures HasLocalFault(steps[..|steps| - 1]) || LocalFault(steps[|steps| - 1])
  {
    var k :| 0 <= k < |steps| && LocalFault(steps[k]);
    if k < |steps| - 1 {
      assert LocalFault(steps[..|steps| - 1][k]);
    }
  }

  lemma FaultStops(c: Config, s: State, step: Step)
    requires ValidConfig(c) && Inv(c, s) && Enabled(c, s, step) && LocalFault(step)
    ensures Apply(c, s, step).stage.Aborted?
  {
  }

  function Prefix(f: nat -> Step, n: nat): seq<Step> {
    if n == 0 then [] else Prefix(f, n - 1) + [f(n - 1)]
  }

  /** No schedule runs for ever. */
  lemma EveryRunEnds(c: Config, f: nat -> Step)
    requires ValidConfig(c)
    ensures exists n :: Exec(c, Prefix(f, n)).None?
  {
    var n := RunEndsAfter(c, f, 0);
  }

  lemma RunEndsAfter(c: Config, f: nat -> Step, k: nat) returns (n: nat)
    requires ValidConfig(c) && Exec(c, Prefix(f, k)).Some?
    ensures Exec(c, Prefix(f, n)).None?
    decreases Requested(c, Exec(c, Prefix(f, k)).value), Unread(Exec(c, Prefix(f, k)).value),
              Rest(c, Exec(c, Prefix(f, k)).value)
  {
    hide Exec, Enabled, Requested, Unread, Rest, ValidConfig, Inv;
    RunOneMore(c, f, k);
    if Exec(c, Prefix(f, k + 1)).Some? {
      n := RunEndsAfter(c, f, k + 1);
    } else {
      n := k + 1;
    }
  }

  /** One more step of a schedule is impossible, or lowers the measure. */
  lemma RunOneMore(c: Config, f: nat -> Step, k: nat)
    requires ValidConfig(c) && Exec(c, Prefix(f, k)).Some?
    ensures var next := Exec(c, Prefix(f, k + 1)); next.Some? ==> Lower(c, next.value, Exec(c, Prefix(f, k)).value)
  {
    hide Enabled, Apply, OkAt, StageOk, ValidConfig, Lower;
    var s := Exec(c, Prefix(f, k)).value;
    PrefixLength(f, k);
    assert Prefix(f, k + 1)[..k] == Prefix(f, k) && Prefix(f, k + 1)[k] == f(k);
    if Enabled(c, s, f(k)) {
      StepDecreases(c, s, f(k));
    }
  }

  lemma {:induction false} PrefixLength(f: nat -> Step, n: nat)
    ensures |Prefix(f, n)| == n
  {
    if n > 0 {
      PrefixLength(f, n - 1);
    }
  }
}
