/** Each range task of an interleaved run is the sequential resume loop against the answers the run gave it, and the
    requests a run sends are exactly counted. */
module TaskRuns {
  import opened Wrappers
  import opened RangePlan
  import opened RangeTransfer
  import opened OrderedWindow
  import opened DownloadRuns

  /** `server` gives the resume loop the answers of the run. */
  ghost predicate Answers(server: nat -> Exchange, replies: seq<Exchange>) {
    forall k :: 0 <= k < |replies| ==> server(k) == replies[k]
  }

  /** The resume loop from its start. */
  ghost function Whole(c: Config, range: Range, server: nat -> Exchange, flushOk: bool): Transfer
    requires range.start <= range.end
  {
    Resume(c.src, range, server, flushOk, 0, 0)
  }

  /** How the resume loop goes on when attempt `retries` ended as `r`. */
  ghost function Onward(
    c: Config, range: Range, server: nat -> Exchange, flushOk: bool, received: nat, retries: nat, r: AttemptResult)
    : Transfer
    requires range.start <= range.end && retries <= c.src.maxRetries
    requires r.Transient? ==> received + r.written < range.Len()
  {
    match r
    case Complete(_) => if flushOk then Done(retries) else Failed(Io, retries)
    case Permanent(error) => Failed(error, retries)
    case Transient(written) =>
      if retries >= c.src.maxRetries
      then Failed(RetryExhausted(range.start, range.end, WrappingSucc(retries)), retries)
      else Resume(c.src, range, server, flushOk, received + written, retries + 1)
  }

  /** Task `t` stands where the resume loop stands after `n` requests. */
  ghost predicate Follows(c: Config, range: Range, server: nat -> Exchange, t: Task, n: nat)
    requires range.start <= range.end
  {
    match t
    case Queued => n == 0
    case Opening => n == 0
    case Idle(received, retries) =>
      && n == retries <= c.src.maxRetries && received < range.Len()
      && forall flushOk :: Whole(c, range, server, flushOk) == Resume(c.src, range, server, flushOk, received, retries)
    case Streaming(received, retries, written, body) =>
      && n == retries + 1 && retries <= c.src.maxRetries && received + written < range.Len()
      && var r := BodyOutcome(range.Len() - received, written, body);
         forall flushOk :: Whole(c, range, server, flushOk) == Onward(c, range, server, flushOk, received, retries, r)
    case Finished(retries) => n == retries + 1 && Whole(c, range, server, true) == Done(retries)
    case Dead(error) =>
      if n == 0 then error == Io
      else exists flushOk :: Whole(c, range, server, flushOk) == Failed(error, n - 1)
  }

  lemma CutFollows(c: Config, range: Range, server: nat -> Exchange, received: nat, retries: nat)
    requires range.start <= range.end && received < range.Len() && retries <= c.src.maxRetries
    requires forall flushOk ::
      Whole(c, range, server, flushOk) == Onward(c, range, server, flushOk, received, retries, Transient(0))
    ensures Follows(c, range, server, AfterCut(c, range, received, retries), retries + 1)
  {
    hide Whole, Resume;
    assert Whole(c, range, server, true) == Onward(c, range, server, true, received, retries, Transient(0));
  }

  lemma ReplyFollows(c: Config, range: Range, server: nat -> Exchange, t: Task)
    requires range.start <= range.end && t.Idle? && Follows(c, range, server, t, t.retries)
    ensures Follows(c, range, server, OnReply(c, range, t, server(t.retries)), t.retries + 1)
  {
    hide Whole, BodyOutcome, CheckHead;
    var e := server(t.retries);
    var r := AttemptOutcome(c.src, range, t.received, e);
    forall flushOk ensures Whole(c, range, server, flushOk)
      == Onward(c, range, server, flushOk, t.received, t.retries, r)
    {
    }
    match CheckHead(c.src, range, t.received, e) {
      case Retry => CutFollows(c, range, server, t.received, t.retries);
      case Reject(error) => assert Whole(c, range, server, true) == Failed(error, t.retries);
      case Accept =>
    }
  }

  lemma BodyFollows(c: Config, range: Range, server: nat -> Exchange, t: Task, flushOk: bool)
    requires range.start <= range.end && t.Streaming? && Follows(c, range, server, t, t.retries + 1)
    ensures Follows(c, range, server, OnBody(c, range, t, flushOk), t.retries + 1)
  {
    hide Whole, Resume;
    var r := BodyOutcome(range.Len() - t.received, t.written, t.body);
    if t.body == [] || !t.body[0].Bytes? {
      forall ok ensures Whole(c, range, server, ok)
        == Onward(c, range, server, ok, t.received + t.written, t.retries, Transient(0))
      {
        assert Whole(c, range, server, ok) == Onward(c, range, server, ok, t.received, t.retries, r);
      }
      CutFollows(c, range, server, t.received + t.written, t.retries);
    } else {
      var data := t.body[0].data;
      assert Whole(c, range, server, flushOk) == Onward(c, range, server, flushOk, t.received, t.retries, r);
      if t.received + t.written + |data| <= range.Len() && t.body[0].diskOk {
        assert r == BodyOutcome(range.Len() - t.received, t.written + |data|, t.body[1..]);
      }
    }
  }

  lemma StartFollows(c: Config, range: Range, server: nat -> Exchange)
    requires range.start <= range.end
    ensures Follows(c, range, server, Idle(0, 0), 0)
  {
    hide Resume;
  }

  /** In every interleaved run, each task is the resume loop: a finished task is one that loop finishes with the same
      retries, and a dead one has the loop's error, or never got its file. */
  lemma {:induction false} TaskRefinesResume(c: Config, steps: seq<Step>, i: nat, server: nat -> Exchange)
    requires ValidConfig(c) && Exec(c, steps).Some? && i < |c.ranges| && Answers(server, Replies(steps, i))
    ensures RangeOk(c, i) && Follows(c, c.ranges[i], server, Exec(c, steps).value.tasks[i], Requests(steps, i))
  {
    hide Exec, Inv, Enabled, Apply, Follows;
    assert RangeOk(c, i);
    if steps == [] {
      QueuedFollows(c, i, server);
    } else {
      var last := |steps| - 1;
      LastStep(c, steps);
      var s := Exec(c, steps[..last]).value;
      assert Answers(server, Replies(steps[..last], i));
      TaskRefinesResume(c, steps[..last], i, server);
      if steps[last].Reply? && steps[last].i == i {
        assert Replies(steps, i)[Requests(steps[..last], i)] == steps[last].exchange;
      }
      StepFollows(c, s, steps[last], i, server, Requests(steps[..last], i));
    }
  }

  lemma QueuedFollows(c: Config, i: nat, server: nat -> Exchange)
    requires ValidConfig(c) && i < |c.ranges| && RangeOk(c, i)
    ensures Exec(c, []).Some? && Follows(c, c.ranges[i], server, Exec(c, []).value.tasks[i], 0)
  {
  }

  lemma StepFollows(c: Config, s: State, step: Step, i: nat, server: nat -> Exchange, n: nat)
    requires ValidConfig(c) && Inv(c, s) && Enabled(c, s, step) && i < |c.ranges| && RangeOk(c, i)
    requires Follows(c, c.ranges[i], server, s.tasks[i], n)
    requires step.Reply? && step.i == i ==> server(n) == step.exchange
    ensures |Apply(c, s, step).tasks| == |c.ranges|
    ensures var sent := if step.Reply? && step.i == i then 1 else 0;
      Follows(c, c.ranges[i], server, Apply(c, s, step).tasks[i], n + sent)
  {
    hide Whole, Resume, OnReply, OnBody, TaskOk, Honest, Onward;
    var t := s.tasks[i];
    StartFollows(c, c.ranges[i], server);
    if step.Reply? && step.i == i {
      ReplyFollows(c, c.ranges[i], server, t);
    } else if step.Body? && step.i == i {
      BodyFollows(c, c.ranges[i], server, t, step.flushOk);
    }
  }

  predicate Flushed(steps: seq<Step>, i: nat) {
    exists k :: 0 <= k < |steps| && steps[k] == Body(i, true)
  }

  /** A range is done only when its file was flushed. */
  lemma {:induction false} FinishedWasFlushed(c: Config, steps: seq<Step>, i: nat)
    requires ValidConfig(c) && Exec(c, steps).Some? && i < |c.ranges| == |Exec(c, steps).value.tasks|
    requires Exec(c, steps).value.tasks[i].Finished?
    ensures Flushed(steps, i)
  {
    hide Exec, Inv, Apply, Enabled;
    if steps == [] {
      QueuedAtFirst(c, i);
    } else {
      var last := |steps| - 1;
      LastStep(c, steps);
      var s := Exec(c, steps[..last]).value;
      InvShape(c, s);
      if s.tasks[i].Finished? {
        FinishedWasFlushed(c, steps[..last], i);
        var k :| 0 <= k < last && steps[..last][k] == Body(i, true);
        assert steps[k] == Body(i, true);
      } else {
        FinishesByFlush(c, s, steps[last], i);
        assert steps[last] == Body(i, true);
      }
    }
  }

  lemma FinishesByFlush(c: Config, s: State, step: Step, i: nat)
    requires ValidConfig(c) && Inv(c, s) && Enabled(c, s, step) && i < |c.ranges| == |Apply(c, s, step).tasks|
    requires !s.tasks[i].Finished? && Apply(c, s, step).tasks[i].Finished?
    ensures step == Body(i, true)
  {
    hide TaskOk, Honest;
  }

  // ----- counting requests -----

  function ServerOf(replies: seq<Exchange>): nat -> Exchange {
    (n: nat) => if n < |replies| then replies[n] else NoResponse
  }

  /** Every request is accounted for: none before the start, one for each retry of a waiting task, one more for a
      task that is streaming or done, the whole budget for an exhausted one. */
  lemma RequestsExact(c: Config, steps: seq<Step>, i: nat)
    requires ValidConfig(c) && Exec(c, steps).Some? && i < |c.ranges| == |Exec(c, steps).value.tasks|
    ensures var n := Requests(steps, i);
      match Exec(c, steps).value.tasks[i]
      case Queued => n == 0
      case Opening => n == 0
      case Idle(_, retries) => n == retries
      case Streaming(_, retries, _, _) => n == retries + 1
      case Finished(retries) => n == retries + 1
      case Dead(error) => n <= c.src.maxRetries + 1 && (error.RetryExhausted? ==> n == c.src.maxRetries + 1)
  {
    hide Exec, Inv, Whole, Onward, AttemptsLeft;
    var server := ServerOf(Replies(steps, i));
    TaskRefinesResume(c, steps, i, server);
    RequestsPerRange(c, steps, i);
    ExhaustedAtLimit(c, c.ranges[i], server, true);
    ExhaustedAtLimit(c, c.ranges[i], server, false);
  }

  lemma ExhaustedAtLimit(c: Config, range: Range, server: nat -> Exchange, flushOk: bool)
    requires range.start <= range.end
    ensures var t := Whole(c, range, server, flushOk);
      t.Failed? && t.error.RetryExhausted? ==> t.retries == c.src.maxRetries
  {
    ResumeFrom(c.src, range, server, flushOk, 0);
  }

  /** Requests sent in the whole run. */
  function AllRequests(steps: seq<Step>): nat {
    if steps == [] then 0
    else AllRequests(steps[..|steps| - 1]) + if steps[|steps| - 1].Reply? then 1 else 0
  }

  /** Requests sent for the first `n` ranges. */
  function RequestsUpTo(steps: seq<Step>, n: nat): nat {
    if n == 0 then 0 else RequestsUpTo(steps, n - 1) + Requests(steps, n - 1)
  }

  lemma {:induction false} UpToStep(steps: seq<Step>, n: nat)
    requires steps != []
    ensures var last := steps[|steps| - 1];
      RequestsUpTo(steps, n) == RequestsUpTo(steps[..|steps| - 1], n) + if last.Reply? && last.i < n then 1 else 0
  {
    if n > 0 {
      UpToStep(steps, n - 1);
    }
  }

  lemma {:induction false} NoneUpTo(n: nat)
    ensures RequestsUpTo([], n) == 0
  {
    if n > 0 {
      NoneUpTo(n - 1);
    }
  }

  lemma {:induction false} AllAreForRanges(c: Config, steps: seq<Step>)
    requires ValidConfig(c) && Exec(c, steps).Some?
    ensures AllRequests(steps) == RequestsUpTo(steps, |c.ranges|)
  {
    hide Exec, Inv, Apply, Replies;
    if steps == [] {
      NoneUpTo(|c.ranges|);
    } else {
      LastStep(c, steps);
      AllAreForRanges(c, steps[..|steps| - 1]);
      UpToStep(steps, |c.ranges|);
      if steps[|steps| - 1].Reply? {
        ReplyIsForARange(c, Exec(c, steps[..|steps| - 1]).value, steps[|steps| - 1]);
      }
    }
  }

  lemma ReplyIsForARange(c: Config, s: State, step: Step)
    requires Inv(c, s) && Enabled(c, s, step) && step.Reply?
    ensures step.i < |c.ranges|
  {
  }

  lemma {:induction false} FinishedUpTo(c: Config, steps: seq<Step>, n: nat)
    requires ValidConfig(c) && Exec(c, steps).Some? && n <= |c.ranges| == |Exec(c, steps).value.tasks|
    requires forall i :: 0 <= i < n ==> Exec(c, steps).value.tasks[i].Finished?
    ensures RequestsUpTo(steps, n) == Total(RetriesOf, Exec(c, steps).value.tasks[..n]) + n
  {
    hide Exec, Inv, Replies, ValidConfig;
    if n > 0 {
      var tasks := Exec(c, steps).value.tasks;
      FinishedUpTo(c, steps, n - 1);
      RequestsExact(c, steps, n - 1);
      assert tasks[..n][..n - 1] == tasks[..n - 1];
    }
  }

  /** A reported run sent exactly one request per range and one per reported retry. */
  lemma ReportCountsRequests(c: Config, steps: seq<Step>)
    requires ValidConfig(c) && Exec(c, steps).Some? && Exec(c, steps).value.stage.Reported?
    ensures AllRequests(steps) == Exec(c, steps).value.stage.report.retries + |c.ranges|
  {
    hide Exec, Inv, Total;
    var s := Exec(c, steps).value;
    OutputIsAlwaysAPrefix(c, steps);
    InvShape(c, s);
    FinishedUpTo(c, steps, |c.ranges|);
    AllAreForRanges(c, steps);
    assert s.tasks[..|c.ranges|] == s.tasks;
  }

  lemma InvShape(c: Config, s: State)
    requires Inv(c, s)
    ensures |s.tasks| == |c.ranges|
  {
  }

  // ----- tasks that never sent a request -----

  predicate StartFailed(steps: seq<Step>, i: nat) {
    exists k :: 0 <= k < |steps| && steps[k].Open? && steps[k].i == i && !(steps[k].openOk && steps[k].sizeOk)
  }

  /** A range lost without a request could not open or size its spool file. */
  lemma {:induction false} DeadWithoutRequest(c: Config, steps: seq<Step>, i: nat)
    requires ValidConfig(c) && Exec(c, steps).Some? && i < |c.ranges| == |Exec(c, steps).value.tasks|
    requires Exec(c, steps).value.tasks[i].Dead? && Requests(steps, i) == 0
    ensures StartFailed(steps, i)
  {
    hide Exec, Inv, Apply, Enabled, StartFailed;
    if steps == [] {
      QueuedAtFirst(c, i);
    } else {
      var last := |steps| - 1;
      LastStep(c, steps);
      var s := Exec(c, steps[..last]).value;
      InvShape(c, s);
      TaskRefinesResume(c, steps[..last], i, ServerOf(Replies(steps[..last], i)));
      if s.tasks[i].Dead? {
        DeadWithoutRequest(c, steps[..last], i);
        StartFailedBefore(steps, i);
      } else {
        DiesAtStart(c, s, steps[last], i);
        StartFailedLast(steps, i);
      }
    }
  }

  lemma QueuedAtFirst(c: Config, i: nat)
    requires ValidConfig(c) && i < |c.ranges|
    ensures Exec(c, []).Some? && |Exec(c, []).value.tasks| == |c.ranges| && Exec(c, []).value.tasks[i].Queued?
  {
  }

  lemma DiesAtStart(c: Config, s: State, step: Step, i: nat)
    requires ValidConfig(c) && Inv(c, s) && Enabled(c, s, step) && i < |c.ranges| == |Apply(c, s, step).tasks|
    requires !s.tasks[i].Dead? && Apply(c, s, step).tasks[i].Dead?
    requires !(step.Reply? && step.i == i) && !s.tasks[i].Streaming?
    ensures step.Open? && step.i == i && !(step.openOk && step.sizeOk)
  {
    hide TaskOk, OnReply, OnBody;
  }

  lemma StartFailedBefore(steps: seq<Step>, i: nat)
    requires steps != [] && StartFailed(steps[..|steps| - 1], i)
    ensures StartFailed(steps, i)
  {
    var before := steps[..|steps| - 1];
    var k :| 0 <= k < |before| && before[k].Open? && before[k].i == i && !(before[k].openOk && before[k].sizeOk);
    assert steps[k] == before[k];
  }

  lemma StartFailedLast(steps: seq<Step>, i: nat)
    requires steps != []
    requires var last := steps[|steps| - 1]; last.Open? && last.i == i && !(last.openOk && last.sizeOk)
    ensures StartFailed(steps, i)
  {
  }
}
