/** What the step system of a download can do: it fills the window, its tasks finish in any order, and against a server
    that sends what it is asked for a run reports. */
module DownloadReach {
  import opened Wrappers
  import opened RangePlan
  import opened ResponseHeaders
  import opened RangeTransfer
  import opened OrderedWindow
  import opened DownloadRuns

  lemma OneMore(c: Config, steps: seq<Step>, step: Step)
    requires ValidConfig(c) && Exec(c, steps).Some? && Enabled(c, Exec(c, steps).value, step)
    ensures Exec(c, steps + [step]) == Some(Apply(c, Exec(c, steps).value, step))
  {
    hide Apply, Enabled, Inv;
    assert (steps + [step])[..|steps|] == steps;
  }

  // ----- the window fills -----

  function Pulls(k: nat): seq<Step> {
    seq(k, _ => Pull)
  }

  /** As many ranges as there are connections are in the window before any of them is done. */
  lemma {:induction false} PullsFill(c: Config, k: nat)
    requires ValidConfig(c) && k <= c.connections && k <= |c.ranges|
    ensures Exec(c, Pulls(k)) == Some(Initial(c).(pulled := k))
  {
    if k > 0 {
      PullsFill(c, k - 1);
      OneMore(c, Pulls(k - 1), Pull);
      assert Pulls(k) == Pulls(k - 1) + [Pull];
    }
  }

  // ----- the environment is free -----

  /** A task in the window can meet any file fault, any honest answer and any body, whatever the other tasks do. */
  lemma AnythingCanHappen(c: Config, s: State, i: nat, e: Exchange, openOk: bool, sizeOk: bool, flushOk: bool)
    requires Inv(c, s) && s.stage.Polling? && s.head <= i < s.pulled && Honest(e, c.obj, c.src)
    ensures match s.tasks[i]
      case Queued => Enabled(c, s, Start(i))
      case Opening => Enabled(c, s, Open(i, openOk, sizeOk))
      case Idle(_, _) => Enabled(c, s, Reply(i, e))
      case Streaming(_, _, _, _) => Enabled(c, s, Body(i, flushOk))
      case _ => i == s.head ==> Enabled(c, s, Take(openOk))
  {
  }

  /** The copy to the writer can be cut into any pieces and fail at any of them. */
  lemma CopyIsFree(c: Config, s: State, n: nat, ok: bool)
    requires Inv(c, s) && s.stage.Copying? && ValidConfig(c)
    ensures 0 < n <= c.ranges[s.head].Len() - s.stage.copied ==> Enabled(c, s, Copy(n, ok))
    ensures s.stage.copied == c.ranges[s.head].Len() ==> Enabled(c, s, EndCopy(ok))
  {
    HeadFileIsSlice(c, s);
  }

  // ----- tasks finish in any order -----

  /** The answer that carries the whole range. */
  ghost function GoodReply(c: Config, i: nat): Exchange
    requires ValidConfig(c) && i < |c.ranges|
  {
    assert RangeOk(c, i);
    var r := c.ranges[i];
    Response(206, Some(ContentRange(r.start, r.end, c.src.len)), Value(c.src.etag), Absent, true,
             [Bytes(Slice(c.obj, r), true)])
  }

  ghost function Chunk(c: Config, i: nat): seq<byte>
    requires ValidConfig(c) && i < |c.ranges|
  {
    assert RangeOk(c, i);
    Slice(c.obj, c.ranges[i])
  }

  lemma GoodReplyIsHonest(c: Config, i: nat)
    requires ValidConfig(c) && i < |c.ranges|
    ensures Honest(GoodReply(c, i), c.obj, c.src)
  {
    assert RangeOk(c, i);
    var body := GoodReply(c, i).body;
    assert body[1..] == [];
  }

  lemma GoodReplyIsAccepted(c: Config, i: nat)
    requires ValidConfig(c) && i < |c.ranges|
    ensures c.ranges[i].start <= c.ranges[i].end
    ensures OnReply(c, c.ranges[i], Idle(0, 0), GoodReply(c, i)) == Streaming(0, 0, 0, [Bytes(Chunk(c, i), true)])
    ensures OnBody(c, c.ranges[i], Streaming(0, 0, 0, [Bytes(Chunk(c, i), true)]), true) == Finished(0)
  {
    assert RangeOk(c, i);
  }

  /** The state with range `i` done and spooled. */
  ghost function Finish1(c: Config, s: State, i: nat): State
    requires ValidConfig(c) && i < |s.tasks| == |s.disk| == |c.ranges|
  {
    s.(tasks := s.tasks[i := Finished(0)], disk := s.disk[i := Some(Chunk(c, i))])
  }

  function TaskSteps(i: nat, e: Exchange): seq<Step> {
    [Start(i), Open(i, true, true), Reply(i, e), Body(i, true)]
  }

  lemma OpenOne(c: Config, s: State, i: nat)
    requires ValidConfig(c) && Inv(c, s) && s.stage.Polling? && s.head <= i < s.pulled && s.tasks[i].Queued?
    ensures Enabled(c, s, Start(i))
    ensures var t := Apply(c, s, Start(i)); Inv(c, t) && Enabled(c, t, Open(i, true, true))
    ensures c.ranges[i].start <= c.ranges[i].end
    ensures var u := Apply(c, Apply(c, s, Start(i)), Open(i, true, true));
      u == s.(tasks := s.tasks[i := Idle(0, 0)], disk := s.disk[i := Some(seq(c.ranges[i].Len(), _ => 0))],
              active := s.active + 1)
  {
    assert OkAt(c, s, i) && RangeOk(c, i);
    StepKeepsInv(c, s, Start(i));
  }

  lemma Shapes(c: Config, s: State)
    requires Inv(c, s)
    ensures |s.tasks| == |s.disk| == |c.ranges| && s.head <= s.pulled <= |s.tasks|
  {
  }

  lemma ReplyOne(c: Config, s: State, i: nat)
    requires ValidConfig(c) && Inv(c, s) && s.stage.Polling? && s.head <= i < s.pulled && s.tasks[i] == Idle(0, 0)
    ensures var e := GoodReply(c, i);
      && Enabled(c, s, Reply(i, e))
      && Apply(c, s, Reply(i, e)) == s.(tasks := s.tasks[i := Streaming(0, 0, 0, [Bytes(Chunk(c, i), true)])])
      && Inv(c, Apply(c, s, Reply(i, e)))
  {
    hide OnReply, GoodReply, Honest, TaskOk, Total;
    assert RangeOk(c, i);
    GoodReplyIsHonest(c, i);
    GoodReplyIsAccepted(c, i);
    StepKeepsInv(c, s, Reply(i, GoodReply(c, i)));
    assert s.disk[i := s.disk[i]] == s.disk;
  }

  lemma BodyOne(c: Config, s: State, i: nat)
    requires ValidConfig(c) && Inv(c, s) && s.stage.Polling? && s.head <= i < s.pulled
    requires s.tasks[i] == Streaming(0, 0, 0, [Bytes(Chunk(c, i), true)])
    ensures Enabled(c, s, Body(i, true))
    ensures Apply(c, s, Body(i, true)) == Finish1(c, s, i).(active := s.active - 1)
  {
    hide OnBody, GoodReply, Total, Written, TaskOk;
    assert RangeOk(c, i);
    GoodReplyIsAccepted(c, i);
    FileOfStreaming(c, s, i);
    WritesAll(c.ranges[i], s.tasks[i], s.disk[i].value, Chunk(c, i));
  }

  lemma FileOfStreaming(c: Config, s: State, i: nat)
    requires Inv(c, s) && i < |s.tasks| && s.tasks[i].Streaming?
    ensures s.disk[i].Some? && |s.disk[i].value| == c.ranges[i].Len()
  {
    assert OkAt(c, s, i);
  }

  lemma WritesAll(range: Range, t: Task, file: seq<byte>, data: seq<byte>)
    requires t == Streaming(0, 0, 0, [Bytes(data, true)]) && |file| == |data| == range.Len()
    ensures Written(range, t, file) == data
  {
  }

  /** Any range in the window can be done next, whatever the others are at. */
  lemma TaskCanFinish(c: Config, steps: seq<Step>, i: nat) returns (more: seq<Step>)
    requires ValidConfig(c) && Exec(c, steps).Some?
    requires var s := Exec(c, steps).value; s.stage.Polling? && s.head <= i < s.pulled && s.tasks[i].Queued?
    ensures more == steps + TaskSteps(i, GoodReply(c, i))
    ensures Exec(c, more) == Some(Finish1(c, Exec(c, steps).value, i))
  {
    hide Exec, Enabled, Apply, Inv, GoodReply;
    var s := Exec(c, steps).value;
    Shapes(c, s);
    var e := GoodReply(c, i);
    OpenOne(c, s, i);
    OneMore(c, steps, Start(i));
    var s1 := steps + [Start(i)];
    OneMore(c, s1, Open(i, true, true));
    var s2 := s1 + [Open(i, true, true)];
    var u := Exec(c, s2).value;
    ReplyOne(c, u, i);
    OneMore(c, s2, Reply(i, e));
    var s3 := s2 + [Reply(i, e)];
    BodyOne(c, Exec(c, s3).value, i);
    OneMore(c, s3, Body(i, true));
    more := s3 + [Body(i, true)];
    assert more == steps + TaskSteps(i, e);
    SameFinish(c, s, u, Exec(c, s3).value, i);
  }

  lemma SameFinish(c: Config, s: State, u: State, v: State, i: nat)
    requires ValidConfig(c) && i < |s.tasks| == |s.disk| == |c.ranges|
    requires i < |u.disk|
    requires u == s.(tasks := s.tasks[i := Idle(0, 0)], disk := s.disk[i := u.disk[i]], active := s.active + 1)
    requires i < |v.tasks| && v == u.(tasks := u.tasks[i := v.tasks[i]])
    ensures Finish1(c, v, i).(active := v.active - 1) == Finish1(c, s, i)
  {
    assert v.tasks[i := Finished(0)] == s.tasks[i := Finished(0)];
    assert v.disk[i := Some(Chunk(c, i))] == s.disk[i := Some(Chunk(c, i))];
  }

  ghost predicate DoneSoFar(s: State, order: seq<nat>, n: nat)
    requires n <= |order|
  {
    forall i :: 0 <= i < |s.tasks| ==> s.tasks[i] == if i in order[..n] then Finished(0) else Queued
  }

  /** The ranges of a full window can be done in any order at all. */
  lemma {:induction false} AnyOrderIsPossible(c: Config, k: nat, order: seq<nat>, n: nat) returns (steps: seq<Step>)
    requires ValidConfig(c) && k <= c.connections && k <= |c.ranges| && n <= |order|
    requires forall i :: 0 <= i < |order| ==> order[i] < k
    requires forall i, j :: 0 <= i < j < |order| ==> order[i] != order[j]
    ensures Exec(c, steps).Some?
    ensures var s := Exec(c, steps).value;
      s.stage.Polling? && s.head == 0 && s.pulled == k && |s.tasks| == |c.ranges| && DoneSoFar(s, order, n)
    decreases n
  {
    hide Exec, GoodReply, Inv;
    if n == 0 {
      PullsFill(c, k);
      steps := Pulls(k);
    } else {
      var before := AnyOrderIsPossible(c, k, order, n - 1);
      var s := Exec(c, before).value;
      var i := order[n - 1];
      assert order[..n] == order[..n - 1] + [i];
      assert i !in order[..n - 1];
      steps := TaskCanFinish(c, before, i);
    }
  }

  // ----- a run that reports -----

  function EmitSteps(len: nat): seq<Step> {
    [Take(true), Copy(len, true), EndCopy(true)]
  }

  lemma EmitOne(c: Config, s: State)
    requires ValidConfig(c) && Inv(c, s) && s.stage.Polling? && s.head < s.pulled && s.tasks[s.head].Finished?
    ensures c.ranges[s.head].start <= c.ranges[s.head].end
    ensures Enabled(c, s, Take(true))
    ensures var t := Apply(c, s, Take(true)); Inv(c, t) && Enabled(c, t, Copy(c.ranges[s.head].Len(), true))
    ensures var u := Apply(c, Apply(c, s, Take(true)), Copy(c.ranges[s.head].Len(), true));
      && Inv(c, u) && Enabled(c, u, EndCopy(true))
      && var v := Apply(c, u, EndCopy(true));
         v.stage.Polling? && v.head == s.head + 1 && v.pulled == s.pulled && v.tasks == s.tasks
  {
    hide Total, TaskOk;
    assert RangeOk(c, s.head);
    StepKeepsInv(c, s, Take(true));
    var t := Apply(c, s, Take(true));
    HeadFileIsSlice(c, t);
    var n := c.ranges[s.head].Len();
    StepKeepsInv(c, t, Copy(n, true));
    var u := Apply(c, t, Copy(n, true));
    HeadFileIsSlice(c, u);
  }

  lemma ChunkCanBeEmitted(c: Config, steps: seq<Step>) returns (more: seq<Step>)
    requires ValidConfig(c) && Exec(c, steps).Some?
    requires var s := Exec(c, steps).value; s.stage.Polling? && s.head < s.pulled && s.tasks[s.head].Finished?
    ensures Exec(c, more).Some?
    ensures var s, v := Exec(c, steps).value, Exec(c, more).value;
      v.stage.Polling? && v.head == s.head + 1 && v.pulled == s.pulled && v.tasks == s.tasks
  {
    hide Exec, Enabled, Apply, Inv;
    var s := Exec(c, steps).value;
    Shapes(c, s);
    EmitOne(c, s);
    var n := c.ranges[s.head].Len();
    OneMore(c, steps, Take(true));
    OneMore(c, steps + [Take(true)], Copy(n, true));
    OneMore(c, steps + [Take(true)] + [Copy(n, true)], EndCopy(true));
    more := steps + [Take(true)] + [Copy(n, true)] + [EndCopy(true)];
  }

  /** A run that has emitted the first `k` ranges, with nothing else in the window. */
  lemma {:induction false} FirstRangesCanBeEmitted(c: Config, k: nat) returns (steps: seq<Step>)
    requires ValidConfig(c) && k <= |c.ranges|
    ensures Exec(c, steps).Some?
    ensures var s := Exec(c, steps).value; s.stage.Polling? && s.head == s.pulled == k
  {
    hide Exec, GoodReply;
    if k == 0 {
      PullsFill(c, 0);
      steps := Pulls(0);
    } else {
      var before := FirstRangesCanBeEmitted(c, k - 1);
      var s := Exec(c, before).value;
      assert OkAt(c, s, k - 1);
      OneMore(c, before, Pull);
      var pulled := before + [Pull];
      var finished := TaskCanFinish(c, pulled, k - 1);
      steps := ChunkCanBeEmitted(c, finished);
    }
  }

  /** Against a server that sends the range it is asked for, a run reports the whole object. */
  lemma SomeRunReports(c: Config) returns (steps: seq<Step>)
    requires ValidConfig(c)
    ensures Exec(c, steps).Some?
    ensures Exec(c, steps).value.stage.Reported? && Exec(c, steps).value.out == c.obj
  {
    hide Exec;
    var before := FirstRangesCanBeEmitted(c, |c.ranges|);
    OneMore(c, before, Finish(true));
    steps := before + [Finish(true)];
    OutputIsAlwaysAPrefix(c, steps);
  }
}
