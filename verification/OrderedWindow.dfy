/** The whole download as a step system: a bounded window of range tasks, spool files on disk, and the
    emitter that copies finished chunks to the writer in order.

    Tasks advance only while the emitter is waiting for the next chunk: `buffered` is polled by the loop
    that also copies, so nothing is pulled into the window, and no task runs, during a copy. */
module OrderedWindow {
  import opened Wrappers
  import opened RangePlan
  import opened RangeTransfer

  datatype Config = Config(obj: seq<byte>, src: Source, ranges: seq<Range>, chunk: nat, connections: nat)

  /** First byte of range `k`, or the object's length past the last range. */
  ghost function Offset(c: Config, k: nat): nat
    requires k <= |c.ranges|
  {
    if k == 0 then 0 else c.ranges[k - 1].end + 1
  }

  ghost predicate RangeOk(c: Config, i: nat)
    requires i < |c.ranges|
  {
    var r := c.ranges[i];
    r.start == Offset(c, i) && r.start <= r.end < |c.obj| && r.Len() <= c.chunk
  }

  ghost predicate ValidConfig(c: Config) {
    && (forall i {:trigger RangeOk(c, i)} :: 0 <= i < |c.ranges| ==> RangeOk(c, i))
    && Offset(c, |c.ranges|) == |c.obj| == c.src.len
    && c.connections >= 1
  }

  /** The configuration the planner and the option checks produce is valid, and its window fits the options. */
  lemma PlannedConfigValid(c: Config, o: Options)
    requires Validate(o).Ok? && c.connections == o.connections && c.chunk == ChunkBytes(o)
    requires Tiles(c.ranges, |c.obj|, c.chunk) && c.src.len == |c.obj|
    ensures ValidConfig(c) && c.connections * c.chunk <= o.windowBytes
  {
    ValidOptionsFillTheWindow(o);
  }

  // ----- one range task -----

  datatype Task =
    | Queued
    | Opening
    | Idle(received: nat, retries: nat)
    | Streaming(received: nat, retries: nat, written: nat, body: seq<BodyEvent>)
    | Finished(retries: nat)
    | Dead(error: Error)

  predicate Active(t: Task) {
    t.Opening? || t.Idle? || t.Streaming?
  }

  /** A cut attempt: retry while the budget lasts. */
  function AfterCut(c: Config, range: Range, received: nat, retries: nat): Task {
    if retries >= c.src.maxRetries
    then Dead(RetryExhausted(range.start, range.end, WrappingSucc(retries)))
    else Idle(received, retries + 1)
  }

  /** The response to a request, before any body byte. */
  function OnReply(c: Config, range: Range, t: Task, e: Exchange): Task
    requires t.Idle? && range.start <= range.end && t.received < range.Len()
  {
    match CheckHead(c.src, range, t.received, e)
    case Retry => AfterCut(c, range, t.received, t.retries)
    case Reject(error) => Dead(error)
    case Accept => Streaming(t.received, t.retries, 0, if e.Response? then e.body else [])
  }

  /** The next body event; the last byte of the range closes the file. */
  function OnBody(c: Config, range: Range, t: Task, flushOk: bool): Task
    requires t.Streaming?
  {
    if t.body == [] || !t.body[0].Bytes? then AfterCut(c, range, t.received + t.written, t.retries)
    else
      var data := t.body[0].data;
      var have := t.received + t.written + |data|;
      if have > range.Len() then Dead(Protocol)
      else if !t.body[0].diskOk then Dead(Io)
      else if have < range.Len() then Streaming(t.received, t.retries, t.written + |data|, t.body[1..])
      else if flushOk then Finished(t.retries) else Dead(Io)
  }

  function Overwrite(file: seq<byte>, at: nat, data: seq<byte>): (r: seq<byte>)
    requires at + |data| <= |file|
    ensures |r| == |file|
  {
    file[..at] + data + file[at + |data|..]
  }

  /** What the same body event leaves in the spool file. */
  function Written(range: Range, t: Task, file: seq<byte>): (r: seq<byte>)
    requires t.Streaming? && |file| == range.Len()
    ensures |r| == |file|
  {
    if t.body != [] && t.body[0].Bytes? && t.body[0].diskOk && t.received + t.written + |t.body[0].data| <= |file|
    then Overwrite(file, t.received + t.written, t.body[0].data)
    else file
  }

  // ----- the whole transfer -----

  datatype Report = Report(bytes: nat, chunks: nat, retries: nat)

  datatype Fault = TaskFailed(error: Error) | LocalIo | ShortSpool | ShortOutput

  datatype Stage = Polling | Copying(copied: nat) | Reported(report: Report) | Aborted(fault: Fault)

  /** `head` is the next chunk to emit and `pulled` the first range not yet in the window. */
  datatype State = State(
    tasks: seq<Task>,
    head: nat,
    pulled: nat,
    stage: Stage,
    disk: seq<Option<seq<byte>>>,
    out: seq<byte>,
    active: int,
    emittedBytes: nat,
    retries: nat)

  /** A scheduler choice together with everything the environment decides in it. */
  datatype Step =
    | Pull
    | Start(i: nat)
    | Open(i: nat, openOk: bool, sizeOk: bool)
    | Reply(i: nat, exchange: Exchange)
    | Body(i: nat, flushOk: bool)
    | Take(openOk: bool)
    | Copy(n: nat, ok: bool)
    | EndCopy(removeOk: bool)
    | Finish(flushOk: bool)

  function Initial(c: Config): State {
    State(seq(|c.ranges|, _ => Queued), 0, 0, Polling, seq(|c.ranges|, _ => None), [], 0, 0, 0)
  }

  predicate InWindow(s: State, i: nat) {
    s.stage.Polling? && s.head <= i < s.pulled <= |s.tasks|
  }

  ghost predicate Enabled(c: Config, s: State, step: Step)
    requires Shape(c, s)
  {
    match step
    case Pull => s.stage.Polling? && s.pulled < |s.tasks| && s.pulled - s.head < c.connections
    case Start(i) => InWindow(s, i) && s.tasks[i].Queued?
    case Open(i, _, _) => InWindow(s, i) && s.tasks[i].Opening?
    case Reply(i, exchange) => InWindow(s, i) && s.tasks[i].Idle? && Honest(exchange, c.obj, c.src)
    case Body(i, _) => InWindow(s, i) && s.tasks[i].Streaming?
    case Take(_) => InWindow(s, s.head) && (s.tasks[s.head].Finished? || s.tasks[s.head].Dead?)
    case Copy(n, _) => s.stage.Copying? && 0 < n <= |HeadFile(s)| - s.stage.copied
    case EndCopy(_) => s.stage.Copying? && s.stage.copied == |HeadFile(s)|
    case Finish(_) => s.stage.Polling? && s.head == s.pulled == |s.tasks|
  }

  /** The spool file of the chunk being emitted. */
  function HeadFile(s: State): seq<byte> {
    if s.head < |s.disk| && s.disk[s.head].Some? then s.disk[s.head].value else []
  }

  function Settle(s: State, i: nat, t: Task, file: Option<seq<byte>>): State
    requires i < |s.tasks| == |s.disk|
  {
    s.(tasks := s.tasks[i := t], disk := s.disk[i := file],
       active := s.active + ActiveOne(t) - ActiveOne(s.tasks[i]))
  }

  ghost function Apply(c: Config, s: State, step: Step): State
    requires ValidConfig(c) && Inv(c, s) && Enabled(c, s, step)
  {
    match step
    case Pull => s.(pulled := s.pulled + 1)
    case Start(i) => Settle(s, i, Opening, None)
    case Open(i, openOk, sizeOk) =>
      if !openOk then Settle(s, i, Dead(Io), None)
      else if !sizeOk then Settle(s, i, Dead(Io), Some([]))
      else assert RangeOk(c, i); Settle(s, i, Idle(0, 0), Some(seq(c.ranges[i].Len(), _ => 0)))
    case Reply(i, exchange) =>
      assert OkAt(c, s, i) && RangeOk(c, i);
      Settle(s, i, OnReply(c, c.ranges[i], s.tasks[i], exchange), s.disk[i])
    case Body(i, flushOk) =>
      assert OkAt(c, s, i) && RangeOk(c, i);
      Settle(s, i, OnBody(c, c.ranges[i], s.tasks[i], flushOk), Some(Written(c.ranges[i], s.tasks[i], s.disk[i].value)))
    case Take(openOk) =>
      if s.tasks[s.head].Dead? then s.(stage := Aborted(TaskFailed(s.tasks[s.head].error)))
      else if !openOk then s.(stage := Aborted(LocalIo))
      else s.(stage := Copying(0))
    case Copy(n, ok) =>
      var copied := s.stage.copied;
      s.(out := s.out + HeadFile(s)[copied..copied + n], stage := if ok then Copying(copied + n) else Aborted(LocalIo))
    case EndCopy(removeOk) =>
      assert OkAt(c, s, s.head);
      if s.stage.copied != c.ranges[s.head].Len() then s.(stage := Aborted(ShortSpool))
      else if !removeOk then s.(stage := Aborted(LocalIo))
      else s.(disk := s.disk[s.head := None], emittedBytes := s.emittedBytes + s.stage.copied,
              retries := s.retries + s.tasks[s.head].retries, head := s.head + 1, stage := Polling)
    case Finish(flushOk) =>
      if !flushOk then s.(stage := Aborted(LocalIo))
      else if s.emittedBytes != c.src.len then s.(stage := Aborted(ShortOutput))
      else s.(stage := Reported(Report(s.emittedBytes, s.head, s.retries)))
  }

  // ----- the invariant -----

  ghost predicate SpoolHolds(c: Config, file: Option<seq<byte>>, i: nat, n: int)
    requires i < |c.ranges|
  {
    var r := c.ranges[i];
    && file.Some? && 0 <= n <= |file.value| == r.Len() && r.start + n <= |c.obj|
    && file.value[..n] == c.obj[r.start..r.start + n]
  }

  /** Task `t` of range `i` and its spool file agree with the object. */
  ghost predicate TaskOk(c: Config, i: nat, t: Task, file: Option<seq<byte>>, emitted: bool)
    requires i < |c.ranges|
  {
    var len := c.ranges[i].Len();
    match t
    case Queued => file.None? && !emitted
    case Opening => file.None? && !emitted
    case Idle(received, retries) =>
      received < len && retries <= c.src.maxRetries && !emitted && SpoolHolds(c, file, i, received)
    case Streaming(received, retries, written, body) =>
      && received + written < len && retries <= c.src.maxRetries && !emitted
      && SpoolHolds(c, file, i, received + written)
      && BodyAgrees(body, c.obj, c.ranges[i].start + received + written, c.ranges[i].end + 1)
    case Finished(retries) =>
      retries <= c.src.maxRetries && if emitted then file.None? else SpoolHolds(c, file, i, len)
    case Dead(_) => !emitted && (file.Some? ==> |file.value| <= len)
  }

  ghost predicate OkAt(c: Config, s: State, i: nat)
    requires i < |s.tasks| == |s.disk| == |c.ranges|
  {
    && TaskOk(c, i, s.tasks[i], s.disk[i], i < s.head)
    && (i >= s.pulled ==> s.tasks[i].Queued?)
  }

  ghost predicate StageOk(c: Config, s: State)
    requires Shape(c, s)
  {
    match s.stage
    case Polling => s.emittedBytes <= |c.obj| && s.out == c.obj[..s.emittedBytes]
    case Copying(copied) =>
      && s.head < s.pulled && s.tasks[s.head].Finished?
      && copied <= c.ranges[s.head].Len() && s.emittedBytes + copied <= |c.obj|
      && s.out == c.obj[..s.emittedBytes + copied]
    case Reported(report) => s.head == |s.tasks| && s.out == c.obj && report == Report(|c.obj|, |c.ranges|, s.retries)
    case Aborted(fault) => s.out <= c.obj && fault != ShortSpool && fault != ShortOutput
  }

  ghost predicate Shape(c: Config, s: State) {
    && |s.tasks| == |s.disk| == |c.ranges|
    && s.head <= s.pulled <= |s.tasks|
    && s.pulled - s.head <= c.connections
  }

  ghost predicate Inv(c: Config, s: State) {
    && Shape(c, s)
    && (forall i {:trigger OkAt(c, s, i)} :: 0 <= i < |s.tasks| ==> OkAt(c, s, i))
    && s.emittedBytes == Offset(c, s.head)
    && StageOk(c, s)
    && s.active == Total(ActiveOne, s.tasks)
    && s.retries == Total(RetriesOf, s.tasks[..s.head])
  }

  // ----- sums over tasks -----

  function ActiveOne(t: Task): nat {
    if Active(t) then 1 else 0
  }

  function RetriesOf(t: Task): nat {
    if t.Finished? then t.retries else 0
  }

  ghost function Total(w: Task -> nat, tasks: seq<Task>): nat {
    if tasks == [] then 0 else Total(w, tasks[..|tasks| - 1]) + w(tasks[|tasks| - 1])
  }

  lemma {:induction false} TotalUpdate(w: Task -> nat, tasks: seq<Task>, i: nat, t: Task)
    requires i < |tasks|
    ensures Total(w, tasks[i := t]) == Total(w, tasks) - w(tasks[i]) + w(t)
  {
    var n := |tasks| - 1;
    if i < n {
      TotalUpdate(w, tasks[..n], i, t);
      assert tasks[i := t][..n] == tasks[..n][i := t];
    } else {
      assert tasks[i := t][..n] == tasks[..n];
    }
  }

  lemma {:induction false} TotalZero(w: Task -> nat, tasks: seq<Task>)
    requires forall i :: 0 <= i < |tasks| ==> w(tasks[i]) == 0
    ensures Total(w, tasks) == 0
  {
    if tasks != [] {
      TotalZero(w, tasks[..|tasks| - 1]);
    }
  }

  // ----- every step keeps the invariant -----

  lemma InitialInv(c: Config)
    requires ValidConfig(c)
    ensures Inv(c, Initial(c))
  {
    TotalZero(ActiveOne, Initial(c).tasks);
  }

  /** A task in the window moves on and may rewrite its own file, and nothing else changes. */
  lemma TaskStepKeeps(c: Config, s: State, i: nat, t: Task, file: Option<seq<byte>>)
    requires Inv(c, s) && InWindow(s, i) && TaskOk(c, i, t, file, false)
    ensures Inv(c, Settle(s, i, t, file))
  {
    var s' := Settle(s, i, t, file);
    assert s'.tasks[..s.head] == s.tasks[..s.head];
    TotalUpdate(ActiveOne, s.tasks, i, t);
    forall j | 0 <= j < |s'.tasks| ensures OkAt(c, s', j) {
      assert OkAt(c, s, j);
    }
  }

  lemma StartKeeps(c: Config, s: State, step: Step)
    requires ValidConfig(c) && Inv(c, s) && Enabled(c, s, step) && (step.Start? || step.Open?)
    ensures Inv(c, Apply(c, s, step))
  {
    hide Total;
    var i := step.i;
    assert RangeOk(c, i);
    if step.Start? {
      TaskStepKeeps(c, s, i, Opening, None);
    } else if !step.openOk {
      TaskStepKeeps(c, s, i, Dead(Io), None);
    } else if !step.sizeOk {
      TaskStepKeeps(c, s, i, Dead(Io), Some([]));
    } else {
      TaskStepKeeps(c, s, i, Idle(0, 0), Some(seq(c.ranges[i].Len(), _ => 0)));
    }
  }

  lemma ReplyKeeps(c: Config, s: State, step: Step)
    requires ValidConfig(c) && Inv(c, s) && Enabled(c, s, step) && step.Reply?
    ensures Inv(c, Apply(c, s, step))
  {
    hide SpoolHolds, BodyAgrees, IsRetryableStatus, Total;
    var i := step.i;
    assert OkAt(c, s, i) && RangeOk(c, i);
    FileOfIdle(c, s, i);
    TaskStepKeeps(c, s, i, OnReply(c, c.ranges[i], s.tasks[i], step.exchange), s.disk[i]);
  }

  lemma FileOfIdle(c: Config, s: State, i: nat)
    requires Inv(c, s) && i < |s.tasks| && s.tasks[i].Idle?
    ensures s.disk[i].Some? && |s.disk[i].value| == c.ranges[i].Len()
  {
    assert OkAt(c, s, i);
  }

  lemma BodyKeeps(c: Config, s: State, step: Step)
    requires ValidConfig(c) && Inv(c, s) && Enabled(c, s, step) && step.Body?
    ensures Inv(c, Apply(c, s, step))
  {
    var i := step.i;
    assert OkAt(c, s, i) && RangeOk(c, i);
    WrittenHolds(c, i, s.tasks[i], s.disk[i].value, step.flushOk);
    TaskStepKeeps(c, s, i, OnBody(c, c.ranges[i], s.tasks[i], step.flushOk),
                  Some(Written(c.ranges[i], s.tasks[i], s.disk[i].value)));
  }

  lemma WrittenHolds(c: Config, i: nat, t: Task, file: seq<byte>, flushOk: bool)
    requires i < |c.ranges| && RangeOk(c, i) && t.Streaming? && TaskOk(c, i, t, Some(file), false)
    ensures TaskOk(c, i, OnBody(c, c.ranges[i], t, flushOk), Some(Written(c.ranges[i], t, file)), false)
  {
    hide SpoolHolds, Overwrite;
    var r, n := c.ranges[i], t.received + t.written;
    SpoolIsRange(c, i, file, n);
    if t.body != [] && t.body[0].Bytes? && n + |t.body[0].data| <= r.Len() {
      OverwriteExtends(c, i, file, n, t.body[0].data);
    }
  }

  lemma SpoolIsRange(c: Config, i: nat, file: seq<byte>, n: nat)
    requires i < |c.ranges| && SpoolHolds(c, Some(file), i, n)
    ensures |file| == c.ranges[i].Len()
  {
  }

  lemma OverwriteExtends(c: Config, i: nat, file: seq<byte>, n: nat, data: seq<byte>)
    requires i < |c.ranges| && RangeOk(c, i) && SpoolHolds(c, Some(file), i, n) && n + |data| <= c.ranges[i].Len()
    requires var at := c.ranges[i].start + n; data == c.obj[at..at + |data|]
    ensures SpoolHolds(c, Some(Overwrite(file, n, data)), i, n + |data|)
    ensures SpoolHolds(c, Some(file), i, n)
  {
    assert Overwrite(file, n, data)[..n + |data|] == file[..n] + data;
  }

  lemma PullKeeps(c: Config, s: State, step: Step)
    requires ValidConfig(c) && Inv(c, s) && Enabled(c, s, step) && (step.Pull? || step.Take? || step.Finish?)
    ensures Inv(c, Apply(c, s, step))
  {
    var s' := Apply(c, s, step);
    forall j | 0 <= j < |s'.tasks| ensures OkAt(c, s', j) {
      assert OkAt(c, s, j);
    }
    if step.Take? {
      assert RangeOk(c, s.head);
    }
  }

  lemma CopyKeeps(c: Config, s: State, step: Step)
    requires ValidConfig(c) && Inv(c, s) && Enabled(c, s, step) && step.Copy?
    ensures Inv(c, Apply(c, s, step))
  {
    hide TaskOk, Total;
    var s' := Apply(c, s, step);
    HeadFileIsSlice(c, s);
    assert RangeOk(c, s.head);
    CopyExtends(c.obj, c.ranges[s.head].start, HeadFile(s), s.stage.copied, step.n);
    forall j | 0 <= j < |s'.tasks| ensures OkAt(c, s', j) {
      assert OkAt(c, s, j);
    }
  }

  lemma HeadFileIsSlice(c: Config, s: State)
    requires ValidConfig(c) && Inv(c, s) && s.stage.Copying?
    ensures s.head < |c.ranges|
    ensures var r := c.ranges[s.head]; r.start <= r.end < |c.obj| && HeadFile(s) == Slice(c.obj, r)
  {
    assert OkAt(c, s, s.head) && RangeOk(c, s.head);
    var file := s.disk[s.head].value;
    assert file[..c.ranges[s.head].Len()] == file;
  }

  lemma CopyExtends(obj: seq<byte>, start: nat, file: seq<byte>, copied: nat, n: nat)
    requires start + |file| <= |obj| && file == obj[start..start + |file|] && copied + n <= |file|
    ensures obj[..start + copied] + file[copied..copied + n] == obj[..start + copied + n]
  {
  }

  lemma EndCopyKeeps(c: Config, s: State, step: Step)
    requires ValidConfig(c) && Inv(c, s) && Enabled(c, s, step) && step.EndCopy?
    ensures Inv(c, Apply(c, s, step))
  {
    hide Total;
    var s' := Apply(c, s, step);
    assert OkAt(c, s, s.head) && RangeOk(c, s.head);
    HeadRetries(s.tasks, s.head);
    forall j | 0 <= j < |s'.tasks| ensures OkAt(c, s', j) {
      assert OkAt(c, s, j);
    }
  }

  lemma HeadRetries(tasks: seq<Task>, head: nat)
    requires head < |tasks|
    ensures Total(RetriesOf, tasks[..head + 1]) == Total(RetriesOf, tasks[..head]) + RetriesOf(tasks[head])
  {
    assert tasks[..head + 1][..head] == tasks[..head];
  }

  /** No scheduling, server answer, cut body or local fault leads out of the invariant. */
  lemma StepKeepsInv(c: Config, s: State, step: Step)
    requires ValidConfig(c) && Inv(c, s) && Enabled(c, s, step)
    ensures Inv(c, Apply(c, s, step))
  {
    match step
    case Start(_) => StartKeeps(c, s, step);
    case Open(_, _, _) => StartKeeps(c, s, step);
    case Reply(_, _) => ReplyKeeps(c, s, step);
    case Body(_, _) => BodyKeeps(c, s, step);
    case Copy(_, _) => CopyKeeps(c, s, step);
    case EndCopy(_) => EndCopyKeeps(c, s, step);
    case _ => PullKeeps(c, s, step);
  }
}
