/** One range of the parallel download: header checks, the body loop, and the resume loop around them. */
module RangeTransfer {
  import opened Wrappers
  import opened Decimal
  import opened RangePlan
  import opened ResponseHeaders

  // ----- one exchange with the server -----

  /** What the probe fixed about the remote object, and the retry settings. */
  datatype Source = Source(len: nat, etag: string, maxRetries: nat, retryBaseDelay: nat)

  /** The next thing the body stream yields; `diskOk` says whether writing the bytes succeeds. */
  datatype BodyEvent = Bytes(data: seq<byte>, diskOk: bool) | Stalled | Broken

  /** One attempt as the environment plays it, with the headers already read; the body ends after its last event. */
  datatype Exchange =
    | NoResponse
    | Response(
        status: nat,
        contentRange: Option<ContentRange>,
        etag: Header,
        contentLength: Length,
        seekOk: bool,
        body: seq<BodyEvent>)

  datatype Error =
    | Protocol
    | Io
    | RetryExhausted(start: nat, end: nat, attempts: nat)

  predicate IsRetryableStatus(status: nat) {
    status == 408 || status == 429 || 500 <= status < 600
  }

  datatype HeadVerdict = Accept | Retry | Reject(error: Error)

  /** The checks `download_attempt` makes before it touches the file. */
  function CheckHead(src: Source, range: Range, received: nat, e: Exchange): HeadVerdict
    requires range.start <= range.end && received < range.Len()
  {
    if e.NoResponse? then Retry
    else if e.status != 206 then (if IsRetryableStatus(e.status) then Retry else Reject(Protocol))
    else if e.contentRange != Some(ContentRange(range.start + received, range.end, src.len)) then Reject(Protocol)
    else if e.etag != Value(src.etag) then Reject(Protocol)
    else if e.contentLength.Invalid? then Reject(Protocol)
    else if e.contentLength.Declared? && e.contentLength.bytes != range.Len() - received then Reject(Protocol)
    else if !e.seekOk then Reject(Io)
    else Accept
  }

  datatype AttemptResult = Complete(written: nat) | Transient(written: nat) | Permanent(error: Error)

  /** How the body loop ends, with `written` bytes of `expected` already on disk. */
  function BodyOutcome(expected: nat, written: nat, body: seq<BodyEvent>): (r: AttemptResult)
    requires written <= expected
    ensures r.Complete? ==> r.written == expected
    ensures r.Transient? ==> written <= r.written < expected
    ensures r.Permanent? ==> !r.error.RetryExhausted?
    decreases |body|
  {
    if written == expected then Complete(written)
    else if body == [] then Transient(written)
    else match body[0]
      case Stalled => Transient(written)
      case Broken => Transient(written)
      case Bytes(data, diskOk) =>
        if written + |data| > expected then Permanent(Protocol)
        else if !diskOk then Permanent(Io)
        else BodyOutcome(expected, written + |data|, body[1..])
  }

  /** The first `n` events of a body all bring bytes that reach the disk, `size` of them in all. */
  ghost predicate Brings(body: seq<BodyEvent>, n: nat, size: nat)
    requires n <= |body|
    decreases n
  {
    if n == 0 then size == 0
    else
      && body[0].Bytes? && body[0].diskOk && |body[0].data| <= size
      && Brings(body[1..], n - 1, size - |body[0].data|)
  }

  ghost predicate CanBring(body: seq<BodyEvent>, size: nat) {
    exists n :: 0 <= n <= |body| && Brings(body, n, size)
  }

  lemma BringsStep(body: seq<BodyEvent>, size: nat)
    requires size > 0
    ensures CanBring(body, size) <==>
      && body != [] && body[0].Bytes? && body[0].diskOk && |body[0].data| <= size
      && CanBring(body[1..], size - |body[0].data|)
  {
    if CanBring(body, size) {
      var n :| 0 <= n <= |body| && Brings(body, n, size);
      var left := size - |body[0].data|;
      assert Brings(body[1..], n - 1, left);
    }
    if body != [] && body[0].Bytes? && body[0].diskOk && |body[0].data| <= size {
      var left := size - |body[0].data|;
      if CanBring(body[1..], left) {
        var n :| 0 <= n <= |body[1..]| && Brings(body[1..], n, left);
        assert Brings(body, n + 1, size);
      }
    }
  }

  /** The body loop completes exactly when some events at the front of the body bring exactly the missing bytes. */
  lemma {:induction false} BodyCompletesExactly(expected: nat, written: nat, body: seq<BodyEvent>)
    requires written <= expected
    ensures BodyOutcome(expected, written, body).Complete? <==> CanBring(body, expected - written)
    decreases |body|
  {
    if written == expected {
      assert Brings(body, 0, 0);
    } else {
      hide CanBring;
      BringsStep(body, expected - written);
      if body != [] && body[0].Bytes? && body[0].diskOk && written + |body[0].data| <= expected {
        BodyCompletesExactly(expected, written + |body[0].data|, body[1..]);
      }
    }
  }

  /** How any other body ends: after the events that bring `size` bytes, short of what is missing, the next one decides.
      Too many bytes are refused, a failed write is fatal, and a stall, a break or the end leaves what came. */
  lemma {:induction false} BodyEndsExactly(expected: nat, written: nat, body: seq<BodyEvent>, n: nat, size: nat)
    requires n <= |body| && Brings(body, n, size) && written + size < expected
    ensures BodyOutcome(expected, written, body) ==
      if n == |body| || !body[n].Bytes? then Transient(written + size)
      else if written + size + |body[n].data| > expected then Permanent(Protocol)
      else if !body[n].diskOk then Permanent(Io)
      else BodyOutcome(expected, written + size + |body[n].data|, body[n + 1..])
    decreases n
  {
    if n > 0 {
      BodyEndsExactly(expected, written + |body[0].data|, body[1..], n - 1, size - |body[0].data|);
      assert n < |body| ==> body[1..][n..] == body[n + 1..];
    }
  }

  function AttemptOutcome(src: Source, range: Range, received: nat, e: Exchange): (r: AttemptResult)
    requires range.start <= range.end && received < range.Len()
    ensures r.Complete? ==> received + r.written == range.Len()
    ensures r.Transient? ==> received + r.written < range.Len()
    ensures r.Permanent? ==> !r.error.RetryExhausted?
  {
    match CheckHead(src, range, received, e)
    case Retry => Transient(0)
    case Reject(error) => Permanent(error)
    case Accept => BodyOutcome(range.Len() - received, 0, if e.Response? then e.body else [])
  }

  /** A response that may be used: the rest of the range, of the same object, in the announced length. */
  predicate Fits(src: Source, range: Range, received: nat, e: Exchange)
    requires e.Response?
  {
    && e.contentRange == Some(ContentRange(range.start + received, range.end, src.len))
    && e.etag == Value(src.etag)
    && !e.contentLength.Invalid?
    && (e.contentLength.Declared? ==> range.start + received + e.contentLength.bytes == range.end + 1)
  }

  /** An attempt completes exactly when a fitting partial response brings the missing bytes. */
  lemma AttemptCompletesExactly(src: Source, range: Range, received: nat, e: Exchange)
    requires range.start <= range.end && received < range.Len()
    ensures AttemptOutcome(src, range, received, e).Complete? <==>
      && e.Response? && e.status == 206 && Fits(src, range, received, e) && e.seekOk
      && CanBring(e.body, range.Len() - received)
  {
    hide CanBring, BodyOutcome;
    if e.Response? {
      BodyCompletesExactly(range.Len() - received, 0, e.body);
    }
  }

  /** What every other response leads to: silence, 408, 429 and 5xx are tried again from the same byte, any other status
      and any partial response that does not fit are fatal, and a fitting one is as good as its body. */
  lemma AttemptVerdicts(src: Source, range: Range, received: nat, e: Exchange)
    requires range.start <= range.end && received < range.Len()
    ensures var r := AttemptOutcome(src, range, received, e);
      if e.NoResponse? then r == Transient(0)
      else if e.status == 206 then
        if !Fits(src, range, received, e) then r == Permanent(Protocol)
        else if !e.seekOk then r == Permanent(Io)
        else r == BodyOutcome(range.Len() - received, 0, e.body)
      else if e.status == 408 || e.status == 429 || e.status / 100 == 5 then r == Transient(0)
      else r == Permanent(Protocol)
  {
    hide BodyOutcome;
  }

  // ----- the one assumption about the server -----

  /** Every chunk of the body that ends before `limit` equals the object's bytes there. */
  ghost predicate BodyAgrees(body: seq<BodyEvent>, obj: seq<byte>, at: nat, limit: nat)
    decreases |body|
  {
    body == [] ||
    match body[0]
    case Bytes(data, _) =>
      && (at + |data| <= limit <= |obj| ==> data == obj[at..at + |data|])
      && BodyAgrees(body[1..], obj, at + |data|, limit)
    case _ => BodyAgrees(body[1..], obj, at, limit)
  }

  /** A partial response carrying the object's strong validator holds the bytes its Content-Range names
      (sections 8.8.1, 13.1.1, 14.4 and 15.3.7 of RFC 9110). Nothing else is assumed of the server:
      any status, headers, cut or stall may occur, and a body may run past its range with any bytes. */
  ghost predicate Honest(e: Exchange, obj: seq<byte>, src: Source) {
    e.Response? && e.status == 206 && e.etag == Value(src.etag) && e.contentRange.Some?
    ==> BodyAgrees(e.body, obj, e.contentRange.value.start, e.contentRange.value.end + 1)
  }

  /** Nothing is assumed of an answer that is not a partial response of the object. */
  lemma OthersAreHonest(e: Exchange, obj: seq<byte>, src: Source)
    requires e.NoResponse? || e.status != 206 || e.etag != Value(src.etag) || e.contentRange.None?
    ensures Honest(e, obj, src)
  {
  }

  /** A body may break off anywhere, or stall. */
  lemma {:induction false} CutIsHonest(
    body: seq<BodyEvent>, n: nat, obj: seq<byte>, at: nat, limit: nat, end: BodyEvent)
    requires n <= |body| && BodyAgrees(body, obj, at, limit) && !end.Bytes?
    ensures BodyAgrees(body[..n], obj, at, limit) && BodyAgrees(body[..n] + [end], obj, at, limit)
    decreases n
  {
    if n > 0 {
      var next := if body[0].Bytes? then at + |body[0].data| else at;
      CutIsHonest(body[1..], n - 1, obj, next, limit, end);
      assert body[..n][1..] == body[1..][..n - 1];
      assert (body[..n] + [end])[1..] == body[1..][..n - 1] + [end];
    } else {
      assert (body[..0] + [end])[1..] == [];
    }
  }

  /** Nor of what follows the last byte of the range. */
  lemma OverrunIsHonest(e: Exchange, obj: seq<byte>, src: Source, extra: seq<BodyEvent>)
    requires e.Response? && e.contentRange.Some? && |e.body| == 1 && e.body[0].Bytes? && Honest(e, obj, src)
    requires e.contentRange.value.start + |e.body[0].data| == e.contentRange.value.end + 1 && AllBytes(extra)
    ensures Honest(e.(body := e.body + extra), obj, src)
  {
    var limit := e.contentRange.value.end + 1;
    assert (e.body + extra)[1..] == extra;
    PastTheEnd(extra, obj, limit, limit);
  }

  ghost predicate AllBytes(events: seq<BodyEvent>) {
    forall i :: 0 <= i < |events| ==> events[i].Bytes? && events[i].data != []
  }

  lemma {:induction false} PastTheEnd(events: seq<BodyEvent>, obj: seq<byte>, at: nat, limit: nat)
    requires limit <= at && AllBytes(events)
    ensures BodyAgrees(events, obj, at, limit)
    decreases |events|
  {
    if events != [] {
      PastTheEnd(events[1..], obj, at + |events[0].data|, limit);
    }
  }

  // ----- the body loop, writing into the spool file -----

  /** The first `n` bytes of the spool file are the object's bytes from `start`. */
  ghost predicate Spooled(file: array<byte>, n: nat, obj: seq<byte>, start: nat)
    reads file
  {
    n <= file.Length && start + n <= |obj| && forall i :: 0 <= i < n ==> file[i] == obj[start + i]
  }

  method DownloadAttempt(
    src: Source, range: Range, received: nat, e: Exchange, file: array<byte>, ghost obj: seq<byte>)
    returns (r: AttemptResult)
    requires range.start <= range.end < |obj| && received < range.Len()
    requires file.Length == range.Len() && src.len == |obj|
    requires Honest(e, obj, src)
    requires Spooled(file, received, obj, range.start)
    modifies file
    ensures r == AttemptOutcome(src, range, received, e)
    ensures Spooled(file, if r.Permanent? then received else received + r.written, obj, range.start)
  {
    match CheckHead(src, range, received, e) {
      case Retry => r := Transient(0);
      case Reject(error) => r := Permanent(error);
      case Accept => r := StreamBody(range.start, received, range.Len() - received, e.body, file, obj);
    }
  }

  method StreamBody(
    start: nat, received: nat, expected: nat, events: seq<BodyEvent>, file: array<byte>, ghost obj: seq<byte>)
    returns (r: AttemptResult)
    requires file.Length == received + expected && start + file.Length <= |obj|
    requires BodyAgrees(events, obj, start + received, start + file.Length)
    requires Spooled(file, received, obj, start)
    modifies file
    ensures r == BodyOutcome(expected, 0, events)
    ensures Spooled(file, if r.Permanent? then received else received + r.written, obj, start)
  {
    var body := events;
    var written := 0;
    while written < expected
      invariant 0 <= written <= expected
      invariant BodyOutcome(expected, 0, events) == BodyOutcome(expected, written, body)
      invariant BodyAgrees(body, obj, start + received + written, start + file.Length)
      invariant Spooled(file, received + written, obj, start)
      decreases |body|
    {
      if body == [] || !body[0].Bytes? {
        return Transient(written);
      }
      var data := body[0].data;
      if written + |data| > expected {
        return Permanent(Protocol);
      }
      if !body[0].diskOk {
        return Permanent(Io);
      }
      Append(file, received + written, data, start, obj);
      written := written + |data|;
      body := body[1..];
    }
    return Complete(written);
  }

  /** One body chunk written at the file's cursor; it can not reach past the end of the preallocated file. */
  method Append(file: array<byte>, at: nat, data: seq<byte>, ghost start: nat, ghost obj: seq<byte>)
    requires at + |data| <= file.Length && start + file.Length <= |obj|
    requires Spooled(file, at, obj, start) && data == obj[start + at..start + at + |data|]
    modifies file
    ensures Spooled(file, at + |data|, obj, start)
  {
    var i := 0;
    while i < |data|
      invariant 0 <= i <= |data|
      invariant Spooled(file, at + i, obj, start)
    {
      file[at + i] := data[i];
      i := i + 1;
    }
  }

  // ----- back-off -----

  const MAX_DELAY: nat := 30_000_000_000 // nanoseconds

  /** Capped exponential back-off; the saturating product never binds before the 30 s cap. */
  function RetryDelay(base: nat, retry: nat): nat {
    var d := base * Pow2(if retry < 5 then retry else 5);
    if d < MAX_DELAY then d else MAX_DELAY
  }

  /** The first delay is the base, each of the next five doubles the one before, and the rest stay the same, none of
      them above 30 s. */
  lemma DelaysDouble(base: nat, retry: nat)
    ensures RetryDelay(base, 0) == if base < 30_000_000_000 then base else 30_000_000_000
    ensures retry < 5 ==>
      var twice := 2 * RetryDelay(base, retry);
      RetryDelay(base, retry + 1) == if twice < 30_000_000_000 then twice else 30_000_000_000
    ensures retry >= 5 ==> RetryDelay(base, retry) == RetryDelay(base, 5)
  {
    if retry < 5 {
      hide Pow2;
      Pow2Doubles(retry);
      TwiceTheProduct(base, Pow2(retry));
    }
  }

  lemma Pow2Doubles(n: nat)
    ensures Pow2(n + 1) == 2 * Pow2(n) && Pow2(0) == 1
  {
  }

  lemma TwiceTheProduct(a: nat, b: nat)
    ensures a * (2 * b) == 2 * (a * b)
  {
  }

  /** Delays never shrink from one retry to the next and never exceed 30 s. */
  lemma RetryDelayMonotone(base: nat, a: nat, b: nat)
    requires a <= b
    ensures RetryDelay(base, a) <= RetryDelay(base, b) <= MAX_DELAY
  {
    var x, y := if a < 5 then a else 5, if b < 5 then b else 5;
    Pow2Monotone(x, y);
    MulMonotone(base, Pow2(x), Pow2(y));
  }

  lemma MulMonotone(k: nat, a: nat, b: nat)
    requires a <= b
    ensures k * a <= k * b
  {
  }

  lemma {:induction false} Pow2Monotone(a: nat, b: nat)
    requires a <= b
    ensures Pow2(a) <= Pow2(b)
  {
    if a < b {
      Pow2Monotone(a, b - 1);
    }
  }

  /** Total sleep of the first `retries` retries. */
  function TotalDelay(base: nat, retries: nat): nat {
    if retries == 0 then 0 else TotalDelay(base, retries - 1) + RetryDelay(base, retries - 1)
  }

  lemma {:induction false} TotalDelayBound(base: nat, retries: nat)
    ensures TotalDelay(base, retries) <= MAX_DELAY * retries
  {
    if retries > 0 {
      TotalDelayBound(base, retries - 1);
    }
  }

  // ----- the resume loop -----

  datatype Transfer = Done(retries: nat) | Failed(error: Error, retries: nat)

  function WrappingSucc(n: nat): nat {
    (n + 1) % (U32_MAX + 1)
  }

  /** The resume loop as a recursion over the attempts still allowed. */
  ghost function Resume(src: Source, range: Range, server: nat -> Exchange, flushOk: bool, received: nat, retries: nat)
    : Transfer
    requires range.start <= range.end && received < range.Len() && retries <= src.maxRetries
    decreases src.maxRetries - retries
  {
    match AttemptOutcome(src, range, received, server(retries))
    case Complete(_) => if flushOk then Done(retries) else Failed(Io, retries)
    case Permanent(error) => Failed(error, retries)
    case Transient(written) =>
      if retries >= src.maxRetries then Failed(RetryExhausted(range.start, range.end, WrappingSucc(retries)), retries)
      else Resume(src, range, server, flushOk, received + written, retries + 1)
  }

  /** Download one range against any honest server: attempt `n` is answered by `server(n)`. */
  method DownloadTo(src: Source, range: Range, server: nat -> Exchange, flushOk: bool, ghost obj: seq<byte>)
    returns (r: Transfer, content: seq<byte>, received: nat, attempts: nat, slept: nat)
    requires range.start <= range.end < |obj| && src.len == |obj|
    requires forall n :: Honest(server(n), obj, src)
    ensures r == Resume(src, range, server, flushOk, 0, 0)
    ensures r.Done? ==> content == Slice(obj, range)
    ensures |content| == range.Len() && received <= range.Len()
    ensures content[..received] == obj[range.start..range.start + received]
    ensures attempts == r.retries + 1 <= src.maxRetries + 1
    ensures slept == TotalDelay(src.retryBaseDelay, r.retries) <= MAX_DELAY * src.maxRetries
  {
    hide BodyOutcome, AttemptOutcome, CheckHead, Honest, RetryDelay;
    var file := new byte[range.Len()](_ => 0);
    received, attempts, slept := 0, 0, 0;
    var retries := 0;
    r := Done(0);
    ghost var expected := Resume(src, range, server, flushOk, 0, 0);
    while received < range.Len()
      invariant received <= range.Len() && retries <= src.maxRetries
      invariant slept == TotalDelay(src.retryBaseDelay, retries)
      invariant Spooled(file, received, obj, range.start)
      invariant if received < range.Len()
        then attempts == retries && Resume(src, range, server, flushOk, received, retries) == expected
        else attempts == retries + 1 && expected == if flushOk then Done(retries) else Failed(Io, retries)
      decreases range.Len() - received > 0, src.maxRetries - retries
    {
      var result := DownloadAttempt(src, range, received, server(retries), file, obj);
      attempts := attempts + 1;
      match result {
        case Permanent(error) =>
          r := Failed(error, retries);
          break;
        case Complete(written) =>
          received := received + written;
        case Transient(written) =>
          received := received + written;
          if retries >= src.maxRetries {
            r := Failed(RetryExhausted(range.start, range.end, WrappingSucc(retries)), retries);
            break;
          }
          slept := slept + RetryDelay(src.retryBaseDelay, retries);
          retries := retries + 1;
      }
    }
    if received == range.Len() {
      r := if flushOk then Done(retries) else Failed(Io, retries);
    }
    content := file[..];
    TotalDelayBound(src.retryBaseDelay, retries);
  }

  // ----- what the resume loop decides -----

  /** Bytes on disk before attempt `n`, when every earlier attempt was cut short. */
  ghost function Progress(src: Source, range: Range, server: nat -> Exchange, n: nat): (p: nat)
    requires range.start <= range.end
    ensures p < range.Len()
  {
    if n == 0 then 0
    else
      var p := Progress(src, range, server, n - 1);
      var r := AttemptOutcome(src, range, p, server(n - 1));
      if r.Transient? then p + r.written else p
  }

  ghost function Attempt(src: Source, range: Range, server: nat -> Exchange, n: nat): AttemptResult
    requires range.start <= range.end
  {
    AttemptOutcome(src, range, Progress(src, range, server, n), server(n))
  }

  /** From attempt `n` on, `t` is the verdict of the first attempt that is not cut short, or exhaustion. */
  ghost predicate Stops(src: Source, range: Range, server: nat -> Exchange, flushOk: bool, n: nat, t: Transfer)
    requires range.start <= range.end
  {
    && n <= t.retries <= src.maxRetries
    && (forall k :: n <= k < t.retries ==> Attempt(src, range, server, k).Transient?)
    && (Attempt(src, range, server, t.retries).Transient? ==> t.retries == src.maxRetries)
    && t == match Attempt(src, range, server, t.retries)
            case Complete(_) => if flushOk then Done(t.retries) else Failed(Io, t.retries)
            case Permanent(error) => Failed(error, t.retries)
            case Transient(_) =>
              Failed(RetryExhausted(range.start, range.end, WrappingSucc(src.maxRetries)), src.maxRetries)
  }

  lemma {:induction false} ResumeFrom(src: Source, range: Range, server: nat -> Exchange, flushOk: bool, n: nat)
    requires range.start <= range.end && n <= src.maxRetries
    ensures Stops(src, range, server, flushOk, n,
                  Resume(src, range, server, flushOk, Progress(src, range, server, n), n))
    decreases src.maxRetries - n
  {
    hide AttemptOutcome, WrappingSucc;
    if Attempt(src, range, server, n).Transient? && n < src.maxRetries {
      ResumeFrom(src, range, server, flushOk, n + 1);
    }
  }

  /** The loop stops at the first attempt that is not cut short, or after `maxRetries + 1` attempts. */
  lemma ResumeStopsAtFirstDecision(src: Source, range: Range, server: nat -> Exchange, flushOk: bool)
    requires range.start <= range.end
    ensures var t := Resume(src, range, server, flushOk, 0, 0);
      && t.retries <= src.maxRetries
      && (forall k :: 0 <= k < t.retries ==> Attempt(src, range, server, k).Transient?)
      && (t.Done? <==> flushOk && Attempt(src, range, server, t.retries).Complete?)
      && (t.Failed? && t.error.RetryExhausted?
          <==> forall k :: 0 <= k <= src.maxRetries ==> Attempt(src, range, server, k).Transient?)
  {
    ResumeFrom(src, range, server, flushOk, 0);
    var t := Resume(src, range, server, flushOk, 0, 0);
    var p := Progress(src, range, server, t.retries);
    assert Attempt(src, range, server, t.retries) == AttemptOutcome(src, range, p, server(t.retries));
  }

  /** The reported attempt count is the number of attempts made, unless the retry limit is the largest `u32`. */
  lemma ExhaustionCountExact(src: Source, range: Range, server: nat -> Exchange, flushOk: bool)
    requires range.start <= range.end && src.maxRetries <= U32_MAX
    ensures var t := Resume(src, range, server, flushOk, 0, 0);
      t.Failed? && t.error.RetryExhausted? ==>
        && t.retries == src.maxRetries
        && (t.error.attempts == t.retries + 1 <==> src.maxRetries < U32_MAX)
  {
    ResumeFrom(src, range, server, flushOk, 0);
  }

  /** For instance: against a server that never answers, the largest retry limit is reported as no attempt at all. */
  lemma NoAnswerReportsZero(src: Source, range: Range, server: nat -> Exchange, flushOk: bool)
    requires range.start <= range.end && src.maxRetries == U32_MAX && forall n :: server(n) == NoResponse
    ensures Resume(src, range, server, flushOk, 0, 0) == Failed(RetryExhausted(range.start, range.end, 0), U32_MAX)
  {
    ResumeFrom(src, range, server, flushOk, 0);
    var t := Resume(src, range, server, flushOk, 0, 0);
    assert Attempt(src, range, server, t.retries).Transient?;
  }
}
