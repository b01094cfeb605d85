/** Cache warming: a pass over the pinned targets queues a build for every commit that is missing from the cache and
    has no build in flight or recently failed. Other passes and workers change the queue meanwhile. */
module Warming {
  /** A queued, claimed or running build is in flight; a failed or cancelled one carries the time it ended. */
  datatype Status = InFlight | Failed(at: int) | Completed

  datatype Job = Job(repo: int, commit: string, queuedAt: int, status: Status)

  datatype Target = Target(repo: int, commit: string)

  /** Six hours, in seconds. */
  const RETRY_COOLDOWN: int := 6 * 3600

  predicate Blocks(job: Job, t: Target, since: int) {
    && job.repo == t.repo && job.commit == t.commit
    && (job.status.InFlight? || (job.status.Failed? && job.status.at >= since))
  }

  /** A build of this commit for this repo is in flight, or failed at or after `since`. */
  ghost predicate Recent(jobs: seq<Job>, t: Target, since: int) {
    exists i :: 0 <= i < |jobs| && Blocks(jobs[i], t, since)
  }

  /** A build in flight blocks, a completed one does not, and a failed one does for six hours. */
  lemma BlocksExactly(job: Job, t: Target, now: int)
    ensures Blocks(job, t, now - RETRY_COOLDOWN) <==>
      && t == Target(job.repo, job.commit)
      && (job.status == InFlight || (job.status.Failed? && now <= job.status.at + 21_600))
  {
  }

  // ----- one pass -----

  /** How a submission fares: acknowledged, refused, or carried out although the caller hears of a failure. */
  datatype Fate = Acked | Refused | Unheard

  /** What a pass meets at its `i`-th target: whether the cache holds the commit, whether the query and the submission
      work, and what others make of the queue before the query and between the query and the submission. */
  datatype World = World(
    cached: nat -> bool,
    queryOk: nat -> bool,
    submit: nat -> Fate,
    before: (nat, seq<Job>) -> seq<Job>,
    between: (nat, seq<Job>) -> seq<Job>)

  /** What became of a target. */
  datatype Outcome = Cached | Seen | QueryFailed | Blocked | Queued | SubmitFailed(applied: bool)

  /** An earlier target of the pass got this commit queued, and the pass knows. */
  ghost predicate HasQueued(targets: seq<Target>, log: seq<Outcome>, commit: string)
    requires |log| <= |targets|
  {
    exists k :: 0 <= k < |log| && log[k].Queued? && targets[k].commit == commit
  }

  function Submitted(fate: Fate): Outcome {
    match fate
    case Acked => Queued
    case Refused => SubmitFailed(false)
    case Unheard => SubmitFailed(true)
  }

  /** The outcome of the next target, the query made of queue `asked`. */
  ghost function Decide(w: World, targets: seq<Target>, now: int, log: seq<Outcome>, asked: seq<Job>): Outcome
    requires |log| < |targets|
  {
    var i := |log|;
    if w.cached(i) then Cached
    else if HasQueued(targets, log, targets[i].commit) then Seen
    else if !w.queryOk(i) then QueryFailed
    else if Recent(asked, targets[i], now - RETRY_COOLDOWN) then Blocked
    else Submitted(w.submit(i))
  }

  function NewJob(t: Target, now: int): Job {
    Job(t.repo, t.commit, now, InFlight)
  }

  /** The queue after a target with this outcome. */
  function QueueAfter(w: World, t: Target, now: int, i: nat, asked: seq<Job>, o: Outcome): seq<Job> {
    match o
    case Queued => w.between(i, asked) + [NewJob(t, now)]
    case SubmitFailed(true) => w.between(i, asked) + [NewJob(t, now)]
    case SubmitFailed(false) => w.between(i, asked)
    case _ => asked
  }

  /** The queue and the outcomes after the first `n` targets of a pass. */
  ghost function Warmed(w: World, jobs: seq<Job>, targets: seq<Target>, now: int, n: nat): (r: (seq<Job>, seq<Outcome>))
    requires n <= |targets|
    ensures |r.1| == n
  {
    if n == 0 then (jobs, [])
    else
      var (before, log) := Warmed(w, jobs, targets, now, n - 1);
      var asked := w.before(n - 1, before);
      var o := Decide(w, targets, now, log, asked);
      (QueueAfter(w, targets[n - 1], now, n - 1, asked, o), log + [o])
  }

  /** The queue as the pass finds it when it comes to target `i`. */
  ghost function AskedAt(w: World, jobs: seq<Job>, targets: seq<Target>, now: int, i: nat): seq<Job>
    requires i < |targets|
  {
    w.before(i, Warmed(w, jobs, targets, now, i).0)
  }

  class JobQueue {
    var jobs: seq<Job>

    constructor ()
      ensures jobs == []
    {
      jobs := [];
    }

    /** The store's dedup query. */
    method RecentBuildAttempt(t: Target, since: int) returns (found: bool)
      ensures found <==> Recent(jobs, t, since)
    {
      var i := 0;
      while i < |jobs|
        invariant 0 <= i <= |jobs|
        invariant forall k :: 0 <= k < i ==> !Blocks(jobs[k], t, since)
      {
        if Blocks(jobs[i], t, since) {
          return true;
        }
        i := i + 1;
      }
      return false;
    }

    /** The pass, with `world` playing everyone else. */
    method WarmMissing(world: World, targets: seq<Target>, now: int) returns (log: seq<Outcome>)
      modifies this
      ensures (jobs, log) == Warmed(world, old(jobs), targets, now, |targets|)
    {
      hide Blocks, Recent;
      var since := now - RETRY_COOLDOWN;
      var seen: set<string> := {};
      log := [];
      for i := 0 to |targets|
        invariant jobs == Warmed(world, old(jobs), targets, now, i).0
        invariant log == Warmed(world, old(jobs), targets, now, i).1
        invariant forall commit :: commit in seen <==> HasQueued(targets, log, commit)
      {
        var t := targets[i];
        jobs := world.before(i, jobs);
        var o: Outcome;
        if world.cached(i) {
          o := Cached;
        } else if t.commit in seen {
          o := Seen;
        } else if !world.queryOk(i) {
          o := QueryFailed;
        } else {
          var found := RecentBuildAttempt(t, since);
          if found {
            o := Blocked;
          } else {
            jobs := world.between(i, jobs);
            o := Submitted(world.submit(i));
            if !world.submit(i).Refused? {
              jobs := jobs + [NewJob(t, now)];
            }
          }
        }
        QueuedOneMore(targets, log, o);
        if o.Queued? {
          seen := seen + {t.commit};
        }
        log := log + [o];
      }
    }
  }

  lemma QueuedOneMore(targets: seq<Target>, log: seq<Outcome>, o: Outcome)
    requires |log| < |targets|
    ensures forall commit :: HasQueued(targets, log + [o], commit) <==>
      HasQueued(targets, log, commit) || (o.Queued? && targets[|log|].commit == commit)
  {
    var more := log + [o];
    forall commit ensures HasQueued(targets, more, commit) <==>
      HasQueued(targets, log, commit) || (o.Queued? && targets[|log|].commit == commit)
    {
      if HasQueued(targets, log, commit) {
        var k :| 0 <= k < |log| && log[k].Queued? && targets[k].commit == commit;
        assert more[k] == log[k];
      }
      assert more[|log|] == o;
    }
  }

  // ----- what a pass queues -----

  /** The log of a whole pass. */
  ghost function LogOf(w: World, jobs: seq<Job>, targets: seq<Target>, now: int): (log: seq<Outcome>)
    ensures |log| == |targets|
  {
    Warmed(w, jobs, targets, now, |targets|).1
  }

  /** Every entry of the log was decided on what the pass knew and found at that target. */
  lemma {:induction false} LogAt(w: World, jobs: seq<Job>, targets: seq<Target>, now: int, n: nat, i: nat)
    requires i < n <= |targets|
    ensures var log := Warmed(w, jobs, targets, now, n).1;
      && log[..i] == Warmed(w, jobs, targets, now, i).1
      && log[i] == Decide(w, targets, now, log[..i], AskedAt(w, jobs, targets, now, i))
  {
    hide Decide, QueueAfter;
    var log, shorter := Warmed(w, jobs, targets, now, n).1, Warmed(w, jobs, targets, now, n - 1).1;
    if i < n - 1 {
      LogAt(w, jobs, targets, now, n - 1, i);
      assert log[..i] == shorter[..i];
    } else {
      assert log[..i] == shorter;
    }
  }

  /** What each entry of the log says of the moment the pass came to that target. */
  lemma LogMeans(w: World, jobs: seq<Job>, targets: seq<Target>, now: int, i: nat)
    requires i < |targets|
    ensures var o, t := LogOf(w, jobs, targets, now)[i], targets[i];
      var blocked := Recent(AskedAt(w, jobs, targets, now, i), t, now - RETRY_COOLDOWN);
      var seen := HasQueued(targets, LogOf(w, jobs, targets, now)[..i], t.commit);
      && (o == Cached <==> w.cached(i))
      && (o == Seen <==> !w.cached(i) && seen)
      && (o == QueryFailed <==> !w.cached(i) && !seen && !w.queryOk(i))
      && (o == Blocked <==> !w.cached(i) && !seen && w.queryOk(i) && blocked)
      && (o == Queued <==> !w.cached(i) && !seen && w.queryOk(i) && !blocked && w.submit(i) == Acked)
  {
    hide Warmed, Recent, HasQueued;
    LogAt(w, jobs, targets, now, |targets|, i);
  }

  /** A pass knows a commit it has queued, so it queues no commit twice. */
  lemma QueuedOnce(w: World, jobs: seq<Job>, targets: seq<Target>, now: int, i: nat, j: nat)
    requires i < j < |targets| && targets[i].commit == targets[j].commit
    requires LogOf(w, jobs, targets, now)[i].Queued?
    ensures !LogOf(w, jobs, targets, now)[j].Queued? && !LogOf(w, jobs, targets, now)[j].SubmitFailed?
  {
    hide Warmed, Recent;
    LogAt(w, jobs, targets, now, |targets|, j);
    var before := LogOf(w, jobs, targets, now)[..j];
    assert before[i].Queued?;
    assert HasQueued(targets, before, targets[j].commit);
  }

  ghost predicate Faultless(w: World) {
    forall i: nat :: w.queryOk(i) && w.submit(i).Acked?
  }

  /** Not in the cache, and no build of this repo's blocks it, when the pass comes to target `i`. */
  ghost predicate NeededAt(w: World, jobs: seq<Job>, targets: seq<Target>, now: int, i: nat)
    requires i < |targets|
  {
    !w.cached(i) && !Recent(AskedAt(w, jobs, targets, now, i), targets[i], now - RETRY_COOLDOWN)
  }

  /** Whatever others do to the queue meanwhile, a pass without faults queues a commit exactly when some target pins it
      that is needed at the moment the pass comes to it. */
  lemma QueuedExactly(w: World, jobs: seq<Job>, targets: seq<Target>, now: int, commit: string)
    requires Faultless(w)
    ensures HasQueued(targets, LogOf(w, jobs, targets, now), commit) <==>
      exists i :: 0 <= i < |targets| && targets[i].commit == commit && NeededAt(w, jobs, targets, now, i)
  {
    hide Warmed, Recent, AskedAt;
    var log := LogOf(w, jobs, targets, now);
    if HasQueued(targets, log, commit) {
      var k :| 0 <= k < |log| && log[k].Queued? && targets[k].commit == commit;
      LogAt(w, jobs, targets, now, |targets|, k);
      assert NeededAt(w, jobs, targets, now, k);
    }
    if i :| 0 <= i < |targets| && targets[i].commit == commit && NeededAt(w, jobs, targets, now, i) {
      LogAt(w, jobs, targets, now, |targets|, i);
      if log[i].Seen? {
        var k :| 0 <= k < |log[..i]| && log[..i][k].Queued? && targets[k].commit == commit;
        assert log[k].Queued?;
      } else {
        assert log[i].Queued?;
      }
    }
  }

  /** After a pass without faults every target is cached, blocked by a build of its own repo, or queued. */
  lemma EveryTargetIsServed(w: World, jobs: seq<Job>, targets: seq<Target>, now: int, i: nat)
    requires Faultless(w) && i < |targets|
    ensures !NeededAt(w, jobs, targets, now, i) || HasQueued(targets, LogOf(w, jobs, targets, now), targets[i].commit)
  {
    hide Warmed, Recent, AskedAt, NeededAt, HasQueued;
    QueuedExactly(w, jobs, targets, now, targets[i].commit);
  }

  // ----- passes that nobody disturbs -----

  /** Nothing is cached, nothing fails, and nobody else touches the queue. */
  function Alone(): World {
    World(_ => false, _ => true, _ => Acked, (_, jobs) => jobs, (_, jobs) => jobs)
  }

  /** The dedup is per repo while the cache is per commit: when two repos pin one commit, the second of two undisturbed
      passes queues it again for the other repo although the first build is still in flight. */
  lemma TwoReposBuildTwice(commit: string, a: int, b: int, now: int, later: int)
    requires a != b
    ensures var targets := [Target(a, commit), Target(b, commit)];
      var first, second := NewJob(Target(a, commit), now), NewJob(Target(b, commit), later);
      && Warmed(Alone(), [], targets, now, 2) == ([first], [Queued, Seen])
      && Warmed(Alone(), [first], targets, later, 2) == ([first, second], [Blocked, Queued])
  {
    var targets := [Target(a, commit), Target(b, commit)];
    var first, second := NewJob(targets[0], now), NewJob(targets[1], later);
    WarmOne([], targets, now, 0, ([], []), Queued, [first], [Queued]);
    assert [Queued][0].Queued? && HasQueued(targets, [Queued], commit);
    WarmOne([], targets, now, 1, ([first], [Queued]), Seen, [first], [Queued, Seen]);
    assert Blocks([first][0], targets[0], later - RETRY_COOLDOWN);
    WarmOne([first], targets, later, 0, ([first], []), Blocked, [first], [Blocked]);
    WarmOne([first], targets, later, 1, ([first], [Blocked]), Queued, [first, second], [Blocked, Queued]);
  }

  /** One more target of an undisturbed pass. */
  lemma WarmOne(jobs: seq<Job>, targets: seq<Target>, now: int, i: nat, was: (seq<Job>, seq<Outcome>),
                o: Outcome, queue: seq<Job>, log: seq<Outcome>)
    requires i < |targets| && Warmed(Alone(), jobs, targets, now, i) == was
    requires o == Decide(Alone(), targets, now, was.1, was.0)
    requires queue == QueueAfter(Alone(), targets[i], now, i, was.0, o) && log == was.1 + [o]
    ensures Warmed(Alone(), jobs, targets, now, i + 1) == (queue, log)
  {
    hide Decide, QueueAfter;
  }
}
