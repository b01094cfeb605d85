/** One recompute of the pin manager: resolve, protect, warm. */
module PinManager {
  import opened Wrappers
  import opened LsRemote
  import P = Pins
  import opened BinaryCache
  import W = Warming
  import R = CacheRuns

  function CommitsOf(targets: seq<P.Target>): set<string> {
    set t | t in targets :: t.ref.commit
  }

  /** The cache holds a binary of this commit for this environment. */
  ghost predicate HoldsFor(entries: seq<Entry>, commit: string, env: string) {
    exists i :: 0 <= i < |entries| && Wanted(entries[i], {commit}, env)
  }

  function ToWarm(targets: seq<P.Target>): seq<W.Target> {
    seq(|targets|, i requires 0 <= i < |targets| => W.Target(targets[i].repo, targets[i].ref.commit))
  }

  /** `world` answers the pass about the cache as `cacheAt` has it when the pass comes to each target. */
  ghost predicate Answers(world: W.World, cacheAt: nat -> seq<Entry>, targets: seq<P.Target>, env: string) {
    forall i :: 0 <= i < |targets| ==> (world.cached(i) <==> HoldsFor(cacheAt(i), targets[i].ref.commit, env))
  }

  /** When the pass came to the target its binary was cached, or a build of it was in flight or cooling down for its
      repo, or the pass queued one. */
  ghost predicate Served(world: W.World, cacheAt: nat -> seq<Entry>, jobs: seq<W.Job>, targets: seq<P.Target>,
                         env: string, now: int, log: seq<W.Outcome>, i: nat)
    requires i < |targets| == |log|
  {
    var warm := ToWarm(targets);
    || HoldsFor(cacheAt(i), targets[i].ref.commit, env)
    || W.Recent(W.AskedAt(world, jobs, warm, now, i), W.Target(targets[i].repo, targets[i].ref.commit),
                now - W.RETRY_COOLDOWN)
    || W.HasQueued(warm, log, targets[i].ref.commit)
  }

  /** An entry is pinned exactly when some target, branch or tag, is at its commit and it was built for `env`. */
  ghost predicate PinnedFor(e: Entry, targets: seq<P.Target>, env: string) {
    e.pinned <==> e.env == env && exists k :: 0 <= k < |targets| && targets[k].ref.commit == e.commit
  }

  class Manager {
    const cache: Store
    const queue: W.JobQueue

    constructor (cache: Store, queue: W.JobQueue)
      ensures this.cache == cache && this.queue == queue
    {
      this.cache := cache;
      this.queue := queue;
    }

    /** Protecting is all or nothing: either one repo fails to resolve and no pin changes, or the step is exactly a
        resolved recompute of the cache. */
    method RecomputePins(policies: seq<P.Policy>, remote: int -> P.Resolution, selects: (P.Policy, RemoteRef) -> bool,
                         env: string, now: int, stuck: set<string>) returns (targets: seq<P.Target>)
      modifies cache
      ensures !P.AllResolve(policies, remote) ==> targets == [] && cache.entries == old(cache.entries)
      ensures P.AllResolve(policies, remote) ==>
        && (forall t :: t in targets <==> P.IsTarget(policies, remote, selects, now, t))
        && R.EvictedTo(Repin(old(cache.entries), CommitsOf(targets), env, stuck), cache.maxBytes, stuck, cache.entries)
        && forall i :: 0 <= i < |cache.entries| && cache.entries[i].digest !in stuck ==>
             PinnedFor(cache.entries[i], targets, env)
    {
      var resolved := P.Resolve(policies, remote, selects, now);
      if resolved.None? {
        return [];
      }
      targets := resolved.value;
      cache.SetPinnedByCommit(CommitsOf(targets), env, stuck);
      var gone := cache.EvictToBudget(stuck);
      forall i | 0 <= i < |cache.entries| && cache.entries[i].digest !in stuck
        ensures PinnedFor(cache.entries[i], targets, env)
      {
        SurvivorIsPinned(old(cache.entries), CommitsOf(targets), env, stuck, cache.maxBytes, cache.entries, i);
      }
    }

    /** After a recompute without query or submission faults every pinned ref is served, whatever other jobs do to the
        cache and the queue while the pass runs. */
    method Recompute(policies: seq<P.Policy>, remote: int -> P.Resolution, selects: (P.Policy, RemoteRef) -> bool,
                     env: string, now: int, stuck: set<string>, world: W.World, ghost cacheAt: nat -> seq<Entry>)
      returns (targets: seq<P.Target>, log: seq<W.Outcome>)
      modifies cache, queue
      ensures !P.AllResolve(policies, remote) ==> cache.entries == old(cache.entries) && queue.jobs == old(queue.jobs)
      ensures P.AllResolve(policies, remote) ==>
        && (forall t :: t in targets <==> P.IsTarget(policies, remote, selects, now, t))
        && R.EvictedTo(Repin(old(cache.entries), CommitsOf(targets), env, stuck), cache.maxBytes, stuck, cache.entries)
      ensures (queue.jobs, log) == W.Warmed(world, old(queue.jobs), ToWarm(targets), now, |targets|)
      ensures W.Faultless(world) && Answers(world, cacheAt, targets, env) ==>
        forall i :: 0 <= i < |targets| ==> Served(world, cacheAt, old(queue.jobs), targets, env, now, log, i)
    {
      hide P.IsTarget, P.AllResolve, R.EvictedTo, W.Warmed, Served, Answers;
      ghost var jobs := queue.jobs;
      targets := RecomputePins(policies, remote, selects, env, now, stuck);
      log := queue.WarmMissing(world, ToWarm(targets), now);
      if !P.AllResolve(policies, remote) {
        NothingToWarm(world, jobs, now);
      }
      if W.Faultless(world) && Answers(world, cacheAt, targets, env) {
        AllServed(world, cacheAt, jobs, targets, env, now);
        assert log == W.LogOf(world, jobs, ToWarm(targets), now);
      }
    }
  }

  lemma NothingToWarm(world: W.World, jobs: seq<W.Job>, now: int)
    ensures W.Warmed(world, jobs, ToWarm([]), now, 0).0 == jobs
  {
  }

  lemma AllServed(world: W.World, cacheAt: nat -> seq<Entry>, jobs: seq<W.Job>, targets: seq<P.Target>,
                  env: string, now: int)
    requires W.Faultless(world) && Answers(world, cacheAt, targets, env)
    ensures forall i :: 0 <= i < |targets| ==>
      Served(world, cacheAt, jobs, targets, env, now, W.LogOf(world, jobs, ToWarm(targets), now), i)
  {
    hide W.Warmed, W.Recent, W.HasQueued, HoldsFor, W.AskedAt;
    var warm := ToWarm(targets);
    forall i | 0 <= i < |targets|
      ensures Served(world, cacheAt, jobs, targets, env, now, W.LogOf(world, jobs, warm, now), i)
    {
      W.EveryTargetIsServed(world, jobs, warm, now, i);
    }
  }

  /** Between the eviction and the first other step, what the cache holds of a target is pinned. */
  lemma SurvivorIsPinned(before: seq<Entry>, commits: set<string>, env: string, stuck: set<string>,
                         maxBytes: nat, entries: seq<Entry>, i: nat)
    requires R.EvictedTo(Repin(before, commits, env, stuck), maxBytes, stuck, entries)
    requires i < |entries| && entries[i].digest !in stuck
    ensures entries[i].pinned <==> Wanted(entries[i], commits, env)
  {
    hide Total, LeastRecent, OldestFirst, NoneEvictable, AllEvictable;
    var pinned := Repin(before, commits, env, stuck);
    var gone :| Evicted(pinned, maxBytes, stuck, entries, gone);
    assert entries[i] in multiset(pinned);
    var j :| 0 <= j < |pinned| && pinned[j] == entries[i];
    assert pinned[j] == Repinned(before[j], commits, env, stuck);
  }
}
