/** Runs of the binary cache: pin recomputes, publishes and hits interleave, each holding the store's lock, except
    that a hit loads its metadata before it takes the lock. */
module CacheRuns {
  import opened BinaryCache

  /** `loads` are the metadata copies held by hits that have not written back yet. */
  datatype State = State(entries: seq<Entry>, loads: seq<Entry>)

  /** A recompute is two steps, `Repinning` and `Evicting`, and any other may come between. `Losing` is a publish that
      failed after it cleared the old entry away. */
  datatype Step =
    | Repinning(commits: set<string>, env: string, stuck: set<string>)
    | Evicting(stuck: set<string>)
    | Publishing(entry: Entry, stuck: set<string>)
    | Losing(digest: string)
    | Loading(i: nat)
    | Touching(k: nat, now: nat)

  ghost predicate Holds(entries: seq<Entry>, digest: string) {
    exists i :: 0 <= i < |entries| && entries[i].digest == digest
  }

  ghost predicate Pinned(entries: seq<Entry>, digest: string) {
    exists i :: 0 <= i < |entries| && entries[i].digest == digest && entries[i].pinned
  }

  ghost predicate EvictedTo(before: seq<Entry>, maxBytes: nat, spared: set<string>, after: seq<Entry>) {
    exists gone :: Evicted(before, maxBytes, spared, after, gone)
  }

  ghost predicate Next(maxBytes: nat, s: State, step: Step, t: State) {
    match step
    case Repinning(commits, env, stuck) => t == s.(entries := Repin(s.entries, commits, env, stuck))
    case Evicting(stuck) => t.loads == s.loads && EvictedTo(s.entries, maxBytes, stuck, t.entries)
    case Publishing(e, stuck) =>
      && Intact(e) && t.loads == s.loads
      && EvictedTo(Without(s.entries, e.digest) + [e], maxBytes, stuck + {e.digest}, t.entries)
    case Losing(digest) => t == s.(entries := Without(s.entries, digest))
    case Loading(i) => i < |s.entries| && Intact(s.entries[i]) && t == s.(loads := s.loads + [s.entries[i]])
    case Touching(k, now) =>
      && k < |s.loads|
      && t.entries == WriteBack(s.entries, s.loads[k].(lastUsed := now))
      && t.loads == s.loads[..k] + s.loads[k + 1..]
  }

  // ----- one step -----

  ghost predicate PinWanted(entries: seq<Entry>, digest: string, commits: set<string>, env: string) {
    exists i :: 0 <= i < |entries| && entries[i].digest == digest && Wanted(entries[i], commits, env)
  }

  /** Whether the entry is pinned after a step, from the state before it. */
  ghost predicate PinnedAfter(s: State, step: Step, digest: string) {
    match step
    case Repinning(commits, env, stuck) =>
      if digest in stuck then Pinned(s.entries, digest) else PinWanted(s.entries, digest, commits, env)
    case Publishing(e, stuck) => if e.digest == digest then e.pinned else Pinned(s.entries, digest)
    case Losing(lost) => lost != digest && Pinned(s.entries, digest)
    case Touching(k, now) =>
      if k < |s.loads| && s.loads[k].digest == digest && Holds(s.entries, digest) then s.loads[k].pinned
      else Pinned(s.entries, digest)
    case _ => Pinned(s.entries, digest)
  }

  /** Eviction neither drops a pin nor makes one. */
  lemma EvictionKeepsPins(before: seq<Entry>, maxBytes: nat, spared: set<string>, after: seq<Entry>, digest: string)
    requires EvictedTo(before, maxBytes, spared, after)
    ensures Pinned(before, digest) <==> Pinned(after, digest)
  {
    hide Total, LeastRecent, OldestFirst, NoneEvictable;
    var gone :| Evicted(before, maxBytes, spared, after, gone);
    if Pinned(before, digest) {
      var i :| 0 <= i < |before| && before[i].digest == digest && before[i].pinned;
      assert before[i] in multiset(before);
      assert before[i] !in gone;
      assert before[i] in multiset(after);
      var j :| 0 <= j < |after| && after[j] == before[i];
    }
    if Pinned(after, digest) {
      var i :| 0 <= i < |after| && after[i].digest == digest && after[i].pinned;
      assert after[i] in multiset(before);
      var j :| 0 <= j < |before| && before[j] == after[i];
    }
  }

  lemma RepinPins(entries: seq<Entry>, commits: set<string>, env: string, stuck: set<string>, digest: string)
    ensures Pinned(Repin(entries, commits, env, stuck), digest) <==>
      if digest in stuck then Pinned(entries, digest) else PinWanted(entries, digest, commits, env)
  {
    var after := Repin(entries, commits, env, stuck);
    if Pinned(after, digest) {
      var i :| 0 <= i < |after| && after[i].digest == digest && after[i].pinned;
      assert entries[i].digest == digest;
    }
    if digest in stuck && Pinned(entries, digest) {
      var i :| 0 <= i < |entries| && entries[i].digest == digest && entries[i].pinned;
      assert after[i] == entries[i];
    }
    if digest !in stuck && PinWanted(entries, digest, commits, env) {
      var i :| 0 <= i < |entries| && entries[i].digest == digest && Wanted(entries[i], commits, env);
      assert after[i].pinned;
    }
  }

  lemma {:induction false} WithoutPins(entries: seq<Entry>, removed: string, digest: string)
    ensures Pinned(Without(entries, removed), digest) <==> digest != removed && Pinned(entries, digest)
  {
    if entries != [] {
      WithoutPins(entries[1..], removed, digest);
      PinnedConcat([entries[0]], entries[1..], digest);
      assert entries == [entries[0]] + entries[1..];
      var head := if entries[0].digest == removed then [] else [entries[0]];
      PinnedConcat(head, Without(entries[1..], removed), digest);
    }
  }

  lemma PinnedConcat(a: seq<Entry>, b: seq<Entry>, digest: string)
    ensures Pinned(a + b, digest) <==> Pinned(a, digest) || Pinned(b, digest)
  {
    var c := a + b;
    if Pinned(a, digest) {
      var i :| 0 <= i < |a| && a[i].digest == digest && a[i].pinned;
      assert c[i] == a[i];
    }
    if Pinned(b, digest) {
      var i :| 0 <= i < |b| && b[i].digest == digest && b[i].pinned;
      assert c[|a| + i] == b[i];
    }
  }

  lemma WriteBackPins(entries: seq<Entry>, meta: Entry, digest: string)
    ensures Pinned(WriteBack(entries, meta), digest) <==>
      if meta.digest == digest && Holds(entries, digest) then meta.pinned else Pinned(entries, digest)
  {
    var after := WriteBack(entries, meta);
    if Pinned(after, digest) {
      var i :| 0 <= i < |after| && after[i].digest == digest && after[i].pinned;
      assert entries[i].digest == digest;
    }
    if Pinned(entries, digest) {
      var i :| 0 <= i < |entries| && entries[i].digest == digest && entries[i].pinned;
      assert after[i].digest == digest;
    }
    if Holds(entries, digest) {
      var i :| 0 <= i < |entries| && entries[i].digest == digest;
      assert after[i].digest == digest;
    }
  }

  /** Every step leaves a binary pinned exactly when its rule says so; eviction decides nothing. */
  lemma StepPins(maxBytes: nat, s: State, step: Step, t: State, digest: string)
    requires Next(maxBytes, s, step, t)
    ensures Pinned(t.entries, digest) <==> PinnedAfter(s, step, digest)
  {
    hide Pinned, PinWanted, EvictedTo, Repin, Without, WriteBack;
    match step {
      case Repinning(commits, env, stuck) => RepinPins(s.entries, commits, env, stuck, digest);
      case Evicting(stuck) => EvictionKeepsPins(s.entries, maxBytes, stuck, t.entries, digest);
      case Publishing(e, stuck) =>
        var published := Without(s.entries, e.digest) + [e];
        WithoutPins(s.entries, e.digest, digest);
        PinnedConcat(Without(s.entries, e.digest), [e], digest);
        PinnedOne(e, digest);
        EvictionKeepsPins(published, maxBytes, stuck + {e.digest}, t.entries, digest);
      case Losing(lost) => WithoutPins(s.entries, lost, digest);
      case Touching(k, now) => WriteBackPins(s.entries, s.loads[k].(lastUsed := now), digest);
      case _ =>
    }
  }

  lemma PinnedOne(e: Entry, digest: string)
    ensures Pinned([e], digest) <==> e.digest == digest && e.pinned
  {
    assert [e][0] == e;
  }

  // ----- runs -----

  ghost predicate Run(maxBytes: nat, states: seq<State>, steps: seq<Step>) {
    && |states| == |steps| + 1
    && forall i :: 0 <= i < |steps| ==> Next(maxBytes, states[i], steps[i], states[i + 1])
  }

  /** Every step has an outcome in every state: eviction always ends, and nothing that others do is ruled out. */
  lemma NothingIsRuledOut(maxBytes: nat, s: State, e: Entry, commits: set<string>, env: string, stuck: set<string>,
                          i: nat, k: nat, now: nat)
    returns (repinned: State, evicted: State, published: State, lost: State)
    requires Intact(e)
    ensures Next(maxBytes, s, Repinning(commits, env, stuck), repinned)
    ensures Next(maxBytes, s, Evicting(stuck), evicted)
    ensures Next(maxBytes, s, Publishing(e, stuck), published)
    ensures Next(maxBytes, s, Losing(e.digest), lost)
    ensures i < |s.entries| && Intact(s.entries[i]) ==>
      Next(maxBytes, s, Loading(i), s.(loads := s.loads + [s.entries[i]]))
    ensures k < |s.loads| ==>
      Next(maxBytes, s, Touching(k, now),
           State(WriteBack(s.entries, s.loads[k].(lastUsed := now)), s.loads[..k] + s.loads[k + 1..]))
  {
    hide Evicted;
    repinned := s.(entries := Repin(s.entries, commits, env, stuck));
    var kept, gone := EvictionExists(s.entries, maxBytes, stuck);
    evicted := s.(entries := kept);
    var kept', gone' := EvictionExists(Without(s.entries, e.digest) + [e], maxBytes, stuck + {e.digest});
    published := s.(entries := kept');
    lost := s.(entries := Without(s.entries, e.digest));
  }

  /** What can be asked of an entry: its flag, or that its record and its binary are the given one. */
  datatype Aspect = Flag(on: bool) | Record(binary: Binary)

  predicate Shows(e: Entry, aspect: Aspect) {
    match aspect
    case Flag(on) => e.pinned == on
    case Record(binary) => e.recorded == binary && e.binary == binary
  }

  /** Whether writing a loaded copy back would leave the entry showing it. */
  predicate Agrees(loaded: Entry, aspect: Aspect) {
    match aspect
    case Flag(on) => loaded.pinned == on
    case Record(binary) => loaded.recorded == binary
  }

  ghost predicate AllShow(entries: seq<Entry>, digest: string, aspect: Aspect) {
    forall i :: 0 <= i < |entries| && entries[i].digest == digest ==> Shows(entries[i], aspect)
  }

  ghost predicate CopiesAgree(loads: seq<Entry>, digest: string, aspect: Aspect) {
    forall k :: 0 <= k < |loads| && loads[k].digest == digest ==> Agrees(loads[k], aspect)
  }

  /** A step that does not itself decide the aspect: no publish of the entry, and no new pins for its flag. */
  predicate Bystander(step: Step, digest: string, aspect: Aspect) {
    match step
    case Repinning(_, _, _) => aspect.Record?
    case Publishing(e, _) => e.digest != digest
    case Losing(lost) => lost != digest
    case _ => true
  }

  /** Every continuation by such steps, whatever they are and however long, ends with the entry as it is. */
  ghost predicate Lasts(maxBytes: nat, s: State, digest: string, aspect: Aspect) {
    forall states: seq<State>, steps: seq<Step> ::
      Run(maxBytes, states, steps) && states[0] == s && AllBystanders(steps, digest, aspect) ==>
        AllShow(states[|steps|].entries, digest, aspect)
  }

  predicate AllBystanders(steps: seq<Step>, digest: string, aspect: Aspect) {
    forall i :: 0 <= i < |steps| ==> Bystander(steps[i], digest, aspect)
  }

  /** What keeps an aspect: every entry shows it, and if there is one, no copy in flight would change it. */
  ghost predicate Secure(s: State, digest: string, aspect: Aspect) {
    && AllShow(s.entries, digest, aspect)
    && (Holds(s.entries, digest) ==> CopiesAgree(s.loads, digest, aspect))
  }

  /** Every entry under `digest` after the step was there before it, but for its time and a flag not asked for. */
  ghost predicate FromBefore(before: seq<Entry>, after: seq<Entry>, digest: string) {
    forall i :: 0 <= i < |after| && after[i].digest == digest ==> after[i] in before
  }

  lemma EvictionIsFromBefore(before: seq<Entry>, maxBytes: nat, spared: set<string>, after: seq<Entry>)
    requires EvictedTo(before, maxBytes, spared, after)
    ensures forall e :: e in after ==> e in before
  {
    hide Total, LeastRecent, OldestFirst, NoneEvictable, AllEvictable;
    var gone :| Evicted(before, maxBytes, spared, after, gone);
    forall e | e in after ensures e in before {
      assert e in multiset(before);
    }
  }

  lemma {:induction false} WithoutIsFrom(entries: seq<Entry>, removed: string, i: nat)
    requires i < |Without(entries, removed)|
    ensures Without(entries, removed)[i] in entries && Without(entries, removed)[i].digest != removed
  {
    if entries[0].digest == removed {
      WithoutIsFrom(entries[1..], removed, i);
    } else if i > 0 {
      WithoutIsFrom(entries[1..], removed, i - 1);
    }
  }

  /** Only the entry of that digest is taken out. */
  lemma {:induction false} WithoutExactly(entries: seq<Entry>, removed: string, e: Entry)
    ensures e in Without(entries, removed) <==> e in entries && e.digest != removed
  {
    if entries != [] {
      WithoutExactly(entries[1..], removed, e);
      assert entries == [entries[0]] + entries[1..];
    }
  }

  lemma StoreStepIsFromBefore(maxBytes: nat, s: State, step: Step, t: State, digest: string)
    requires Next(maxBytes, s, step, t) && (step.Evicting? || step.Publishing? || step.Losing?)
    requires step.Publishing? ==> step.entry.digest != digest
    ensures FromBefore(s.entries, t.entries, digest) && t.loads == s.loads
  {
    hide EvictedTo, Without;
    if !step.Evicting? {
      var removed := if step.Publishing? then step.entry.digest else step.digest;
      var rest := Without(s.entries, removed);
      forall i | 0 <= i < |rest| ensures rest[i] in s.entries {
        WithoutIsFrom(s.entries, removed, i);
      }
      if step.Publishing? {
        var all := rest + [step.entry];
        EvictionIsFromBefore(all, maxBytes, step.stuck + {removed}, t.entries);
        forall i | 0 <= i < |t.entries| && t.entries[i].digest == digest ensures t.entries[i] in s.entries {
          assert t.entries[i] in all;
        }
      }
    } else {
      EvictionIsFromBefore(s.entries, maxBytes, step.stuck, t.entries);
    }
  }

  lemma FromBeforeIsSecure(s: State, t: State, digest: string, aspect: Aspect)
    requires Secure(s, digest, aspect) && FromBefore(s.entries, t.entries, digest) && t.loads == s.loads
    ensures Secure(t, digest, aspect)
  {
    hide Shows, Agrees;
    forall i | 0 <= i < |t.entries| && t.entries[i].digest == digest
      ensures Shows(t.entries[i], aspect) && Holds(s.entries, digest)
    {
      var j :| 0 <= j < |s.entries| && s.entries[j] == t.entries[i];
    }
  }

  lemma TouchIsSecure(maxBytes: nat, s: State, step: Step, t: State, digest: string, aspect: Aspect)
    requires Next(maxBytes, s, step, t) && step.Touching? && Secure(s, digest, aspect)
    ensures Secure(t, digest, aspect)
  {
    var meta := s.loads[step.k].(lastUsed := step.now);
    forall i | 0 <= i < |t.entries| && t.entries[i].digest == digest
      ensures Shows(t.entries[i], aspect) && Holds(s.entries, digest)
    {
      assert s.entries[i].digest == digest;
    }
    if Holds(s.entries, digest) {
      forall k | 0 <= k < |t.loads| && t.loads[k].digest == digest ensures Agrees(t.loads[k], aspect) {
        assert t.loads[k] == s.loads[if k < step.k then k else k + 1];
      }
    }
  }

  lemma BystanderKeepsSecure(maxBytes: nat, s: State, step: Step, t: State, digest: string, aspect: Aspect)
    requires Next(maxBytes, s, step, t) && Bystander(step, digest, aspect) && Secure(s, digest, aspect)
    ensures Secure(t, digest, aspect)
  {
    hide EvictedTo, Without, WriteBack;
    match step {
      case Repinning(commits, env, stuck) =>
        forall i | 0 <= i < |t.entries| && t.entries[i].digest == digest
          ensures Shows(t.entries[i], aspect) && Holds(s.entries, digest)
        {
          assert s.entries[i].digest == digest;
        }
      case Loading(i) =>
      case Touching(k, now) => TouchIsSecure(maxBytes, s, step, t, digest, aspect);
      case _ =>
        StoreStepIsFromBefore(maxBytes, s, step, t, digest);
        FromBeforeIsSecure(s, t, digest, aspect);
    }
  }

  lemma {:induction false} SecureRun(
    maxBytes: nat, states: seq<State>, steps: seq<Step>, n: nat, digest: string, aspect: Aspect)
    requires Run(maxBytes, states, steps) && AllBystanders(steps, digest, aspect) && n <= |steps|
    requires Secure(states[0], digest, aspect)
    ensures Secure(states[n], digest, aspect)
  {
    hide Next, Bystander, Secure;
    if n > 0 {
      SecureRun(maxBytes, states, steps, n - 1, digest, aspect);
      BystanderKeepsSecure(maxBytes, states[n - 1], steps[n - 1], states[n], digest, aspect);
    }
  }

  /** A copy that disagrees can be written back next, and then the entry no longer shows the aspect. */
  lemma StrayCopyBreaks(maxBytes: nat, s: State, k: nat, digest: string, aspect: Aspect)
    requires k < |s.loads| && s.loads[k].digest == digest && !Agrees(s.loads[k], aspect) && Holds(s.entries, digest)
    ensures !Lasts(maxBytes, s, digest, aspect)
  {
    var meta := s.loads[k].(lastUsed := 0);
    var t := State(WriteBack(s.entries, meta), s.loads[..k] + s.loads[k + 1..]);
    var states, steps := [s, t], [Touching(k, 0)];
    assert Run(maxBytes, states, steps) && AllBystanders(steps, digest, aspect);
    var i :| 0 <= i < |s.entries| && s.entries[i].digest == digest;
    assert t.entries[i].digest == digest && !Shows(t.entries[i], aspect);
    assert states[|steps|] == t;
  }

  /** An aspect lasts exactly when its entry is gone or no copy of it in flight disagrees. */
  lemma LastsExactly(maxBytes: nat, s: State, digest: string, aspect: Aspect)
    requires AllShow(s.entries, digest, aspect)
    ensures Lasts(maxBytes, s, digest, aspect) <==>
      !Holds(s.entries, digest) || CopiesAgree(s.loads, digest, aspect)
  {
    hide Agrees, Shows, Next, Bystander;
    if !Holds(s.entries, digest) || CopiesAgree(s.loads, digest, aspect) {
      forall states: seq<State>, steps: seq<Step>
        | Run(maxBytes, states, steps) && states[0] == s && AllBystanders(steps, digest, aspect)
        ensures AllShow(states[|steps|].entries, digest, aspect)
      {
        SecureRun(maxBytes, states, steps, |steps|, digest, aspect);
      }
    } else {
      var k :| 0 <= k < |s.loads| && s.loads[k].digest == digest && !Agrees(s.loads[k], aspect);
      StrayCopyBreaks(maxBytes, s, k, digest, aspect);
    }
  }

  // ----- pins -----

  lemma RepinShows(entries: seq<Entry>, commits: set<string>, env: string, stuck: set<string>, digest: string)
    requires OneMeta(entries) && digest !in stuck
    ensures var after := Repin(entries, commits, env, stuck);
      && AllShow(after, digest, Flag(PinWanted(entries, digest, commits, env)))
      && (Holds(after, digest) <==> Holds(entries, digest))
  {
    var after := Repin(entries, commits, env, stuck);
    forall i | 0 <= i < |entries| && entries[i].digest == digest
      ensures after[i].pinned == PinWanted(entries, digest, commits, env)
    {
      assert after[i] == Repinned(entries[i], commits, env, stuck);
    }
    if Holds(entries, digest) {
      var i :| 0 <= i < |entries| && entries[i].digest == digest;
      assert after[i].digest == digest;
    }
    if Holds(after, digest) {
      var i :| 0 <= i < |after| && after[i].digest == digest;
      assert entries[i].digest == digest;
    }
  }

  /** The pins a resolved recompute sets hold through every continuation without another recompute, or a publish of
      the entry, if and only if no hit on the entry is in flight with the other flag, unless there is no entry. */
  lemma PinsHoldExactly(
    maxBytes: nat, s: State, commits: set<string>, env: string, stuck: set<string>, t: State, digest: string)
    requires Next(maxBytes, s, Repinning(commits, env, stuck), t) && OneMeta(s.entries) && digest !in stuck
    ensures var wanted := PinWanted(s.entries, digest, commits, env);
      && AllShow(t.entries, digest, Flag(wanted))
      && (Lasts(maxBytes, t, digest, Flag(wanted)) <==>
            || !Holds(s.entries, digest)
            || forall k :: 0 <= k < |s.loads| && s.loads[k].digest == digest ==> s.loads[k].pinned == wanted)
  {
    hide PinWanted, Repin, Lasts, OneMeta;
    var wanted := PinWanted(s.entries, digest, commits, env);
    RepinShows(s.entries, commits, env, stuck, digest);
    LastsExactly(maxBytes, t, digest, Flag(wanted));
  }

  /** For instance: a hit loads an unpinned entry, the recompute pins it, and the hit writes its old copy back. */
  lemma StaleHitUnpins(e: Entry, now: nat)
    requires !e.pinned && Intact(e)
    ensures var commits := {e.commit};
      var pinned := e.(pinned := true);
      var steps := [Loading(0), Repinning(commits, e.env, {}), Touching(0, now)];
      var states := [State([e], []), State([e], [e]), State([pinned], [e]), State([e.(lastUsed := now)], [])];
      && Run(e.recorded.size, states, steps)
      && PinWanted([e], e.digest, commits, e.env)
      && Pinned(states[2].entries, e.digest)
      && !Pinned(states[3].entries, e.digest)
  {
    var commits := {e.commit};
    var pinned := e.(pinned := true);
    assert Repin([e], commits, e.env, {}) == [pinned];
    assert WriteBack([pinned], e.(lastUsed := now)) == [e.(lastUsed := now)];
    assert [e][0] == e && [pinned][0] == pinned;
    var loads := [e];
    assert loads[..0] + loads[1..] == [];
  }

  // ----- integrity -----

  lemma PublishedStays(before: seq<Entry>, maxBytes: nat, spared: set<string>, after: seq<Entry>, e: Entry)
    requires EvictedTo(before, maxBytes, spared, after) && e in before && e.digest in spared
    ensures e in after
  {
    hide Total, LeastRecent, OldestFirst, NoneEvictable;
    var gone :| Evicted(before, maxBytes, spared, after, gone);
    assert e in multiset(before);
    assert e !in gone;
    assert e in multiset(after);
  }

  lemma PublishShows(maxBytes: nat, s: State, e: Entry, stuck: set<string>, t: State)
    requires Next(maxBytes, s, Publishing(e, stuck), t)
    ensures AllShow(t.entries, e.digest, Record(e.recorded)) && Holds(t.entries, e.digest)
  {
    hide EvictedTo, Without;
    var rest := Without(s.entries, e.digest);
    var all := rest + [e];
    assert all[|rest|] == e;
    EvictionIsFromBefore(all, maxBytes, stuck + {e.digest}, t.entries);
    PublishedStays(all, maxBytes, stuck + {e.digest}, t.entries, e);
    forall i | 0 <= i < |t.entries| && t.entries[i].digest == e.digest ensures t.entries[i] == e {
      assert t.entries[i] in all;
      var j :| 0 <= j < |all| && all[j] == t.entries[i];
      if j < |rest| {
        WithoutIsFrom(s.entries, e.digest, j);
      }
    }
  }

  /** A published entry's record keeps naming its binary through every continuation without another publish of it, if
      and only if no hit on it is in flight with a record of another binary. */
  lemma RecordHoldsExactly(maxBytes: nat, s: State, e: Entry, stuck: set<string>, t: State)
    requires Next(maxBytes, s, Publishing(e, stuck), t)
    ensures AllShow(t.entries, e.digest, Record(e.binary))
    ensures Lasts(maxBytes, t, e.digest, Record(e.binary)) <==>
      forall k :: 0 <= k < |s.loads| && s.loads[k].digest == e.digest ==> s.loads[k].recorded == e.binary
  {
    hide EvictedTo, Without, Lasts;
    PublishShows(maxBytes, s, e, stuck, t);
    LastsExactly(maxBytes, t, e.digest, Record(e.binary));
  }

  /** For instance: a hit loads an entry, another binary is published under its digest, and the hit writes the old
      record over the new binary. */
  lemma StaleHitMislabels(e: Entry, other: Binary, now: nat)
    requires Intact(e) && other != e.binary
    ensures var fresh_ := e.(recorded := other, binary := other);
      var steps := [Loading(0), Publishing(fresh_, {}), Touching(0, now)];
      var mislabelled := e.(lastUsed := now, binary := other);
      var states := [State([e], []), State([e], [e]), State([fresh_], [e]), State([mislabelled], [])];
      Run(other.size, states, steps) && Intact(fresh_) && !Intact(mislabelled)
  {
    hide Evicted, Without, WriteBack;
    var fresh_ := e.(recorded := other, binary := other);
    ReplacesIt(e, fresh_);
    assert {} + {e.digest} == {e.digest};
    WritesOver(fresh_, e.(lastUsed := now));
    var loads := [e];
    assert loads[..0] + loads[1..] == [];
  }

  lemma ReplacesIt(e: Entry, other: Entry)
    requires e.digest == other.digest
    ensures EvictedTo(Without([e], e.digest) + [other], other.recorded.size, {e.digest}, [other])
  {
    assert Without([e], e.digest) + [other] == [other];
    assert Evicted([other], other.recorded.size, {e.digest}, [other], []);
  }

  lemma WritesOver(e: Entry, meta: Entry)
    requires e.digest == meta.digest
    ensures WriteBack([e], meta) == [meta.(binary := e.binary)]
  {
  }

  // ----- one metadata file per entry -----

  lemma EvictionKeepsOneMeta(before: seq<Entry>, maxBytes: nat, spared: set<string>, after: seq<Entry>)
    requires EvictedTo(before, maxBytes, spared, after) && OneMeta(before)
    ensures OneMeta(after)
  {
    hide EvictedTo;
    EvictionIsFromBefore(before, maxBytes, spared, after);
    forall i, j | 0 <= i < |after| && 0 <= j < |after| && after[i].digest == after[j].digest
      ensures after[i] == after[j]
    {
      assert after[i] in before && after[j] in before;
    }
  }

  lemma WithoutHasOneMeta(entries: seq<Entry>, removed: string)
    requires OneMeta(entries)
    ensures OneMeta(Without(entries, removed))
    ensures forall i :: 0 <= i < |Without(entries, removed)| ==> Without(entries, removed)[i].digest != removed
  {
    hide Without;
    var rest := Without(entries, removed);
    forall i | 0 <= i < |rest| ensures rest[i] in entries && rest[i].digest != removed {
      WithoutIsFrom(entries, removed, i);
    }
  }

  /** Every step keeps one metadata file per digest. */
  lemma StepKeepsOneMeta(maxBytes: nat, s: State, step: Step, t: State)
    requires Next(maxBytes, s, step, t) && OneMeta(s.entries)
    ensures OneMeta(t.entries)
  {
    hide EvictedTo, Without;
    match step {
      case Evicting(stuck) => EvictionKeepsOneMeta(s.entries, maxBytes, stuck, t.entries);
      case Publishing(e, stuck) =>
        WithoutHasOneMeta(s.entries, e.digest);
        EvictionKeepsOneMeta(Without(s.entries, e.digest) + [e], maxBytes, stuck + {e.digest}, t.entries);
      case Losing(digest) => WithoutHasOneMeta(s.entries, digest);
      case _ =>
    }
  }
}
