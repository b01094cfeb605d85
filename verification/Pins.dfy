/** The pin manager: resolving pinned policies to commits, all or nothing, and warming the ones that are missing. */
module Pins {
  import opened Wrappers
  import opened LsRemote

  datatype Policy = Policy(id: int, repo: int, until: Option<int>)

  datatype Target = Target(trigger: int, repo: int, ref: RemoteRef)

  /** What looking up a repo and listing its refs comes to. */
  datatype Resolution = StoreFailed | NoIdentity | ListFailed | Refs(refs: seq<RemoteRef>)

  predicate Expired(p: Policy, now: int) {
    p.until.Some? && p.until.value <= now
  }

  /** `selects` is the trigger matcher: whether the policy's match spec picks the ref. */
  ghost predicate Pins(policies: seq<Policy>, refs: seq<(int, RemoteRef)>, selects: (Policy, RemoteRef) -> bool,
                       now: int, t: Target)
  {
    exists i, j :: 0 <= i < |policies| && 0 <= j < |refs| && PinsBy(policies[i], refs[j], selects, now, t)
  }

  predicate PinsBy(p: Policy, r: (int, RemoteRef), selects: (Policy, RemoteRef) -> bool, now: int, t: Target) {
    !Expired(p, now) && r.0 == p.repo && selects(p, r.1) && t == Target(p.id, p.repo, r.1)
  }

  method PinnedTargets(
    policies: seq<Policy>, refs: seq<(int, RemoteRef)>, selects: (Policy, RemoteRef) -> bool, now: int)
    returns (targets: seq<Target>)
    ensures forall t :: t in targets <==> Pins(policies, refs, selects, now, t)
  {
    targets := [];
    for i := 0 to |policies|
      invariant forall t :: t in targets <==> Pins(policies[..i], refs, selects, now, t)
    {
      var p := policies[i];
      ghost var before := targets;
      for j := 0 to |refs|
        invariant forall t :: t in targets <==>
          t in before || exists k :: 0 <= k < j && PinsBy(p, refs[k], selects, now, t)
      {
        if !Expired(p, now) && refs[j].0 == p.repo && selects(p, refs[j].1) {
          targets := targets + [Target(p.id, p.repo, refs[j].1)];
        }
      }
      forall t ensures t in targets <==> Pins(policies[..i + 1], refs, selects, now, t) {
        PinsOneMore(policies, i, refs, selects, now, t);
      }
    }
    assert policies[..|policies|] == policies;
  }

  lemma PinsOneMore(policies: seq<Policy>, i: nat, refs: seq<(int, RemoteRef)>, selects: (Policy, RemoteRef) -> bool,
                    now: int, t: Target)
    requires i < |policies|
    ensures Pins(policies[..i + 1], refs, selects, now, t) <==>
      || Pins(policies[..i], refs, selects, now, t)
      || exists k :: 0 <= k < |refs| && PinsBy(policies[i], refs[k], selects, now, t)
  {
    var more := policies[..i + 1];
    if Pins(more, refs, selects, now, t) {
      var a, b :| 0 <= a < |more| && 0 <= b < |refs| && PinsBy(more[a], refs[b], selects, now, t);
      if a < i {
        assert policies[..i][a] == more[a];
      }
    }
    if Pins(policies[..i], refs, selects, now, t) {
      var a, b :| 0 <= a < i && 0 <= b < |refs| && PinsBy(policies[..i][a], refs[b], selects, now, t);
      assert more[a] == policies[..i][a];
    }
    if k :| 0 <= k < |refs| && PinsBy(policies[i], refs[k], selects, now, t) {
      assert more[i] == policies[i];
    }
  }

  /** A pin holds until its time and not at it. */
  lemma PinEndsOnTime(p: Policy, ref: RemoteRef, selects: (Policy, RemoteRef) -> bool, now: int)
    ensures PinsBy(p, (p.repo, ref), selects, now, Target(p.id, p.repo, ref)) <==>
      selects(p, ref) && (p.until == None || now < p.until.value)
    ensures forall repo, t :: repo != p.repo ==> !PinsBy(p, (repo, ref), selects, now, t)
  {
  }

  // ----- all or nothing -----

  ghost predicate AllResolve(policies: seq<Policy>, remote: int -> Resolution) {
    forall i :: 0 <= i < |policies| ==> remote(policies[i].repo).Refs?
  }

  /** A target is an unexpired policy with a ref of its own repo that it selects. */
  ghost predicate IsTarget(policies: seq<Policy>, remote: int -> Resolution, selects: (Policy, RemoteRef) -> bool,
                           now: int, t: Target)
  {
    exists i :: 0 <= i < |policies| && TargetOf(policies[i], remote, selects, now, t)
  }

  ghost predicate TargetOf(
    p: Policy, remote: int -> Resolution, selects: (Policy, RemoteRef) -> bool, now: int, t: Target)
  {
    && !Expired(p, now) && remote(p.repo).Refs?
    && t.ref in remote(p.repo).refs && selects(p, t.ref) && t == Target(p.id, p.repo, t.ref)
  }

  /** `refs` collects, for the repos in `done`, exactly the refs each of them lists. */
  ghost predicate Collected(done: set<int>, remote: int -> Resolution, refs: seq<(int, RemoteRef)>) {
    && (forall id :: id in done ==> remote(id).Refs?)
    && forall id, r :: (id, r) in refs <==> id in done && remote(id).Refs? && r in remote(id).refs
  }

  /** The targets to pin, or none when any pinned repo fails to resolve. */
  method Resolve(policies: seq<Policy>, remote: int -> Resolution, selects: (Policy, RemoteRef) -> bool, now: int)
    returns (resolved: Option<seq<Target>>)
    ensures resolved.Some? <==> AllResolve(policies, remote)
    ensures resolved.Some? ==> forall t :: t in resolved.value <==> IsTarget(policies, remote, selects, now, t)
  {
    var ids := set i | 0 <= i < |policies| :: policies[i].repo;
    var rest := ids;
    var refs: seq<(int, RemoteRef)> := [];
    while rest != {}
      invariant rest <= ids && Collected(ids - rest, remote, refs)
      decreases rest
    {
      var id :| id in rest;
      match remote(id) {
        case Refs(more) =>
          var tagged := Tag(id, more);
          CollectOne(ids - rest, id, remote, refs, tagged);
          refs := refs + tagged;
          assert ids - (rest - {id}) == (ids - rest) + {id};
          rest := rest - {id};
        case _ =>
          resolved := None;
          return;
      }
    }
    assert ids - rest == ids;
    var targets := PinnedTargets(policies, refs, selects, now);
    forall t ensures Pins(policies, refs, selects, now, t) <==> IsTarget(policies, remote, selects, now, t) {
      SameTargets(policies, ids, remote, refs, selects, now, t);
    }
    resolved := Some(targets);
  }

  function Tag(id: int, refs: seq<RemoteRef>): (r: seq<(int, RemoteRef)>)
    ensures forall x, y :: (x, y) in r <==> x == id && y in refs
  {
    if refs == [] then [] else [(id, refs[0])] + Tag(id, refs[1..])
  }

  lemma CollectOne(
    done: set<int>, id: int, remote: int -> Resolution, refs: seq<(int, RemoteRef)>, more: seq<(int, RemoteRef)>)
    requires Collected(done, remote, refs) && id !in done && remote(id).Refs?
    requires forall x, y :: (x, y) in more <==> x == id && y in remote(id).refs
    ensures Collected(done + {id}, remote, refs + more)
  {
  }

  lemma SameTargets(policies: seq<Policy>, ids: set<int>, remote: int -> Resolution, refs: seq<(int, RemoteRef)>,
                    selects: (Policy, RemoteRef) -> bool, now: int, t: Target)
    requires forall i :: 0 <= i < |policies| ==> policies[i].repo in ids
    requires Collected(ids, remote, refs)
    ensures Pins(policies, refs, selects, now, t) <==> IsTarget(policies, remote, selects, now, t)
  {
    if Pins(policies, refs, selects, now, t) {
      var i, j :| 0 <= i < |policies| && 0 <= j < |refs| && PinsBy(policies[i], refs[j], selects, now, t);
      assert (policies[i].repo, t.ref) in refs;
      assert TargetOf(policies[i], remote, selects, now, t);
    }
    if IsTarget(policies, remote, selects, now, t) {
      var i :| 0 <= i < |policies| && TargetOf(policies[i], remote, selects, now, t);
      assert (policies[i].repo, t.ref) in refs;
      var j :| 0 <= j < |refs| && refs[j] == (policies[i].repo, t.ref);
      assert PinsBy(policies[i], refs[j], selects, now, t);
    }
  }
}
