/** Promotion of an uploaded fleet artifact from its staging key to its logical key, over an object store
    whose requests may be lost, answered without effect, or take effect long after the caller gave up. */
module Promotion {
  import opened Wrappers
  import Text

  type Key = string

  /** What HEAD shows of an object: its length and the recorded digest, if any. */
  datatype Object = Object(size: nat, digest: Option<string>)

  type Objects = map<Key, Object>

  datatype Artifact = Artifact(key: Key, logicalKey: Key, size: nat, sha256: string)

  predicate Matches(o: Object, a: Artifact) {
    o.size == a.size && o.digest.Some? && Text.Lower(o.digest.value) == Text.Lower(a.sha256)
  }

  predicate MatchesAt(objects: Objects, key: Key, a: Artifact) {
    key in objects && Matches(objects[key], a)
  }

  /** Objects that match one artifact have one size and one digest, up to case; an object without a digest matches
      none. */
  lemma MatchesAgree(o: Object, p: Object, a: Artifact)
    requires Matches(o, a)
    ensures o.size == a.size && o.digest.Some?
    ensures Matches(p, a) <==>
      p.size == o.size && p.digest.Some? && Text.Lower(p.digest.value) == Text.Lower(o.digest.value)
  {
    hide Text.Lower;
  }

  /** The case of neither digest matters. */
  lemma MatchIgnoresCase(o: Object, a: Artifact, size: nat, digest: string)
    ensures Matches(Object(size, Some(Text.Lower(digest))), a) <==> Matches(Object(size, Some(digest)), a)
    ensures Matches(Object(a.size, Some(a.sha256)), a)
  {
    Text.LowerTwice(digest);
  }

  function Components(key: Key): (r: seq<string>)
    ensures r != []
    decreases |key|
  {
    match Text.SplitOnce(key, '/')
    case None => [key]
    case Some(parts) => [parts.0] + Components(parts.1)
  }

  /** A key that resolves below the mirror root: relative, with normal components only. */
  predicate SafeKey(key: Key) {
    && key != [] && key[0] != '/'
    && Components(key)[0] != "."
    && forall i :: 0 <= i < |Components(key)| ==> Components(key)[i] != ".."
  }

  /** How far below its start a path of these components has got: `..` goes up, an empty component or `.` stays. */
  function Depth(components: seq<string>): int {
    if components == [] then 0
    else
      var last := components[|components| - 1];
      Depth(components[..|components| - 1]) + if last == ".." then -1 else if last == "" || last == "." then 0 else 1
  }

  /** No prefix of a safe key ever leaves the root, and the key does not start over from another one. */
  lemma {:induction false} SafeKeyStaysInside(key: Key, n: nat)
    requires SafeKey(key) && n <= |Components(key)|
    ensures key[0] != '/' && Depth(Components(key)[..n]) >= 0
  {
    hide Components;
    var parts := Components(key);
    if n > 0 {
      SafeKeyStaysInside(key, n - 1);
      assert parts[..n][..n - 1] == parts[..n - 1];
    }
  }

  function Joined(parts: seq<string>): Key {
    if parts == [] then "" else if |parts| == 1 then parts[0] else parts[0] + ['/'] + Joined(parts[1..])
  }

  predicate Plain(part: string) {
    part != "" && part != "." && part != ".." && '/' !in part
  }

  lemma {:induction false} ComponentsOfJoined(parts: seq<string>)
    requires parts != [] && forall i :: 0 <= i < |parts| ==> Plain(parts[i])
    ensures Components(Joined(parts)) == parts && Joined(parts) != [] && Joined(parts)[0] != '/'
  {
    assert Plain(parts[0]) && parts[0][0] in parts[0];
    if |parts| > 1 {
      ComponentsOfJoined(parts[1..]);
      Text.SplitOnceAt(parts[0], '/', Joined(parts[1..]));
      assert [parts[0]] + parts[1..] == parts;
    }
  }

  /** Every path of plain names is a safe key. */
  lemma PlainKeyIsSafe(parts: seq<string>)
    requires parts != [] && forall i :: 0 <= i < |parts| ==> Plain(parts[i])
    ensures SafeKey(Joined(parts))
  {
    hide Components, Joined;
    ComponentsOfJoined(parts);
    assert Plain(parts[0]);
  }

  // ----- requests -----

  /** How a mutating request fares: served; answered with success but without effect; or failed for the
      caller, whether or not the store carried it out. */
  datatype Fate = Served | Hollow | Lost(applied: bool)

  predicate Succeeds(fate: Fate) {
    fate.Served? || fate.Hollow?
  }

  predicate TakesEffect(fate: Fate) {
    fate.Served? || (fate.Lost? && fate.applied)
  }

  function CopyEffect(objects: Objects, from: Key, to: Key): Objects {
    if from in objects then objects[to := objects[from]] else objects
  }

  /** The object store as one attempt sees it. */
  class Bucket {
    var objects: Objects

    constructor (objects: Objects)
      ensures this.objects == objects
    {
      this.objects := objects;
    }

    method Head(key: Key, answered: bool) returns (r: Option<Object>)
      ensures r == if answered && key in objects then Some(objects[key]) else None
    {
      r := if answered && key in objects then Some(objects[key]) else None;
    }

    method CopyObject(from: Key, to: Key, fate: Fate) returns (ok: bool)
      modifies this
      ensures objects == if TakesEffect(fate) then CopyEffect(old(objects), from, to) else old(objects)
      ensures ok <==> fate.Hollow? || (fate.Served? && from in old(objects))
    {
      ok := fate.Hollow? || (fate.Served? && from in objects);
      if TakesEffect(fate) {
        objects := CopyEffect(objects, from, to);
      }
    }

    method Delete(key: Key, fate: Fate) returns (ok: bool)
      modifies this
      ensures objects == if TakesEffect(fate) then old(objects) - {key} else old(objects)
      ensures ok <==> Succeeds(fate)
    {
      if TakesEffect(fate) {
        objects := objects - {key};
      }
      ok := Succeeds(fate);
    }

    method FleetObjectMatches(key: Key, a: Artifact, answered: bool) returns (ok: bool)
      ensures ok <==> SafeKey(key) && answered && MatchesAt(objects, key, a)
    {
      if !SafeKey(key) {
        return false;
      }
      var head := Head(key, answered);
      ok := head.Some? && Matches(head.value, a);
    }

    method DeleteFleetStaging(key: Key, fate: Fate) returns (ok: bool)
      modifies this
      ensures objects == if SafeKey(key) && TakesEffect(fate) then old(objects) - {key} else old(objects)
      ensures ok <==> SafeKey(key) && Succeeds(fate)
    {
      if !SafeKey(key) {
        return false;
      }
      ok := Delete(key, fate);
    }

    method PromoteFleetUpload(a: Artifact, f: Fates) returns (ok: bool)
      modifies this
      ensures (objects, ok) == Promote(old(objects), a, f)
    {
      if !SafeKey(a.key) || !SafeKey(a.logicalKey) {
        return false;
      }
      var staged := Head(a.key, f.stagingAnswered);
      if staged.None? {
        ok := FleetObjectMatches(a.logicalKey, a, f.logicalAnswered);
        return;
      }
      var copied := CopyObject(a.key, a.logicalKey, f.copy);
      if !copied {
        return false;
      }
      var verified := FleetObjectMatches(a.logicalKey, a, f.logicalAnswered);
      if !verified {
        return false;
      }
      ok := DeleteFleetStaging(a.key, f.delete);
    }

    /** Promote a whole manifest, stopping at the first artifact that is not promoted, and record it; `recorded` is
        the answer of the store that keeps the record. */
    method PromoteArtifacts(manifest: seq<Artifact>, faults: nat -> Fates, recorded: bool) returns (ok: bool)
      requires GoodManifest(manifest) && AllKept(manifest, objects)
      modifies this
      ensures AllKept(manifest, objects)
      ensures ok ==> recorded && AllPromoted(manifest, objects, |manifest|)
      ensures (forall i :: 0 <= i < |manifest| ==> Clean(faults(i))) ==> AllPromoted(manifest, objects, |manifest|)
      ensures (forall i :: 0 <= i < |manifest| ==> Clean(faults(i))) && recorded ==> ok
    {
      hide Promote, AllKept, AllPromoted, GoodManifest;
      NonePromoted(manifest, objects);
      for n := 0 to |manifest|
        invariant AllKept(manifest, objects) && AllPromoted(manifest, objects, n)
      {
        PromoteNext(manifest, objects, n, faults(n));
        var promoted := PromoteFleetUpload(manifest[n], faults(n));
        if !promoted {
          return false;
        }
      }
      return recorded;
    }
  }

  // ----- one attempt -----

  datatype Fates = Fates(stagingAnswered: bool, copy: Fate, logicalAnswered: bool, delete: Fate)

  predicate Clean(f: Fates) {
    f == Fates(true, Served, true, Served)
  }

  /** The bucket after one attempt, and what the attempt returns. */
  function Promote(objects: Objects, a: Artifact, f: Fates): (Objects, bool) {
    if !SafeKey(a.key) || !SafeKey(a.logicalKey) then (objects, false)
    else if !f.stagingAnswered || a.key !in objects then
      (objects, f.logicalAnswered && MatchesAt(objects, a.logicalKey, a))
    else
      var copied := if TakesEffect(f.copy) then CopyEffect(objects, a.key, a.logicalKey) else objects;
      if !Succeeds(f.copy) || !f.logicalAnswered || !MatchesAt(copied, a.logicalKey, a) then (copied, false)
      else (if TakesEffect(f.delete) then copied - {a.key} else copied, Succeeds(f.delete))
  }

  predicate Promoted(objects: Objects, a: Artifact) {
    MatchesAt(objects, a.logicalKey, a)
  }

  /** The artifact is not lost, and its staging key holds nothing else. */
  predicate Kept(objects: Objects, a: Artifact) {
    && (MatchesAt(objects, a.key, a) || Promoted(objects, a))
    && (a.key in objects ==> Matches(objects[a.key], a))
  }

  ghost predicate AllKept(m: seq<Artifact>, objects: Objects) {
    forall a :: 0 <= a < |m| ==> Kept(objects, m[a])
  }

  ghost predicate AllPromoted(m: seq<Artifact>, objects: Objects, n: nat)
    requires n <= |m|
  {
    forall a :: 0 <= a < n ==> Promoted(objects, m[a])
  }

  // ----- accepted manifests -----

  /** The text of a job or attempt id: 36 hexadecimal digits and dashes, dashes not in front. */
  predicate IsId(id: string) {
    |id| == 36 && id[0] != '-' && forall i :: 0 <= i < |id| ==> id[i] == '-' || Text.IsHexDigit(id[i])
  }

  /** A manifest the service accepts for an attempt of a job: safe and unique keys, uploads below the attempt's
      staging prefix, and, since a grant was given for each, logical keys below the job's own. */
  ghost predicate AcceptedFor(m: seq<Artifact>, attempt: string, job: string) {
    && IsId(attempt) && IsId(job)
    && (forall i :: 0 <= i < |m| ==> SafeKey(m[i].key) && SafeKey(m[i].logicalKey))
    && (forall i :: 0 <= i < |m| ==> Text.StartsWith(m[i].key, "staging/" + attempt + "/"))
    && (forall i :: 0 <= i < |m| ==> Text.StartsWith(m[i].logicalKey, job + "/"))
    && (forall i, j :: 0 <= i < j < |m| ==> m[i].key != m[j].key && m[i].logicalKey != m[j].logicalKey)
  }

  ghost predicate GoodManifest(m: seq<Artifact>) {
    exists attempt, job :: AcceptedFor(m, attempt, job)
  }

  /** No staging key is a logical key, and no key of either kind occurs twice. */
  ghost predicate Separate(m: seq<Artifact>) {
    && (forall i :: 0 <= i < |m| ==> SafeKey(m[i].key) && SafeKey(m[i].logicalKey))
    && (forall i, j :: 0 <= i < |m| && 0 <= j < |m| ==> m[i].key != m[j].logicalKey)
    && (forall i, j :: 0 <= i < j < |m| ==> m[i].key != m[j].key && m[i].logicalKey != m[j].logicalKey)
  }

  /** The two prefixes keep staging and logical keys apart: an id never begins like `staging`. */
  lemma AcceptedIsSeparate(m: seq<Artifact>)
    requires GoodManifest(m)
    ensures Separate(m)
  {
    hide SafeKey;
    var attempt, job :| AcceptedFor(m, attempt, job);
    forall i, j | 0 <= i < |m| && 0 <= j < |m| ensures m[i].key != m[j].logicalKey {
      var staging, own := "staging/" + attempt + "/", job + "/";
      assert m[i].key[0] == staging[0] == 's';
      assert m[j].logicalKey[0] == own[0] == job[0];
    }
  }

  /** One attempt, under any faults: the artifact survives, `true` means it is promoted, a promoted artifact
      stays promoted, and without faults the answer is `true`. */
  lemma PromoteOutcome(objects: Objects, a: Artifact, f: Fates)
    requires a.key != a.logicalKey && SafeKey(a.key) && SafeKey(a.logicalKey) && Kept(objects, a)
    ensures Kept(Promote(objects, a, f).0, a)
    ensures Promote(objects, a, f).1 ==> Promoted(Promote(objects, a, f).0, a)
    ensures Promoted(objects, a) ==> Promoted(Promote(objects, a, f).0, a)
    ensures Clean(f) ==> Promote(objects, a, f).1 && a.key !in Promote(objects, a, f).0
  {
    hide Matches, SafeKey;
  }

  lemma PromoteKeepsOthers(objects: Objects, m: seq<Artifact>, n: nat, i: nat, f: Fates)
    requires GoodManifest(m) && n < |m| && i < |m| && Kept(objects, m[i]) && Kept(objects, m[n])
    ensures Kept(Promote(objects, m[n], f).0, m[i])
    ensures Promoted(objects, m[i]) ==> Promoted(Promote(objects, m[n], f).0, m[i])
  {
    hide Matches, SafeKey, GoodManifest;
    AcceptedIsSeparate(m);
    if i == n {
      PromoteOutcome(objects, m[n], f);
    }
  }

  lemma NonePromoted(m: seq<Artifact>, objects: Objects)
    ensures AllPromoted(m, objects, 0)
  {
  }

  /** One artifact of a manifest is attempted: nothing is lost, and `true` adds it to the promoted ones. */
  lemma PromoteNext(m: seq<Artifact>, objects: Objects, n: nat, f: Fates)
    requires GoodManifest(m) && n < |m| && AllKept(m, objects) && AllPromoted(m, objects, n)
    ensures var (after, ok) := Promote(objects, m[n], f);
      && AllKept(m, after) && (ok ==> AllPromoted(m, after, n + 1)) && (Clean(f) ==> ok)
  {
    hide Promote, Kept, Promoted, GoodManifest, Clean, SafeKey;
    AcceptedIsSeparate(m);
    PromoteOutcome(objects, m[n], f);
    forall i | 0 <= i < |m|
      ensures Kept(Promote(objects, m[n], f).0, m[i])
      ensures Promoted(objects, m[i]) ==> Promoted(Promote(objects, m[n], f).0, m[i])
    {
      PromoteKeepsOthers(objects, m, n, i, f);
    }
  }

  /** Distinct keys are what keeps the artifact: one promoted onto itself would be reported promoted and gone. No
      accepted manifest holds such an artifact. */
  lemma CleanAttemptKeepsArtifact(objects: Objects, a: Artifact)
    requires SafeKey(a.key) && SafeKey(a.logicalKey) && MatchesAt(objects, a.key, a)
    ensures var (after, ok) := Promote(objects, a, Fates(true, Served, true, Served));
      ok && (MatchesAt(after, a.key, a) || Promoted(after, a) <==> a.key != a.logicalKey)
  {
    hide Matches, SafeKey;
  }
}
