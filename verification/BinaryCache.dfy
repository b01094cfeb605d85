/** The size-bounded cache of built binaries: which entries are pinned, and what eviction removes. */
module BinaryCache {
  /** A built binary, known by its digest. */
  datatype Binary = Binary(sha: string, size: nat)

  /** One directory of the cache: its metadata, and the binary that lies beside it. `env` stands for the fields of the
      build fingerprint that a cache environment compares, and `digest` is of the whole fingerprint. */
  datatype Entry = Entry(
    digest: string,
    commit: string,
    env: string,
    recorded: Binary,
    lastUsed: nat,
    pinned: bool,
    binary: Binary)

  predicate Intact(e: Entry) {
    e.recorded == e.binary
  }

  /** The digest names the entry's directory, which holds one metadata file. */
  ghost predicate OneMeta(entries: seq<Entry>) {
    forall i, j :: 0 <= i < |entries| && 0 <= j < |entries| && entries[i].digest == entries[j].digest ==>
      entries[i] == entries[j]
  }

  function Total(entries: seq<Entry>): nat {
    if entries == [] then 0 else entries[0].recorded.size + Total(entries[1..])
  }

  /** What the binaries really take on disk. */
  function DiskUse(entries: seq<Entry>): nat {
    if entries == [] then 0 else entries[0].binary.size + DiskUse(entries[1..])
  }

  /** The sizes eviction adds up are the true ones as long as no entry's record is another binary's. */
  lemma {:induction false} IntactTotal(entries: seq<Entry>)
    requires forall i :: 0 <= i < |entries| ==> Intact(entries[i])
    ensures Total(entries) == DiskUse(entries)
  {
    if entries != [] {
      IntactTotal(entries[1..]);
    }
  }

  lemma {:induction false} TotalConcat(a: seq<Entry>, b: seq<Entry>)
    ensures Total(a + b) == Total(a) + Total(b)
  {
    if a == [] {
      assert a + b == b;
    } else {
      TotalConcat(a[1..], b);
      assert (a + b)[1..] == a[1..] + b;
    }
  }

  // ----- oldest-used first -----

  function Insert(e: Entry, sorted: seq<Entry>): seq<Entry> {
    if sorted == [] || e.lastUsed <= sorted[0].lastUsed then [e] + sorted else [sorted[0]] + Insert(e, sorted[1..])
  }

  function ByAge(entries: seq<Entry>): seq<Entry> {
    if entries == [] then [] else Insert(entries[0], ByAge(entries[1..]))
  }

  ghost predicate OldestFirst(entries: seq<Entry>) {
    forall i, j :: 0 <= i < j < |entries| ==> entries[i].lastUsed <= entries[j].lastUsed
  }

  ghost predicate NoneOlder(age: nat, entries: seq<Entry>) {
    forall k :: 0 <= k < |entries| ==> age <= entries[k].lastUsed
  }

  lemma {:induction false} InsertInOrder(e: Entry, sorted: seq<Entry>, floor: nat)
    requires OldestFirst(sorted) && NoneOlder(floor, sorted) && floor <= e.lastUsed
    ensures OldestFirst(Insert(e, sorted)) && NoneOlder(floor, Insert(e, sorted))
  {
    if sorted != [] && e.lastUsed > sorted[0].lastUsed {
      InsertInOrder(e, sorted[1..], sorted[0].lastUsed);
    }
  }

  lemma {:induction false} InsertAdds(e: Entry, sorted: seq<Entry>)
    ensures multiset(Insert(e, sorted)) == multiset(sorted) + multiset{e}
    ensures Total(Insert(e, sorted)) == e.recorded.size + Total(sorted)
  {
    if sorted == [] || e.lastUsed <= sorted[0].lastUsed {
      assert ([e] + sorted)[1..] == sorted;
    } else {
      var rest := Insert(e, sorted[1..]);
      InsertAdds(e, sorted[1..]);
      assert ([sorted[0]] + rest)[1..] == rest;
      assert sorted == [sorted[0]] + sorted[1..];
    }
  }

  lemma {:induction false} ByAgeSorts(entries: seq<Entry>)
    ensures OldestFirst(ByAge(entries)) && multiset(ByAge(entries)) == multiset(entries)
    ensures Total(ByAge(entries)) == Total(entries)
  {
    if entries != [] {
      hide Insert, OldestFirst;
      ByAgeSorts(entries[1..]);
      InsertInOrder(entries[0], ByAge(entries[1..]), 0);
      InsertAdds(entries[0], ByAge(entries[1..]));
      HeadAndTail(entries);
    }
  }

  lemma HeadAndTail(entries: seq<Entry>)
    requires entries != []
    ensures multiset(entries) == multiset(entries[1..]) + multiset{entries[0]}
  {
    assert entries == [entries[0]] + entries[1..];
  }

  // ----- eviction -----

  /** Not pinned, not protected by the caller, and on a directory that can be removed. */
  predicate Evictable(e: Entry, spared: set<string>) {
    !e.pinned && e.digest !in spared
  }

  ghost predicate AllEvictable(entries: seq<Entry>, spared: set<string>) {
    forall i :: 0 <= i < |entries| ==> Evictable(entries[i], spared)
  }

  ghost predicate NoneEvictable(entries: seq<Entry>, spared: set<string>) {
    forall i :: 0 <= i < |entries| ==> !Evictable(entries[i], spared)
  }

  /** Every evictable survivor was used no earlier than every evicted entry. */
  ghost predicate LeastRecent(kept: seq<Entry>, gone: seq<Entry>, spared: set<string>) {
    forall i, j :: 0 <= i < |gone| && 0 <= j < |kept| && Evictable(kept[j], spared) ==>
      gone[i].lastUsed <= kept[j].lastUsed
  }

  /** Eviction splits the store, evicts only what it may, oldest-used first, until the store fits or nothing more
      can go, and no further than that. */
  ghost predicate Evicted(entries: seq<Entry>, maxBytes: nat, spared: set<string>, kept: seq<Entry>, gone: seq<Entry>) {
    && multiset(kept) + multiset(gone) == multiset(entries)
    && AllEvictable(gone, spared)
    && LeastRecent(kept, gone, spared)
    && (Total(kept) <= maxBytes || NoneEvictable(kept, spared))
    && Total(kept) + Total(gone) == Total(entries)
    && (gone != [] ==> Total(kept) + gone[|gone| - 1].recorded.size > maxBytes && OldestFirst(gone))
  }

  /** The entries walked so far are split, none of the kept ones could have gone. */
  ghost predicate Walked(done: seq<Entry>, spared: set<string>, kept: seq<Entry>, gone: seq<Entry>) {
    && multiset(kept) + multiset(gone) == multiset(done)
    && Total(kept) + Total(gone) == Total(done)
    && AllEvictable(gone, spared) && NoneEvictable(kept, spared)
    && OldestFirst(gone)
  }

  lemma WalkKept(done: seq<Entry>, e: Entry, spared: set<string>, kept: seq<Entry>, gone: seq<Entry>)
    requires Walked(done, spared, kept, gone) && !Evictable(e, spared)
    ensures Walked(done + [e], spared, kept + [e], gone)
  {
    hide Evictable, AllEvictable, OldestFirst, Total;
    TotalAppend(done, e);
    TotalAppend(kept, e);
  }

  lemma WalkGone(done: seq<Entry>, e: Entry, spared: set<string>, kept: seq<Entry>, gone: seq<Entry>)
    requires Walked(done, spared, kept, gone) && Evictable(e, spared)
    requires forall i :: 0 <= i < |done| ==> done[i].lastUsed <= e.lastUsed
    ensures Walked(done + [e], spared, kept, gone + [e])
  {
    hide Evictable, NoneEvictable, Total;
    TotalAppend(done, e);
    TotalAppend(gone, e);
    forall i | 0 <= i < |gone| ensures gone[i].lastUsed <= e.lastUsed {
      GoneIsDone(done, kept, gone, i);
    }
  }

  lemma GoneIsDone(done: seq<Entry>, kept: seq<Entry>, gone: seq<Entry>, i: nat)
    requires multiset(kept) + multiset(gone) == multiset(done) && i < |gone|
    ensures gone[i] in done
  {
    assert gone[i] in multiset(done);
  }

  lemma RestIsLater(order: seq<Entry>, n: nat, spared: set<string>, kept: seq<Entry>, gone: seq<Entry>)
    requires n <= |order| && OldestFirst(order) && Walked(order[..n], spared, kept, gone)
    ensures LeastRecent(kept + order[n..], gone, spared)
  {
    hide Evictable, Total, AllEvictable;
    var all := kept + order[n..];
    forall i, j | 0 <= i < |gone| && 0 <= j < |all| && Evictable(all[j], spared)
      ensures gone[i].lastUsed <= all[j].lastUsed
    {
      GoneIsDone(order[..n], kept, gone, i);
      var k :| 0 <= k < n && order[..n][k] == gone[i];
      assert all[j] == order[n + j - |kept|];
    }
  }

  /** After an eviction the store fits its budget, or all it holds is pinned or may not be removed. */
  lemma EvictionReachesBudget(
    entries: seq<Entry>, maxBytes: nat, spared: set<string>, kept: seq<Entry>, gone: seq<Entry>)
    requires Evicted(entries, maxBytes, spared, kept, gone)
    ensures Total(kept) <= maxBytes || forall i :: 0 <= i < |kept| ==> kept[i].pinned || kept[i].digest in spared
    ensures Total(entries) <= maxBytes ==> gone == []
    ensures forall i :: 0 <= i < |gone| ==> !gone[i].pinned && gone[i].digest !in spared
  {
    hide Total, LeastRecent, OldestFirst;
    if Total(entries) <= maxBytes && gone != [] {
      LastCounts(gone);
    }
  }

  lemma LastCounts(gone: seq<Entry>)
    requires gone != []
    ensures gone[|gone| - 1].recorded.size <= Total(gone)
  {
    var n := |gone| - 1;
    assert gone == gone[..n] + [gone[n]];
    TotalAppend(gone[..n], gone[n]);
  }

  /** The loop state after `n` entries, oldest first: what is left to walk counts towards `total`, and the last entry
      evicted was over budget. */
  ghost predicate Progress(order: seq<Entry>, n: nat, maxBytes: nat, spared: set<string>,
                           kept: seq<Entry>, gone: seq<Entry>, total: nat)
  {
    && n <= |order| && Walked(order[..n], spared, kept, gone)
    && total == Total(kept) + Total(order[n..])
    && (gone != [] ==> total + gone[|gone| - 1].recorded.size > maxBytes)
  }

  lemma ProgressStep(order: seq<Entry>, n: nat, maxBytes: nat, spared: set<string>,
                     kept: seq<Entry>, gone: seq<Entry>, total: nat)
    requires Progress(order, n, maxBytes, spared, kept, gone, total)
    requires n < |order| && OldestFirst(order) && total > maxBytes
    ensures Evictable(order[n], spared) ==>
      var size := order[n].recorded.size;
      size <= total && Progress(order, n + 1, maxBytes, spared, kept, gone + [order[n]], total - size)
    ensures !Evictable(order[n], spared) ==>
      Progress(order, n + 1, maxBytes, spared, kept + [order[n]], gone, total)
  {
    hide Evictable, Total, Walked;
    var e := order[n];
    assert order[..n + 1] == order[..n] + [e];
    assert order[n..][1..] == order[n + 1..];
    TotalHead(order[n..]);
    TotalAppend(kept, e);
    if Evictable(e, spared) {
      WalkGone(order[..n], e, spared, kept, gone);
    } else {
      WalkKept(order[..n], e, spared, kept, gone);
    }
  }

  lemma ProgressEnds(entries: seq<Entry>, order: seq<Entry>, n: nat, maxBytes: nat, spared: set<string>,
                     kept: seq<Entry>, gone: seq<Entry>, total: nat)
    requires OldestFirst(order) && multiset(order) == multiset(entries) && Total(order) == Total(entries)
    requires Progress(order, n, maxBytes, spared, kept, gone, total)
    requires n == |order| || total <= maxBytes
    ensures Evicted(entries, maxBytes, spared, kept + order[n..], gone)
  {
    hide Evictable, Total, LeastRecent, AllEvictable, NoneEvictable, OldestFirst;
    var rest := order[n..];
    RestIsLater(order, n, spared, kept, gone);
    assert order[..n] + rest == order;
    Regroup(order[..n], rest, kept, gone);
    TotalConcat(order[..n], rest);
    TotalConcat(kept, rest);
    if n == |order| {
      NothingLeft(order, kept);
    }
  }

  lemma NothingLeft(order: seq<Entry>, kept: seq<Entry>)
    ensures kept + order[|order|..] == kept
  {
  }

  lemma Regroup(done: seq<Entry>, rest: seq<Entry>, kept: seq<Entry>, gone: seq<Entry>)
    requires multiset(kept) + multiset(gone) == multiset(done)
    ensures multiset(kept + rest) + multiset(gone) == multiset(done + rest)
  {
  }

  lemma EvictionExists(entries: seq<Entry>, maxBytes: nat, spared: set<string>)
    returns (kept: seq<Entry>, gone: seq<Entry>)
    ensures Evicted(entries, maxBytes, spared, kept, gone)
  {
    hide Total, Evictable, Progress, Evicted, OldestFirst;
    var order := ByAge(entries);
    ByAgeSorts(entries);
    var n, total: nat := 0, Total(entries);
    kept, gone := [], [];
    ProgressStarts(order, maxBytes, spared);
    while n < |order| && total > maxBytes
      invariant n <= |order| && Progress(order, n, maxBytes, spared, kept, gone, total)
    {
      ProgressStep(order, n, maxBytes, spared, kept, gone, total);
      if Evictable(order[n], spared) {
        total, gone := total - order[n].recorded.size, gone + [order[n]];
      } else {
        kept := kept + [order[n]];
      }
      n := n + 1;
    }
    ProgressEnds(entries, order, n, maxBytes, spared, kept, gone, total);
    kept := kept + order[n..];
  }

  method Evict(entries: seq<Entry>, maxBytes: nat, spared: set<string>) returns (kept: seq<Entry>, gone: seq<Entry>)
    ensures Evicted(entries, maxBytes, spared, kept, gone)
  {
    hide Total, Evictable, Progress, Evicted, OldestFirst;
    var total: nat := Total(entries);
    var order := ByAge(entries);
    ByAgeSorts(entries);
    kept, gone := [], [];
    var n := 0;
    ProgressStarts(order, maxBytes, spared);
    while n < |order| && total > maxBytes
      invariant n <= |order| && Progress(order, n, maxBytes, spared, kept, gone, total)
    {
      ProgressStep(order, n, maxBytes, spared, kept, gone, total);
      var e := order[n];
      if Evictable(e, spared) {
        total := total - e.recorded.size;
        gone := gone + [e];
      } else {
        kept := kept + [e];
      }
      n := n + 1;
    }
    ProgressEnds(entries, order, n, maxBytes, spared, kept, gone, total);
    kept := kept + order[n..];
  }

  lemma ProgressStarts(order: seq<Entry>, maxBytes: nat, spared: set<string>)
    ensures Progress(order, 0, maxBytes, spared, [], [], Total(order))
  {
    assert order[..0] == [] && order[0..] == order;
  }

  lemma TotalHead(entries: seq<Entry>)
    requires entries != []
    ensures Total(entries) == entries[0].recorded.size + Total(entries[1..])
  {
  }

  lemma TotalAppend(entries: seq<Entry>, e: Entry)
    ensures Total(entries + [e]) == Total(entries) + e.recorded.size
  {
    TotalConcat(entries, [e]);
  }

  // ----- the store -----

  predicate Wanted(e: Entry, commits: set<string>, env: string) {
    e.commit in commits && e.env == env
  }

  /** The flag an entry ends up with; a metadata file that cannot be written keeps its old one. */
  function Repinned(e: Entry, commits: set<string>, env: string, stuck: set<string>): Entry {
    if e.digest in stuck then e else e.(pinned := Wanted(e, commits, env))
  }

  function Repin(entries: seq<Entry>, commits: set<string>, env: string, stuck: set<string>): seq<Entry> {
    seq(|entries|, i requires 0 <= i < |entries| => Repinned(entries[i], commits, env, stuck))
  }

  /** A recompute pins what was built of a wanted commit in its own environment, and unpins everything else. */
  lemma RepinsExactly(e: Entry, commits: set<string>, env: string, stuck: set<string>)
    ensures Repinned(e, commits, env, stuck).pinned <==>
      if e.digest in stuck then e.pinned else e.commit in commits && e.env == env
    ensures Repinned(e, commits, env, stuck).(pinned := e.pinned) == e
  {
  }

  function Without(entries: seq<Entry>, digest: string): seq<Entry> {
    if entries == [] then []
    else (if entries[0].digest == digest then [] else [entries[0]]) + Without(entries[1..], digest)
  }

  /** Writing metadata back reaches the entry's directory only if it still exists, and leaves the binary alone. */
  function WriteBack(entries: seq<Entry>, meta: Entry): seq<Entry> {
    seq(|entries|, i requires 0 <= i < |entries| =>
      if entries[i].digest == meta.digest then meta.(binary := entries[i].binary) else entries[i])
  }

  /** How far a publish gets: to the end, to an error before it touches the entry, or to a failed rename after the
      old entry was cleared away. */
  datatype PublishFate = Stored | Unstaged | Unrenamed

  class Store {
    const maxBytes: nat
    var entries: seq<Entry>

    constructor (maxBytes: nat)
      ensures this.maxBytes == maxBytes && entries == []
    {
      this.maxBytes := maxBytes;
      entries := [];
    }

    method SetPinnedByCommit(commits: set<string>, env: string, stuck: set<string>)
      modifies this`entries
      ensures entries == Repin(old(entries), commits, env, stuck)
    {
      var i := 0;
      while i < |entries|
        invariant 0 <= i <= |entries| == |old(entries)|
        invariant forall k :: 0 <= k < i ==> entries[k] == Repinned(old(entries)[k], commits, env, stuck)
        invariant forall k :: i <= k < |entries| ==> entries[k] == old(entries)[k]
      {
        var want := Wanted(entries[i], commits, env);
        if entries[i].pinned != want && entries[i].digest !in stuck {
          entries := entries[i := entries[i].(pinned := want)];
        }
        i := i + 1;
      }
    }

    method EvictToBudget(stuck: set<string>) returns (gone: seq<Entry>)
      modifies this`entries
      ensures Evicted(old(entries), maxBytes, stuck, entries, gone)
    {
      entries, gone := Evict(entries, maxBytes, stuck);
    }

    method Publish(e: Entry, fate: PublishFate, stuck: set<string>) returns (ok: bool, gone: seq<Entry>)
      modifies this`entries
      ensures ok <==> fate.Stored?
      ensures match fate
        case Stored => Evicted(Without(old(entries), e.digest) + [e], maxBytes, stuck + {e.digest}, entries, gone)
        case Unstaged => entries == old(entries)
        case Unrenamed => entries == Without(old(entries), e.digest)
    {
      ok, gone := false, [];
      if fate.Unstaged? {
        return;
      }
      entries := Without(entries, e.digest);
      if fate.Unrenamed? {
        return;
      }
      entries := entries + [e];
      entries, gone := Evict(entries, maxBytes, stuck + {e.digest});
      ok := true;
    }

    method HasEntryFor(commit: string, env: string) returns (found: bool)
      ensures found <==> exists i :: 0 <= i < |entries| && Wanted(entries[i], {commit}, env)
    {
      found := false;
      var i := 0;
      while i < |entries| && !found
        invariant 0 <= i <= |entries|
        invariant found ==> i < |entries| && Wanted(entries[i], {commit}, env)
        invariant !found ==> forall k :: 0 <= k < i ==> !Wanted(entries[k], {commit}, env)
        decreases |entries| - i, !found
      {
        found := Wanted(entries[i], {commit}, env);
        if !found {
          i := i + 1;
        }
      }
    }

    /** The metadata a hit loads, before it takes the lock. */
    method Load(digest: string) returns (i: nat)
      ensures i <= |entries| && (i < |entries| ==> entries[i].digest == digest)
      ensures i == |entries| <==> forall k :: 0 <= k < |entries| ==> entries[k].digest != digest
    {
      i := 0;
      while i < |entries| && entries[i].digest != digest
        invariant i <= |entries| && forall k :: 0 <= k < i ==> entries[k].digest != digest
      {
        i := i + 1;
      }
    }

    /** A whole hit that nothing comes between: an intact entry is bumped and served, anything else is a miss. */
    method Get(digest: string, now: nat) returns (hit: bool)
      modifies this`entries
      ensures OneMeta(old(entries)) ==>
        (hit <==> exists k :: 0 <= k < |old(entries)| && old(entries)[k].digest == digest && Intact(old(entries)[k]))
      ensures |entries| == |old(entries)|
      ensures OneMeta(old(entries)) ==> forall k :: 0 <= k < |entries| ==>
        entries[k] == if hit && old(entries)[k].digest == digest then old(entries)[k].(lastUsed := now)
                      else old(entries)[k]
    {
      var i := Load(digest);
      if i == |entries| || !Intact(entries[i]) {
        return false;
      }
      Touch(entries[i], now);
      return true;
    }

    /** The second half of a hit: bump the loaded copy and write it back. */
    method Touch(loaded: Entry, now: nat)
      modifies this`entries
      ensures entries == WriteBack(old(entries), loaded.(lastUsed := now))
    {
      entries := WriteBack(entries, loaded.(lastUsed := now));
    }
  }
}
