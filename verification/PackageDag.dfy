/** The worklist that computes a package's dependency closure. */
module PackageDag {

  type Id = string

  /** Runtime and build edges; an absent package has none. */
  type Edges = map<Id, set<Id>>

  function Deps(edges: Edges, p: Id): set<Id> {
    if p in edges then edges[p] else {}
  }

  /** A walk along edges. */
  ghost predicate IsWalk(edges: Edges, walk: seq<Id>) {
    forall k :: 0 <= k < |walk| - 1 ==> walk[k + 1] in Deps(edges, walk[k])
  }

  /** `p` depends on `q` through one or more edges. */
  ghost predicate Reaches(edges: Edges, p: Id, q: Id) {
    exists walk :: WalkFromTo(edges, p, q, walk)
  }

  ghost predicate WalkFromTo(edges: Edges, p: Id, q: Id, walk: seq<Id>) {
    |walk| >= 2 && walk[0] == p && walk[|walk| - 1] == q && IsWalk(edges, walk)
  }

  ghost function Targets(edges: Edges): set<Id> {
    set p, q | p in edges && q in edges[p] :: q
  }

  /** A list of a set's members, in an order the caller can not rely on. */
  method Listed(s: set<Id>) returns (r: seq<Id>)
    ensures forall x :: x in r <==> x in s
  {
    r := [];
    var rest := s;
    while rest != {}
      invariant forall x :: x in s <==> x in r || x in rest
      decreases rest
    {
      var x :| x in rest;
      r := r + [x];
      rest := rest - {x};
    }
  }

  method TransitiveIds(edges: Edges, root: Id) returns (seen: set<Id>)
    ensures forall q :: q in seen <==> Reaches(edges, root, q)
  {
    seen := {};
    var pending := Listed(Deps(edges, root));
    forall q | q in pending ensures Reaches(edges, root, q) {
      OneEdge(edges, root, q);
    }
    while pending != []
      invariant seen <= Targets(edges)
      invariant forall q :: q in pending ==> q in Targets(edges) && Reaches(edges, root, q)
      invariant forall q :: q in seen ==> Reaches(edges, root, q)
      invariant forall q :: q in Deps(edges, root) ==> q in seen || q in pending
      invariant forall p, q :: p in seen && q in Deps(edges, p) ==> q in seen || q in pending
      decreases Targets(edges) - seen, |pending|
    {
      var last := |pending| - 1;
      var p := pending[last];
      assert forall q :: q in pending <==> q in pending[..last] || q == p by {
        assert pending == pending[..last] + [p];
      }
      pending := pending[..last];
      if p !in seen {
        seen := seen + {p};
        var next := Listed(Deps(edges, p));
        forall q | q in next ensures q in Targets(edges) && Reaches(edges, root, q) {
          MoreEdge(edges, root, p, q);
        }
        pending := pending + next;
      }
    }
    forall q | Reaches(edges, root, q) ensures q in seen {
      var walk :| WalkFromTo(edges, root, q, walk);
      ClosedUnderWalks(edges, root, seen, walk);
    }
  }

  lemma OneEdge(edges: Edges, p: Id, q: Id)
    requires q in Deps(edges, p)
    ensures Reaches(edges, p, q)
  {
    assert WalkFromTo(edges, p, q, [p, q]);
  }

  /** Every dependency of a package, and every dependency of one that it reaches, is reached. */
  lemma EdgesReach(edges: Edges, root: Id, p: Id, q: Id)
    requires p in edges && q in edges[p] && (p == root || Reaches(edges, root, p))
    ensures Reaches(edges, root, q)
  {
    if p == root {
      OneEdge(edges, p, q);
    }
    if Reaches(edges, root, p) {
      MoreEdge(edges, root, p, q);
    }
  }

  lemma MoreEdge(edges: Edges, root: Id, p: Id, q: Id)
    requires Reaches(edges, root, p) && q in Deps(edges, p)
    ensures Reaches(edges, root, q)
  {
    var walk :| WalkFromTo(edges, root, p, walk);
    assert WalkFromTo(edges, root, q, walk + [q]);
  }

  lemma {:induction false} ClosedUnderWalks(edges: Edges, root: Id, seen: set<Id>, walk: seq<Id>)
    requires |walk| >= 2 && walk[0] == root && IsWalk(edges, walk)
    requires Deps(edges, root) <= seen && forall p :: p in seen ==> Deps(edges, p) <= seen
    ensures walk[|walk| - 1] in seen
  {
    if |walk| > 2 {
      var shorter := walk[..|walk| - 1];
      ClosedUnderWalks(edges, root, seen, shorter);
      assert shorter[|shorter| - 1] == walk[|walk| - 2];
    }
  }

  /** The names a closure check intersects with its forbidden list. */
  method ForbiddenNames(edges: Edges, names: map<Id, string>, root: Id, forbidden: set<string>)
    returns (found: set<string>)
    requires root in names && forall p :: p in edges ==> edges[p] <= names.Keys
    ensures forall n :: n in found <==>
      n in forbidden && exists q :: q in names && names[q] == n && Reaches(edges, root, q)
  {
    var seen := TransitiveIds(edges, root);
    forall q | q in seen ensures q in names {
      var walk :| WalkFromTo(edges, root, q, walk);
      assert walk[|walk| - 1] in Deps(edges, walk[|walk| - 2]);
    }
    found := set q | q in seen && q in names && names[q] in forbidden :: names[q];
  }
}
