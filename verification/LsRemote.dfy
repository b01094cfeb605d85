/** Reading the branch and tag refs from `git ls-remote` output. */
module LsRemote {
  import opened Wrappers
  import Text

  /** An output line: too short to be a ref, or an object id and a ref name. */
  datatype Line = Short | Cols(sha: string, ref: string)

  datatype Kind = Branch(name: string) | DirectTag(name: string) | PeeledTag(name: string) | Other

  function Classify(ref: string): Kind {
    match Text.StripPrefix(ref, "refs/heads/")
    case Some(name) => Branch(name)
    case None =>
      match Text.StripPrefix(ref, "refs/tags/")
      case None => Other
      case Some(tag) =>
        match Text.StripSuffix(tag, "^{}")
        case Some(base) => PeeledTag(base)
        case None => DirectTag(tag)
  }

  /** A ref is read by its full name: a branch, a tag's peeled commit, a tag itself, or nothing of interest. */
  lemma ClassifyExactly(ref: string, name: string)
    ensures Classify(ref) == Branch(name) <==> ref == "refs/heads/" + name
    ensures Classify(ref) == PeeledTag(name) <==> ref == "refs/tags/" + name + "^{}"
    ensures Classify(ref) == DirectTag(name) <==> ref == "refs/tags/" + name && !Text.EndsWith(name, "^{}")
    ensures Classify(ref) == Other <==>
      !Text.StartsWith(ref, "refs/heads/") && !Text.StartsWith(ref, "refs/tags/")
  {
    hide Text.StripPrefix, Text.StripSuffix, Text.StartsWith, Text.EndsWith;
    Text.StripPrefixExactly(ref, "refs/heads/", name);
    Text.StripPrefixExactly(ref, "refs/tags/", name);
    Text.StripPrefixExactly(ref, "refs/tags/", name + "^{}");
    assert "refs/tags/" + (name + "^{}") == "refs/tags/" + name + "^{}";
    NoBranchIsATag(ref);
    var tag := Text.StripPrefix(ref, "refs/tags/");
    if tag.Some? {
      Text.StripSuffixExactly(tag.value, "^{}", name);
    }
    Text.StripSuffixExactly(name, "^{}", name);
  }

  lemma NoBranchIsATag(ref: string)
    ensures Text.StripPrefix(ref, "refs/heads/").None? || Text.StripPrefix(ref, "refs/tags/").None?
  {
    assert "refs/heads/"[5] == 'h' && "refs/tags/"[5] == 't';
  }

  function KindOf(line: Line): Kind {
    if line.Short? then Other else Classify(line.ref)
  }

  datatype Tag = Tag(direct: Option<string>, peeled: Option<string>)

  datatype RemoteRef = RemoteRef(name: string, isTag: bool, commit: string)

  /** The object id on the last line of the given kind. */
  function LastOf(lines: seq<Line>, kind: Kind): Option<string>
    requires !kind.Other?
  {
    if lines == [] then None
    else
      var line := lines[|lines| - 1];
      if KindOf(line) == kind then Some(line.sha) else LastOf(lines[..|lines| - 1], kind)
  }

  /** A tag's commit: the peeled one if the tag is annotated, else the one it names directly. */
  function TagCommit(lines: seq<Line>, name: string): Option<string> {
    match LastOf(lines, PeeledTag(name))
    case Some(sha) => Some(sha)
    case None => LastOf(lines, DirectTag(name))
  }

  function Branches(lines: seq<Line>): seq<RemoteRef> {
    if lines == [] then []
    else
      var n := |lines| - 1;
      var kind := KindOf(lines[n]);
      Branches(lines[..n]) + if kind.Branch? then [RemoteRef(kind.name, false, lines[n].sha)] else []
  }

  /** The branches are exactly the branch lines, each at its commit. */
  lemma {:induction false} BranchesExactly(lines: seq<Line>, name: string, sha: string)
    ensures RemoteRef(name, false, sha) in Branches(lines) <==> Cols(sha, "refs/heads/" + name) in lines
    ensures forall r :: r in Branches(lines) ==> !r.isTag
  {
    hide Classify;
    if lines != [] {
      var n := |lines| - 1;
      BranchesExactly(lines[..n], name, sha);
      assert lines == lines[..n] + [lines[n]];
      if lines[n].Cols? {
        ClassifyExactly(lines[n].ref, name);
      }
    }
  }

  ghost predicate TableOf(lines: seq<Line>, tags: map<string, Tag>) {
    && (forall name :: name in tags <==> TagCommit(lines, name).Some?)
    && (forall name :: name in tags ==>
          tags[name] == Tag(LastOf(lines, DirectTag(name)), LastOf(lines, PeeledTag(name))))
  }

  /** All branches in output order, then every tag exactly once, at the commit it stands for. */
  ghost predicate RefsOf(lines: seq<Line>, refs: seq<RemoteRef>) {
    var b := Branches(lines);
    && |b| <= |refs| && refs[..|b|] == b
    && (forall i :: |b| <= i < |refs| ==> refs[i].isTag && TagCommit(lines, refs[i].name) == Some(refs[i].commit))
    && (forall i, j :: |b| <= i < j < |refs| ==> refs[i].name != refs[j].name)
    && (forall name :: TagCommit(lines, name).Some? ==> exists i :: |b| <= i < |refs| && refs[i].name == name)
  }

  function Entry(tags: map<string, Tag>, name: string): Tag {
    if name in tags then tags[name] else Tag(None, None)
  }

  method ParseLsRemote(lines: seq<Line>) returns (refs: seq<RemoteRef>)
    ensures RefsOf(lines, refs)
  {
    hide Classify;
    refs := [];
    var tags: map<string, Tag> := map[];
    for i := 0 to |lines|
      invariant refs == Branches(lines[..i])
      invariant TableOf(lines[..i], tags)
    {
      assert lines[..i + 1][..i] == lines[..i];
      TableStep(lines[..i + 1], tags);
      match KindOf(lines[i]) {
        case Branch(name) => refs := refs + [RemoteRef(name, false, lines[i].sha)];
        case PeeledTag(name) => tags := tags[name := Entry(tags, name).(peeled := Some(lines[i].sha))];
        case DirectTag(name) => tags := tags[name := Entry(tags, name).(direct := Some(lines[i].sha))];
        case Other =>
      }
    }
    assert lines[..|lines|] == lines;
    var tagRefs := ListTags(tags);
    refs := refs + tagRefs;
    ListedRefs(lines, tags, tagRefs);
  }

  /** One line updates the entry of its own tag and nothing else. */
  ghost function AfterLine(tags: map<string, Tag>, line: Line): map<string, Tag> {
    match KindOf(line)
    case PeeledTag(name) => tags[name := Entry(tags, name).(peeled := Some(line.sha))]
    case DirectTag(name) => tags[name := Entry(tags, name).(direct := Some(line.sha))]
    case _ => tags
  }

  lemma TableStep(lines: seq<Line>, tags: map<string, Tag>)
    requires lines != [] && TableOf(lines[..|lines| - 1], tags)
    ensures TableOf(lines, AfterLine(tags, lines[|lines| - 1]))
  {
    hide Classify;
  }

  /** What a table entry resolves to. */
  function Resolve(t: Tag): Option<string> {
    if t.peeled.Some? then t.peeled else t.direct
  }

  ghost predicate Listing(tags: map<string, Tag>, refs: seq<RemoteRef>) {
    && (forall i :: 0 <= i < |refs| ==>
          refs[i].isTag && refs[i].name in tags && Resolve(tags[refs[i].name]) == Some(refs[i].commit))
    && (forall i, j :: 0 <= i < j < |refs| ==> refs[i].name != refs[j].name)
  }

  method ListTags(tags: map<string, Tag>) returns (refs: seq<RemoteRef>)
    ensures Listing(tags, refs)
    ensures forall name :: name in tags && Resolve(tags[name]).Some? ==>
      exists i :: 0 <= i < |refs| && refs[i].name == name
  {
    refs := [];
    var rest := tags.Keys;
    while rest != {}
      invariant rest <= tags.Keys && Listing(tags, refs)
      invariant forall i :: 0 <= i < |refs| ==> refs[i].name !in rest
      invariant forall name :: name in tags && Resolve(tags[name]).Some? ==>
        name in rest || exists i :: 0 <= i < |refs| && refs[i].name == name
      decreases rest
    {
      var name :| name in rest;
      var commit := Resolve(tags[name]);
      if commit.Some? {
        var before := refs;
        refs := refs + [RemoteRef(name, true, commit.value)];
        assert refs[|before|].name == name;
        assert forall i :: 0 <= i < |before| ==> refs[i] == before[i];
      }
      rest := rest - {name};
    }
  }

  lemma ListedRefs(lines: seq<Line>, tags: map<string, Tag>, listed: seq<RemoteRef>)
    requires TableOf(lines, tags) && Listing(tags, listed)
    requires forall name :: name in tags && Resolve(tags[name]).Some? ==>
      exists i :: 0 <= i < |listed| && listed[i].name == name
    ensures RefsOf(lines, Branches(lines) + listed)
  {
    hide Branches, LastOf;
    var b := Branches(lines);
    var refs := b + listed;
    assert forall i :: |b| <= i < |refs| ==> refs[i] == listed[i - |b|];
    forall name | TagCommit(lines, name).Some? ensures exists i :: |b| <= i < |refs| && refs[i].name == name {
      var i :| 0 <= i < |listed| && listed[i].name == name;
      assert refs[|b| + i].name == name;
    }
  }

  // ----- line order -----

  /** No ref is listed twice. */
  ghost predicate DistinctRefs(lines: seq<Line>) {
    forall i, j :: 0 <= i < j < |lines| && !KindOf(lines[i]).Other? ==> KindOf(lines[i]) != KindOf(lines[j])
  }

  lemma {:induction false} LastIsTheOne(lines: seq<Line>, kind: Kind, sha: string)
    requires DistinctRefs(lines) && !kind.Other?
    ensures LastOf(lines, kind) == Some(sha) <==> Has(lines, kind, sha)
  {
    hide Classify;
    if lines != [] {
      var n := |lines| - 1;
      LastIsTheOne(lines[..n], kind, sha);
      if KindOf(lines[n]) != kind {
        if i :| 0 <= i < |lines| && KindOf(lines[i]) == kind && lines[i].sha == sha {
          assert lines[..n][i] == lines[i];
        }
        if i :| 0 <= i < n && KindOf(lines[..n][i]) == kind && lines[..n][i].sha == sha {
          assert lines[i] == lines[..n][i];
        }
      }
    }
  }

  lemma LastIgnoresOrder(a: seq<Line>, b: seq<Line>, kind: Kind)
    requires DistinctRefs(a) && DistinctRefs(b) && multiset(a) == multiset(b) && !kind.Other?
    ensures LastOf(a, kind) == LastOf(b, kind)
  {
    hide KindOf, LastOf, Has;
    forall sha ensures LastOf(a, kind) == Some(sha) <==> LastOf(b, kind) == Some(sha) {
      LastIsTheOne(a, kind, sha);
      LastIsTheOne(b, kind, sha);
      SameMembers(a, b, kind, sha);
      SameMembers(b, a, kind, sha);
    }
    var x, y := LastOf(a, kind), LastOf(b, kind);
    if x.Some? {
      assert x == Some(x.value);
    } else if y.Some? {
      assert y == Some(y.value);
    }
  }

  ghost predicate Has(lines: seq<Line>, kind: Kind, sha: string)
    requires !kind.Other?
  {
    exists i :: 0 <= i < |lines| && KindOf(lines[i]) == kind && lines[i].sha == sha
  }

  lemma SameMembers(a: seq<Line>, b: seq<Line>, kind: Kind, sha: string)
    requires multiset(a) == multiset(b) && !kind.Other?
    ensures Has(a, kind, sha) ==> Has(b, kind, sha)
  {
    hide Classify;
    if Has(a, kind, sha) {
      var i :| 0 <= i < |a| && KindOf(a[i]) == kind && a[i].sha == sha;
      assert a[i] in multiset(b);
      var j :| 0 <= j < |b| && b[j] == a[i];
    }
  }

  /** A tag stands for the commit on its peeled line if it has one, else for the object on its own line. */
  lemma TagCommitExactly(lines: seq<Line>, name: string, sha: string)
    requires DistinctRefs(lines)
    ensures TagCommit(lines, name) == Some(sha) <==>
      || Has(lines, PeeledTag(name), sha)
      || (Has(lines, DirectTag(name), sha) && forall other :: !Has(lines, PeeledTag(name), other))
  {
    hide Has, LastOf, DistinctRefs;
    LastIsTheOne(lines, PeeledTag(name), sha);
    LastIsTheOne(lines, DirectTag(name), sha);
    var peeled := LastOf(lines, PeeledTag(name));
    forall other ensures Has(lines, PeeledTag(name), other) <==> peeled == Some(other) {
      LastIsTheOne(lines, PeeledTag(name), other);
    }
    if peeled.Some? {
      assert Has(lines, PeeledTag(name), peeled.value);
    }
  }

  /** Each tag resolves to the same commit whatever order the lines come in: a peeled line wins over the
      direct one, before or after it. */
  lemma TagsIgnoreLineOrder(a: seq<Line>, b: seq<Line>, name: string)
    requires DistinctRefs(a) && DistinctRefs(b) && multiset(a) == multiset(b)
    ensures TagCommit(a, name) == TagCommit(b, name)
  {
    LastIgnoresOrder(a, b, PeeledTag(name));
    LastIgnoresOrder(a, b, DirectTag(name));
  }
}
