/** Fetching one key into the local mirror: any number of downloads run at once, each into a part file of its own, and
    any of them can be cut, cancelled or lost. */
module MirrorFetch {
  import opened Wrappers
  import opened RangePlan

  /** A download of `object_`, with `written` of its bytes in the part file named by `token`. */
  datatype Fetch = Fetch(token: string, object_: seq<byte>, written: nat, live: bool)

  /** `dest` is what lies at the key's path. */
  datatype State = State(dest: Option<seq<byte>>, parts: map<string, seq<byte>>, fetches: seq<Fetch>)

  /** `Cut` is an error while streaming, after which the part file is removed if it can be; `Vanish` is a download that
      is cancelled or dies, or whose rename fails, and leaves its part file behind; `Reap` clears the mirror. */
  datatype Step =
    | Begin(token: string, object_: seq<byte>)
    | Chunk(f: nat, n: nat)
    | Cut(f: nat, removed: bool)
    | Vanish(f: nat)
    | Finish(f: nat)
    | Reap

  predicate Live(s: State, f: nat) {
    f < |s.fetches| && s.fetches[f].live && s.fetches[f].token in s.parts
  }

  /** A download starts under a token never used before, even if another one has finished since it found the path
      empty; its stream ends without an error only when the whole object has come. */
  predicate Enabled(s: State, step: Step) {
    match step
    case Begin(token, _) => forall f :: 0 <= f < |s.fetches| ==> s.fetches[f].token != token
    case Chunk(f, n) => Live(s, f) && s.fetches[f].written + n <= |s.fetches[f].object_|
    case Cut(f, _) => Live(s, f)
    case Vanish(f) => Live(s, f)
    case Finish(f) => Live(s, f) && s.fetches[f].written == |s.fetches[f].object_|
    case Reap => true
  }

  function Ended(fetches: seq<Fetch>, f: nat): seq<Fetch>
    requires f < |fetches|
  {
    fetches[f := fetches[f].(live := false)]
  }

  function Apply(s: State, step: Step): State
    requires Enabled(s, step)
  {
    match step
    case Begin(token, object_) =>
      s.(parts := s.parts[token := []], fetches := s.fetches + [Fetch(token, object_, 0, true)])
    case Chunk(f, n) =>
      var w := s.fetches[f];
      var more := s.parts[w.token] + w.object_[w.written..w.written + n];
      s.(parts := s.parts[w.token := more], fetches := s.fetches[f := w.(written := w.written + n)])
    case Cut(f, removed) =>
      s.(parts := if removed then s.parts - {s.fetches[f].token} else s.parts, fetches := Ended(s.fetches, f))
    case Vanish(f) => s.(fetches := Ended(s.fetches, f))
    case Finish(f) =>
      var token := s.fetches[f].token;
      State(Some(s.parts[token]), s.parts - {token}, Ended(s.fetches, f))
    case Reap => s.(dest := None)
  }

  /** Downloads may begin at any time, and a live one may get any part of what is left, be cut, die, or, once it has
      everything, finish. */
  lemma NothingIsRuledOut(s: State, token: string, object_: seq<byte>, f: nat, n: nat, removed: bool)
    ensures (forall g :: 0 <= g < |s.fetches| ==> s.fetches[g].token != token) ==> Enabled(s, Begin(token, object_))
    ensures Live(s, f) ==> Enabled(s, Cut(f, removed)) && Enabled(s, Vanish(f))
    ensures Live(s, f) && s.fetches[f].written + n <= |s.fetches[f].object_| ==> Enabled(s, Chunk(f, n))
    ensures Live(s, f) && s.fetches[f].written == |s.fetches[f].object_| ==> Enabled(s, Finish(f))
    ensures Enabled(s, Reap)
  {
  }

  /** A cut download takes its part file along if it can, and never touches the path or another's part file. */
  lemma CutCleansUp(s: State, f: nat, removed: bool, token: string)
    requires Enabled(s, Cut(f, removed))
    ensures var t := Apply(s, Cut(f, removed));
      && t.dest == s.dest && !Live(t, f)
      && (token in t.parts <==> token in s.parts && !(removed && token == s.fetches[f].token))
      && (token in t.parts ==> t.parts[token] == s.parts[token])
  {
  }

  /** A download that is not cut puts its object in place. */
  lemma DownloadCanFinish(s: State, token: string, object_: seq<byte>)
    requires forall g :: 0 <= g < |s.fetches| ==> s.fetches[g].token != token
    ensures var f := |s.fetches|;
      && Enabled(s, Begin(token, object_))
      && var begun := Apply(s, Begin(token, object_));
         && Enabled(begun, Chunk(f, |object_|))
         && var got := Apply(begun, Chunk(f, |object_|));
            Enabled(got, Finish(f)) && Apply(got, Finish(f)).dest == Some(object_)
  {
    assert [] + object_[0..|object_|] == object_;
  }

  // ----- the invariant -----

  predicate FetchOk(s: State, f: nat)
    requires f < |s.fetches|
  {
    var w := s.fetches[f];
    w.live ==> w.token in s.parts && w.written <= |w.object_| && s.parts[w.token] == w.object_[..w.written]
  }

  ghost predicate OneEach(fetches: seq<Fetch>) {
    forall f, g :: 0 <= f < g < |fetches| ==> fetches[f].token != fetches[g].token
  }

  predicate IsWhole(fetches: seq<Fetch>, content: seq<byte>) {
    exists f :: 0 <= f < |fetches| && fetches[f].object_ == content
  }

  /** Every live part file holds the start of its own object, and the path holds nothing, what it held at first, or
      the whole of a downloaded object. */
  ghost predicate Inv(first: Option<seq<byte>>, s: State) {
    && (forall f :: 0 <= f < |s.fetches| ==> FetchOk(s, f))
    && OneEach(s.fetches)
    && (s.dest.None? || s.dest == first || IsWhole(s.fetches, s.dest.value))
  }

  lemma PartsStay(s: State, step: Step, g: nat)
    requires Enabled(s, step) && OneEach(s.fetches) && g < |s.fetches| && FetchOk(s, g)
    ensures FetchOk(Apply(s, step), g)
  {
    if step.Chunk? && step.f == g {
      var w := s.fetches[g];
      assert w.object_[..w.written] + w.object_[w.written..w.written + step.n] == w.object_[..w.written + step.n];
    }
  }

  lemma ObjectsStay(s: State, step: Step, content: seq<byte>)
    requires Enabled(s, step) && IsWhole(s.fetches, content)
    ensures IsWhole(Apply(s, step).fetches, content)
  {
    var f :| 0 <= f < |s.fetches| && s.fetches[f].object_ == content;
    assert Apply(s, step).fetches[f].object_ == content;
  }

  /** Finishing puts the whole object at the path. */
  lemma FinishIsWhole(first: Option<seq<byte>>, s: State, f: nat)
    requires Inv(first, s) && Enabled(s, Finish(f))
    ensures Apply(s, Finish(f)).dest == Some(s.fetches[f].object_)
  {
    var w := s.fetches[f];
    assert FetchOk(s, f) && w.object_[..|w.object_|] == w.object_;
  }

  lemma StepKeepsInv(first: Option<seq<byte>>, s: State, step: Step)
    requires Inv(first, s) && Enabled(s, step)
    ensures Inv(first, Apply(s, step))
  {
    hide FetchOk, IsWhole;
    var t := Apply(s, step);
    forall g | 0 <= g < |t.fetches| ensures FetchOk(t, g) {
      if g < |s.fetches| {
        PartsStay(s, step, g);
      } else {
        NewIsOk(s, step);
      }
    }
    if s.dest.Some? && IsWhole(s.fetches, s.dest.value) {
      ObjectsStay(s, step, s.dest.value);
    }
    if step.Finish? {
      FinishIsWhole(first, s, step.f);
      FinishedIsThere(s.fetches, step.f);
      ObjectsStay(s, step, s.fetches[step.f].object_);
    }
  }

  lemma NewIsOk(s: State, step: Step)
    requires Enabled(s, step) && step.Begin?
    ensures FetchOk(Apply(s, step), |s.fetches|)
  {
  }

  lemma FinishedIsThere(fetches: seq<Fetch>, f: nat)
    requires f < |fetches|
    ensures IsWhole(fetches, fetches[f].object_)
  {
  }

  // ----- whole runs -----

  /** The state after `steps` over an untouched mirror, or nothing if a step was not possible. */
  function Exec(first: Option<seq<byte>>, steps: seq<Step>): Option<State> {
    if steps == [] then Some(State(first, map[], []))
    else
      var last := |steps| - 1;
      match Exec(first, steps[..last])
      case None => None
      case Some(s) => if Enabled(s, steps[last]) then Some(Apply(s, steps[last])) else None
  }

  /** A download of exactly this object was begun. */
  predicate Begun(steps: seq<Step>, content: seq<byte>) {
    exists k :: 0 <= k < |steps| && steps[k].Begin? && steps[k].object_ == content
  }

  /** Whatever the downloads do, and however they end, the path never holds a truncated object. */
  lemma {:induction false} PathIsNeverTruncated(first: Option<seq<byte>>, steps: seq<Step>)
    requires Exec(first, steps).Some?
    ensures Inv(first, Exec(first, steps).value)
    ensures var dest := Exec(first, steps).value.dest; dest.None? || dest == first || Begun(steps, dest.value)
  {
    hide Enabled, Apply, Inv;
    if steps == [] {
      FirstInv(first);
    } else {
      var last := |steps| - 1;
      PathIsNeverTruncated(first, steps[..last]);
      StepKeepsInv(first, Exec(first, steps[..last]).value, steps[last]);
    }
    WholeWasBegun(first, steps);
  }

  lemma FirstInv(first: Option<seq<byte>>)
    ensures Inv(first, State(first, map[], []))
  {
  }

  lemma {:induction false} FetchesWereBegun(first: Option<seq<byte>>, steps: seq<Step>, content: seq<byte>)
    requires Exec(first, steps).Some? && IsWhole(Exec(first, steps).value.fetches, content)
    ensures Begun(steps, content)
  {
    var last := |steps| - 1;
    var s, t := Exec(first, steps[..last]).value, Exec(first, steps).value;
    var f :| 0 <= f < |t.fetches| && t.fetches[f].object_ == content;
    if f < |s.fetches| {
      assert s.fetches[f].object_ == content;
      FetchesWereBegun(first, steps[..last], content);
      var k :| 0 <= k < last && steps[..last][k].Begin? && steps[..last][k].object_ == content;
      assert steps[k] == steps[..last][k];
    } else {
      assert steps[last].object_ == content;
    }
  }

  lemma WholeWasBegun(first: Option<seq<byte>>, steps: seq<Step>)
    requires Exec(first, steps).Some? && Inv(first, Exec(first, steps).value)
    ensures var dest := Exec(first, steps).value.dest; dest.None? || dest == first || Begun(steps, dest.value)
  {
    hide Exec, FetchOk;
    var s := Exec(first, steps).value;
    if s.dest.Some? && s.dest != first {
      FetchesWereBegun(first, steps, s.dest.value);
    }
  }
}
