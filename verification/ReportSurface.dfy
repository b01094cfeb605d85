/** The GitHub report surface: a PR comment and a check run, updated together, with refreshes debounced. */
module ReportSurface {
  import opened Wrappers

  const MIN_INTERVAL: int := 30_000 // milliseconds

  type Text = string

  /** How one remote update fares; a lost one may have been applied all the same. */
  datatype Fate = Delivered | Lost(applied: bool)

  /** The surfaces a job has. */
  datatype Surfaces = Surfaces(comment: bool, check: bool)

  /** When the last complete update happened, and what each surface shows. */
  datatype State = State(lastUpdateAt: Option<int>, comment: Option<Text>, check: Option<Text>)

  datatype Kind = Phase(terminal: bool) | Progress

  /** One call: its text, when it starts and ends, and how its two remote updates would fare. */
  datatype Call = Call(kind: Kind, text: Text, start: int, end: int, commentFate: Fate, checkFate: Fate)

  datatype Error = CommentFailed | CheckFailed

  /** What a call returned, and which updates it attempted. */
  datatype Effect = Effect(error: Option<Error>, triedComment: bool, triedCheck: bool)

  function Shown(before: Option<Text>, tried: bool, fate: Fate, text: Text): Option<Text> {
    if tried && (fate.Delivered? || fate.applied) then Some(text) else before
  }

  predicate Debounced(s: State, c: Call) {
    c.kind.Progress? && s.lastUpdateAt.Some? && c.start - s.lastUpdateAt.value < MIN_INTERVAL
  }

  /** The check run is left alone by a terminal phase. */
  predicate UsesCheck(f: Surfaces, c: Call) {
    f.check && !(c.kind.Phase? && c.kind.terminal)
  }

  function Step(f: Surfaces, s: State, c: Call): (State, Effect) {
    var useCheck := UsesCheck(f, c);
    if (!f.comment && !useCheck) || Debounced(s, c) then (s, Effect(None, false, false))
    else
      var error :=
        if f.comment && c.commentFate.Lost? then Some(CommentFailed)
        else if useCheck && c.checkFate.Lost? then Some(CheckFailed)
        else None;
      (State(if error.None? then Some(c.end) else s.lastUpdateAt,
             Shown(s.comment, f.comment, c.commentFate, c.text),
             Shown(s.check, useCheck, c.checkFate, c.text)),
       Effect(error, f.comment, useCheck))
  }

  class GitHubReportSurface {
    const surfaces: Surfaces
    var state: State

    constructor (surfaces: Surfaces, comment: Option<Text>, check: Option<Text>)
      ensures this.surfaces == surfaces && state == State(None, comment, check)
    {
      this.surfaces := surfaces;
      this.state := State(None, comment, check);
    }

    method UpdateComment(text: Text, fate: Fate) returns (ok: bool)
      modifies this
      ensures ok <==> fate.Delivered?
      ensures state == old(state).(comment := Shown(old(state).comment, true, fate, text))
    {
      if fate.Delivered? || fate.applied {
        state := state.(comment := Some(text));
      }
      ok := fate.Delivered?;
    }

    method UpdateCheckRun(text: Text, fate: Fate) returns (ok: bool)
      modifies this
      ensures ok <==> fate.Delivered?
      ensures state == old(state).(check := Shown(old(state).check, true, fate, text))
    {
      if fate.Delivered? || fate.applied {
        state := state.(check := Some(text));
      }
      ok := fate.Delivered?;
    }

    /** One call, phase or progress: the debounce, the two independent updates, the first error. */
    method Update(c: Call) returns (e: Effect)
      modifies this
      ensures (state, e) == Step(surfaces, old(state), c)
    {
      var useComment := surfaces.comment;
      var useCheck := if c.kind.Phase? && c.kind.terminal then false else surfaces.check;
      if !useComment && !useCheck {
        return Effect(None, false, false);
      }
      if c.kind.Progress? && state.lastUpdateAt.Some? {
        if c.start - state.lastUpdateAt.value < MIN_INTERVAL {
          return Effect(None, false, false);
        }
      }
      var firstError := None;
      if useComment {
        var ok := UpdateComment(c.text, c.commentFate);
        if !ok {
          firstError := Some(CommentFailed);
        }
      }
      if useCheck {
        var ok := UpdateCheckRun(c.text, c.checkFate);
        if !ok && firstError.None? {
          firstError := Some(CheckFailed);
        }
      }
      if firstError.None? {
        state := state.(lastUpdateAt := Some(c.end));
      }
      return Effect(firstError, useComment, useCheck);
    }
  }

  // ----- one call -----

  /** A durable phase is never suppressed, and neither surface's failure keeps the other from being tried. */
  lemma PhaseIsAlwaysSent(f: Surfaces, s: State, c: Call)
    requires c.kind.Phase?
    ensures var e := Step(f, s, c).1; e.triedComment == f.comment && e.triedCheck == (f.check && !c.kind.terminal)
  {
  }

  /** The two surfaces do not depend on each other: a call that goes out updates each surface it uses as that surface's
      own delivery has it, whatever becomes of the other one, and leaves an unused surface alone. */
  lemma SurfacesAreIndependent(f: Surfaces, s: State, c: Call)
    requires !Debounced(s, c)
    ensures var s' := Step(f, s, c).0;
      var useCheck := f.check && c.kind != Phase(true);
      && (f.comment && c.commentFate != Lost(false) ==> s'.comment == Some(c.text))
      && (useCheck && c.checkFate != Lost(false) ==> s'.check == Some(c.text))
      && (!f.comment || c.commentFate == Lost(false) ==> s'.comment == s.comment)
      && (!useCheck || c.checkFate == Lost(false) ==> s'.check == s.check)
  {
  }

  /** The first failure is the one reported: the comment's whenever that was lost, the check run's only if the comment
      was not; and there is none exactly when every used update was delivered. */
  lemma ErrorExactly(f: Surfaces, s: State, c: Call)
    requires !Debounced(s, c)
    ensures var error := Step(f, s, c).1.error;
      var commentLost := f.comment && c.commentFate.Lost?;
      var checkLost := f.check && c.kind != Phase(true) && c.checkFate.Lost?;
      && (error == Some(CommentFailed) <==> commentLost)
      && (error == Some(CheckFailed) <==> checkLost && !commentLost)
      && (error == None <==> !commentLost && !checkLost)
  {
  }

  /** A debounced call does nothing at all, and only progress within 30 s of the remembered update is debounced. */
  lemma DebounceExactly(f: Surfaces, s: State, c: Call)
    ensures Debounced(s, c) <==> c.kind == Progress && s.lastUpdateAt.Some? && c.start < s.lastUpdateAt.value + 30_000
    ensures Debounced(s, c) ==> Step(f, s, c) == (s, Effect(None, false, false))
  {
  }

  predicate Sent(e: Effect) {
    e.triedComment || e.triedCheck
  }

  /** `Ok` from a call that was not debounced means every configured surface shows its text; a terminal phase
      leaves the check run as it was. */
  lemma OkMeansShown(f: Surfaces, s: State, c: Call)
    requires !Debounced(s, c) && Step(f, s, c).1.error.None?
    ensures var s' := Step(f, s, c).0;
      && (f.comment ==> s'.comment == Some(c.text))
      && (f.check ==> if c.kind == Phase(true) then s'.check == s.check else s'.check == Some(c.text))
  {
  }

  // ----- runs -----

  /** Calls happen one after the other on a clock that never goes back. */
  ghost predicate Sequential(calls: seq<Call>) {
    && (forall i :: 0 <= i < |calls| ==> calls[i].start <= calls[i].end)
    && (forall i, j :: 0 <= i < j < |calls| ==> calls[i].end <= calls[j].start)
  }

  function Exec(f: Surfaces, s: State, calls: seq<Call>): State {
    if calls == [] then s else Step(f, Exec(f, s, calls[..|calls| - 1]), calls[|calls| - 1]).0
  }

  /** What call `i` of the run did. */
  function EffectOf(f: Surfaces, s: State, calls: seq<Call>, i: nat): Effect
    requires i < |calls|
  {
    Step(f, Exec(f, s, calls[..i]), calls[i]).1
  }

  /** Call `i` updated every surface it uses. */
  predicate Complete(f: Surfaces, s: State, calls: seq<Call>, i: nat)
    requires i < |calls|
  {
    Sent(EffectOf(f, s, calls, i)) && EffectOf(f, s, calls, i).error.None?
  }

  /** A call moves the remembered instant exactly when it is complete. */
  lemma StepRemembers(f: Surfaces, s: State, c: Call)
    ensures var (after, e) := Step(f, s, c);
      after.lastUpdateAt == if Sent(e) && e.error.None? then Some(c.end) else s.lastUpdateAt
  {
  }

  /** No complete update among the first `n` calls is later than `last`, and one of them ended then. */
  ghost predicate Latest(f: Surfaces, s: State, calls: seq<Call>, n: nat, last: Option<int>)
    requires n <= |calls|
  {
    && (forall i :: 0 <= i < n && Complete(f, s, calls, i) ==> last.Some? && calls[i].end <= last.value)
    && (last.Some? ==> exists i :: 0 <= i < n && Complete(f, s, calls, i) && calls[i].end == last.value)
  }

  lemma {:induction false} LatestSoFar(f: Surfaces, s: State, calls: seq<Call>, n: nat)
    requires Sequential(calls) && s.lastUpdateAt.None? && n <= |calls|
    ensures Latest(f, s, calls, n, Exec(f, s, calls[..n]).lastUpdateAt)
  {
    if n > 0 {
      hide Step, Sent;
      LatestSoFar(f, s, calls, n - 1);
      assert calls[..n][..n - 1] == calls[..n - 1];
      StepRemembers(f, Exec(f, s, calls[..n - 1]), calls[n - 1]);
    }
  }

  /** The remembered instant is the end of the latest complete update: no complete update is later, and some
      complete update ended then. */
  lemma LastUpdateIsLatest(f: Surfaces, s: State, calls: seq<Call>)
    requires Sequential(calls) && s.lastUpdateAt.None?
    ensures Latest(f, s, calls, |calls|, Exec(f, s, calls).lastUpdateAt)
  {
    LatestSoFar(f, s, calls, |calls|);
    assert calls[..|calls|] == calls;
  }

  /** In every run, a progress call is suppressed exactly when a complete update ended less than 30 s before it;
      so none is ever sent within that time, and failures never delay the next refresh. */
  lemma ProgressIsDebouncedExactly(f: Surfaces, s: State, calls: seq<Call>, j: nat)
    requires Sequential(calls) && s.lastUpdateAt.None? && j < |calls| && calls[j].kind.Progress?
    requires f.comment || f.check
    ensures !Sent(EffectOf(f, s, calls, j)) <==>
      exists i :: 0 <= i < j && Complete(f, s, calls, i) && calls[j].start - calls[i].end < 30_000
  {
    LatestSoFar(f, s, calls, j);
  }

  /** In every run, each phase reaches every surface it uses or reports the failure. */
  lemma PhasesAreNeverLost(f: Surfaces, s: State, calls: seq<Call>, j: nat)
    requires j < |calls| && calls[j].kind.Phase?
    ensures var e := EffectOf(f, s, calls, j);
      && e.triedComment == f.comment && e.triedCheck == (f.check && !calls[j].kind.terminal)
      && (e.error.None? ==> var after := Exec(f, s, calls[..j + 1]);
            (f.comment ==> after.comment == Some(calls[j].text))
            && (f.check && !calls[j].kind.terminal ==> after.check == Some(calls[j].text)))
  {
    assert calls[..j + 1][..j] == calls[..j];
    PhaseIsAlwaysSent(f, Exec(f, s, calls[..j]), calls[j]);
  }
}
