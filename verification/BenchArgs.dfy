/** Resolution of a job's effective benchmark arguments. */
module BenchArgs {
  import opened Wrappers
  import opened Text

  const REPETITIONS := "--repetitions"

  predicate IsDash(token: string) {
    StartsWith(token, "-")
  }

  predicate IsRepetition(token: string) {
    token == REPETITIONS || StartsWith(token, "--repetitions=")
  }

  predicate FlagToken(token: string, flag: string) {
    token == flag || StartsWith(token, flag + "=")
  }

  predicate HasFlag(args: seq<string>, flag: string) {
    exists i :: 0 <= i < |args| && FlagToken(args[i], flag)
  }

  predicate IsRangeMode(args: seq<string>) {
    && HasFlag(args, "--start-at")
    && (HasFlag(args, "--count") || HasFlag(args, "--end-at"))
    && !(HasFlag(args, "--block") || HasFlag(args, "--txid"))
  }

  // ----- normalisation -----

  /** The tokens without repetition flags and their values, reading two tokens ahead. */
  function Strip(args: seq<string>): seq<string> {
    if args == [] then []
    else if args[0] == REPETITIONS then
      if |args| > 1 && !IsDash(args[1]) then Strip(args[2..]) else Strip(args[1..])
    else if IsRepetition(args[0]) then Strip(args[1..])
    else [args[0]] + Strip(args[1..])
  }

  predicate SawRepetition(args: seq<string>) {
    exists i :: 0 <= i < |args| && IsRepetition(args[i])
  }

  function Normalize(args: seq<string>): seq<string> {
    if SawRepetition(args) && !IsRangeMode(Strip(args)) then Strip(args) + [REPETITIONS, "1"] else Strip(args)
  }

  /** The single pass over a peekable iterator. */
  method NormalizeInProcessRepetitions(args: seq<string>) returns (out: seq<string>)
    ensures out == Normalize(args)
  {
    hide Strip, SawRepetition, IsRangeMode, StartsWith, IsDash;
    out := [];
    var i := 0;
    var sawRepetitions := false;
    NothingYet(args);
    while i < |args|
      invariant 0 <= i <= |args|
      invariant out + Strip(args[i..]) == Strip(args)
      invariant sawRepetitions <==> SawRepetition(args[..i])
    {
      var arg := args[i];
      StripAt(args, i);
      SawExtends(args, i);
      i := i + 1;
      if arg == REPETITIONS {
        sawRepetitions := true;
        if i < |args| && !IsDash(args[i]) {
          SawExtends(args, i);
          i := i + 1;
        }
      } else if StartsWith(arg, "--repetitions=") {
        sawRepetitions := true;
      } else {
        assert out + ([arg] + Strip(args[i..])) == out + [arg] + Strip(args[i..]);
        out := out + [arg];
      }
    }
    assert args[..i] == args && args[i..] == [];
    assert out == Strip(args);
    if sawRepetitions && !IsRangeMode(out) {
      out := out + [REPETITIONS, "1"];
    }
  }

  lemma NothingYet(args: seq<string>)
    ensures Strip(args[0..]) == Strip(args) && Strip([]) == [] && !SawRepetition(args[..0])
  {
    assert args[0..] == args;
  }

  lemma StripAt(args: seq<string>, i: nat)
    requires i < |args|
    ensures Strip(args[i..]) ==
      if args[i] == REPETITIONS && i + 1 < |args| && !IsDash(args[i + 1]) then Strip(args[i + 2..])
      else if IsRepetition(args[i]) then Strip(args[i + 1..])
      else [args[i]] + Strip(args[i + 1..])
  {
    assert args[i..][1..] == args[i + 1..];
    if i + 1 < |args| {
      assert args[i..][2..] == args[i + 2..];
    }
  }

  lemma SawExtends(args: seq<string>, i: nat)
    requires i < |args|
    ensures SawRepetition(args[..i + 1]) <==> SawRepetition(args[..i]) || IsRepetition(args[i])
  {
    assert forall j :: 0 <= j < i ==> args[..i + 1][j] == args[..i][j];
    assert args[..i + 1][i] == args[i];
  }

  // ----- what is dropped, said position by position -----

  /** Token `i` is a repetition flag, or the value of the bare flag right before it. */
  predicate Dropped(args: seq<string>, i: nat)
    requires i < |args|
  {
    IsRepetition(args[i]) || (i > 0 && args[i - 1] == REPETITIONS && !IsDash(args[i]))
  }

  /** The tokens from `i` on that are not dropped, in order. */
  function KeptFrom(args: seq<string>, i: nat): seq<string>
    requires i <= |args|
    decreases |args| - i
  {
    if i == |args| then [] else (if Dropped(args, i) then [] else [args[i]]) + KeptFrom(args, i + 1)
  }

  lemma {:induction false} StripFrom(args: seq<string>, i: nat)
    requires i <= |args|
    requires 0 < i < |args| && args[i - 1] == REPETITIONS ==> IsDash(args[i])
    ensures Strip(args[i..]) == KeptFrom(args, i)
    decreases |args| - i
  {
    if i < |args| {
      assert args[i..][1..] == args[i + 1..];
      if args[i] == REPETITIONS && i + 1 < |args| && !IsDash(args[i + 1]) {
        assert args[i..][2..] == args[i + 2..];
        StripFrom(args, i + 2);
      } else {
        StripFrom(args, i + 1);
      }
    }
  }

  /** The lookahead pass removes exactly the tokens a local test marks, and keeps the others in order. */
  lemma StripKeepsTheRest(args: seq<string>)
    ensures Strip(args) == KeptFrom(args, 0)
  {
    StripFrom(args, 0);
    assert args[0..] == args;
  }

  lemma {:induction false} StripIsClean(args: seq<string>)
    ensures !SawRepetition(Strip(args))
  {
    if args == [] {
    } else if args[0] == REPETITIONS && |args| > 1 && !IsDash(args[1]) {
      StripIsClean(args[2..]);
    } else {
      StripIsClean(args[1..]);
    }
  }

  lemma {:induction false} StripOfClean(clean: seq<string>, tail: seq<string>)
    requires !SawRepetition(clean)
    ensures Strip(clean + tail) == clean + Strip(tail)
  {
    if clean == [] {
      assert clean + tail == tail;
    } else {
      hide Strip, IsRepetition;
      CleanTail(clean);
      StripOfClean(clean[1..], tail);
      StripKeepsFirst(clean[0], clean[1..] + tail);
      assert [clean[0]] + (clean[1..] + tail) == clean + tail;
      assert [clean[0]] + (clean[1..] + Strip(tail)) == clean + Strip(tail);
    }
  }

  lemma StripKeepsFirst(token: string, rest: seq<string>)
    requires !IsRepetition(token)
    ensures Strip([token] + rest) == [token] + Strip(rest)
  {
    assert ([token] + rest)[1..] == rest;
  }

  lemma CleanTail(clean: seq<string>)
    requires clean != [] && !SawRepetition(clean)
    ensures !IsRepetition(clean[0]) && !SawRepetition(clean[1..])
  {
    hide IsRepetition;
    assert forall i :: 0 <= i < |clean[1..]| ==> clean[1..][i] == clean[i + 1];
  }

  lemma CleanIsFixed(clean: seq<string>)
    requires !SawRepetition(clean)
    ensures Strip(clean) == clean
  {
    StripOfClean(clean, []);
    assert clean + [] == clean;
  }

  lemma SuffixStrips()
    ensures Strip([REPETITIONS, "1"]) == []
  {
    assert "1"[0] != '-';
    assert [REPETITIONS, "1"][2..] == [];
  }

  /** A second pass changes nothing. */
  lemma NormalizeIdempotent(args: seq<string>)
    ensures Normalize(Normalize(args)) == Normalize(args)
  {
    var clean := Strip(args);
    StripIsClean(args);
    CleanIsFixed(clean);
    if Normalize(args) != clean {
      var suffix := [REPETITIONS, "1"];
      StripOfClean(clean, suffix);
      SuffixStrips();
      assert Strip(clean + suffix) == clean;
      assert IsRepetition((clean + suffix)[|clean|]);
    }
  }

  /** A flag that starts with a dash and is no repetition flag survives stripping, as does its absence. */
  ghost predicate Unrelated(flag: string) {
    && StartsWith(flag, "-")
    && forall t: string :: FlagToken(t, flag) ==> IsDash(t) && !IsRepetition(t)
  }

  lemma {:induction false} StripKeepsFlag(args: seq<string>, flag: string)
    requires Unrelated(flag)
    ensures HasFlag(Strip(args), flag) <==> HasFlag(args, flag)
  {
    if args != [] {
      var k := if args[0] == REPETITIONS && |args| > 1 && !IsDash(args[1]) then 2 else 1;
      StripKeepsFlag(args[k..], flag);
      HasFlagSplit(args[..k], args[k..], flag);
      assert args[..k] + args[k..] == args;
      if k == 2 {
        assert args[..2] == [args[0], args[1]];
      } else {
        assert args[..1] == [args[0]];
        HasFlagSplit([args[0]], Strip(args[1..]), flag);
      }
    }
  }

  lemma HasFlagSplit(a: seq<string>, b: seq<string>, flag: string)
    ensures HasFlag(a + b, flag) <==> HasFlag(a, flag) || HasFlag(b, flag)
  {
    if HasFlag(a, flag) {
      var i :| 0 <= i < |a| && FlagToken(a[i], flag);
      assert FlagToken((a + b)[i], flag);
    }
    if HasFlag(b, flag) {
      var i :| 0 <= i < |b| && FlagToken(b[i], flag);
      assert FlagToken((a + b)[|a| + i], flag);
    }
  }

  lemma ModeFlagsUnrelated()
    ensures Unrelated("--start-at") && Unrelated("--count") && Unrelated("--end-at")
    ensures Unrelated("--block") && Unrelated("--txid")
  {
    FlagUnrelated("--start-at");
    FlagUnrelated("--count");
    FlagUnrelated("--end-at");
    FlagUnrelated("--block");
    FlagUnrelated("--txid");
  }

  lemma FlagUnrelated(flag: string)
    requires |flag| > 2 && flag[0] == '-' && flag[2] != 'r'
    ensures Unrelated(flag)
  {
    forall t: string | FlagToken(t, flag) ensures IsDash(t) && !IsRepetition(t) {
      assert t[2] == flag[2];
    }
  }

  lemma StripKeepsMode(args: seq<string>)
    ensures IsRangeMode(Strip(args)) <==> IsRangeMode(args)
  {
    ModeFlagsUnrelated();
    StripKeepsFlag(args, "--start-at");
    StripKeepsFlag(args, "--count");
    StripKeepsFlag(args, "--end-at");
    StripKeepsFlag(args, "--block");
    StripKeepsFlag(args, "--txid");
  }

  /** What normalisation does, told by the input alone: keep the unmarked tokens, and end with one in-process
      repetition exactly when repetitions were asked for outside range mode. */
  lemma NormalizeMeaning(args: seq<string>)
    ensures Normalize(args) == KeptFrom(args, 0)
      + if SawRepetition(args) && !IsRangeMode(args) then [REPETITIONS, "1"] else []
    ensures !SawRepetition(KeptFrom(args, 0))
    ensures Normalize(args) == [] <==> args == []
  {
    StripKeepsTheRest(args);
    StripKeepsMode(args);
    StripIsClean(args);
    if args != [] && Strip(args) == [] {
      StripEmptySaw(args);
    }
  }

  lemma StripEmptySaw(args: seq<string>)
    requires args != [] && Strip(args) == []
    ensures SawRepetition(args) && !IsRangeMode(Strip(args))
  {
    assert IsRepetition(args[0]);
  }

  // ----- effective arguments -----

  predicate IsWord(s: string) {
    s != [] && NoBlank(s)
  }

  predicate AllWords(tokens: seq<string>) {
    forall i :: 0 <= i < |tokens| ==> IsWord(tokens[i])
  }

  /** The words of a line, with the letters of an unfinished word already read. */
  function WordsFrom(line: string, open: string): (r: seq<string>)
    requires NoBlank(open)
    ensures AllWords(r)
  {
    var done := if open == [] then [] else [open];
    if line == [] then done
    else if IsBlank(line[0]) then done + WordsFrom(line[1..], [])
    else WordsFrom(line[1..], open + [line[0]])
  }

  /** Words of a line, as `split_whitespace` yields them. */
  function Words(line: string): (r: seq<string>)
    ensures AllWords(r)
  {
    WordsFrom(line, [])
  }

  function JoinWords(tokens: seq<string>): string {
    if tokens == [] then []
    else if |tokens| == 1 then tokens[0]
    else tokens[0] + " " + JoinWords(tokens[1..])
  }

  function EffectiveArgTokens(stored: seq<string>, default: string): seq<string> {
    Normalize(if stored == [] then Words(default) else stored)
  }

  function EffectiveArgString(stored: seq<string>, default: string): string {
    JoinWords(EffectiveArgTokens(stored, default))
  }

  lemma ResolvedIsFixed(stored: seq<string>, default: string)
    ensures var snapshot := EffectiveArgTokens(stored, default); Normalize(snapshot) == snapshot
  {
    NormalizeIdempotent(if stored == [] then Words(default) else stored);
  }

  lemma OneWordResolves()
    ensures EffectiveArgTokens([], "x") == ["x"]
  {
    WordsOfJoin(["x"]);
    assert !IsRepetition("x");
    CleanIsFixed(["x"]);
  }

  /** A resolved snapshot keeps its tokens, hence its key, under every later default exactly when it is not
      empty: an empty one falls back to the new default. */
  lemma SnapshotIsStable(stored: seq<string>, default: string)
    ensures var snapshot := EffectiveArgTokens(stored, default);
      snapshot != [] <==> forall later: string :: EffectiveArgTokens(snapshot, later) == snapshot
  {
    ResolvedIsFixed(stored, default);
    OneWordResolves();
  }

  lemma {:induction false} ReadWord(w: string, rest: string, open: string)
    requires NoBlank(w) && NoBlank(open)
    ensures WordsFrom(w + rest, open) == WordsFrom(rest, open + w)
  {
    if w == [] {
      assert w + rest == rest && open + w == open;
    } else {
      assert (w + rest)[1..] == w[1..] + rest;
      ReadWord(w[1..], rest, open + [w[0]]);
      assert open + [w[0]] + w[1..] == open + w;
    }
  }

  lemma WordsStep(w: string, rest: string)
    requires IsWord(w)
    ensures Words(w + " " + rest) == [w] + Words(rest)
  {
    ReadWord(w, " " + rest, []);
    assert w + " " + rest == w + (" " + rest) && [] + w == w;
    assert (" " + rest)[1..] == rest;
  }

  lemma {:induction false} WordsOfJoin(tokens: seq<string>)
    requires AllWords(tokens)
    ensures Words(JoinWords(tokens)) == tokens
  {
    if |tokens| == 1 {
      ReadWord(tokens[0], [], []);
      assert tokens[0] + [] == tokens[0] && [] + tokens[0] == tokens[0];
    } else if |tokens| > 1 {
      WordsOfJoin(tokens[1..]);
      WordsStep(tokens[0], JoinWords(tokens[1..]));
      assert [tokens[0]] + tokens[1..] == tokens;
    }
  }

  lemma {:induction false} KeptWords(args: seq<string>, i: nat)
    requires i <= |args| && AllWords(args)
    ensures AllWords(KeptFrom(args, i))
    decreases |args| - i
  {
    if i < |args| {
      KeptWords(args, i + 1);
    }
  }

  lemma NormalizeKeepsWords(args: seq<string>)
    requires AllWords(args)
    ensures AllWords(Normalize(args))
  {
    hide Normalize, IsWord;
    KeptWords(args, 0);
    NormalWords(args);
  }

  /** The normal form is made of words exactly when the kept tokens are. */
  lemma NormalWords(args: seq<string>)
    ensures AllWords(Normalize(args)) <==> AllWords(KeptFrom(args, 0))
  {
    hide Normalize, IsWord, KeptFrom, SawRepetition, IsRangeMode;
    NormalizeMeaning(args);
    PairIsWords();
    var kept := KeptFrom(args, 0);
    var all := Normalize(args);
    if AllWords(all) {
      forall i | 0 <= i < |kept| ensures IsWord(kept[i]) {
        assert all[i] == kept[i];
      }
    }
  }

  lemma PairIsWords()
    ensures IsWord(REPETITIONS) && IsWord("1")
  {
  }

  /** The string handed to the benchmark splits back into the effective tokens exactly when the stored tokens that
      are kept, if any are stored, are words; on the default path it always does. */
  lemma ArgStringRoundTrip(stored: seq<string>, default: string)
    ensures Words(EffectiveArgString(stored, default)) == EffectiveArgTokens(stored, default) <==>
      stored == [] || AllWords(KeptFrom(stored, 0))
  {
    hide Normalize, IsWord, KeptFrom, WordsFrom, JoinWords;
    var tokens := EffectiveArgTokens(stored, default);
    if stored == [] {
      NormalizeKeepsWords(Words(default));
    } else {
      NormalWords(stored);
    }
    if AllWords(tokens) {
      WordsOfJoin(tokens);
    }
  }

  /** On the default path, and for every override made of words, the round trip holds. */
  lemma WordsRoundTrip(stored: seq<string>, default: string)
    requires AllWords(stored)
    ensures Words(EffectiveArgString(stored, default)) == EffectiveArgTokens(stored, default)
  {
    NormalizeKeepsWords(if stored == [] then Words(default) else stored);
    WordsOfJoin(EffectiveArgTokens(stored, default));
  }

  // ----- range mode -----

  /** A token gives this flag, alone or with its value behind an equals sign. */
  ghost predicate Gives(token: string, flag: string) {
    token == flag || exists value: string :: token == flag + "=" + value
  }

  ghost predicate Given(args: seq<string>, flag: string) {
    exists i :: 0 <= i < |args| && Gives(args[i], flag)
  }

  lemma TokenGives(token: string, flag: string)
    ensures FlagToken(token, flag) <==> Gives(token, flag)
  {
    if StartsWith(token, flag + "=") {
      var value := token[|flag| + 1..];
      assert token == flag + "=" + value;
    }
  }

  lemma FlagIsGiven(args: seq<string>, flag: string)
    ensures HasFlag(args, flag) <==> Given(args, flag)
  {
    hide FlagToken, Gives;
    forall i | 0 <= i < |args| ensures FlagToken(args[i], flag) <==> Gives(args[i], flag) {
      TokenGives(args[i], flag);
    }
  }

  /** Arguments select a range exactly when they give a start and a count or an end, and neither blocks nor
      transactions. */
  lemma RangeModeExactly(args: seq<string>)
    ensures IsRangeMode(args) <==>
      && Given(args, "--start-at") && (Given(args, "--count") || Given(args, "--end-at"))
      && !Given(args, "--block") && !Given(args, "--txid")
  {
    hide HasFlag, Given;
    FlagIsGiven(args, "--start-at");
    FlagIsGiven(args, "--count");
    FlagIsGiven(args, "--end-at");
    FlagIsGiven(args, "--block");
    FlagIsGiven(args, "--txid");
  }

  // ----- stored details -----

  /** The shapes a persisted queued-event detail takes, as far as arguments go. */
  datatype Detail =
    | Snapshot(parsed: Option<seq<string>>)
    | TokenEvent(args: seq<string>)
    | LineEvent(line: Option<string>)
    | ArglessEvent
    | Unparseable

  function TryNormalizeStored(d: Detail): Option<seq<string>> {
    match d
    case Snapshot(None) => None
    case Snapshot(Some(tokens)) => Some(Normalize(tokens))
    case TokenEvent(args) => Some(Normalize(args))
    case LineEvent(None) => Some([])
    case LineEvent(Some(line)) => Some(Normalize(Words(line)))
    case ArglessEvent => Some([])
    case Unparseable => None
  }

  /** The arguments an event was queued with: tokens, the words of a line, or none. */
  function Queued(d: Detail): Option<seq<string>> {
    match d
    case Snapshot(parsed) => parsed
    case TokenEvent(args) => Some(args)
    case LineEvent(line) => Some(if line.None? then [] else Words(line.value))
    case ArglessEvent => Some([])
    case Unparseable => None
  }

  /** Normalising what was stored changes nothing of what is run: an event resolves to the arguments it was queued with,
      or to the default if it had none, and only an unreadable one resolves to nothing. */
  lemma StoredResolvesAsQueued(d: Detail, default: string)
    ensures TryNormalizeStored(d).Some? <==> Queued(d).Some?
    ensures Queued(d).Some? ==>
      EffectiveArgTokens(TryNormalizeStored(d).value, default) == EffectiveArgTokens(Queued(d).value, default)
  {
    hide Normalize, Words;
    if Queued(d).Some? {
      NormalizeIdempotent(Queued(d).value);
      EmptyStaysEmpty(Queued(d).value);
      EmptyStaysEmpty([]);
    }
  }

  /** Whatever is read back from storage is in normal form. */
  lemma StoredIsNormal(d: Detail)
    requires TryNormalizeStored(d).Some?
    ensures Normalize(TryNormalizeStored(d).value) == TryNormalizeStored(d).value
  {
    hide Normalize, Words;
    NormalizeIdempotent(Queued(d).value);
    EmptyStaysEmpty([]);
  }

  lemma EmptyStaysEmpty(args: seq<string>)
    ensures Normalize(args) == [] <==> args == []
  {
    NormalizeMeaning(args);
  }

  /** Persisting the resolved tokens and reading them back yields the tokens, whatever they were resolved from. */
  lemma SnapshotRoundTrip(d: Detail, default: string)
    requires TryNormalizeStored(d).Some?
    ensures var tokens := EffectiveArgTokens(TryNormalizeStored(d).value, default);
      TryNormalizeStored(Snapshot(Some(tokens))) == Some(tokens)
  {
    var stored := TryNormalizeStored(d).value;
    NormalizeIdempotent(if stored == [] then Words(default) else stored);
  }
}
