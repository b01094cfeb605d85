/** Rendering a workload as benchmark arguments, and reading it back from the normalised arguments. */
module Workload {
  import opened Wrappers
  import opened Decimal
  import opened BenchArgs
  import Text

  datatype Selector = Height(height: nat) | Hash(text: string)

  datatype Target = Txids(txids: seq<string>) | Blocks(blocks: seq<Selector>) | BlockRange(start: nat, end: nat)

  datatype Spec = Spec(
    target: Target,
    cleanRepetitions: nat,
    warmup: Option<nat>,
    repository: Option<string>,
    rev: Option<string>)

  function SelectorArg(b: Selector): string {
    match b
    case Height(h) => Render(h)
    case Hash(text) => text
  }

  // ----- rendering -----

  function Pairs(flag: string, values: seq<string>): seq<string> {
    if values == [] then [] else [flag, values[0]] + Pairs(flag, values[1..])
  }

  function SelectorArgs(blocks: seq<Selector>): (r: seq<string>)
    ensures |r| == |blocks|
    ensures forall i :: 0 <= i < |blocks| ==> r[i] == SelectorArg(blocks[i])
  {
    if blocks == [] then [] else [SelectorArg(blocks[0])] + SelectorArgs(blocks[1..])
  }

  /** The number of blocks in an inclusive range, in 64-bit arithmetic. */
  function BlockCount(start: nat, end: nat): nat
    requires start <= end
  {
    (end - start + 1) % (U64_MAX + 1)
  }

  function TargetArgs(t: Target): seq<string>
    requires t.BlockRange? ==> t.start <= t.end
  {
    match t
    case Txids(txids) => Pairs("--txid", txids)
    case Blocks(blocks) => Pairs("--block", SelectorArgs(blocks))
    case BlockRange(start, end) => ["--start-at", Render(start), "--count", Render(BlockCount(start, end))]
  }

  function RepetitionArgs(t: Target): seq<string> {
    if t.BlockRange? then [] else [REPETITIONS, "1"]
  }

  function WarmupArgs(warmup: Option<nat>): seq<string> {
    match warmup
    case None => []
    case Some(n) => ["--warmup", Render(n)]
  }

  /** The arguments of one isolated execution. */
  function BenchArgsOf(w: Spec): seq<string>
    requires w.target.BlockRange? ==> w.target.start <= w.target.end
  {
    TargetArgs(w.target) + RepetitionArgs(w.target) + WarmupArgs(w.warmup)
  }

  method ToBenchArgs(w: Spec) returns (args: seq<string>)
    requires w.target.BlockRange? ==> w.target.start <= w.target.end
    ensures args == BenchArgsOf(w)
  {
    args := [];
    var includeInProcessRepetition := false;
    match w.target {
      case Txids(txids) =>
        includeInProcessRepetition := true;
        for i := 0 to |txids|
          invariant args == Pairs("--txid", txids[..i])
        {
          PairsAppend("--txid", txids[..i], txids[i]);
          assert txids[..i] + [txids[i]] == txids[..i + 1];
          args := args + ["--txid"];
          args := args + [txids[i]];
        }
        assert txids[..|txids|] == txids;
      case Blocks(blocks) =>
        includeInProcessRepetition := true;
        ghost var values := SelectorArgs(blocks);
        for i := 0 to |blocks|
          invariant args == Pairs("--block", values[..i])
        {
          PairsAppend("--block", values[..i], values[i]);
          assert values[..i] + [values[i]] == values[..i + 1];
          args := args + ["--block"];
          args := args + [SelectorArg(blocks[i])];
        }
        assert values[..|blocks|] == values;
      case BlockRange(start, end) =>
        args := ["--start-at", Render(start), "--count", Render(BlockCount(start, end))];
    }
    if includeInProcessRepetition {
      args := args + [REPETITIONS, "1"];
    }
    if w.warmup.Some? {
      args := args + ["--warmup", Render(w.warmup.value)];
    }
  }

  lemma {:induction false} PairsAppend(flag: string, values: seq<string>, v: string)
    ensures Pairs(flag, values + [v]) == Pairs(flag, values) + [flag] + [v]
  {
    if values == [] {
      assert Pairs(flag, [v]) == [flag, v] + Pairs(flag, []);
    } else {
      assert (values + [v])[1..] == values[1..] + [v];
      PairsAppend(flag, values[1..], v);
    }
  }

  // ----- well-formed workloads -----

  /** A 32-byte hash as the intent adapter normalises it. */
  predicate IsHash(s: string) {
    |s| == 64 && forall i :: 0 <= i < |s| ==> Text.IsHexDigit(s[i])
  }

  predicate SelectorOk(b: Selector) {
    match b
    case Height(h) => h <= U64_MAX
    case Hash(text) => IsHash(text)
  }

  /** What the intent adapter accepts: at least one value, 32-byte hashes, and 64-bit heights in order. */
  predicate WellFormed(w: Spec) {
    && (w.warmup.Some? ==> w.warmup.value <= U32_MAX)
    && match w.target
       case Txids(txids) => txids != [] && forall i :: 0 <= i < |txids| ==> IsHash(txids[i])
       case Blocks(blocks) => blocks != [] && forall i :: 0 <= i < |blocks| ==> SelectorOk(blocks[i])
       case BlockRange(start, end) => start <= end <= U64_MAX
  }

  /** A flag's value: no dash in front, so it is neither a flag nor a repetition token. */
  predicate IsPlain(token: string) {
    token != [] && token[0] != '-'
  }

  lemma PlainValues(w: Spec)
    requires WellFormed(w)
    ensures w.target.Txids? ==> forall i :: 0 <= i < |w.target.txids| ==> IsPlain(w.target.txids[i])
    ensures w.target.Blocks? ==>
      forall i :: 0 <= i < |w.target.blocks| ==> IsPlain(SelectorArg(w.target.blocks[i]))
  {
    if w.target.Blocks? {
      forall i | 0 <= i < |w.target.blocks| ensures IsPlain(SelectorArg(w.target.blocks[i])) {
        assert SelectorOk(w.target.blocks[i]);
      }
    }
  }

  lemma PlainIsNoRepetition(token: string)
    requires IsPlain(token)
    ensures !IsRepetition(token)
  {
  }

  // ----- normalising what was rendered -----

  /** The normal form: target, warm-up, and the one in-process repetition of a targeted run. */
  function NormalArgs(w: Spec): seq<string>
    requires w.target.BlockRange? ==> w.target.start <= w.target.end
  {
    TargetArgs(w.target) + WarmupArgs(w.warmup) + RepetitionArgs(w.target)
  }

  lemma {:induction false} PairsClean(flag: string, values: seq<string>)
    requires !IsRepetition(flag) && forall i :: 0 <= i < |values| ==> IsPlain(values[i])
    ensures !SawRepetition(Pairs(flag, values))
  {
    if values != [] {
      PairsClean(flag, values[1..]);
      PlainIsNoRepetition(values[0]);
    }
  }

  lemma FlagsAreNoRepetition()
    ensures !IsRepetition("--txid") && !IsRepetition("--block") && !IsRepetition("--start-at")
    ensures !IsRepetition("--count") && !IsRepetition("--warmup")
  {
    assert "--txid"[2] == 't' && "--block"[2] == 'b' && "--start-at"[2] == 's';
    assert "--count"[2] == 'c' && "--warmup"[2] == 'w';
  }

  lemma TargetClean(w: Spec)
    requires WellFormed(w)
    ensures !SawRepetition(TargetArgs(w.target)) && !SawRepetition(WarmupArgs(w.warmup))
  {
    FlagsAreNoRepetition();
    PlainValues(w);
    match w.target {
      case Txids(txids) => PairsClean("--txid", txids);
      case Blocks(blocks) => PairsClean("--block", SelectorArgs(blocks));
      case BlockRange(start, end) =>
        PlainIsNoRepetition(Render(start));
        PlainIsNoRepetition(Render(BlockCount(start, end)));
    }
    if w.warmup.Some? {
      PlainIsNoRepetition(Render(w.warmup.value));
    }
  }

  lemma SawSplit(a: seq<string>, b: seq<string>)
    ensures SawRepetition(a + b) <==> SawRepetition(a) || SawRepetition(b)
  {
    if SawRepetition(a) {
      var i :| 0 <= i < |a| && IsRepetition(a[i]);
      assert IsRepetition((a + b)[i]);
    }
    if SawRepetition(b) {
      var i :| 0 <= i < |b| && IsRepetition(b[i]);
      assert IsRepetition((a + b)[|a| + i]);
    }
  }

  /** Normalising the rendered arguments moves the repetition pair to the end, and changes nothing else. */
  lemma NormalForm(w: Spec)
    requires WellFormed(w)
    ensures Normalize(BenchArgsOf(w)) == NormalArgs(w)
  {
    var target, reps, warm := TargetArgs(w.target), RepetitionArgs(w.target), WarmupArgs(w.warmup);
    TargetClean(w);
    assert BenchArgsOf(w) == target + (reps + warm);
    StripOfClean(target, reps + warm);
    CleanIsFixed(warm);
    SawSplit(target, reps + warm);
    SawSplit(reps, warm);
    if w.target.BlockRange? {
      assert reps + warm == warm;
      assert NormalArgs(w) == target + warm;
    } else {
      RepetitionPairStrips(warm);
      assert IsRepetition(reps[0]);
      Targeted(w.target, warm);
    }
  }

  lemma RepetitionPairStrips(tail: seq<string>)
    ensures Strip([REPETITIONS, "1"] + tail) == Strip(tail)
  {
    assert "1"[0] != '-';
    assert ([REPETITIONS, "1"] + tail)[2..] == tail;
  }

  lemma Targeted(t: Target, tail: seq<string>)
    requires (t.Txids? && t.txids != []) || (t.Blocks? && t.blocks != [])
    ensures !IsRangeMode(TargetArgs(t) + tail)
  {
    assert FlagToken((TargetArgs(t) + tail)[0], if t.Txids? then "--txid" else "--block");
  }

  // ----- decoding -----

  /** The values of the leading run of `flag`, and the tokens after it. */
  function TakePairs(flag: string, tokens: seq<string>): (seq<string>, seq<string>) {
    if |tokens| >= 2 && tokens[0] == flag then
      var (values, rest) := TakePairs(flag, tokens[2..]);
      ([tokens[1]] + values, rest)
    else ([], tokens)
  }

  function DecodeSelector(token: string): Selector {
    if |token| == 64 then Hash(token)
    else match ParseUnsigned(token, U64_MAX)
      case None => Hash(token)
      case Some(h) => Height(h)
  }

  function DecodeSelectors(tokens: seq<string>): seq<Selector> {
    if tokens == [] then [] else [DecodeSelector(tokens[0])] + DecodeSelectors(tokens[1..])
  }

  function NumberAt(tokens: seq<string>, i: nat): nat {
    if i < |tokens| && ParseUnsigned(tokens[i], U64_MAX).Some? then ParseUnsigned(tokens[i], U64_MAX).value else 0
  }

  function DecodeWarmup(tokens: seq<string>): Option<nat> {
    if |tokens| >= 2 && tokens[0] == "--warmup" then Some(NumberAt(tokens, 1)) else None
  }

  function DecodeTxids(tokens: seq<string>): (Target, Option<nat>) {
    var (values, rest) := TakePairs("--txid", tokens);
    (Txids(values), DecodeWarmup(rest))
  }

  function DecodeBlocks(tokens: seq<string>): (Target, Option<nat>) {
    var (values, rest) := TakePairs("--block", tokens);
    (Blocks(DecodeSelectors(values)), DecodeWarmup(rest))
  }

  /** The last block of a range: `start + count - 1` in 64-bit arithmetic, so that count 0 means every block. */
  function LastBlock(start: nat, count: nat): nat {
    (start + count + U64_MAX) % (U64_MAX + 1)
  }

  lemma LastBlockIsEnd(start: nat, end: nat)
    requires start <= end <= U64_MAX
    ensures LastBlock(start, BlockCount(start, end)) == end && BlockCount(start, end) <= U64_MAX
  {
  }

  function DecodeRange(tokens: seq<string>): Option<(Target, Option<nat>)> {
    if |tokens| < 4 || tokens[0] != "--start-at" || tokens[2] != "--count" then None
    else
      var start, count := NumberAt(tokens, 1), NumberAt(tokens, 3);
      Some((BlockRange(start, LastBlock(start, count)), DecodeWarmup(tokens[4..])))
  }

  /** The target and warm-up behind a normalised argument list. */
  function Decode(tokens: seq<string>): Option<(Target, Option<nat>)> {
    if tokens == [] then None
    else if tokens[0] == "--txid" then Some(DecodeTxids(tokens))
    else if tokens[0] == "--block" then Some(DecodeBlocks(tokens))
    else DecodeRange(tokens)
  }

  lemma Dispatch(tokens: seq<string>)
    requires tokens != []
    ensures tokens[0] == "--block" ==> Decode(tokens) == Some(DecodeBlocks(tokens))
    ensures tokens[0] == "--start-at" ==> Decode(tokens) == DecodeRange(tokens)
  {
    assert "--start-at"[2] == 's' && "--txid"[2] == 't' && "--block"[2] == 'b';
  }

  lemma TakeOne(flag: string, value: string, tokens: seq<string>)
    ensures var taken := TakePairs(flag, tokens);
      TakePairs(flag, [flag, value] + tokens) == ([value] + taken.0, taken.1)
  {
    assert ([flag, value] + tokens)[2..] == tokens;
  }

  lemma FirstPair(flag: string, values: seq<string>, tail: seq<string>)
    requires values != []
    ensures Pairs(flag, values) + tail == [flag, values[0]] + (Pairs(flag, values[1..]) + tail)
  {
  }

  lemma {:induction false} TakeRendered(flag: string, values: seq<string>, tail: seq<string>)
    requires tail != [] ==> tail[0] != flag
    ensures TakePairs(flag, Pairs(flag, values) + tail) == (values, tail)
  {
    if values == [] {
      assert Pairs(flag, values) + tail == tail;
    } else {
      hide TakePairs, Pairs;
      TakeRendered(flag, values[1..], tail);
      TakeOne(flag, values[0], Pairs(flag, values[1..]) + tail);
      FirstPair(flag, values, tail);
      assert [values[0]] + values[1..] == values;
    }
  }

  lemma {:induction false} RenderedLength(n: nat, k: nat, bound: nat)
    requires n < bound && bound == Pow10(k) && k >= 1
    ensures |Render(n)| <= k
    decreases k
  {
    if n >= 10 {
      RenderedLength(n / 10, k - 1, Pow10(k - 1));
    }
  }

  function Pow10(k: nat): nat {
    if k == 0 then 1 else 10 * Pow10(k - 1)
  }

  lemma HeightIsShort(h: nat)
    requires h <= U64_MAX
    ensures |Render(h)| <= 20
  {
    assert Pow10(20) == 100_000_000_000_000_000_000 by {
      assert Pow10(5) == 100_000;
      assert Pow10(10) == 10_000_000_000;
      assert Pow10(15) == 1_000_000_000_000_000;
    }
    RenderedLength(h, 20, Pow10(20));
  }

  lemma {:induction false} SelectorsDecode(blocks: seq<Selector>)
    requires forall i :: 0 <= i < |blocks| ==> SelectorOk(blocks[i])
    ensures DecodeSelectors(SelectorArgs(blocks)) == blocks
  {
    if blocks != [] {
      hide DecodeSelector, SelectorArg, SelectorOk;
      SelectorDecodes(blocks[0]);
      SelectorsDecode(blocks[1..]);
      assert SelectorArgs(blocks)[1..] == SelectorArgs(blocks[1..]);
      assert [blocks[0]] + blocks[1..] == blocks;
    }
  }

  lemma SelectorDecodes(b: Selector)
    requires SelectorOk(b)
    ensures DecodeSelector(SelectorArg(b)) == b
  {
    hide Render, ParseUnsigned;
    if b.Height? {
      HeightIsShort(b.height);
      ParseOfRender(b.height, U64_MAX);
    }
  }

  lemma WarmupDecodes(warmup: Option<nat>, reps: seq<string>)
    requires warmup.Some? ==> warmup.value <= U32_MAX
    requires reps == [] || reps == [REPETITIONS, "1"]
    ensures DecodeWarmup(WarmupArgs(warmup) + reps) == warmup
  {
    if warmup.Some? {
      ParseOfRender(warmup.value, U64_MAX);
      assert (WarmupArgs(warmup) + reps)[1] == Render(warmup.value);
    } else {
      assert WarmupArgs(warmup) + reps == reps;
      assert REPETITIONS[2] == 'r' && "--warmup"[2] == 'w';
    }
  }

  lemma TailHead(w: Spec)
    ensures var tail := WarmupArgs(w.warmup) + RepetitionArgs(w.target);
      tail != [] ==> tail[0] != "--txid" && tail[0] != "--block"
  {
    assert REPETITIONS[2] == 'r' && "--warmup"[2] == 'w' && "--txid"[2] == 't' && "--block"[2] == 'b';
  }

  lemma TxidsDecode(txids: seq<string>, tail: seq<string>)
    requires txids != [] && (tail != [] ==> tail[0] != "--txid")
    ensures Decode(Pairs("--txid", txids) + tail) == Some((Txids(txids), DecodeWarmup(tail)))
  {
    TakeRendered("--txid", txids, tail);
  }

  lemma BlocksDecode(blocks: seq<Selector>, tail: seq<string>)
    requires blocks != [] && (tail != [] ==> tail[0] != "--block")
    requires forall i :: 0 <= i < |blocks| ==> SelectorOk(blocks[i])
    ensures Decode(Pairs("--block", SelectorArgs(blocks)) + tail) == Some((Blocks(blocks), DecodeWarmup(tail)))
  {
    var tokens := Pairs("--block", SelectorArgs(blocks)) + tail;
    assert DecodeBlocks(tokens) == (Blocks(blocks), DecodeWarmup(tail)) by {
      TakeRendered("--block", SelectorArgs(blocks), tail);
      SelectorsDecode(blocks);
    }
    Dispatch(tokens);
  }

  lemma RangeDecodes(start: nat, end: nat, tail: seq<string>)
    requires start <= end <= U64_MAX
    ensures Decode(TargetArgs(BlockRange(start, end)) + tail) == Some((BlockRange(start, end), DecodeWarmup(tail)))
  {
    hide Render, BlockCount, LastBlock, Decode, DecodeWarmup, DecodeRange;
    var tokens := TargetArgs(BlockRange(start, end)) + tail;
    Dispatch(tokens);
    LastBlockIsEnd(start, end);
    NumbersDecode(tokens, start, BlockCount(start, end), tail);
  }

  lemma NumbersDecode(tokens: seq<string>, start: nat, count: nat, tail: seq<string>)
    requires start <= U64_MAX && count <= U64_MAX && |tokens| == 4 + |tail|
    requires tokens[0] == "--start-at" && tokens[1] == Render(start)
    requires tokens[2] == "--count" && tokens[3] == Render(count) && tokens[4..] == tail
    ensures DecodeRange(tokens) == Some((BlockRange(start, LastBlock(start, count)), DecodeWarmup(tail)))
  {
    hide Render, LastBlock, DecodeWarmup, NumberAt;
    NumberReads(tokens, 1, start);
    NumberReads(tokens, 3, count);
  }

  lemma NumberReads(tokens: seq<string>, i: nat, n: nat)
    requires i < |tokens| && n <= U64_MAX && tokens[i] == Render(n)
    ensures NumberAt(tokens, i) == n
  {
    hide Render, ParseUnsigned;
    ParseOfRender(n, U64_MAX);
  }

  /** The workload can be read back from its normalised arguments. */
  lemma DecodeRecoversWorkload(w: Spec)
    requires WellFormed(w)
    ensures Decode(Normalize(BenchArgsOf(w))) == Some((w.target, w.warmup))
  {
    NormalForm(w);
    var tail := WarmupArgs(w.warmup) + RepetitionArgs(w.target);
    assert NormalArgs(w) == TargetArgs(w.target) + tail;
    WarmupDecodes(w.warmup, RepetitionArgs(w.target));
    TailHead(w);
    match w.target {
      case Txids(txids) => TxidsDecode(txids, tail);
      case Blocks(blocks) => BlocksDecode(blocks, tail);
      case BlockRange(start, end) => RangeDecodes(start, end, tail);
    }
  }

  /** Two workloads share their normalised arguments, and so their key, exactly when target and warm-up agree:
      clean repetitions, repository and revision never matter. */
  lemma ArgsIdentifyTheWorkload(v: Spec, w: Spec)
    requires WellFormed(v) && WellFormed(w)
    ensures Normalize(BenchArgsOf(v)) == Normalize(BenchArgsOf(w)) <==> v.target == w.target && v.warmup == w.warmup
  {
    DecodeRecoversWorkload(v);
    DecodeRecoversWorkload(w);
  }

  // ----- which flags are rendered -----

  /** The values given to a flag, in order: the tokens that follow it. */
  function ValuesOf(flag: string, args: seq<string>): seq<string> {
    if args == [] then []
    else if args[0] == flag && |args| > 1 then [args[1]] + ValuesOf(flag, args[2..])
    else ValuesOf(flag, args[1..])
  }

  lemma OtherPair(flag: string, name: string, value: string, tail: seq<string>)
    requires name != flag && value != flag
    ensures ValuesOf(flag, [name, value] + tail) == ValuesOf(flag, tail)
  {
    var args := [name, value] + tail;
    assert args[1..] == [value] + tail && ([value] + tail)[1..] == tail;
  }

  lemma OwnPair(flag: string, value: string, tail: seq<string>)
    ensures ValuesOf(flag, [flag, value] + tail) == [value] + ValuesOf(flag, tail)
  {
    assert ([flag, value] + tail)[2..] == tail;
  }

  lemma HeadFirst(values: seq<string>, rest: seq<string>)
    requires values != []
    ensures [values[0]] + (values[1..] + rest) == values + rest
  {
  }

  lemma {:induction false} OwnPairs(flag: string, values: seq<string>, tail: seq<string>)
    ensures ValuesOf(flag, Pairs(flag, values) + tail) == values + ValuesOf(flag, tail)
  {
    if values == [] {
      assert Pairs(flag, values) + tail == tail;
      hide ValuesOf;
      assert values + ValuesOf(flag, tail) == ValuesOf(flag, tail);
    } else {
      hide ValuesOf, Pairs;
      OwnPairs(flag, values[1..], tail);
      FirstPair(flag, values, tail);
      OwnPair(flag, values[0], Pairs(flag, values[1..]) + tail);
      HeadFirst(values, ValuesOf(flag, tail));
    }
  }

  lemma {:induction false} OtherPairs(flag: string, name: string, values: seq<string>, tail: seq<string>)
    requires name != flag && flag !in values
    ensures ValuesOf(flag, Pairs(name, values) + tail) == ValuesOf(flag, tail)
  {
    if values == [] {
      assert Pairs(name, values) + tail == tail;
    } else {
      hide ValuesOf, Pairs;
      OtherPairs(flag, name, values[1..], tail);
      FirstPair(name, values, tail);
      OtherPair(flag, name, values[0], Pairs(name, values[1..]) + tail);
    }
  }

  lemma ValuesOfPairs(flag: string, name: string, values: seq<string>, tail: seq<string>)
    requires forall i :: 0 <= i < |values| ==> IsPlain(values[i])
    requires flag != [] && flag[0] == '-'
    ensures ValuesOf(flag, Pairs(name, values) + tail) ==
      if name == flag then values + ValuesOf(flag, tail) else ValuesOf(flag, tail)
  {
    hide ValuesOf, Pairs;
    if name == flag {
      OwnPairs(flag, values, tail);
    } else {
      OtherPairs(flag, name, values, tail);
    }
  }

  /** The value a targeted run gives the repetition flag. */
  function RepetitionGives(flag: string, t: Target): seq<string> {
    if flag == "--repetitions" && !t.BlockRange? then ["1"] else []
  }

  function WarmupGives(flag: string, warmup: Option<nat>): seq<string> {
    if flag == "--warmup" && warmup.Some? then [Render(warmup.value)] else []
  }

  lemma NumberPair(flag: string, name: string, n: nat, tail: seq<string>)
    requires flag != [] && flag[0] == '-'
    ensures ValuesOf(flag, [name, Render(n)] + tail) ==
      if name == flag then [Render(n)] + ValuesOf(flag, tail) else ValuesOf(flag, tail)
  {
    hide Render, ValuesOf;
    assert Render(n) != flag by {
      assert IsDigit(Render(n)[0]) && !IsDigit('-');
    }
    if name == flag {
      OwnPair(flag, Render(n), tail);
    } else {
      OtherPair(flag, name, Render(n), tail);
    }
  }

  lemma WarmupValues(flag: string, warmup: Option<nat>)
    requires flag != [] && flag[0] == '-'
    ensures ValuesOf(flag, WarmupArgs(warmup)) == WarmupGives(flag, warmup)
  {
    hide Render;
    if warmup.Some? {
      NumberPair(flag, "--warmup", warmup.value, []);
      assert WarmupArgs(warmup) == ["--warmup", Render(warmup.value)] + [];
      assert [Render(warmup.value)] + [] == [Render(warmup.value)];
    }
  }

  lemma RepetitionValues(flag: string, t: Target, tail: seq<string>)
    requires flag != [] && flag[0] == '-'
    ensures ValuesOf(flag, RepetitionArgs(t) + tail) == RepetitionGives(flag, t) + ValuesOf(flag, tail)
  {
    hide ValuesOf;
    if t.BlockRange? {
      assert RepetitionArgs(t) + tail == tail;
    } else {
      assert "1"[0] != '-';
      if flag == REPETITIONS {
        OwnPair(flag, "1", tail);
      } else {
        OtherPair(flag, REPETITIONS, "1", tail);
      }
    }
    assert [] + ValuesOf(flag, tail) == ValuesOf(flag, tail);
  }

  /** The values a target gives a flag. */
  function TargetGives(flag: string, t: Target): seq<string>
    requires t.BlockRange? ==> t.start <= t.end
  {
    if t.Txids? then (if flag == "--txid" then t.txids else [])
    else if t.Blocks? then (if flag == "--block" then SelectorArgs(t.blocks) else [])
    else if flag == "--start-at" then [Render(t.start)]
    else if flag == "--count" then [Render(BlockCount(t.start, t.end))]
    else []
  }

  lemma TargetValues(flag: string, w: Spec, tail: seq<string>)
    requires WellFormed(w) && flag != [] && flag[0] == '-'
    ensures ValuesOf(flag, TargetArgs(w.target) + tail) == TargetGives(flag, w.target) + ValuesOf(flag, tail)
  {
    hide ValuesOf, Render, BlockCount, Pairs;
    PlainValues(w);
    match w.target {
      case Txids(txids) => ValuesOfPairs(flag, "--txid", txids, tail);
      case Blocks(blocks) => ValuesOfPairs(flag, "--block", SelectorArgs(blocks), tail);
      case BlockRange(start, end) => RangeValues(flag, start, end, tail);
    }
    assert [] + ValuesOf(flag, tail) == ValuesOf(flag, tail);
  }

  lemma RangeValues(flag: string, start: nat, end: nat, tail: seq<string>)
    requires start <= end && flag != [] && flag[0] == '-'
    ensures var t := BlockRange(start, end);
      ValuesOf(flag, TargetArgs(t) + tail) == TargetGives(flag, t) + ValuesOf(flag, tail)
  {
    hide ValuesOf, Render, BlockCount;
    var rest := ["--count", Render(BlockCount(start, end))] + tail;
    assert TargetArgs(BlockRange(start, end)) + tail == ["--start-at", Render(start)] + rest;
    NumberPair(flag, "--start-at", start, rest);
    NumberPair(flag, "--count", BlockCount(start, end), tail);
    assert "--start-at"[2] == 's' && "--count"[2] == 'c';
    assert [] + ValuesOf(flag, tail) == ValuesOf(flag, tail);
  }

  /** Looked up by name, the rendered flags say exactly what the workload says, and no other flag has a value. */
  lemma RenderedByName(flag: string, w: Spec)
    requires WellFormed(w) && flag != [] && flag[0] == '-'
    ensures ValuesOf(flag, BenchArgsOf(w))
         == TargetGives(flag, w.target) + RepetitionGives(flag, w.target) + WarmupGives(flag, w.warmup)
  {
    hide ValuesOf, TargetArgs, TargetGives, RepetitionArgs, RepetitionGives, WarmupArgs, WarmupGives;
    var tail := RepetitionArgs(w.target) + WarmupArgs(w.warmup);
    assert BenchArgsOf(w) == TargetArgs(w.target) + tail;
    TargetValues(flag, w, tail);
    RepetitionValues(flag, w.target, WarmupArgs(w.warmup));
    WarmupValues(flag, w.warmup);
  }

  // ----- repetitions -----

  function Repetitions(args: seq<string>): nat {
    if args == [] then 0 else (if IsRepetition(args[0]) then 1 else 0) + Repetitions(args[1..])
  }

  lemma {:induction false} CleanHasNone(clean: seq<string>, tail: seq<string>)
    requires !SawRepetition(clean)
    ensures Repetitions(clean + tail) == Repetitions(tail)
  {
    if clean == [] {
      assert clean + tail == tail;
    } else {
      assert (clean + tail)[1..] == clean[1..] + tail;
      CleanTail(clean);
      CleanHasNone(clean[1..], tail);
    }
  }

  /** A targeted run asks for exactly one in-process repetition, as its last two tokens; a range asks for none. */
  lemma OneInProcessRepetition(w: Spec)
    requires WellFormed(w)
    ensures var args := Normalize(BenchArgsOf(w));
      if w.target.BlockRange? then Repetitions(args) == 0
      else Repetitions(args) == 1 && |args| >= 2 && args[|args| - 2..] == [REPETITIONS, "1"]
  {
    NormalForm(w);
    TargetClean(w);
    var front := TargetArgs(w.target) + WarmupArgs(w.warmup);
    SawSplit(TargetArgs(w.target), WarmupArgs(w.warmup));
    CleanHasNone(front, RepetitionArgs(w.target));
    PairCountsOnce();
  }

  lemma PairCountsOnce()
    ensures Repetitions([REPETITIONS, "1"]) == 1
  {
    PlainIsNoRepetition("1");
    assert [REPETITIONS, "1"][1..] == ["1"];
    assert ["1"][1..] == [];
    assert Repetitions(["1"]) == 0;
  }

  /** The one range whose count does not fit 64 bits is rendered with count 0. */
  lemma FullRangeCountWraps(start: nat, end: nat)
    requires start <= end <= U64_MAX
    ensures BlockCount(start, end) == end - start + 1 <==> !(start == 0 && end == U64_MAX)
  {
  }
}
