/**
 * The deobfuscation pipeline (src/index.ts): the configuration decides which
 * modifications are built and in which order, and they then run one after
 * the other on the same tree. The passes other than the cache remover and
 * the constant unpacker are opaque names here; running a modification is a
 * parameter of the model, and the first one that raises ends the run.
 */
module Pipeline {
  import opened Base
  import CU = ConstantUnpacker

  datatype ProxyFunctionsConfig = ProxyFunctionsConfig(replaceProxyFunctions: bool, removeProxyFunctions: bool)
  datatype ExpressionsConfig = ExpressionsConfig(simplifyExpressions: bool, removeDeadBranches: bool)
  datatype MiscellaneousConfig = MiscellaneousConfig(beautify: bool, simplifyProperties: bool, renameHexIdentifiers: bool)

  /** The options of a run (src/config.ts). */
  datatype Config = Config(
    verbose: bool,
    replaceCacheFunctions: bool,
    unpacker: CU.UnpackerConfig,
    proxyFunctions: ProxyFunctionsConfig,
    expressions: ExpressionsConfig,
    miscellaneous: MiscellaneousConfig)

  /** The configuration used when the caller gives none: everything on except the renaming of hex identifiers. */
  const DefaultConfig := Config(
    true,
    true,
    CU.UnpackerConfig(true, true, true, true),
    ProxyFunctionsConfig(true, true),
    ExpressionsConfig(true, true),
    MiscellaneousConfig(true, true, false))

  /** A modification in the list, with the options its constructor is given. */
  datatype Modification =
    | FunctionExecutor
    | CacheRemover
    | ProxyRemover(removeProxyFunctions: bool)
    | ExpressionSimplifier
    | ConstantUnpacker(config: CU.UnpackerConfig)
    | DeadBranchRemover
    | PropertySimplifier
    | VariableRenamer

  // ---------------------------------------------------------------------
  // to_unpacker and the number of rounds
  // ---------------------------------------------------------------------

  /** `Object.entries(config.unpacker)`: the keys in declaration order, with their values. */
  function UnpackerEntries(u: CU.UnpackerConfig): seq<(string, bool)> {
    [("unpackArrays", u.unpackArrays), ("unpackObjects", u.unpackObjects),
     ("unpackValues", u.unpackValues), ("shouldRemove", u.shouldRemove)]
  }

  /** `.some(([key, value]) => key.startsWith('unpack') && value)`. */
  function SomeUnpackEntry(entries: seq<(string, bool)>): (r: bool)
    ensures r <==> exists i :: 0 <= i < |entries| && "unpack" <= entries[i].0 && entries[i].1
    decreases |entries|
  {
    if entries == [] then false
    else
      var last := entries[|entries| - 1];
      var r' := SomeUnpackEntry(entries[..|entries| - 1]);
      assert forall i :: 0 <= i < |entries| - 1 ==> entries[..|entries| - 1][i] == entries[i];
      r' || ("unpack" <= last.0 && last.1)
  }

  function ToUnpacker(u: CU.UnpackerConfig): bool {
    SomeUnpackEntry(UnpackerEntries(u))
  }

  /**
   * The unpacker is scheduled exactly when one of the three `unpack` flags is
   * set: `shouldRemove` does not start with `unpack`, so it never counts.
   */
  lemma ToUnpackerIff(u: CU.UnpackerConfig)
    ensures ToUnpacker(u) <==> u.unpackArrays || u.unpackObjects || u.unpackValues
  {
    var es := UnpackerEntries(u);
    assert "unpack" <= es[0].0 && "unpack" <= es[1].0 && "unpack" <= es[2].0;
    assert es[3].0[1] != "unpack"[1];
    assert !("unpack" <= es[3].0);
  }

  /** `[simplifyExpressions, to_unpacker].filter(Boolean).length`. */
  function RoundCount(cfg: Config): nat {
    (if cfg.expressions.simplifyExpressions then 1 else 0) + (if ToUnpacker(cfg.unpacker) then 1 else 0)
  }

  // ---------------------------------------------------------------------
  // The schedule, stated in three parts
  // ---------------------------------------------------------------------

  /** A one-element list when `b` holds, else the empty one: a conditional `push`. */
  function Opt(b: bool, m: Modification): (s: seq<Modification>)
    ensures |s| == if b then 1 else 0
  {
    if b then [m] else []
  }

  /** The modifications before the rounds: the executor always, then the cache and proxy removers when enabled. */
  function Head(cfg: Config): seq<Modification> {
    [FunctionExecutor]
      + Opt(cfg.replaceCacheFunctions, CacheRemover)
      + Opt(cfg.proxyFunctions.replaceProxyFunctions, ProxyRemover(cfg.proxyFunctions.removeProxyFunctions))
  }

  /** One round: the simplifier, then the unpacker, each when enabled. */
  function Round(cfg: Config): seq<Modification> {
    Opt(cfg.expressions.simplifyExpressions, ExpressionSimplifier) + Opt(ToUnpacker(cfg.unpacker), ConstantUnpacker(cfg.unpacker))
  }

  /** `n` copies of `r`, one after the other. */
  function Repeat(r: seq<Modification>, n: nat): seq<Modification> {
    if n == 0 then [] else Repeat(r, n - 1) + r
  }

  /** The modifications after the rounds, in this order when enabled. */
  function Tail(cfg: Config): seq<Modification> {
    Opt(cfg.expressions.removeDeadBranches, DeadBranchRemover)
      + Opt(cfg.miscellaneous.simplifyProperties, PropertySimplifier)
      + Opt(cfg.miscellaneous.renameHexIdentifiers, VariableRenamer)
  }

  /** The list `deobfuscate` builds. */
  function Schedule(cfg: Config): seq<Modification> {
    Head(cfg) + Repeat(Round(cfg), RoundCount(cfg)) + Tail(cfg)
  }

  /** The construction of the list in `deobfuscate`, pushes and the `while (repeat--)` loop included. */
  method BuildModifications(cfg: Config) returns (mods: seq<Modification>)
    ensures mods == Schedule(cfg)
  {
    mods := [FunctionExecutor];
    if cfg.replaceCacheFunctions {
      mods := mods + [CacheRemover];
    }
    assert mods == [FunctionExecutor] + Opt(cfg.replaceCacheFunctions, CacheRemover);
    if cfg.proxyFunctions.replaceProxyFunctions {
      mods := mods + [ProxyRemover(cfg.proxyFunctions.removeProxyFunctions)];
    }
    assert mods == Head(cfg);
    var toUnpacker := SomeUnpackEntry(UnpackerEntries(cfg.unpacker));
    var repeat := (if cfg.expressions.simplifyExpressions then 1 else 0) + (if toUnpacker then 1 else 0);
    var done := 0;
    while repeat > 0
      invariant done + repeat == RoundCount(cfg)
      invariant mods == Head(cfg) + Repeat(Round(cfg), done)
    {
      repeat := repeat - 1;
      mods := PushRound(cfg, toUnpacker, mods);
      RepeatOnceMore(Head(cfg), Round(cfg), done);
      done := done + 1;
    }
    mods := PushFinishers(cfg, mods);
  }

  /** The body of the `while (repeat--)` loop. */
  method PushRound(cfg: Config, toUnpacker: bool, mods: seq<Modification>) returns (mods': seq<Modification>)
    requires toUnpacker == ToUnpacker(cfg.unpacker)
    ensures mods' == mods + Round(cfg)
  {
    mods' := mods;
    if cfg.expressions.simplifyExpressions {
      mods' := mods' + [ExpressionSimplifier];
    }
    assert mods' == mods + Opt(cfg.expressions.simplifyExpressions, ExpressionSimplifier);
    if toUnpacker {
      mods' := mods' + [ConstantUnpacker(cfg.unpacker)];
    }
  }

  /** One more round after `n` of them, behind a fixed prefix. */
  lemma RepeatOnceMore(h: seq<Modification>, r: seq<Modification>, n: nat)
    ensures (h + Repeat(r, n)) + r == h + Repeat(r, n + 1)
  {
  }

  /** The last three conditional pushes of `deobfuscate`. */
  method PushFinishers(cfg: Config, mods: seq<Modification>) returns (mods': seq<Modification>)
    ensures mods' == mods + Tail(cfg)
  {
    mods' := mods;
    if cfg.expressions.removeDeadBranches {
      mods' := mods' + [DeadBranchRemover];
    }
    assert mods' == mods + Opt(cfg.expressions.removeDeadBranches, DeadBranchRemover);
    if cfg.miscellaneous.simplifyProperties {
      mods' := mods' + [PropertySimplifier];
    }
    assert mods' == mods + Opt(cfg.expressions.removeDeadBranches, DeadBranchRemover)
                         + Opt(cfg.miscellaneous.simplifyProperties, PropertySimplifier);
    if cfg.miscellaneous.renameHexIdentifiers {
      mods' := mods' + [VariableRenamer];
    }
  }

  // ---------------------------------------------------------------------
  // What the schedule promises
  // ---------------------------------------------------------------------

  /** A modification absent from a round is absent from every repetition of it. */
  lemma {:induction false} RepeatAvoids(r: seq<Modification>, n: nat, m: Modification)
    requires m !in r
    ensures m !in Repeat(r, n)
  {
    if n > 0 {
      RepeatAvoids(r, n - 1, m);
    }
  }

  /** The executor and the two removers occur only in the head of the list. */
  lemma OnlyInHead(cfg: Config, m: Modification)
    requires m == FunctionExecutor || m == CacheRemover || m.ProxyRemover?
    ensures m !in Repeat(Round(cfg), RoundCount(cfg)) + Tail(cfg)
  {
    RepeatAvoids(Round(cfg), RoundCount(cfg), m);
  }

  /** `FunctionExecutor` is always first, and it is there only once. */
  lemma FunctionExecutorFirst(cfg: Config)
    ensures Schedule(cfg)[0] == FunctionExecutor
    ensures FunctionExecutor !in Schedule(cfg)[1..]
  {
    var rest := Repeat(Round(cfg), RoundCount(cfg)) + Tail(cfg);
    assert Schedule(cfg) == Head(cfg) + rest;
    OnlyInHead(cfg, FunctionExecutor);
    assert Schedule(cfg)[1..] == Head(cfg)[1..] + rest;
    assert Head(cfg)[1..] == Opt(cfg.replaceCacheFunctions, CacheRemover)
                             + Opt(cfg.proxyFunctions.replaceProxyFunctions, ProxyRemover(cfg.proxyFunctions.removeProxyFunctions));
  }

  /**
   * `CacheRemover` is in the list exactly when `replaceCacheFunctions` is set,
   * and then second; a `ProxyRemover` comes right after it, or right after
   * the executor when there is no cache remover.
   */
  lemma CacheRemoverPlace(cfg: Config)
    ensures CacheRemover in Schedule(cfg) <==> cfg.replaceCacheFunctions
    ensures cfg.replaceCacheFunctions ==> Schedule(cfg)[1] == CacheRemover
    ensures forall i :: 0 <= i < |Schedule(cfg)| && Schedule(cfg)[i].ProxyRemover? ==>
              cfg.proxyFunctions.replaceProxyFunctions && i == (if cfg.replaceCacheFunctions then 2 else 1) &&
              Schedule(cfg)[i] == ProxyRemover(cfg.proxyFunctions.removeProxyFunctions)
  {
    var h := Head(cfg);
    var rest := Repeat(Round(cfg), RoundCount(cfg)) + Tail(cfg);
    var s := Schedule(cfg);
    assert s == h + rest;
    OnlyInHead(cfg, CacheRemover);
    forall i | 0 <= i < |s| && s[i].ProxyRemover?
      ensures cfg.proxyFunctions.replaceProxyFunctions && i == (if cfg.replaceCacheFunctions then 2 else 1) &&
              s[i] == ProxyRemover(cfg.proxyFunctions.removeProxyFunctions)
    {
      OnlyInHead(cfg, s[i]);
      assert i < |h|;
      assert h[i] == s[i];
    }
  }

  /** Neither the head nor the tail holds a simplifier or an unpacker. */
  lemma OnlyInRounds(cfg: Config, m: Modification)
    requires m == ExpressionSimplifier || m.ConstantUnpacker?
    ensures m !in Head(cfg) && m !in Tail(cfg)
  {
  }

  /** How often `m` occurs in `s`. */
  function Count(s: seq<Modification>, m: Modification): nat
    decreases |s|
  {
    if s == [] then 0 else Count(s[..|s| - 1], m) + (if s[|s| - 1] == m then 1 else 0)
  }

  lemma {:induction false} CountAppend(a: seq<Modification>, b: seq<Modification>, m: Modification)
    ensures Count(a + b, m) == Count(a, m) + Count(b, m)
    decreases |b|
  {
    if b == [] {
      assert a + b == a;
    } else {
      var n := |b| - 1;
      assert (a + b)[..|a + b| - 1] == a + b[..n];
      CountAppend(a, b[..n], m);
    }
  }

  /** A sequence without `m` counts it zero times. */
  lemma {:induction false} CountZero(s: seq<Modification>, m: Modification)
    requires m !in s
    ensures Count(s, m) == 0
    decreases |s|
  {
    if s != [] {
      CountZero(s[..|s| - 1], m);
    }
  }

  /** `m` occurs in `n` repetitions of a round that holds it once exactly `n` times. */
  lemma {:induction false} CountRepeat(r: seq<Modification>, n: nat, m: Modification)
    requires Count(r, m) == 1
    ensures Count(Repeat(r, n), m) == n
  {
    if n > 0 {
      CountRepeat(r, n - 1, m);
      CountAppend(Repeat(r, n - 1), r, m);
    }
  }

  /** The round holds each enabled one of the two passes exactly once. */
  lemma CountInRound(cfg: Config, m: Modification)
    requires m == ExpressionSimplifier || m == ConstantUnpacker(cfg.unpacker)
    ensures m in Round(cfg) ==> Count(Round(cfg), m) == 1
  {
    var a := Opt(cfg.expressions.simplifyExpressions, ExpressionSimplifier);
    var b := Opt(ToUnpacker(cfg.unpacker), ConstantUnpacker(cfg.unpacker));
    CountAppend(a, b, m);
    if a != [] {
      assert a[..0] == [];
    }
    if b != [] {
      assert b[..0] == [];
    }
  }

  /** A simplifier or an unpacker occurs once per round when the round holds it, else never. */
  lemma CountInSchedule(cfg: Config, m: Modification)
    requires m == ExpressionSimplifier || m == ConstantUnpacker(cfg.unpacker)
    ensures Count(Schedule(cfg), m) == if m in Round(cfg) then RoundCount(cfg) else 0
  {
    var h := Head(cfg);
    var r := Repeat(Round(cfg), RoundCount(cfg));
    var t := Tail(cfg);
    assert Schedule(cfg) == (h + r) + t;
    OnlyInRounds(cfg, m);
    CountZero(h, m);
    CountZero(t, m);
    CountAppend(h + r, t, m);
    CountAppend(h, r, m);
    if m in Round(cfg) {
      CountInRound(cfg, m);
      CountRepeat(Round(cfg), RoundCount(cfg), m);
    } else {
      RepeatAvoids(Round(cfg), RoundCount(cfg), m);
      CountZero(r, m);
    }
  }

  /** The round holds the simplifier when it is enabled and the unpacker when `to_unpacker` holds. */
  lemma RoundMembers(cfg: Config)
    ensures ExpressionSimplifier in Round(cfg) <==> cfg.expressions.simplifyExpressions
    ensures ConstantUnpacker(cfg.unpacker) in Round(cfg) <==> ToUnpacker(cfg.unpacker)
  {
  }

  /**
   * The rounds: as many as there are true values among `simplifyExpressions`
   * and `to_unpacker`; the simplifier runs once per round when it is enabled
   * and never otherwise, and so does the unpacker.
   */
  lemma RoundsCounted(cfg: Config)
    ensures RoundCount(cfg) == (if cfg.expressions.simplifyExpressions then 1 else 0) +
                               (if cfg.unpacker.unpackArrays || cfg.unpacker.unpackObjects || cfg.unpacker.unpackValues then 1 else 0)
    ensures Count(Schedule(cfg), ExpressionSimplifier) == (if cfg.expressions.simplifyExpressions then RoundCount(cfg) else 0)
    ensures Count(Schedule(cfg), ConstantUnpacker(cfg.unpacker)) == (if ToUnpacker(cfg.unpacker) then RoundCount(cfg) else 0)
  {
    ToUnpackerIff(cfg.unpacker);
    RoundMembers(cfg);
    CountInSchedule(cfg, ExpressionSimplifier);
    CountInSchedule(cfg, ConstantUnpacker(cfg.unpacker));
  }

  /** With both enabled there are two rounds: simplifier, unpacker, simplifier, unpacker. */
  lemma TwoRoundsInterleave(cfg: Config)
    requires cfg.expressions.simplifyExpressions && ToUnpacker(cfg.unpacker)
    ensures Schedule(cfg) ==
      Head(cfg) + [ExpressionSimplifier, ConstantUnpacker(cfg.unpacker), ExpressionSimplifier, ConstantUnpacker(cfg.unpacker)] + Tail(cfg)
  {
    var round := [ExpressionSimplifier, ConstantUnpacker(cfg.unpacker)];
    assert Round(cfg) == round;
    assert Repeat(round, 2) == round + round by {
      assert Repeat(round, 1) == Repeat(round, 0) + round;
      assert Repeat(round, 0) + round == round;
    }
  }

  /** The passes appended after the rounds. */
  predicate IsFinisher(m: Modification) {
    m == DeadBranchRemover || m == PropertySimplifier || m == VariableRenamer
  }

  /** The place of each finisher among them. */
  function TailRank(m: Modification): nat {
    match m
    case DeadBranchRemover => 0
    case PropertySimplifier => 1
    case _ => 2
  }

  /** The tail lists the finishers in rank order. */
  lemma TailSorted(cfg: Config)
    ensures forall i :: 0 <= i < |Tail(cfg)| ==> IsFinisher(Tail(cfg)[i])
    ensures forall i, j :: 0 <= i < j < |Tail(cfg)| ==> TailRank(Tail(cfg)[i]) < TailRank(Tail(cfg)[j])
  {
    var t := Tail(cfg);
    forall i | 0 <= i < |t| ensures IsFinisher(t[i]) {
      assert t[i] in t;
    }
  }

  /** No finisher runs before the rounds are over. */
  lemma FinisherNotBefore(cfg: Config, m: Modification)
    requires IsFinisher(m)
    ensures m !in Head(cfg) + Repeat(Round(cfg), RoundCount(cfg))
  {
    RepeatAvoids(Round(cfg), RoundCount(cfg), m);
  }

  /**
   * The dead-branch remover, the property simplifier and the renamer are in
   * the list exactly when enabled, after every other modification and in
   * that order.
   */
  lemma TailOrder(cfg: Config)
    ensures DeadBranchRemover in Schedule(cfg) <==> cfg.expressions.removeDeadBranches
    ensures PropertySimplifier in Schedule(cfg) <==> cfg.miscellaneous.simplifyProperties
    ensures VariableRenamer in Schedule(cfg) <==> cfg.miscellaneous.renameHexIdentifiers
    ensures forall i, j :: 0 <= i < j < |Schedule(cfg)| && IsFinisher(Schedule(cfg)[i]) ==>
              IsFinisher(Schedule(cfg)[j]) && TailRank(Schedule(cfg)[i]) < TailRank(Schedule(cfg)[j])
  {
    var pre := Head(cfg) + Repeat(Round(cfg), RoundCount(cfg));
    var t := Tail(cfg);
    var s := Schedule(cfg);
    assert s == pre + t;
    forall m | IsFinisher(m) ensures m !in pre {
      FinisherNotBefore(cfg, m);
    }
    TailSorted(cfg);
    forall i, j | 0 <= i < j < |s| && IsFinisher(s[i])
      ensures IsFinisher(s[j]) && TailRank(s[i]) < TailRank(s[j])
    {
      assert s[i] !in pre;
      assert i >= |pre|;
      assert s[i] == t[i - |pre|];
      assert s[j] == t[j - |pre|];
    }
  }

  /** What the default configuration builds. */
  lemma DefaultSchedule()
    ensures Schedule(DefaultConfig) ==
      [FunctionExecutor, CacheRemover, ProxyRemover(true),
       ExpressionSimplifier, ConstantUnpacker(DefaultConfig.unpacker),
       ExpressionSimplifier, ConstantUnpacker(DefaultConfig.unpacker),
       DeadBranchRemover, PropertySimplifier]
  {
    ToUnpackerIff(DefaultConfig.unpacker);
    TwoRoundsInterleave(DefaultConfig);
    assert Head(DefaultConfig) == [FunctionExecutor, CacheRemover, ProxyRemover(true)];
    assert Tail(DefaultConfig) == [DeadBranchRemover, PropertySimplifier];
    assert Repeat(Round(DefaultConfig), 2) == Round(DefaultConfig) + Round(DefaultConfig) by {
      assert Repeat(Round(DefaultConfig), 0) == [];
    }
  }

  // ---------------------------------------------------------------------
  // Running the list
  // ---------------------------------------------------------------------

  /**
   * `for (const modification of modifications) modification.execute();` with
   * `execute` given as `run`: each in list order on the state the previous
   * one left, and an exception from one ends the loop.
   */
  method ExecuteAll<S>(run: (S, Modification) -> Result<S>, s: S, mods: seq<Modification>) returns (r: Result<S>)
    ensures r == Fold(run, s, mods)
  {
    var cur := s;
    var i := 0;
    while i < |mods|
      invariant 0 <= i <= |mods|
      invariant Fold(run, s, mods[..i]) == Ok(cur)
    {
      FoldStep(run, s, mods[..i], mods[i], cur);
      TakeSnoc(mods, i);
      var next := run(cur, mods[i]);
      if next.Err? {
        FoldErrPrefix(run, s, mods[..i + 1], mods);
        return next;
      }
      cur := next.value;
      i := i + 1;
    }
    assert mods[..i] == mods;
    return Ok(cur);
  }

  /** `deobfuscate` between parsing and code generation: build the list, then run it. */
  method Deobfuscate<S>(cfg: Config, run: (S, Modification) -> Result<S>, s: S) returns (r: Result<S>)
    ensures r == Fold(run, s, Schedule(cfg))
  {
    var mods := BuildModifications(cfg);
    r := ExecuteAll(run, s, mods);
  }

  /** The function executor runs before anything else, on the parsed tree. */
  lemma RunStartsWithExecutor<S>(run: (S, Modification) -> Result<S>, s: S, cfg: Config)
    ensures Fold(run, s, Schedule(cfg)) == Then(run, run(s, FunctionExecutor), Schedule(cfg)[1..])
  {
    var sch := Schedule(cfg);
    FunctionExecutorFirst(cfg);
    assert sch == [sch[0]] + sch[1..];
    FoldAppend(run, s, [sch[0]], sch[1..]);
    assert [sch[0]][..0] == [];
    assert Fold(run, s, [sch[0]]) == run(s, FunctionExecutor);
  }
}
