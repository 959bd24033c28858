/** Which emitted functions are free of free cycles: all those whose blocks charge, in particular all
    code in which no block starts with an embedded data word.  Data words can make a cycle free, and
    need not. */
module ChargedBlocks {
  import opened Wrappers
  import opened ControlFlow
  import opened EmittedControl
  import opened FreeCycles
  import opened EmittedTermination

  /** The label runs the fallback interpreter and returns. */
  predicate JustReturns(f: Func, i: nat)
    requires i < f.Count()
  {
    f.code.insts[i].op.Fallback? && !f.code.insts[i].embedded
  }

  /** Every block charges cycles unless its first label returns at once. */
  predicate ChargesBlocks(f: Func) {
    |f.cfg.leaders| == |f.cfg.blockCycles| == f.Count()
    && forall i | 0 <= i < f.Count() && f.cfg.leaders[i] :: f.cfg.blockCycles[i] >= 1 || JustReturns(f, i)
  }

  /** Functions charge their blocks when no block starts with a data word. */
  lemma NoLeadingDataCharges(f: Func)
    requires Describes(f.cfg, f.code)
    requires forall i | 0 <= i < f.Count() && f.cfg.leaders[i] :: !f.code.insts[i].embedded
    ensures ChargesBlocks(f)
  {
    forall i | 0 <= i < f.Count() && f.cfg.leaders[i] ensures f.cfg.blockCycles[i] >= 1 || JustReturns(f, i) {
      if !JustReturns(f, i) { BlockCharges(f.code, i); }
    }
  }

  /** Exactly when they do: no label that goes on starts a block of data words. */
  lemma ChargesBlocksIff(f: Func)
    requires Describes(f.cfg, f.code)
    ensures ChargesBlocks(f)
       <==> forall i | 0 <= i < f.Count() && f.cfg.leaders[i] && OnlyData(f.code, i) :: JustReturns(f, i)
  {
    hide JustReturns;
    forall i | 0 <= i < f.Count() && f.cfg.leaders[i]
      ensures f.cfg.blockCycles[i] == 0 <==> OnlyData(f.code, i)
    {
      SumIsZeroIff(f.code, i);
    }
  }

  // A cycle has a backward move

  /** The position after `k` on a cycle. */
  function Next(walk: seq<Loc>, k: nat): nat { if k + 1 < |walk| then k + 1 else 1 }

  lemma CycleGoesOn(f: Func, calls: set<nat>, walk: seq<Loc>, k: nat)
    requires f.Valid() && FreeCycle(f, calls, walk) && k < |walk|
    ensures Next(walk, k) < |walk| && FreeMove(f, calls, walk[k], walk[Next(walk, k)])
  {
    if k + 1 == |walk| { assert FreeMove(f, calls, walk[0], walk[1]); }
  }

  lemma {:induction false} SomeMoveBack(f: Func, calls: set<nat>, walk: seq<Loc>) returns (k: nat)
    requires f.Valid() && FreeWalk(f, calls, walk) && |walk| >= 2
    requires InRange(f, walk[0]) && InRange(f, walk[|walk| - 1]) && Ahead(f, walk[|walk| - 1]) >= Ahead(f, walk[0])
    ensures k < |walk| - 1 && InRange(f, walk[k]) && InRange(f, walk[k + 1])
    ensures Ahead(f, walk[k + 1]) >= Ahead(f, walk[k])
    decreases |walk|
  {
    var last := |walk| - 1;
    hide Ahead, Goes, InRange, Pays;
    assert FreeMove(f, calls, walk[last - 1], walk[last]);
    if Ahead(f, walk[last]) >= Ahead(f, walk[last - 1]) {
      k := last - 1;
    } else {
      WalkPart(f, calls, walk, 0, last);
      k := SomeMoveBack(f, calls, walk[..last]);
    }
  }

  /** A free move that is not forward leads to the start of a block. */
  lemma BackLeads(f: Func, calls: set<nat>, loc: Loc, next: Loc)
    requires f.Valid() && FreeMove(f, calls, loc, next) && Ahead(f, next) >= Ahead(f, loc)
    ensures Position(next) < f.Count() && f.cfg.leaders[Position(next)]
    ensures next.InLoop? ==> next.j == next.first
  {
    if Goes(f, loc, next) {
      GoesGoto(f, loc, next, 0);
      if loc.At? && next.InLoop? { LoopHeadHere(f, loc, 0, Goto(next, 0)); }
      BackwardTestsBudget(f, loc, 0, Goto(next, 0));
    }
  }

  /** A free walk over the start of a block finds one that does not charge. */
  lemma LeaderPays(f: Func, calls: set<nat>, loc: Loc, next: Loc, after: Loc)
    requires f.Valid() && OnLabel(f, loc) && f.cfg.leaders[Position(loc)]
    requires loc.InLoop? ==> loc.j == loc.first
    requires FreeMove(f, calls, loc, next) && FreeMove(f, calls, next, after)
    ensures !ChargesBlocks(f)
  {
    LoopHeadGoesOn(f, Position(loc));
    assert f.cfg.blockCycles[Position(loc)] == 0 && !JustReturns(f, Position(loc));
  }

  lemma ChargingHasNoFreeCycle(f: Func, calls: set<nat>)
    requires f.Valid() && ChargesBlocks(f)
    ensures HasNoFreeCycle(f, calls)
  {
    hide FreeMove, ChargesBlocks, Ahead, InRange;
    forall walk ensures !FreeCycle(f, calls, walk) {
      if FreeCycle(f, calls, walk) {
        NotCharging(f, calls, walk);
      }
    }
  }

  lemma NotCharging(f: Func, calls: set<nat>, walk: seq<Loc>)
    requires f.Valid() && FreeCycle(f, calls, walk)
    ensures !ChargesBlocks(f)
  {
    hide FreeMove, ChargesBlocks, Ahead, InRange;
    WalkStays(f, calls, walk, |walk| - 1);
    var k := SomeMoveBack(f, calls, walk);
    CycleGoesOn(f, calls, walk, k);
    CycleGoesOn(f, calls, walk, k + 1);
    var n := Next(walk, k + 1);
    CycleGoesOn(f, calls, walk, n);
    BackLeads(f, calls, walk[k], walk[k + 1]);
    WalkStays(f, calls, walk, k + 1);
    LeaderPays(f, calls, walk[k + 1], walk[n], walk[Next(walk, n)]);
  }

  /** A program whose functions all charge their blocks has bounded runs. */
  lemma ChargingProgramReturns(program: seq<Func>)
    requires ValidProgram(program) && forall g | 0 <= g < |program| :: ChargesBlocks(program[g])
    ensures AllRunsBounded(program)
  {
    forall g | 0 <= g < |program| ensures HasNoFreeCycle(program[g], FreeCalls(program, program[g])) {
      ChargingHasNoFreeCycle(program[g], FreeCalls(program, program[g]));
    }
    RunsAreBoundedIff(program);
  }

  // Data words

  /** A data word the decoder takes for the end of a block, with a branch back to it: neither label
      charges. */
  function DataWordLoop(): ControlFlow.Code {
    Code(0, [Inst(Fallback, 0, false, true, false), Inst(B, 0, false, false, false)])
  }

  lemma DataWordCycle(f: Func, calls: set<nat>)
    requires f.Valid() && f.code == DataWordLoop()
    ensures FreeCycle(f, calls, [At(0), At(1), At(0)])
  {
    var code := f.code;
    assert code.Index(0) == 0 && code.LoopsBack(1);
    assert !code.Leader(1) by { assert !code.JumpsTo(1, 1); }
    assert code.BlockSum(0) == 0;
    assert !code.Outlined(0, 1);
    assert Goes(f, At(0), At(1)) && Goes(f, At(1), At(0));
    var walk := [At(0), At(1), At(0)];
    forall k | 0 <= k < 2 ensures FreeMove(f, calls, walk[k], walk[k + 1]) {
    }
  }

  /** A program with such a function never spends its budget there: it has runs of every length. */
  lemma LeadingDataLoopsForever(program: seq<Func>, g: nat) returns (entry: Frame, d: int)
    requires ValidProgram(program) && g < |program| && program[g].code == DataWordLoop()
    ensures IsEntry(program, entry) && forall n: nat :: LongRun(program, entry, d, n)
  {
    hide LongRun, FreeCycle;
    DataWordCycle(program[g], FreeCalls(program, program[g]));
    entry, d := CycleRunsForever(program, g, [At(0), At(1), At(0)]);
  }

  /** The same data word in front of a return. */
  function DataWordReturn(): ControlFlow.Code {
    Code(0, [Inst(Fallback, 0, false, true, false), Inst(BCLR, 0, false, false, true)])
  }

  /** Its block does not charge either, but no cycle leads through it. */
  lemma LeadingDataMayReturn(f: Func, calls: set<nat>)
    requires f.Valid() && f.code == DataWordReturn()
    ensures !ChargesBlocks(f) && HasNoFreeCycle(f, calls)
  {
    assert f.code.BlockSum(0) == 0;
    forall walk ensures !FreeCycle(f, calls, walk) {
      if FreeCycle(f, calls, walk) { OnlyMove(f, calls, walk[0], walk[1]); }
      if FreeCycle(f, calls, walk) && |walk| > 2 { OnlyMove(f, calls, walk[1], walk[2]); }
    }
  }

  lemma OnlyMove(f: Func, calls: set<nat>, loc: Loc, next: Loc)
    requires f.Valid() && f.code == DataWordReturn()
    ensures FreeMove(f, calls, loc, next) ==> loc == At(0) && next == At(1)
  {
    assert forall i | 0 <= i < 2 :: !f.cfg.returnTargets[i] && !f.code.Outlined(i, 0) && !f.code.Outlined(i, 1);
  }
}
