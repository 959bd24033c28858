/** Control flow of the emitted C functions (`emit_direct_branch`, `emit_dynamic_branch`,
    `emit_counted_loop` and `emit_function` in src/backend/emitter.c): what one label does next,
    and the steps of a whole program of emitted functions. */
module EmittedControl {
  import opened Wrappers
  import opened ControlFlow

  const BUDGET: int := 256
  const MAX_CALL_DEPTH: nat := 24

  datatype Func = Func(code: ControlFlow.Code, cfg: Cfg) {
    function Count(): nat { |code.insts| }

    /** What the emitter relies on: the facts are those of the code, and only branches link. */
    ghost predicate Valid() {
      && Describes(cfg, code)
      && forall i | 0 <= i < Count() && code.insts[i].lk :: code.insts[i].EndsBlock() && !code.insts[i].op.Fallback?
    }

    predicate HasLocalReturns() { exists i | 0 <= i < |cfg.returnTargets| :: cfg.returnTargets[i] }
  }

  /** Where an activation is: about to execute a label, inside an outlined loop, or waiting for
      a callee to come back to the label after the call.  `since` is the downcount of the call;
      no step looks at it. */
  datatype Loc = At(i: nat) | InLoop(first: nat, j: nat) | Waiting(i: nat, since: int)

  /** What one label does next, with the downcount it leaves. */
  datatype Outcome = Goto(loc: Loc, d: int) | Leave(d: int) | Call(d: int)

  /** `if (ctx->downcount <= -BUDGET)` */
  predicate BudgetSpent(d: int) { d <= -BUDGET }

  /** The label at index `i`, or the end of the function. */
  function Label(f: Func, i: nat, d: int): Outcome {
    if i < f.Count() then Goto(At(i), d) else Leave(d)
  }

  predicate Leaves(o: Outcome, d: int) { o.Leave? && o.d == d }

  /** `emit_direct_branch` at label `i`; inside an outlined loop the label is the loop's own. */
  predicate DirectBranch(f: Func, i: nat, inLoop: bool, d: int, o: Outcome)
    requires i < f.Count() && f.code.insts[i].DirectBranch()
  {
    var inst := f.code.insts[i];
    var local := f.code.Contains(inst.target);
    var backward := local && inst.target <= f.code.Address(i);
    if local then
      var t := f.code.Index(inst.target);
      var jump := Goto(if inLoop then InLoop(t, t) else At(t), d);
      if !backward then o == jump
      else if !inst.lk && !inLoop && !f.code.LoopsBack(i) then Leaves(o, d)
      else if BudgetSpent(d) then Leaves(o, d)
      else o == jump
    else if inst.lk && i + 1 < f.Count() then Leaves(o, d) || o == Call(d)
    else Leaves(o, d)
  }

  /** A taken `emit_dynamic_branch` of a blr: the target address is data, so any return target
      may be dispatched to. */
  predicate ReturnDispatch(f: Func, d: int, o: Outcome)
    requires |f.cfg.returnTargets| == f.Count()
  {
    if !f.HasLocalReturns() || BudgetSpent(d) then Leaves(o, d)
    else Leaves(o, d) || (o.Goto? && o.d == d && o.loc.At? && o.loc.i < f.Count() && f.cfg.returnTargets[o.loc.i])
  }

  /** The statements of one instruction in the function body, the block's charge already made.
      Conditions are data.  Helpers may return early and may lower the downcount. */
  ghost predicate Statement(f: Func, i: nat, d: int, o: Outcome)
    requires i < f.Count() && |f.cfg.returnTargets| == f.Count()
  {
    var inst := f.code.insts[i];
    if inst.embedded then o == Label(f, i + 1, d)
    else match inst.op
      case B => DirectBranch(f, i, false, d, o)
      case BC => DirectBranch(f, i, false, d, o) || (!inst.always && o == Label(f, i + 1, d))
      case BCLR => ReturnDispatch(f, d, o) || (!inst.always && o == Label(f, i + 1, d))
      case BCCTR => Leaves(o, d) || (!inst.always && o == Label(f, i + 1, d))
      case SC | RFI | Fallback => o.Leave? && o.d <= d
      case Pure(_) => o == Label(f, i + 1, d)
      case _ => o.d <= d && (o.Leave? || o == Label(f, i + 1, o.d))
  }

  /** The cycles charged at a label. */
  function Charge(f: Func, i: nat): nat { if i < |f.cfg.blockCycles| then f.cfg.blockCycles[i] else 0 }

  /** What a label charges before its statement; the head of an outlined loop charges inside it. */
  function Pays(f: Func, loc: Loc): nat
    requires InRange(f, loc)
  {
    match loc
    case At(i) => if i < |f.cfg.loopEnds| && f.cfg.loopEnds[i].Some? then 0 else Charge(f, i)
    case InLoop(first, j) => if j == first then Charge(f, first) else 0
    case Waiting(_, _) => 0
  }

  /** One statement of an outlined loop before its branch.  A helper may return early, and back
      in the caller only the loop's continuation is resumed. */
  ghost predicate LoopStatement(f: Func, first: nat, j: nat, last: nat, d: int, o: Outcome)
    requires first <= j < last < f.Count()
  {
    var inst := f.code.insts[j];
    if inst.embedded || inst.Transparent() then o == Goto(InLoop(first, j + 1), d)
    else o.d <= d && (o == Goto(InLoop(first, j + 1), o.d) || o.Leave? || o == Label(f, last + 1, o.d))
  }

  /** The branch that closes an outlined loop. */
  predicate LoopBranch(f: Func, last: nat, d: int, o: Outcome)
    requires last < f.Count() && f.code.insts[last].DirectBranch()
  {
    var inst := f.code.insts[last];
    if inst.embedded then o == Label(f, last + 1, d)
    else DirectBranch(f, last, true, d, o) || (inst.op.BC? && !inst.always && o == Label(f, last + 1, d))
  }

  /** One label of an activation. */
  ghost predicate Executes(f: Func, loc: Loc, d: int, o: Outcome)
    requires f.Valid() && InRange(f, loc)
  {
    match loc
    case At(i) =>
      if f.cfg.loopEnds[i].Some? then o == Goto(InLoop(i, i), d) else Statement(f, i, d - Charge(f, i), o)
    case InLoop(first, j) =>
      LoopShape(f, first);
      var last := f.cfg.loopEnds[first].value;
      if j < last then LoopStatement(f, first, j, last, d - Pays(f, loc), o)
        else LoopBranch(f, last, d - Pays(f, loc), o)
    case Waiting(i, _) => o.d <= d && (o.Leave? || o == Label(f, i + 1, o.d))
  }

  /** The call of a branch to another emitted function, resumed at the label after it. */
  predicate CallsOut(f: Func, i: nat)
    requires i < f.Count()
  {
    var inst := f.code.insts[i];
    !inst.embedded && inst.DirectBranch() && inst.lk && !f.code.Contains(inst.target) && i + 1 < f.Count()
  }

  predicate InRange(f: Func, loc: Loc) {
    match loc
    case At(i) => i < f.Count()
    case InLoop(first, j) =>
      first < |f.cfg.loopEnds| == f.Count() && f.cfg.loopEnds[first].Some?
      && first <= j <= f.cfg.loopEnds[first].value < f.Count()
    case Waiting(i, _) => i < f.Count() && CallsOut(f, i)
  }

  lemma LoopShape(f: Func, first: nat)
    requires f.Valid() && first < f.Count() && f.cfg.loopEnds[first].Some?
    ensures var last := f.cfg.loopEnds[first].value;
      first < last < f.Count() && f.code.insts[last].DirectBranch() && !f.code.insts[last].lk
      && f.code.insts[last].target == f.code.Address(first) && f.code.Contains(f.code.insts[last].target)
      && f.code.Index(f.code.insts[last].target) == first
  {
    assert f.code.Outlined(first, f.cfg.loopEnds[first].value);
  }

  lemma LoopHeadGoesOn(f: Func, i: nat)
    requires f.Valid() && i < f.Count()
    ensures f.cfg.loopEnds[i].Some? ==> !f.code.insts[i].EndsBlock()
  {
    if f.cfg.loopEnds[i].Some? { assert f.code.Outlined(i, f.cfg.loopEnds[i].value); }
  }

  // Where labels lead

  /** The transfers of a direct branch to a label of its function while budget is left. */
  predicate BranchesTo(f: Func, i: nat, t: nat)
    requires i < f.Count() && f.code.insts[i].DirectBranch()
  {
    var inst := f.code.insts[i];
    f.code.Contains(inst.target) && t == f.code.Index(inst.target) && (t > i || inst.lk || f.code.LoopsBack(i))
  }

  predicate StatementGoes(f: Func, i: nat, t: nat)
    requires i < f.Count() && |f.cfg.returnTargets| == f.Count()
  {
    var inst := f.code.insts[i];
    && t < f.Count()
    && if inst.embedded then t == i + 1
       else match inst.op
         case B => BranchesTo(f, i, t)
         case BC => BranchesTo(f, i, t) || (!inst.always && t == i + 1)
         case BCLR => f.cfg.returnTargets[t] || (!inst.always && t == i + 1)
         case BCCTR => !inst.always && t == i + 1
         case SC | RFI | Fallback => false
         case _ => t == i + 1
  }

  /** The local goto graph: where a label may lead inside its activation while budget is left. */
  ghost predicate Goes(f: Func, loc: Loc, next: Loc)
    requires f.Valid() && InRange(f, loc)
  {
    match loc
    case At(i) =>
      if f.cfg.loopEnds[i].Some? then next == InLoop(i, i) else next.At? && StatementGoes(f, i, next.i)
    case InLoop(first, j) =>
      var last, inst := f.cfg.loopEnds[first].value, f.code.insts[j];
      if j < last then
        next == InLoop(first, j + 1)
        || (!inst.embedded && !inst.Transparent() && next == At(last + 1) && last + 1 < f.Count())
      else if !inst.embedded && next == InLoop(first, first) then true
      else (inst.embedded || (inst.op.BC? && !inst.always)) && next == At(last + 1) && last + 1 < f.Count()
    case Waiting(_, _) => false
  }

  /** A direct branch out of the function, or back without a budget test. */
  predicate BranchLeaves(f: Func, i: nat)
    requires i < f.Count() && f.code.insts[i].DirectBranch()
  {
    var inst := f.code.insts[i];
    !f.code.Contains(inst.target) || (f.code.Index(inst.target) <= i && !inst.lk && !f.code.LoopsBack(i))
  }

  predicate StatementLeaves(f: Func, i: nat)
    requires i < f.Count()
  {
    var inst := f.code.insts[i];
    if inst.embedded then i + 1 == f.Count()
    else match inst.op
      case B => BranchLeaves(f, i)
      case BC => BranchLeaves(f, i) || (!inst.always && i + 1 == f.Count())
      case Pure(_) => i + 1 == f.Count()
      case _ => true
  }

  /** The labels an activation may leave its function from while budget is left. */
  ghost predicate MayLeave(f: Func, loc: Loc)
    requires f.Valid() && InRange(f, loc)
  {
    match loc
    case At(i) => f.cfg.loopEnds[i].None? && StatementLeaves(f, i)
    case InLoop(first, j) =>
      var last, inst := f.cfg.loopEnds[first].value, f.code.insts[j];
      if j < last then !inst.embedded && !inst.Transparent()
      else last + 1 == f.Count() && (inst.embedded || (inst.op.BC? && !inst.always))
    case Waiting(_, _) => true
  }

  /** The graph has every transfer an activation can make; the label's charge is paid first. */
  lemma GotoGoes(f: Func, loc: Loc, d: int, o: Outcome)
    requires f.Valid() && InRange(f, loc) && Executes(f, loc, d, o) && o.Goto? && !loc.Waiting?
    ensures InRange(f, o.loc) && !o.loc.Waiting? && Goes(f, loc, o.loc) && o.d <= d - Pays(f, loc)
  {
    match loc {
      case At(i) => if f.cfg.loopEnds[i].Some? { LoopShape(f, i); } else { StatementGoesOn(f, i, d - Charge(f, i), o); }
      case InLoop(first, j) => LoopGoesOn(f, first, j, d, o);
    }
  }

  lemma LoopGoesOn(f: Func, first: nat, j: nat, d: int, o: Outcome)
    requires f.Valid() && InRange(f, InLoop(first, j)) && Executes(f, InLoop(first, j), d, o) && o.Goto?
    ensures var loc := InLoop(first, j);
      InRange(f, o.loc) && !o.loc.Waiting? && Goes(f, loc, o.loc) && o.d <= d - Pays(f, loc)
  {
    hide Describes, Code.LoopsBack, Statement, StatementGoes;
    LoopShape(f, first);
    if j < f.cfg.loopEnds[first].value {
      hide LoopBranch;
    } else {
      hide LoopStatement;
    }
  }

  lemma StatementGoesOn(f: Func, i: nat, d: int, o: Outcome)
    requires f.Valid() && i < f.Count() && Statement(f, i, d, o) && o.Goto?
    ensures o.loc.At? && StatementGoes(f, i, o.loc.i) && o.d <= d
  {
    hide Describes, Code.LoopsBack;
  }

  /** While budget is left every transfer of the graph can be made. */
  lemma GoesGoto(f: Func, loc: Loc, next: Loc, d: int)
    requires f.Valid() && InRange(f, loc) && Goes(f, loc, next) && !BudgetSpent(d - Pays(f, loc))
    ensures Executes(f, loc, d, Goto(next, d - Pays(f, loc)))
  {
    if loc.InLoop? { LoopShape(f, loc.first); }
  }

  /** Only the branches that call out call, and they always can. */
  lemma CallsIff(f: Func, loc: Loc, d: int, d': int)
    requires f.Valid() && InRange(f, loc)
    ensures Executes(f, loc, d, Call(d')) <==> loc.At? && CallsOut(f, loc.i) && d' == d - Pays(f, loc)
  {
    match loc {
      case At(i) => LoopHeadGoesOn(f, i);
      case InLoop(first, j) => LoopShape(f, first);
      case Waiting(_, _) =>
    }
  }

  /** Leaving pays the charge too, and one that spends nothing else is foreseen. */
  lemma LeavesMay(f: Func, loc: Loc, d: int, d': int)
    requires f.Valid() && InRange(f, loc) && Executes(f, loc, d, Leave(d'))
    ensures d' <= d - Pays(f, loc)
    ensures !BudgetSpent(d') ==> MayLeave(f, loc)
  {
    if loc.InLoop? { LoopShape(f, loc.first); }
  }

  lemma MayLeaves(f: Func, loc: Loc, d: int)
    requires f.Valid() && InRange(f, loc) && MayLeave(f, loc)
    ensures Executes(f, loc, d, Leave(d - Pays(f, loc)))
  {
    if loc.InLoop? { LoopShape(f, loc.first); }
  }

  /** A call site may leave too: the call depth is limited. */
  lemma CallerMayLeave(f: Func, i: nat)
    requires f.Valid() && i < f.Count() && CallsOut(f, i)
    ensures MayLeave(f, At(i))
  {
    LoopHeadGoesOn(f, i);
  }

  lemma BranchTargetLeads(f: Func, i: nat)
    requires f.Valid() && i < f.Count() && f.code.insts[i].DirectBranch() && !f.code.insts[i].embedded
    requires f.code.Contains(f.code.insts[i].target)
    ensures f.cfg.leaders[f.code.Index(f.code.insts[i].target)]
  {
    assert f.code.JumpsTo(i, f.code.Index(f.code.insts[i].target));
  }

  lemma ReturnTargetLeads(f: Func, t: nat)
    requires f.Valid() && t < f.Count() && f.cfg.returnTargets[t]
    ensures f.cfg.leaders[t]
  {
    assert f.code.Follows(t);
  }

  function Position(loc: Loc): nat {
    match loc
    case At(i) => i
    case InLoop(_, j) => j
    case Waiting(i, _) => i
  }

  /** Control moves to the same or an earlier label only with budget left and only to the start
      of a block; entering an outlined loop at its head is not a move. */
  lemma BackwardTestsBudget(f: Func, loc: Loc, d: int, o: Outcome)
    requires f.Valid() && InRange(f, loc) && Executes(f, loc, d, o) && o.Goto?
    requires Position(o.loc) <= Position(loc) && !(loc.At? && o.loc.InLoop?)
    ensures !BudgetSpent(o.d) && InRange(f, o.loc) && f.cfg.leaders[Position(o.loc)]
  {
    match loc {
      case At(i) =>
        if f.code.insts[i].op.BCLR? {
          ReturnTargetLeads(f, o.loc.i);
        } else {
          BranchTargetLeads(f, i);
        }
      case InLoop(first, j) =>
        LoopShape(f, first);
        BranchTargetLeads(f, j);
      case Waiting(_, _) =>
    }
  }

  // The whole call stack

  datatype Frame = Frame(f: nat, loc: Loc)

  /** Active functions, the innermost last, over one shared downcount. */
  datatype State = State(frames: seq<Frame>, d: int)

  ghost predicate ValidProgram(program: seq<Func>) { forall g | 0 <= g < |program| :: program[g].Valid() }

  predicate FrameIn(program: seq<Func>, frame: Frame) { frame.f < |program| && InRange(program[frame.f], frame.loc) }

  ghost predicate FramesIn(program: seq<Func>, frames: seq<Frame>) {
    forall k | 0 <= k < |frames| :: FrameIn(program, frames[k])
  }

  ghost predicate ValidState(program: seq<Func>, s: State) {
    |s.frames| <= MAX_CALL_DEPTH + 1 && FramesIn(program, s.frames)
  }

  /** The frame of a function called at one of its labels. */
  predicate EntersAt(program: seq<Func>, callee: Frame, target: nat) {
    && callee.f < |program| && program[callee.f].code.Contains(target)
    && callee.loc == At(program[callee.f].code.Index(target))
  }

  /** One step of the innermost activation: it moves on, returns, or calls the function the branch
      leads to, while the call depth allows. */
  ghost predicate Step(program: seq<Func>, s: State, s': State)
    requires ValidProgram(program) && ValidState(program, s)
  {
    && s.frames != []
    && var top, rest := s.frames[|s.frames| - 1], s.frames[..|s.frames| - 1];
       var f := program[top.f];
       || (exists loc :: Executes(f, top.loc, s.d, Goto(loc, s'.d)) && s'.frames == rest + [Frame(top.f, loc)])
       || (Executes(f, top.loc, s.d, Leave(s'.d)) && s'.frames == rest)
       || (top.loc.At? && |s.frames| <= MAX_CALL_DEPTH && Executes(f, top.loc, s.d, Call(s'.d))
           && exists callee :: EntersAt(program, callee, f.code.insts[top.loc.i].target)
                && s'.frames == rest + [Frame(top.f, Waiting(top.loc.i, s'.d)), callee])
  }

  ghost predicate Run(program: seq<Func>, run: seq<State>)
    requires ValidProgram(program)
  {
    run != [] && (forall k | 0 <= k < |run| :: ValidState(program, run[k]))
    && forall k | 0 <= k < |run| - 1 :: Step(program, run[k], run[k + 1])
  }

  /** A label other than those that always go on may leave. */
  lemma SomeOutcome(f: Func, loc: Loc, d: int) returns (o: Outcome)
    requires f.Valid() && InRange(f, loc)
    ensures Executes(f, loc, d, o) && !o.Call? && o.d <= d
    ensures o.Goto? ==> InRange(f, o.loc)
  {
    if MayLeave(f, loc) {
      MayLeaves(f, loc, d);
      o := Leave(d - Pays(f, loc));
    } else {
      o := SomeMove(f, loc, d);
    }
  }

  lemma SomeMove(f: Func, loc: Loc, d: int) returns (o: Outcome)
    requires f.Valid() && InRange(f, loc) && !MayLeave(f, loc)
    ensures Executes(f, loc, d, o) && !o.Call? && o.d <= d
    ensures o.Goto? ==> InRange(f, o.loc)
  {
    var paid := d - Pays(f, loc);
    o := Leave(paid);
    match loc {
      case At(i) =>
        var inst := f.code.insts[i];
        if f.cfg.loopEnds[i].Some? {
          o := Goto(InLoop(i, i), d);
        } else if !inst.embedded && inst.DirectBranch() {
          var t := f.code.Index(inst.target);
          if t > i || !BudgetSpent(paid) { o := Goto(At(t), paid); }
        } else {
          o := Label(f, i + 1, paid);
        }
      case InLoop(first, j) =>
        LoopShape(f, first);
        var last := f.cfg.loopEnds[first].value;
        if j < last {
          o := Goto(InLoop(first, j + 1), paid);
        } else if f.code.insts[j].embedded {
          o := Label(f, last + 1, paid);
        } else if !BudgetSpent(paid) {
          o := Goto(InLoop(first, first), paid);
        }
      case Waiting(_, _) =>
    }
  }

  /** An active function can always go on. */
  lemma Progress(program: seq<Func>, s: State) returns (s': State)
    requires ValidProgram(program) && ValidState(program, s) && s.frames != []
    ensures Step(program, s, s')
  {
    var top, rest := s.frames[|s.frames| - 1], s.frames[..|s.frames| - 1];
    var o := SomeOutcome(program[top.f], top.loc, s.d);
    s' := State(if o.Goto? then rest + [Frame(top.f, o.loc)] else rest, o.d);
  }

  ghost predicate Stopped(program: seq<Func>, s: State)
    requires ValidProgram(program) && ValidState(program, s)
  {
    forall s' :: !Step(program, s, s')
  }
}
