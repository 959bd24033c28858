/** Cycles of labels that charge nothing.  The local goto graph of an emitted function joins a
    label to those it may lead to while budget is left; a call that can come back free joins the
    call to the label after it.  A cycle of free labels gives runs of every length. */
module FreeCycles {
  import opened ControlFlow
  import opened EmittedControl

  /** A label of the function or of one of its outlined loops. */
  predicate OnLabel(f: Func, loc: Loc) { !loc.Waiting? && InRange(f, loc) }

  /** A move that charges nothing; `calls` are the calls that can come back free. */
  ghost predicate FreeMove(f: Func, calls: set<nat>, loc: Loc, next: Loc)
    requires f.Valid()
  {
    && OnLabel(f, loc) && OnLabel(f, next) && Pays(f, loc) == 0
    && (Goes(f, loc, next) || (loc.At? && loc.i in calls && CallsOut(f, loc.i) && next == At(loc.i + 1)))
  }

  ghost predicate FreeWalk(f: Func, calls: set<nat>, walk: seq<Loc>)
    requires f.Valid()
  {
    && walk != [] && OnLabel(f, walk[0])
    && forall k | 0 <= k < |walk| - 1 :: FreeMove(f, calls, walk[k], walk[k + 1])
  }

  ghost predicate FreeCycle(f: Func, calls: set<nat>, walk: seq<Loc>)
    requires f.Valid()
  {
    FreeWalk(f, calls, walk) && |walk| >= 2 && walk[0] == walk[|walk| - 1]
  }

  /** A function called at `target` can return without a charge. */
  ghost predicate ReturnsFreeBy(program: seq<Func>, target: nat, callee: Frame, walk: seq<Loc>)
    requires ValidProgram(program)
  {
    && EntersAt(program, callee, target)
    && FreeWalk(program[callee.f], {}, walk) && walk[0] == callee.loc
    && var end := walk[|walk| - 1];
       InRange(program[callee.f], end) && Pays(program[callee.f], end) == 0 && MayLeave(program[callee.f], end)
  }

  ghost predicate ReturnsFree(program: seq<Func>, target: nat)
    requires ValidProgram(program)
  {
    exists callee, walk :: ReturnsFreeBy(program, target, callee, walk)
  }

  ghost function FreeCalls(program: seq<Func>, f: Func): set<nat>
    requires ValidProgram(program)
  {
    set i: nat | i < f.Count() && CallsOut(f, i) && ReturnsFree(program, f.code.insts[i].target)
  }

  ghost predicate HasNoFreeCycle(f: Func, calls: set<nat>)
    requires f.Valid()
  {
    forall walk :: !FreeCycle(f, calls, walk)
  }

  ghost predicate NoFreeCycle(program: seq<Func>)
    requires ValidProgram(program)
  {
    forall g | 0 <= g < |program| :: HasNoFreeCycle(program[g], FreeCalls(program, program[g]))
  }

  lemma WalkStays(f: Func, calls: set<nat>, walk: seq<Loc>, k: nat)
    requires f.Valid() && FreeWalk(f, calls, walk) && k < |walk|
    ensures OnLabel(f, walk[k])
  {
    if k > 0 { assert FreeMove(f, calls, walk[k - 1], walk[k]); }
  }

  lemma WalkExtends(f: Func, calls: set<nat>, walk: seq<Loc>, next: Loc)
    requires f.Valid() && FreeWalk(f, calls, walk) && FreeMove(f, calls, walk[|walk| - 1], next)
    ensures FreeWalk(f, calls, walk + [next])
  {
    var more := walk + [next];
    forall k | 0 <= k < |more| - 1 ensures FreeMove(f, calls, more[k], more[k + 1]) {
      if k < |walk| - 1 { assert FreeMove(f, calls, walk[k], walk[k + 1]); }
    }
  }

  lemma WalkPart(f: Func, calls: set<nat>, walk: seq<Loc>, from: nat, to: nat)
    requires f.Valid() && FreeWalk(f, calls, walk) && from < to <= |walk|
    ensures FreeWalk(f, calls, walk[from..to])
  {
    WalkStays(f, calls, walk, from);
    var part := walk[from..to];
    forall k | 0 <= k < |part| - 1 ensures FreeMove(f, calls, part[k], part[k + 1]) {
      assert FreeMove(f, calls, walk[from + k], walk[from + k + 1]);
    }
  }

  // Runs along free walks

  lemma RunsJoin(program: seq<Func>, a: seq<State>, b: seq<State>)
    requires ValidProgram(program) && Run(program, a) && Run(program, b) && a[|a| - 1] == b[0]
    ensures Run(program, a + b[1..])
  {
    var run := a + b[1..];
    forall k | 0 <= k < |run| ensures ValidState(program, run[k]) {
      if k >= |a| { assert run[k] == b[k - |a| + 1]; }
    }
    forall k | 0 <= k < |run| - 1 ensures Step(program, run[k], run[k + 1]) {
      if k >= |a| - 1 {
        assert run[k] == b[k - |a| + 1] && run[k + 1] == b[k - |a| + 2];
        assert Step(program, b[k - |a| + 1], b[k - |a| + 2]);
      } else {
        assert Step(program, a[k], a[k + 1]);
      }
    }
  }

  lemma OneStep(program: seq<Func>, s: State, s': State)
    requires ValidProgram(program) && ValidState(program, s) && ValidState(program, s') && Step(program, s, s')
    ensures Run(program, [s, s'])
  {
  }

  /** Frames above which there is room for one more call. */
  ghost predicate Below(program: seq<Func>, rest: seq<Frame>) { |rest| < MAX_CALL_DEPTH && FramesIn(program, rest) }

  lemma GoesStep(program: seq<Func>, rest: seq<Frame>, g: nat, loc: Loc, next: Loc, d: int)
    requires ValidProgram(program) && FramesIn(program, rest) && |rest| <= MAX_CALL_DEPTH && g < |program|
    requires OnLabel(program[g], loc) && OnLabel(program[g], next) && Goes(program[g], loc, next)
    requires !BudgetSpent(d - Pays(program[g], loc))
    ensures Run(program, [State(rest + [Frame(g, loc)], d), State(rest + [Frame(g, next)], d - Pays(program[g], loc))])
  {
    hide Goes, Executes, InRange, Func.Valid;
    var s, s' := State(rest + [Frame(g, loc)], d), State(rest + [Frame(g, next)], d - Pays(program[g], loc));
    GoesGoto(program[g], loc, next, d);
    assert s.frames[..|s.frames| - 1] == rest;
    OneStep(program, s, s');
  }

  /** A free walk without calls, above any caller. */
  lemma {:induction false} RunAlongWalk(program: seq<Func>, rest: seq<Frame>, g: nat, walk: seq<Loc>)
    returns (run: seq<State>)
    requires ValidProgram(program) && FramesIn(program, rest) && |rest| <= MAX_CALL_DEPTH && g < |program|
    requires FreeWalk(program[g], {}, walk)
    ensures Run(program, run) && run[0] == State(rest + [Frame(g, walk[0])], 0)
    ensures run[|run| - 1] == State(rest + [Frame(g, walk[|walk| - 1])], 0)
    decreases |walk|
  {
    if |walk| == 1 {
      run := [State(rest + [Frame(g, walk[0])], 0)];
    } else {
      hide Goes, Executes, InRange, Func.Valid, Step;
      var last := |walk| - 1;
      assert FreeMove(program[g], {}, walk[last - 1], walk[last]);
      WalkPart(program[g], {}, walk, 0, last);
      var before := RunAlongWalk(program, rest, g, walk[..last]);
      GoesStep(program, rest, g, walk[last - 1], walk[last], 0);
      var step := [State(rest + [Frame(g, walk[last - 1])], 0), State(rest + [Frame(g, walk[last])], 0)];
      RunsJoin(program, before, step);
      run := before + step[1..];
    }
  }

  lemma LeaveStep(program: seq<Func>, rest: seq<Frame>, g: nat, loc: Loc)
    requires ValidProgram(program) && FramesIn(program, rest) && |rest| <= MAX_CALL_DEPTH && g < |program|
    requires InRange(program[g], loc) && Pays(program[g], loc) == 0 && MayLeave(program[g], loc)
    ensures Run(program, [State(rest + [Frame(g, loc)], 0), State(rest, 0)])
  {
    hide Goes, Executes, InRange, Func.Valid, MayLeave;
    var s, s' := State(rest + [Frame(g, loc)], 0), State(rest, 0);
    MayLeaves(program[g], loc, 0);
    assert s.frames[..|s.frames| - 1] == rest;
    OneStep(program, s, s');
  }

  lemma CallStep(program: seq<Func>, g: nat, i: nat, callee: Frame)
    requires ValidProgram(program) && g < |program| && i < program[g].Count() && CallsOut(program[g], i)
    requires Pays(program[g], At(i)) == 0 && EntersAt(program, callee, program[g].code.insts[i].target)
    ensures Run(program, [State([Frame(g, At(i))], 0), State([Frame(g, Waiting(i, 0)), callee], 0)])
  {
    hide Executes, Func.Valid;
    var s, s' := State([Frame(g, At(i))], 0), State([Frame(g, Waiting(i, 0)), callee], 0);
    CallsIff(program[g], At(i), 0, 0);
    assert s.frames[..|s.frames| - 1] == [];
    assert s'.frames == [] + [Frame(g, Waiting(i, s'.d)), callee];
    OneStep(program, s, s');
  }

  lemma ResumeStep(program: seq<Func>, g: nat, i: nat)
    requires ValidProgram(program) && g < |program| && i < program[g].Count() && CallsOut(program[g], i)
    ensures Run(program, [State([Frame(g, Waiting(i, 0))], 0), State([Frame(g, At(i + 1))], 0)])
  {
    var s, s' := State([Frame(g, Waiting(i, 0))], 0), State([Frame(g, At(i + 1))], 0);
    assert s.frames[..|s.frames| - 1] == [];
    assert Executes(program[g], Waiting(i, 0), 0, Goto(At(i + 1), 0));
    OneStep(program, s, s');
  }

  /** A call that comes back free, with everything the callee does. */
  lemma RunThroughCall(program: seq<Func>, g: nat, i: nat) returns (run: seq<State>)
    requires ValidProgram(program) && g < |program| && i < program[g].Count() && CallsOut(program[g], i)
    requires Pays(program[g], At(i)) == 0 && ReturnsFree(program, program[g].code.insts[i].target)
    ensures Run(program, run) && |run| >= 2
    ensures run[0] == State([Frame(g, At(i))], 0) && run[|run| - 1] == State([Frame(g, At(i + 1))], 0)
  {
    hide Goes, Executes, Func.Valid, MayLeave, Run, FreeWalk;
    var callee, walk :| ReturnsFreeBy(program, program[g].code.insts[i].target, callee, walk);
    var caller := [Frame(g, Waiting(i, 0))];
    WalkNonEmpty(program[callee.f], {}, walk);
    CallStep(program, g, i, callee);
    var inside := RunAlongWalk(program, caller, callee.f, walk);
    RunNonEmpty(program, inside);
    LeaveStep(program, caller, callee.f, walk[|walk| - 1]);
    ResumeStep(program, g, i);
    assert [Frame(g, Waiting(i, 0)), callee] == caller + [Frame(callee.f, walk[0])];
    run := [State([Frame(g, At(i))], 0), State(caller + [callee], 0)];
    run := JoinRuns(program, run, inside);
    run := JoinRuns(program, run, [State(caller + [Frame(callee.f, walk[|walk| - 1])], 0), State(caller, 0)]);
    run := JoinRuns(program, run, [State(caller, 0), State([Frame(g, At(i + 1))], 0)]);
  }

  lemma WalkNonEmpty(f: Func, calls: set<nat>, walk: seq<Loc>)
    requires f.Valid() && FreeWalk(f, calls, walk)
    ensures walk != []
  {
  }

  lemma RunNonEmpty(program: seq<Func>, run: seq<State>)
    requires ValidProgram(program) && Run(program, run)
    ensures run != []
  {
  }

  lemma JoinRuns(program: seq<Func>, a: seq<State>, b: seq<State>) returns (run: seq<State>)
    requires ValidProgram(program) && Run(program, a) && Run(program, b)
    requires a != [] && b != [] && a[|a| - 1] == b[0]
    ensures Run(program, run) && |run| == |a| + |b| - 1 && run[0] == a[0] && run[|run| - 1] == b[|b| - 1]
  {
    RunsJoin(program, a, b);
    run := a + b[1..];
  }

  lemma RunAlongMove(program: seq<Func>, g: nat, loc: Loc, next: Loc) returns (run: seq<State>)
    requires ValidProgram(program) && g < |program|
    requires FreeMove(program[g], FreeCalls(program, program[g]), loc, next)
    ensures Run(program, run) && |run| >= 2
    ensures run[0] == State([Frame(g, loc)], 0) && run[|run| - 1] == State([Frame(g, next)], 0)
  {
    hide Run, Goes, Executes, ReturnsFree;
    if Goes(program[g], loc, next) {
      GoesStep(program, [], g, loc, next, 0);
      run := [State([Frame(g, loc)], 0), State([Frame(g, next)], 0)];
      assert [] + [Frame(g, loc)] == [Frame(g, loc)] && [] + [Frame(g, next)] == [Frame(g, next)];
    } else {
      run := RunThroughCall(program, g, loc.i);
    }
  }

  /** A run as long as a walk, with the same ends. */
  lemma {:induction false} RunAlong(program: seq<Func>, g: nat, walk: seq<Loc>) returns (run: seq<State>)
    requires ValidProgram(program) && g < |program| && FreeWalk(program[g], FreeCalls(program, program[g]), walk)
    ensures Run(program, run) && |run| >= |walk|
    ensures run[0] == State([Frame(g, walk[0])], 0) && run[|run| - 1] == State([Frame(g, walk[|walk| - 1])], 0)
    decreases |walk|
  {
    if |walk| == 1 {
      run := [State([Frame(g, walk[0])], 0)];
    } else {
      hide FreeMove, Step, FreeCalls;
      var f, calls, last := program[g], FreeCalls(program, program[g]), |walk| - 1;
      assert FreeMove(f, calls, walk[last - 1], walk[last]);
      WalkPart(f, calls, walk, 0, last);
      var before := RunAlong(program, g, walk[..last]);
      var move := RunAlongMove(program, g, walk[last - 1], walk[last]);
      run := JoinRuns(program, before, move);
    }
  }

  /** Round and round. */
  lemma {:induction false} Rounds(f: Func, calls: set<nat>, cycle: seq<Loc>, n: nat) returns (walk: seq<Loc>)
    requires f.Valid() && FreeCycle(f, calls, cycle)
    ensures FreeWalk(f, calls, walk) && |walk| > n && walk[0] == walk[|walk| - 1] == cycle[0]
    decreases n
  {
    if n == 0 {
      walk := [cycle[0]];
    } else {
      var before := Rounds(f, calls, cycle, n - 1);
      walk := before + cycle[1..];
      forall k | 0 <= k < |walk| - 1 ensures FreeMove(f, calls, walk[k], walk[k + 1]) {
        if k >= |before| - 1 {
          var j := k - |before| + 1;
          assert walk[k] == cycle[j] && walk[k + 1] == cycle[j + 1];
          assert FreeMove(f, calls, cycle[j], cycle[j + 1]);
        } else {
          assert FreeMove(f, calls, before[k], before[k + 1]);
        }
      }
    }
  }

  /** The label a loop's label is entered from. */
  lemma LabelBefore(f: Func, first: nat, j: nat) returns (from: Loc)
    requires f.Valid() && OnLabel(f, InLoop(first, j))
    ensures OnLabel(f, from) && Goes(f, from, InLoop(first, j))
    ensures from == if j == first then At(first) else InLoop(first, j - 1)
  {
    LoopShape(f, first);
    from := if j == first then At(first) else InLoop(first, j - 1);
  }

  /** Every label is reached from an entry of the function, with as much budget as we like. */
  lemma {:induction false} RunToLabel(program: seq<Func>, g: nat, loc: Loc, left: nat)
    returns (run: seq<State>, i: nat, d: int)
    requires ValidProgram(program) && g < |program| && OnLabel(program[g], loc)
    ensures Run(program, run) && i < program[g].Count() && run[0] == State([Frame(g, At(i))], d)
    ensures run[|run| - 1] == State([Frame(g, loc)], left)
    decreases if loc.InLoop? then 1 + loc.j else 0
  {
    match loc {
      case At(j) =>
        run, i, d := [State([Frame(g, loc)], left)], j, left;
      case InLoop(first, j) =>
        hide Step, Executes, Goes, Func.Valid, Run, Pays;
        var from := LabelBefore(program[g], first, j);
        var more := left + Pays(program[g], from);
        var before;
        before, i, d := RunToLabel(program, g, from, more);
        GoesStep(program, [], g, from, loc, more);
        assert [] + [Frame(g, from)] == [Frame(g, from)] && [] + [Frame(g, loc)] == [Frame(g, loc)];
        run := JoinRuns(program, before, [State([Frame(g, from)], more), State([Frame(g, loc)], left)]);
    }
  }

  /** The runs that begin by entering a function at one of its labels are no longer than `bound`. */
  ghost predicate BoundedBy(program: seq<Func>, entry: Frame, d: int, bound: nat)
    requires ValidProgram(program)
  {
    forall run | Run(program, run) && run[0] == State([entry], d) :: |run| <= bound
  }

  predicate IsEntry(program: seq<Func>, entry: Frame) {
    entry.f < |program| && entry.loc.At? && entry.loc.i < program[entry.f].Count()
  }

  ghost predicate Bounded(program: seq<Func>, entry: Frame, d: int)
    requires ValidProgram(program)
  {
    exists bound: nat :: BoundedBy(program, entry, d, bound)
  }

  ghost predicate AllRunsBounded(program: seq<Func>)
    requires ValidProgram(program)
  {
    forall entry, d | IsEntry(program, entry) :: Bounded(program, entry, d)
  }

  /** A cycle of labels that charge nothing is run through for ever: from one entry there are runs of
      every length. */
  lemma CycleRunsForever(program: seq<Func>, g: nat, cycle: seq<Loc>) returns (entry: Frame, d: int)
    requires ValidProgram(program) && g < |program| && FreeCycle(program[g], FreeCalls(program, program[g]), cycle)
    ensures IsEntry(program, entry) && forall n: nat :: LongRun(program, entry, d, n)
  {
    hide Step, FreeCalls, FreeMove;
    var before, i;
    before, i, d := RunToLabel(program, g, cycle[0], 0);
    entry := Frame(g, At(i));
    forall n: nat ensures LongRun(program, entry, d, n) {
      var walk := Rounds(program[g], FreeCalls(program, program[g]), cycle, n);
      var round := RunAlong(program, g, walk);
      var run := JoinRuns(program, before, round);
      assert run[0] == State([entry], d);
    }
  }

  ghost predicate LongRun(program: seq<Func>, entry: Frame, d: int, n: nat)
    requires ValidProgram(program)
  {
    exists run :: Run(program, run) && run[0] == State([entry], d) && |run| > n
  }
}
