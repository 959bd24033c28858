/** Every activation of an emitted function returns exactly when no cycle of labels is free of
    charge.  The measure is the budget left, then the longest free walk ahead, then, with the
    budget spent, the distance to the end of the function; outer frames weigh more. */
module EmittedTermination {
  import opened Wrappers
  import opened ControlFlow
  import opened EmittedControl
  import opened FreeCycles

  // Free walks are short

  lemma {:induction false} DistinctFits<T>(list: seq<T>, all: set<T>)
    requires (forall k | 0 <= k < |list| :: list[k] in all) && forall j, k | 0 <= j < k < |list| :: list[j] != list[k]
    ensures |list| <= |all|
    decreases |list|
  {
    if list != [] {
      var last := |list| - 1;
      DistinctFits(list[..last], all - {list[last]});
      assert all == (all - {list[last]}) + {list[last]};
    }
  }

  ghost function Labels(f: Func): set<Loc> {
    (set i: nat | i < f.Count() :: At(i))
      + (set first: nat, j: nat | first < f.Count() && j < f.Count() :: InLoop(first, j))
  }

  lemma LabelListed(f: Func, loc: Loc)
    requires OnLabel(f, loc)
    ensures loc in Labels(f)
  {
  }

  lemma FreeWalkIsShort(f: Func, calls: set<nat>, walk: seq<Loc>)
    requires f.Valid() && HasNoFreeCycle(f, calls) && FreeWalk(f, calls, walk)
    ensures |walk| <= |Labels(f)|
  {
    forall k | 0 <= k < |walk| ensures walk[k] in Labels(f) {
      WalkStays(f, calls, walk, k);
      LabelListed(f, walk[k]);
    }
    forall j, k | 0 <= j < k < |walk| ensures walk[j] != walk[k] {
      WalkPart(f, calls, walk, j, k + 1);
      assert !FreeCycle(f, calls, walk[j..k + 1]);
    }
    DistinctFits(walk, Labels(f));
  }

  ghost predicate HasWalk(f: Func, calls: set<nat>, loc: Loc, moves: nat)
    requires f.Valid()
  {
    exists walk :: FreeWalk(f, calls, walk) && walk[0] == loc && |walk| == moves + 1
  }

  /** The most moves, up to `limit`, of a free walk from a label. */
  ghost function LongestUpTo(f: Func, calls: set<nat>, loc: Loc, limit: nat): (moves: nat)
    requires f.Valid()
    ensures moves <= limit && (moves > 0 ==> HasWalk(f, calls, loc, moves))
    ensures forall more: nat | more <= limit && HasWalk(f, calls, loc, more) :: more <= moves
  {
    if limit == 0 || HasWalk(f, calls, loc, limit) then limit else LongestUpTo(f, calls, loc, limit - 1)
  }

  ghost function Longest(f: Func, calls: set<nat>, loc: Loc): (moves: nat)
    requires f.Valid()
    ensures moves <= |Labels(f)|
  {
    LongestUpTo(f, calls, loc, |Labels(f)|)
  }

  /** A free move leaves a shorter walk ahead. */
  lemma FreeMoveShortens(f: Func, calls: set<nat>, loc: Loc, next: Loc)
    requires f.Valid() && HasNoFreeCycle(f, calls) && FreeMove(f, calls, loc, next)
    ensures Longest(f, calls, next) < Longest(f, calls, loc)
  {
    hide FreeMove, HasNoFreeCycle, Labels;
    var moves := Longest(f, calls, next);
    var walk := [next];
    MoveStays(f, calls, loc, next);
    if moves > 0 { walk :| FreeWalk(f, calls, walk) && walk[0] == next && |walk| == moves + 1; }
    var longer := [loc] + walk;
    forall k | 0 <= k < |longer| - 1 ensures FreeMove(f, calls, longer[k], longer[k + 1]) {
      if k > 0 { assert FreeMove(f, calls, walk[k - 1], walk[k]); }
    }
    FreeWalkIsShort(f, calls, longer);
    assert HasWalk(f, calls, loc, moves + 1);
  }

  lemma MoveStays(f: Func, calls: set<nat>, loc: Loc, next: Loc)
    requires f.Valid() && FreeMove(f, calls, loc, next)
    ensures OnLabel(f, loc) && OnLabel(f, next)
  {
  }

  // The measure of one activation

  /** Budget left above the loop limit. */
  function Energy(d: int): nat { if BudgetSpent(d) then 0 else d + BUDGET }

  /** Distance ahead: with the budget spent control only moves forward. */
  function Ahead(f: Func, loc: Loc): nat
    requires InRange(f, loc)
  {
    3 * (f.Count() - Position(loc)) + match loc case At(_) => 2 case InLoop(_, _) => 1 case Waiting(_, _) => 0
  }

  /** More than any potential. */
  ghost function Height(f: Func): nat { 2 * |Labels(f)| + 3 * f.Count() + 4 }

  /** The free moves ahead.  A waiting caller whose callee has paid may go anywhere afterwards. */
  ghost function Potential(f: Func, calls: set<nat>, loc: Loc, d: int): (p: nat)
    requires f.Valid() && InRange(f, loc)
    ensures p < Height(f)
  {
    if BudgetSpent(d) then Ahead(f, loc)
    else match loc
      case Waiting(i, since) =>
        if d < since then Height(f) - 1
        else if i in calls then 2 * Longest(f, calls, At(i + 1)) + 2 else 0
      case _ => 2 * Longest(f, calls, loc) + 1
  }

  function Scaled(a: nat, n: nat): nat { a * n }

  ghost function Rank(f: Func, calls: set<nat>, loc: Loc, d: int): (rank: nat)
    requires f.Valid() && InRange(f, loc)
    ensures rank >= 1
  {
    1 + Scaled(Energy(d), Height(f)) + Potential(f, calls, loc, d)
  }

  lemma Times(a: nat, b: nat, n: nat)
    requires a <= b
    ensures a * n <= b * n
  {
  }

  lemma ScaledGrows(a: nat, b: nat, n: nat)
    requires a <= b
    ensures Scaled(a, n) <= Scaled(b, n)
  {
    Times(a, b, n);
  }

  /** With budget left anything spent lowers the rank. */
  lemma SpendingDescends(f: Func, calls: set<nat>, loc: Loc, next: Loc, d: int, d': int)
    requires f.Valid() && InRange(f, loc) && InRange(f, next) && d' < d && !BudgetSpent(d)
    ensures Rank(f, calls, next, d') < Rank(f, calls, loc, d)
  {
    hide Potential, Height;
    Times(Energy(d') + 1, Energy(d), Height(f));
    assert (Energy(d') + 1) * Height(f) == Energy(d') * Height(f) + Height(f);
  }

  lemma RankMonotone(f: Func, calls: set<nat>, loc: Loc, d: int, d': int)
    requires f.Valid() && InRange(f, loc) && d' <= d
    ensures Rank(f, calls, loc, d') <= Rank(f, calls, loc, d)
  {
    if d' < d && !BudgetSpent(d) { SpendingDescends(f, calls, loc, loc, d, d'); }
  }

  /** With the budget spent every transfer is forward. */
  lemma SpentGoesAhead(f: Func, loc: Loc, d: int, o: Outcome)
    requires f.Valid() && InRange(f, loc) && Executes(f, loc, d, o) && o.Goto? && BudgetSpent(d)
    ensures InRange(f, o.loc) && Ahead(f, o.loc) < Ahead(f, loc) && BudgetSpent(o.d)
  {
    if loc.Waiting? {
      assert InRange(f, o.loc);
    } else {
      GotoGoes(f, loc, d, o);
      if Position(o.loc) <= Position(loc) && !(loc.At? && o.loc.InLoop?) {
        BackwardTestsBudget(f, loc, d, o);
        assert false;
      }
      if loc.At? && o.loc.InLoop? { LoopHeadHere(f, loc, d, o); }
    }
  }

  lemma LoopHeadHere(f: Func, loc: Loc, d: int, o: Outcome)
    requires f.Valid() && InRange(f, loc) && Executes(f, loc, d, o) && o.Goto? && loc.At? && o.loc.InLoop?
    ensures Position(o.loc) == Position(loc)
  {
  }

  /** A caller that was not paid for cannot be resumed at the downcount of its call, unless the call
      can come back free. */
  predicate Settled(calls: set<nat>, loc: Loc, d: int) {
    loc.Waiting? ==> d < loc.since || BudgetSpent(d) || loc.i in calls
  }

  lemma FreeMoveFalls(f: Func, calls: set<nat>, loc: Loc, next: Loc, d: int)
    requires f.Valid() && HasNoFreeCycle(f, calls) && FreeMove(f, calls, loc, next) && !BudgetSpent(d)
    ensures InRange(f, loc) && InRange(f, next) && Potential(f, calls, next, d) < Potential(f, calls, loc, d)
  {
    hide HasNoFreeCycle, Height, Longest;
    FreeMoveShortens(f, calls, loc, next);
  }

  lemma ResumeFalls(f: Func, calls: set<nat>, loc: Loc, d: int)
    requires f.Valid() && InRange(f, loc) && loc.Waiting? && !BudgetSpent(d) && Settled(calls, loc, d)
    ensures InRange(f, At(loc.i + 1)) && Potential(f, calls, At(loc.i + 1), d) < Potential(f, calls, loc, d)
  {
    hide Labels;
  }

  /** At the same downcount the potential decides. */
  lemma PotentialDecides(f: Func, calls: set<nat>, loc: Loc, next: Loc, d: int)
    requires f.Valid() && InRange(f, loc) && InRange(f, next)
    requires Potential(f, calls, next, d) < Potential(f, calls, loc, d)
    ensures Rank(f, calls, next, d) < Rank(f, calls, loc, d)
  {
    hide Potential, Height;
  }

  lemma SpentFalls(f: Func, calls: set<nat>, loc: Loc, next: Loc, d: int, d': int)
    requires f.Valid() && InRange(f, loc) && InRange(f, next) && BudgetSpent(d) && BudgetSpent(d')
    requires Ahead(f, next) < Ahead(f, loc)
    ensures Rank(f, calls, next, d') < Rank(f, calls, loc, d)
  {
    hide Ahead, Height;
  }

  /** Every transfer of an activation lowers its rank, whatever the data says. */
  lemma GotoDescends(f: Func, calls: set<nat>, loc: Loc, d: int, o: Outcome)
    requires f.Valid() && HasNoFreeCycle(f, calls) && InRange(f, loc) && Executes(f, loc, d, o) && o.Goto?
    requires Settled(calls, loc, d)
    ensures o.d <= d && InRange(f, o.loc) && Rank(f, calls, o.loc, o.d) < Rank(f, calls, loc, d)
  {
    hide Goes, HasNoFreeCycle, Rank, Potential, Executes, Ahead;
    if loc.Waiting? { ResumeIs(f, loc, d, o); } else { GotoGoes(f, loc, d, o); }
    if BudgetSpent(d) {
      SpentGoesAhead(f, loc, d, o);
      SpentFalls(f, calls, loc, o.loc, d, o.d);
    } else if o.d < d {
      SpendingDescends(f, calls, loc, o.loc, d, o.d);
    } else if loc.Waiting? {
      ResumeFalls(f, calls, loc, d);
      PotentialDecides(f, calls, loc, o.loc, d);
    } else {
      FreeMoveFalls(f, calls, loc, o.loc, d);
      PotentialDecides(f, calls, loc, o.loc, d);
    }
  }

  lemma ResumeIs(f: Func, loc: Loc, d: int, o: Outcome)
    requires f.Valid() && InRange(f, loc) && loc.Waiting? && Executes(f, loc, d, o) && o.Goto?
    ensures o.d <= d && InRange(f, o.loc) && o.loc == At(loc.i + 1)
  {
  }

  /** So does a call. */
  lemma CallerDescends(f: Func, calls: set<nat>, i: nat, d: int, d': int)
    requires f.Valid() && HasNoFreeCycle(f, calls) && InRange(f, At(i)) && Executes(f, At(i), d, Call(d'))
    ensures d' <= d && CallsOut(f, i) && InRange(f, Waiting(i, d'))
    ensures Rank(f, calls, Waiting(i, d'), d') < Rank(f, calls, At(i), d)
  {
    hide HasNoFreeCycle, FreeWalk, Height;
    CallsIff(f, At(i), d, d');
    if !BudgetSpent(d) {
      if d' < d {
        SpendingDescends(f, calls, At(i), Waiting(i, d'), d, d');
      } else if i in calls {
        FreeMoveShortens(f, calls, At(i), At(i + 1));
      }
    }
  }

  // The measure of the whole call stack

  ghost function FrameRank(program: seq<Func>, frame: Frame, d: int): (rank: nat)
    requires ValidProgram(program) && FrameIn(program, frame)
    ensures rank >= 1
  {
    Rank(program[frame.f], FreeCalls(program, program[frame.f]), frame.loc, d)
  }

  ghost function Tallest(program: seq<Func>): nat {
    if program == [] then 0
    else
      var n := Tallest(program[1..]);
      if Height(program[0]) > n then Height(program[0]) else n
  }

  lemma {:induction false} TallestBounds(program: seq<Func>, g: nat)
    requires g < |program|
    ensures Height(program[g]) <= Tallest(program)
  {
    if g > 0 { TallestBounds(program[1..], g - 1); }
  }

  /** More than the rank of any activation at downcount `d` or below. */
  ghost function Base(program: seq<Func>, d: int): (base: nat)
    ensures base > 0
  {
    1 + Scaled(Energy(d) + 1, Tallest(program))
  }

  lemma ScaledBelow(a: nat, b: nat, h: nat, t: nat, p: nat)
    requires a <= b && h <= t && p < h
    ensures Scaled(a, h) + p < Scaled(b + 1, t)
  {
    Times(a + 1, b + 1, h);
    Times(h, t, b + 1);
    assert (a + 1) * h == a * h + h;
  }

  lemma RankBelowBase(program: seq<Func>, frame: Frame, d: int, x: int)
    requires ValidProgram(program) && FrameIn(program, frame) && x <= d
    ensures FrameRank(program, frame, x) < Base(program, d)
  {
    hide Potential, Height, Scaled;
    var f := program[frame.f];
    TallestBounds(program, frame.f);
    ScaledBelow(Energy(x), Energy(d), Height(f), Tallest(program),
                Potential(f, FreeCalls(program, f), frame.loc, x));
  }

  function Power(b: nat, e: nat): nat { if e == 0 then 1 else b * Power(b, e - 1) }

  /** Ranks of the frames, outer frames weighing a higher power of the base. */
  ghost function Weight(program: seq<Func>, frames: seq<Frame>, d: int, base: nat): nat
    requires ValidProgram(program) && FramesIn(program, frames) && |frames| <= MAX_CALL_DEPTH + 1
  {
    if frames == [] then 0
    else
      var k := |frames| - 1;
      Weight(program, frames[..k], d, base)
      + Scaled(FrameRank(program, frames[k], d), Power(base, MAX_CALL_DEPTH - k))
  }

  lemma FrameRankMonotone(program: seq<Func>, frame: Frame, d: int, d': int)
    requires ValidProgram(program) && FrameIn(program, frame) && d' <= d
    ensures FrameRank(program, frame, d') <= FrameRank(program, frame, d)
  {
    hide Rank;
    RankMonotone(program[frame.f], FreeCalls(program, program[frame.f]), frame.loc, d, d');
  }

  lemma {:induction false} WeightMonotone(program: seq<Func>, frames: seq<Frame>, d: int, d': int, base: nat)
    requires ValidProgram(program) && FramesIn(program, frames) && |frames| <= MAX_CALL_DEPTH + 1 && d' <= d
    ensures Weight(program, frames, d', base) <= Weight(program, frames, d, base)
  {
    hide FrameRank, Weight, Scaled, Power, ValidProgram, FramesIn;
    if frames == [] {
      NoWeight(program, d, base);
      NoWeight(program, d', base);
    } else {
      var k := |frames| - 1;
      TopWeight(program, frames, d, base);
      TopWeight(program, frames, d', base);
      WeightMonotone(program, frames[..k], d, d', base);
      FrameRankMonotone(program, frames[k], d, d');
      ScaledGrows(FrameRank(program, frames[k], d'), FrameRank(program, frames[k], d), Power(base, MAX_CALL_DEPTH - k));
    }
  }

  lemma NoWeight(program: seq<Func>, d: int, base: nat)
    requires ValidProgram(program)
    ensures FramesIn(program, []) && Weight(program, [], d, base) == 0
  {
  }

  lemma TopWeight(program: seq<Func>, frames: seq<Frame>, d: int, base: nat)
    requires ValidProgram(program) && FramesIn(program, frames) && 0 < |frames| <= MAX_CALL_DEPTH + 1
    ensures var k := |frames| - 1;
      FramesIn(program, frames[..k]) && FrameIn(program, frames[k])
      && Weight(program, frames, d, base)
         == Weight(program, frames[..k], d, base)
           + Scaled(FrameRank(program, frames[k], d), Power(base, MAX_CALL_DEPTH - k))
  {
    hide FrameRank;
  }

  lemma {:induction false} PowerPositive(b: nat, e: nat)
    requires b > 0
    ensures Power(b, e) > 0
  {
    if e > 0 { PowerPositive(b, e - 1); }
  }

  lemma StrictTimes(a: nat, b: nat, n: nat)
    requires a < b && n > 0
    ensures Scaled(a, n) + n <= Scaled(b, n)
  {
    Times(a + 1, b, n);
    assert (a + 1) * n == a * n + n;
  }

  lemma WeightPush(program: seq<Func>, frames: seq<Frame>, frame: Frame, d: int, base: nat)
    requires ValidProgram(program) && FramesIn(program, frames) && FrameIn(program, frame)
    requires |frames| <= MAX_CALL_DEPTH
    ensures FramesIn(program, frames + [frame])
    ensures Weight(program, frames + [frame], d, base)
         == Weight(program, frames, d, base)
            + Scaled(FrameRank(program, frame, d), Power(base, MAX_CALL_DEPTH - |frames|))
  {
    hide FrameRank;
    assert (frames + [frame])[..|frames|] == frames;
    assert (frames + [frame])[|frames|] == frame;
  }

  /** The innermost activation moves on. */
  lemma MoveDescends(program: seq<Func>, rest: seq<Frame>, top: Frame, next: Frame, d: int, d': int, base: nat)
    requires ValidProgram(program) && FramesIn(program, rest) && |rest| <= MAX_CALL_DEPTH && base > 0
    requires FrameIn(program, top) && FrameIn(program, next)
    requires d' <= d && FrameRank(program, next, d') < FrameRank(program, top, d)
    ensures FramesIn(program, rest + [next]) && FramesIn(program, rest + [top])
    ensures Weight(program, rest + [next], d', base) + Power(base, MAX_CALL_DEPTH - |rest|)
         <= Weight(program, rest + [top], d, base)
    ensures Power(base, MAX_CALL_DEPTH - |rest|) > 0
  {
    hide FrameRank, Weight, Scaled, FramesIn;
    var weight := Power(base, MAX_CALL_DEPTH - |rest|);
    WeightPush(program, rest, top, d, base);
    WeightPush(program, rest, next, d', base);
    WeightMonotone(program, rest, d, d', base);
    PowerPositive(base, MAX_CALL_DEPTH - |rest|);
    StrictTimes(FrameRank(program, next, d'), FrameRank(program, top, d), weight);
  }

  /** The innermost activation returns. */
  lemma ReturnDescends(program: seq<Func>, rest: seq<Frame>, top: Frame, d: int, d': int, base: nat)
    requires ValidProgram(program) && FramesIn(program, rest) && |rest| <= MAX_CALL_DEPTH && base > 0
    requires FrameIn(program, top) && d' <= d
    ensures FramesIn(program, rest + [top])
    ensures Weight(program, rest, d', base) < Weight(program, rest + [top], d, base)
  {
    hide FrameRank, Weight, FramesIn;
    WeightPush(program, rest, top, d, base);
    WeightMonotone(program, rest, d, d', base);
    PowerPositive(base, MAX_CALL_DEPTH - |rest|);
    StrictTimes(0, FrameRank(program, top, d), Power(base, MAX_CALL_DEPTH - |rest|));
  }

  /** A call: one unit of the caller's weight pays for everything the callee may do. */
  lemma CallDescends(program: seq<Func>, rest: seq<Frame>, top: Frame, caller: Frame, callee: Frame, d: int, d': int,
          d0: int)
    requires ValidProgram(program) && FramesIn(program, rest) && |rest| < MAX_CALL_DEPTH && d' <= d <= d0
    requires FrameIn(program, top) && FrameIn(program, caller) && FrameIn(program, callee)
    requires FrameRank(program, caller, d') < FrameRank(program, top, d)
    ensures FramesIn(program, rest + [caller] + [callee]) && FramesIn(program, rest + [top])
    ensures Weight(program, rest + [caller] + [callee], d', Base(program, d0))
          < Weight(program, rest + [top], d, Base(program, d0))
  {
    hide FrameRank, Base, Weight, Scaled, FramesIn;
    var base := Base(program, d0);
    MoveDescends(program, rest, top, caller, d, d', base);
    WeightPush(program, rest + [caller], callee, d', base);
    RankBelowBase(program, callee, d0, d');
    PowerPositive(base, MAX_CALL_DEPTH - |rest| - 1);
    StrictTimes(FrameRank(program, callee, d'), base, Power(base, MAX_CALL_DEPTH - |rest| - 1));
    PowerStep(base, MAX_CALL_DEPTH - |rest|);
  }

  lemma PowerStep(b: nat, e: nat)
    requires e > 0
    ensures Power(b, e) == Scaled(b, Power(b, e - 1))
  {
  }

  // What the call stack remembers

  ghost predicate FrameSettled(program: seq<Func>, frame: Frame, d: int)
    requires ValidProgram(program) && frame.f < |program|
  {
    Settled(FreeCalls(program, program[frame.f]), frame.loc, d)
  }

  predicate CalledFrom(program: seq<Func>, caller: Frame) {
    caller.f < |program| && caller.loc.Waiting? && caller.loc.i < program[caller.f].Count()
  }

  /** The callee has come from its entry without a charge. */
  ghost predicate ReachedBy(program: seq<Func>, caller: Frame, callee: Frame, walk: seq<Loc>)
    requires ValidProgram(program) && CalledFrom(program, caller)
  {
    && walk != [] && EntersAt(program, Frame(callee.f, walk[0]), program[caller.f].code.insts[caller.loc.i].target)
    && FreeWalk(program[callee.f], {}, walk) && walk[|walk| - 1] == callee.loc
  }

  ghost predicate Reached(program: seq<Func>, caller: Frame, callee: Frame)
    requires ValidProgram(program) && CalledFrom(program, caller)
  {
    exists walk :: ReachedBy(program, caller, callee, walk)
  }

  /** A caller waits for a callee that has paid, may return free, or has not paid so far. */
  ghost predicate Linked(program: seq<Func>, caller: Frame, callee: Frame, d: int)
    requires ValidProgram(program)
  {
    && CalledFrom(program, caller) && d <= caller.loc.since
    && (FrameSettled(program, caller, d) || Reached(program, caller, callee))
  }

  ghost predicate Honest(program: seq<Func>, frames: seq<Frame>, d: int)
    requires ValidProgram(program) && FramesIn(program, frames)
  {
    && (forall k | 0 <= k < |frames| - 1 :: Linked(program, frames[k], frames[k + 1], d))
    && (frames != [] ==> var top := frames[|frames| - 1];
          FrameSettled(program, top, d) && (top.loc.Waiting? ==> d <= top.loc.since))
  }

  lemma LinkLater(program: seq<Func>, caller: Frame, callee: Frame, d: int, d': int)
    requires ValidProgram(program) && Linked(program, caller, callee, d) && d' <= d
    ensures Linked(program, caller, callee, d')
  {
    hide Reached, FreeCalls;
  }

  /** The innermost activation moves on. */
  lemma LinkMoves(program: seq<Func>, caller: Frame, top: Frame, next: Loc, d: int, d': int)
    requires ValidProgram(program) && Linked(program, caller, top, d)
    requires FrameIn(program, top) && Executes(program[top.f], top.loc, d, Goto(next, d'))
    requires d' <= d
    ensures Linked(program, caller, Frame(top.f, next), d')
  {
    hide FreeCalls, Executes, Goes;
    if !FrameSettled(program, caller, d') {
      var walk :| ReachedBy(program, caller, top, walk);
      var f := program[top.f];
      WalkStays(f, {}, walk, |walk| - 1);
      GotoGoes(f, top.loc, d, Goto(next, d'));
      WalkExtends(f, {}, walk, next);
      assert ReachedBy(program, caller, Frame(top.f, next), walk + [next]);
    }
  }

  /** The innermost activation returns: a callee that has not paid returns free. */
  lemma LinkReturns(program: seq<Func>, caller: Frame, top: Frame, d: int, d': int)
    requires ValidProgram(program) && Linked(program, caller, top, d) && FrameIn(program, caller)
    requires FrameIn(program, top) && Executes(program[top.f], top.loc, d, Leave(d')) && d' <= d
    ensures FrameSettled(program, caller, d')
  {
    hide Executes, Goes, MayLeave;
    if !(d' < caller.loc.since || BudgetSpent(d')) {
      LeavesMay(program[top.f], top.loc, d, d');
      if Reached(program, caller, top) {
        var walk :| ReachedBy(program, caller, top, walk);
        ReturnsUnpaid(program, caller, top, walk);
      }
    }
  }

  lemma ReturnsUnpaid(program: seq<Func>, caller: Frame, top: Frame, walk: seq<Loc>)
    requires ValidProgram(program) && FrameIn(program, caller) && FrameIn(program, top)
    requires CalledFrom(program, caller) && ReachedBy(program, caller, top, walk)
    requires top.f < |program| && InRange(program[top.f], top.loc)
    requires Pays(program[top.f], top.loc) == 0 && MayLeave(program[top.f], top.loc)
    ensures caller.loc.i in FreeCalls(program, program[caller.f])
  {
    hide Goes, MayLeave, FreeWalk;
    var target := program[caller.f].code.insts[caller.loc.i].target;
    assert ReturnsFreeBy(program, target, Frame(top.f, walk[0]), walk);
  }

  /** The innermost activation calls: its own caller is settled, because the call site could leave. */
  lemma LinkCalls(program: seq<Func>, caller: Frame, top: Frame, d: int, d': int)
    requires ValidProgram(program) && Linked(program, caller, top, d) && FrameIn(program, caller)
    requires FrameIn(program, top) && Executes(program[top.f], top.loc, d, Call(d')) && d' <= d
    ensures top.loc.At? && Linked(program, caller, Frame(top.f, Waiting(top.loc.i, d')), d')
  {
    hide Executes, Goes, MayLeave, FreeCalls;
    CallsIff(program[top.f], top.loc, d, d');
    CallerMayLeave(program[top.f], top.loc.i);
    MayLeaves(program[top.f], top.loc, d);
    LinkReturns(program, caller, top, d, d');
  }

  /** A callee starts unpaid. */
  lemma LinkStarts(program: seq<Func>, caller: Frame, callee: Frame, d: int)
    requires ValidProgram(program) && CalledFrom(program, caller) && d <= caller.loc.since
    requires EntersAt(program, callee, program[caller.f].code.insts[caller.loc.i].target)
    ensures Linked(program, caller, callee, d)
  {
    assert ReachedBy(program, caller, callee, [callee.loc]);
  }

  ghost predicate HonestState(program: seq<Func>, s: State)
    requires ValidProgram(program)
  {
    ValidState(program, s) && Honest(program, s.frames, s.d)
  }

  /** What a step has to keep. */
  ghost predicate Descends(program: seq<Func>, s: State, s': State, d0: int)
    requires ValidProgram(program) && ValidState(program, s)
  {
    && s'.d <= s.d && HonestState(program, s')
    && Weight(program, s'.frames, s'.d, Base(program, d0)) < Weight(program, s.frames, s.d, Base(program, d0))
  }

  /** The links below the innermost activation, and its own. */
  lemma TopLink(program: seq<Func>, rest: seq<Frame>, top: Frame, d: int)
    requires ValidProgram(program) && FramesIn(program, rest + [top]) && Honest(program, rest + [top], d)
    ensures FramesIn(program, rest) && FrameIn(program, top) && FrameSettled(program, top, d)
    ensures forall k | 0 <= k < |rest| - 1 :: Linked(program, rest[k], rest[k + 1], d)
    ensures rest != [] ==> Linked(program, rest[|rest| - 1], top, d) && FrameIn(program, rest[|rest| - 1])
  {
    hide Linked, FrameSettled, InRange;
    var frames := rest + [top];
    assert frames[|rest|] == top;
    forall k | 0 <= k < |rest|
      ensures FrameIn(program, rest[k]) && frames[k] == rest[k]
    {
      assert FrameIn(program, frames[k]);
    }
    assert FrameIn(program, frames[|rest|]);
    forall k | 0 <= k < |rest| - 1 ensures Linked(program, rest[k], rest[k + 1], d) {
      assert Linked(program, frames[k], frames[k + 1], d);
    }
    if rest != [] { assert Linked(program, frames[|rest| - 1], frames[|rest|], d); }
  }

  lemma HonestPush(program: seq<Func>, rest: seq<Frame>, top: Frame, d: int)
    requires ValidProgram(program) && FramesIn(program, rest) && FrameIn(program, top)
    requires forall k | 0 <= k < |rest| - 1 :: Linked(program, rest[k], rest[k + 1], d)
    requires rest != [] ==> Linked(program, rest[|rest| - 1], top, d)
    requires FrameSettled(program, top, d) && (top.loc.Waiting? ==> d <= top.loc.since)
    ensures FramesIn(program, rest + [top]) && Honest(program, rest + [top], d)
  {
    hide Linked, FrameSettled, InRange;
    var frames := rest + [top];
    forall k | 0 <= k < |frames| - 1 ensures Linked(program, frames[k], frames[k + 1], d) {
      if k < |rest| - 1 { assert Linked(program, rest[k], rest[k + 1], d); }
    }
  }

  lemma LinksLater(program: seq<Func>, rest: seq<Frame>, d: int, d': int)
    requires ValidProgram(program) && d' <= d
    requires forall k | 0 <= k < |rest| - 1 :: Linked(program, rest[k], rest[k + 1], d)
    ensures forall k | 0 <= k < |rest| - 1 :: Linked(program, rest[k], rest[k + 1], d')
  {
    forall k | 0 <= k < |rest| - 1 ensures Linked(program, rest[k], rest[k + 1], d') {
      LinkLater(program, rest[k], rest[k + 1], d, d');
    }
  }

  lemma FrameMoves(program: seq<Func>, top: Frame, next: Loc, d: int, d': int)
    requires ValidProgram(program) && NoFreeCycle(program) && FrameIn(program, top) && FrameSettled(program, top, d)
    requires Executes(program[top.f], top.loc, d, Goto(next, d'))
    ensures d' <= d && FrameIn(program, Frame(top.f, next)) && !next.Waiting?
    ensures FrameRank(program, Frame(top.f, next), d') < FrameRank(program, top, d)
  {
    hide Executes, Rank, HasNoFreeCycle, FreeCalls, InRange, Func.Valid;
    var f := program[top.f];
    GotoDescends(f, FreeCalls(program, f), top.loc, d, Goto(next, d'));
    if top.loc.Waiting? { ResumeIs(f, top.loc, d, Goto(next, d')); } else { GotoGoes(f, top.loc, d, Goto(next, d')); }
  }

  lemma MoveKeeps(program: seq<Func>, rest: seq<Frame>, top: Frame, next: Loc, d: int, d': int, d0: int)
    requires ValidProgram(program) && NoFreeCycle(program) && HonestState(program, State(rest + [top], d))
    requires d <= d0 && FrameIn(program, top) && Executes(program[top.f], top.loc, d, Goto(next, d'))
    ensures Descends(program, State(rest + [top], d), State(rest + [Frame(top.f, next)], d'), d0)
  {
    hide Executes, FrameRank, Base, Weight, Linked, FrameSettled, NoFreeCycle, Honest, InRange, FramesIn, ValidProgram;
    var moved := Frame(top.f, next);
    TopLink(program, rest, top, d);
    FrameMoves(program, top, next, d, d');
    MoveDescends(program, rest, top, moved, d, d', Base(program, d0));
    LinksLater(program, rest, d, d');
    if rest != [] { LinkMoves(program, rest[|rest| - 1], top, next, d, d'); }
    NotWaiting(program, moved, d');
    HonestPush(program, rest, moved, d');
  }

  lemma NotWaiting(program: seq<Func>, frame: Frame, d: int)
    requires ValidProgram(program) && FrameIn(program, frame) && !frame.loc.Waiting?
    ensures FrameSettled(program, frame, d)
  {
  }

  lemma LeavePays(program: seq<Func>, top: Frame, d: int, d': int)
    requires ValidProgram(program) && FrameIn(program, top) && Executes(program[top.f], top.loc, d, Leave(d'))
    ensures d' <= d
  {
    LeavesMay(program[top.f], top.loc, d, d');
  }

  lemma ReturnKeeps(program: seq<Func>, rest: seq<Frame>, top: Frame, d: int, d': int, d0: int)
    requires ValidProgram(program) && HonestState(program, State(rest + [top], d))
    requires d <= d0 && FrameIn(program, top) && Executes(program[top.f], top.loc, d, Leave(d'))
    ensures Descends(program, State(rest + [top], d), State(rest, d'), d0)
  {
    hide Executes, FrameRank, Base, Weight, Linked, FrameSettled, Honest, InRange, FramesIn, ValidProgram;
    TopLink(program, rest, top, d);
    LeavePays(program, top, d, d');
    ReturnDescends(program, rest, top, d, d', Base(program, d0));
    LinksLater(program, rest, d, d');
    if rest == [] {
      NobodyHonest(program, d');
    } else {
      var k := |rest| - 1;
      LinkReturns(program, rest[k], top, d, d');
      LinkSince(program, rest[k], top, d);
      assert rest == rest[..k] + [rest[k]];
      FramesBelow(program, rest, k);
      if k > 0 { assert Linked(program, rest[k - 1], rest[k], d'); }
      HonestPush(program, rest[..k], rest[k], d');
    }
  }

  lemma NobodyHonest(program: seq<Func>, d: int)
    requires ValidProgram(program)
    ensures FramesIn(program, []) && Honest(program, [], d)
  {
  }

  lemma LinkSince(program: seq<Func>, caller: Frame, callee: Frame, d: int)
    requires ValidProgram(program) && Linked(program, caller, callee, d)
    ensures CalledFrom(program, caller) && d <= caller.loc.since
  {
  }

  lemma FramesBelow(program: seq<Func>, frames: seq<Frame>, k: nat)
    requires FramesIn(program, frames) && k <= |frames|
    ensures FramesIn(program, frames[..k])
  {
  }

  lemma FrameCalls(program: seq<Func>, top: Frame, d: int, d': int)
    requires ValidProgram(program) && NoFreeCycle(program) && FrameIn(program, top)
    requires top.loc.At? && Executes(program[top.f], top.loc, d, Call(d'))
    ensures var caller := Frame(top.f, Waiting(top.loc.i, d'));
      d' <= d && FrameIn(program, caller) && CalledFrom(program, caller)
      && FrameRank(program, caller, d') < FrameRank(program, top, d)
  {
    hide Executes, Rank, HasNoFreeCycle, FreeCalls, Func.Valid;
    var f := program[top.f];
    CallerDescends(f, FreeCalls(program, f), top.loc.i, d, d');
  }

  /** The links after a call. */
  lemma CallLinks(program: seq<Func>, rest: seq<Frame>, top: Frame, caller: Frame, callee: Frame, d: int, d': int)
    requires ValidProgram(program) && HonestState(program, State(rest + [top], d)) && FrameIn(program, top)
    requires Executes(program[top.f], top.loc, d, Call(d')) && d' <= d && top.loc.At?
    requires caller == Frame(top.f, Waiting(top.loc.i, d')) && FrameIn(program, caller) && CalledFrom(program, caller)
    requires EntersAt(program, callee, program[top.f].code.insts[top.loc.i].target) && FrameIn(program, callee)
    ensures FramesIn(program, rest + [caller] + [callee]) && Honest(program, rest + [caller] + [callee], d')
  {
    hide Executes, Linked, FrameSettled, Honest, FramesIn, ValidProgram, InRange;
    TopLink(program, rest, top, d);
    LinksLater(program, rest, d, d');
    if rest != [] { LinkCalls(program, rest[|rest| - 1], top, d, d'); }
    LinkStarts(program, caller, callee, d');
    NotWaiting(program, callee, d');
    LinksPush(program, rest, caller, d');
    HonestPush(program, rest + [caller], callee, d');
  }

  lemma CallKeeps(program: seq<Func>, rest: seq<Frame>, top: Frame, callee: Frame, d: int, d': int, d0: int)
    requires ValidProgram(program) && NoFreeCycle(program) && HonestState(program, State(rest + [top], d))
    requires d <= d0 && FrameIn(program, top) && top.loc.At? && |rest| < MAX_CALL_DEPTH
    requires Executes(program[top.f], top.loc, d, Call(d'))
    requires EntersAt(program, callee, program[top.f].code.insts[top.loc.i].target)
    ensures Descends(program, State(rest + [top], d),
                     State(rest + [Frame(top.f, Waiting(top.loc.i, d')), callee], d'), d0)
  {
    hide Executes, FrameRank, Base, Weight, FrameSettled, NoFreeCycle, Honest, FramesIn, Linked;
    var caller := Frame(top.f, Waiting(top.loc.i, d'));
    assert FrameIn(program, callee);
    TopLink(program, rest, top, d);
    FrameCalls(program, top, d, d');
    CallDescends(program, rest, top, caller, callee, d, d', d0);
    CallLinks(program, rest, top, caller, callee, d, d');
    assert rest + [caller] + [callee] == rest + [caller, callee];
  }

  lemma LinksPush(program: seq<Func>, rest: seq<Frame>, caller: Frame, d: int)
    requires ValidProgram(program) && FramesIn(program, rest) && FrameIn(program, caller)
    requires forall k | 0 <= k < |rest| - 1 :: Linked(program, rest[k], rest[k + 1], d)
    requires rest != [] ==> Linked(program, rest[|rest| - 1], caller, d)
    ensures FramesIn(program, rest + [caller])
    ensures var frames := rest + [caller]; forall k | 0 <= k < |frames| - 1 ::
      Linked(program, frames[k], frames[k + 1], d)
  {
    hide Linked, InRange;
    var frames := rest + [caller];
    forall k | 0 <= k < |frames| - 1 ensures Linked(program, frames[k], frames[k + 1], d) {
      if k < |rest| - 1 { assert Linked(program, rest[k], rest[k + 1], d); }
    }
  }

  /** Each step of the whole stack makes its weight smaller. */
  lemma StepDescends(program: seq<Func>, s: State, s': State, d0: int)
    requires ValidProgram(program) && NoFreeCycle(program) && HonestState(program, s) && Step(program, s, s')
      && s.d <= d0
    ensures Descends(program, s, s', d0)
  {
    hide Executes, Descends, Honest, NoFreeCycle, FramesIn, Func.Valid;
    var top, rest := s.frames[|s.frames| - 1], s.frames[..|s.frames| - 1];
    TopFrame(program, s.frames);
    var f := program[top.f];
    assert s.frames == rest + [top];
    if s'.frames == rest && Executes(f, top.loc, s.d, Leave(s'.d)) {
      ReturnKeeps(program, rest, top, s.d, s'.d, d0);
    } else if loc :| Executes(f, top.loc, s.d, Goto(loc, s'.d)) && s'.frames == rest + [Frame(top.f, loc)] {
      MoveKeeps(program, rest, top, loc, s.d, s'.d, d0);
    } else {
      var callee :| EntersAt(program, callee, f.code.insts[top.loc.i].target)
        && s'.frames == rest + [Frame(top.f, Waiting(top.loc.i, s'.d)), callee];
      CallKeeps(program, rest, top, callee, s.d, s'.d, d0);
    }
  }

  lemma TopFrame(program: seq<Func>, frames: seq<Frame>)
    requires frames != [] && FramesIn(program, frames)
    ensures FrameIn(program, frames[|frames| - 1])
  {
  }

  /** No run is longer than the weight of the state it starts in. */
  lemma {:induction false} RunsAreBounded(program: seq<Func>, run: seq<State>, d0: int)
    requires ValidProgram(program) && NoFreeCycle(program) && Run(program, run)
    requires HonestState(program, run[0]) && run[0].d <= d0
    ensures |run| <= 1 + Weight(program, run[0].frames, run[0].d, Base(program, d0))
    decreases |run|
  {
    if |run| > 1 {
      hide Step, Weight, Honest, NoFreeCycle, Base;
      StepDescends(program, run[0], run[1], d0);
      RunsAreBounded(program, run[1..], d0);
    }
  }

  lemma EntryHonest(program: seq<Func>, entry: Frame, d: int)
    requires ValidProgram(program) && IsEntry(program, entry)
    ensures HonestState(program, State([entry], d))
  {
  }

  // When every activation returns

  /** Without free cycles every activation returns: a run is no longer than a bound fixed by its
      entry, and one that cannot be continued has returned from every function it entered. */
  lemma EveryActivationReturns(program: seq<Func>, run: seq<State>, entry: Frame, d: int)
    requires ValidProgram(program) && NoFreeCycle(program)
    requires IsEntry(program, entry) && Run(program, run) && run[0] == State([entry], d)
    ensures FramesIn(program, [entry]) && |run| <= 1 + Weight(program, [entry], d, Base(program, d))
    ensures Stopped(program, run[|run| - 1]) ==> run[|run| - 1].frames == []
  {
    hide Step, Weight, NoFreeCycle, Base, Honest;
    EntryHonest(program, entry, d);
    RunsAreBounded(program, run, d);
    if run[|run| - 1].frames != [] {
      var s' := Progress(program, run[|run| - 1]);
    }
  }

  lemma EntriesBounded(program: seq<Func>, entry: Frame, d: int)
    requires ValidProgram(program) && NoFreeCycle(program) && IsEntry(program, entry)
    ensures Bounded(program, entry, d)
  {
    hide Step, ValidState, Weight, Base, NoFreeCycle, Honest;
    EntryHonest(program, entry, d);
    var bound := 1 + Weight(program, [entry], d, Base(program, d));
    forall run | Run(program, run) && run[0] == State([entry], d) ensures |run| <= bound {
      EveryActivationReturns(program, run, entry, d);
    }
    assert BoundedBy(program, entry, d, bound);
  }

  /** The runs of a program of emitted functions are bounded if and only if none of its functions has
      a cycle of labels that charge nothing. */
  lemma RunsAreBoundedIff(program: seq<Func>)
    requires ValidProgram(program)
    ensures AllRunsBounded(program) <==> NoFreeCycle(program)
  {
    hide HasNoFreeCycle, Bounded, FreeCalls;
    if NoFreeCycle(program) {
      forall entry, d | IsEntry(program, entry) ensures Bounded(program, entry, d) {
        EntriesBounded(program, entry, d);
      }
    } else {
      var g :| 0 <= g < |program| && !HasNoFreeCycle(program[g], FreeCalls(program, program[g]));
      UnboundedBy(program, g);
    }
  }

  lemma UnboundedBy(program: seq<Func>, g: nat)
    requires ValidProgram(program) && g < |program| && !HasNoFreeCycle(program[g], FreeCalls(program, program[g]))
    ensures !AllRunsBounded(program)
  {
    hide FreeCycle, Step, FreeCalls;
    var cycle :| FreeCycle(program[g], FreeCalls(program, program[g]), cycle);
    var entry, d := CycleRunsForever(program, g, cycle);
    forall bound: nat ensures !BoundedBy(program, entry, d, bound) {
      assert LongRun(program, entry, d, bound);
    }
    assert !Bounded(program, entry, d);
  }
}
