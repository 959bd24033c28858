/** The chaining run loop of a native module (`moderngekko_native_prepare_state` and
    `moderngekko_native_run` in src/backend/native_module.c:309-391). */
module NativeRun {
  import opened Wrappers
  import opened Partition
  import opened NativeLookup
  import opened NativeState
  import opened NativeReload
  import DolIR

  const MAX32: nat := 0xFFFF_FFFF

  /** `moderngekko_native_add_sat` */
  function AddSat(a: nat, b: nat): (sum: nat)
    requires a <= MAX32 && b <= MAX32
    ensures sum <= MAX32
  {
    if MAX32 - a < b then MAX32 else a + b
  }

  datatype Reason = BudgetSpent | InvalidatedCode | OtherExit

  datatype NativeExit = NativeExit(
    reason: Reason, pc: nat, nextPc: nat, cycles: nat, instructions: nat, loadStore: nat, fp: nat)
  {
    predicate Words() { pc <= MAX32 && cycles <= MAX32 && instructions <= MAX32 && loadStore <= MAX32 && fp <= MAX32 }
  }

  /** What one range's entry function leaves behind, and whether the range it exits to still
      validates. */
  datatype Turn = Turn(exit: NativeExit, values: seq<bv64>, dirty: Mask, valid: Mask, arch: Arch, nextValid: bool)

  predicate ValidTurn(t: Turn) { t.exit.Words() && |t.values| == DolIR.STATE_COUNT && t.arch.Valid() }

  /** How a range is entered. */
  datatype Visit = Visit(index: nat, pc: nat, remaining: nat, prior: nat, values: seq<bv64>, dirty: Mask,
          valid: Mask, missing: Mask, arch: Arch)

  /** `moderngekko_native_persistent_mask` */
  predicate Persists(slot: nat) { slot < 96 }

  function Persistent(mask: Mask): Mask { set s | s in mask && Persists(s) }

  // Sums

  function Total(turns: seq<Turn>, counter: NativeExit -> nat): nat {
    if turns == [] then 0 else Total(turns[..|turns| - 1], counter) + counter(turns[|turns| - 1].exit)
  }

  function Capped(n: nat): nat { if n > MAX32 then MAX32 else n }

  lemma CappedAdds(total: nat, n: nat)
    requires n <= MAX32
    ensures AddSat(Capped(total), n) == Capped(total + n)
  {
  }

  lemma TotalMore(turns: seq<Turn>, k: nat, counter: NativeExit -> nat)
    requires k < |turns|
    ensures Total(turns[..k + 1], counter) == Total(turns[..k], counter) + counter(turns[k].exit)
  {
    assert turns[..k + 1][..k] == turns[..k];
  }

  function Cycles(e: NativeExit): nat { e.cycles }

  function Instructions(e: NativeExit): nat { e.instructions }

  function LoadStores(e: NativeExit): nat { e.loadStore }

  function FpInstructions(e: NativeExit): nat { e.fp }

  // Preparing

  /** Reload what a range needs and has neither staged nor valid. */
  method PrepareState(host: Host, values: array<bv64>, dirty: Mask, valid: Mask, required: Mask)
    returns (valid': Mask, missing: Mask)
    requires host.Valid() && values.Length == DolIR.STATE_COUNT
    modifies values
    ensures missing == required - (dirty + valid) && valid' == valid + missing
    ensures Reloaded(host.arch, missing, old(values[..]), values[..], Accessible())
  {
    hide Reloaded, Accessible;
    missing := required - (dirty + valid);
    if missing == {} {
      assert valid == valid + missing;
      NothingMissing(host.arch, values[..]);
      return valid, missing;
    }
    Reload(host, missing, values);
    valid' := valid + missing;
  }

  lemma NothingMissing(a: Arch, values: seq<bv64>)
    requires a.Valid() && |values| == DolIR.STATE_COUNT
    ensures Reloaded(a, {}, values, values, Accessible())
  {
  }

  // The loop

  /** A visit keeps the cycle account, finds all its inputs staged, and is chained only to a
      recognised entry. */
  ghost predicate GoodVisit(ranges: seq<Cut>, entries: seq<nat>, inputs: seq<Mask>, budget: nat, v: Visit,
          chained: bool)
    requires |inputs| == |ranges|
  {
    && v.index < |ranges| && Find(ranges, v.pc) == Some(v.index) && Contains(ranges[v.index], v.pc)
    && v.prior + v.remaining == budget
    && inputs[v.index] <= v.dirty + v.valid
    && |v.values| == DolIR.STATE_COUNT && v.arch.Valid()
    && (forall s | s in v.missing && s < DolIR.STATE_COUNT && PlaceOf(s) != Nowhere ::
       v.values[s] == Held(v.arch, PlaceOf(s)))
    && (chained ==> Recognised(ranges, entries, v.pc))
  }

  ghost predicate AllGood(ranges: seq<Cut>, entries: seq<nat>, inputs: seq<Mask>, budget: nat, visits: seq<Visit>)
    requires |inputs| == |ranges|
  {
    forall k | 0 <= k < |visits| :: GoodVisit(ranges, entries, inputs, budget, visits[k], k > 0)
  }

  /** The exit may be chained: it ran out of budget with cycles to spare, did something, and goes on
      to a valid range. */
  predicate MayChain(v: Visit, t: Turn) {
    t.exit.reason == BudgetSpent && t.nextValid && t.exit.cycles < v.remaining
      && (t.exit.cycles > 0 || t.exit.instructions > 0)
  }

  /** A visit that begins with the given staging: its missing inputs come from the host, and nothing else
      changes. */
  ghost predicate EntersWith(v: Visit, required: Mask, dirty: Mask, valid: Mask, values: seq<bv64>, arch: Arch) {
    && v.dirty == dirty && v.missing == required - (dirty + valid) && v.valid == valid + v.missing && v.arch == arch
    && arch.Valid() && |v.values| == |values| == DolIR.STATE_COUNT
    && forall s | 0 <= s < DolIR.STATE_COUNT ::
       v.values[s] == if s in v.missing && PlaceOf(s) != Nowhere then Held(arch, PlaceOf(s)) else values[s]
  }

  /** Every visit after the first goes on where the one before it exited, with its cycles accounted and with
      what it left staged in the registers. */
  ghost predicate Follows(v: Visit, t: Turn, w: Visit, inputs: seq<Mask>) {
    && Continues(v, t, w.pc, w.prior) && w.index < |inputs|
    && (forall s :: s in w.dirty <==> s in t.dirty && s < DolIR.PS1_0 + 32)
    && EntersWith(w, inputs[w.index], w.dirty, t.valid, t.values, t.arch)
  }

  predicate Continues(v: Visit, t: Turn, pc: nat, prior: nat) {
    MayChain(v, t) && pc == t.exit.pc && prior == v.prior + t.exit.cycles
  }

  ghost predicate Linked(visits: seq<Visit>, turns: seq<Turn>, inputs: seq<Mask>) {
    && |visits| <= |turns|
    && forall k | 0 < k < |visits| :: Follows(visits[k - 1], turns[k - 1], visits[k], inputs)
  }

  /** The first visit begins at the entry with nothing staged and no cycles spent. */
  ghost predicate Starts(visits: seq<Visit>, inputs: seq<Mask>, pc: nat, arch: Arch) {
    visits != [] ==>
      visits[0].pc == pc && visits[0].prior == 0 && visits[0].index < |inputs|
      && EntersWith(visits[0], inputs[visits[0].index], {}, {}, seq(DolIR.STATE_COUNT, _ => 0), arch)
  }

  /** The visits of a run: all good, each linked to the turn before it. */
  ghost predicate Traced(ranges: seq<Cut>, entries: seq<nat>, inputs: seq<Mask>, budget: nat, visits: seq<Visit>,
          turns: seq<Turn>, pc: nat, arch: Arch)
    requires |inputs| == |ranges|
  {
    && AllGood(ranges, entries, inputs, budget, visits) && Linked(visits, turns, inputs)
    && Starts(visits, inputs, pc, arch)
  }

  lemma VisitIsGood(ranges: seq<Cut>, entries: seq<nat>, inputs: seq<Mask>, budget: nat, v: Visit, chained: bool,
          before: seq<bv64>)
    requires |inputs| == |ranges| && Find(ranges, v.pc) == Some(v.index)
      && v.prior + v.remaining == budget
    requires v.arch.Valid() && Reloaded(v.arch, v.missing, before, v.values, Accessible())
    requires inputs[v.index] <= v.dirty + v.valid
    requires chained ==> Recognised(ranges, entries, v.pc)
    ensures GoodVisit(ranges, entries, inputs, budget, v, chained)
  {
    hide Held, PlaceOf;
  }

  /** The exit of the last range, with the counters of all of them. */
  ghost predicate Summed(exit: NativeExit, turns: seq<Turn>) {
    && turns != []
    && exit == turns[|turns| - 1].exit.(
         cycles := Capped(Total(turns, Cycles)), instructions := Capped(Total(turns, Instructions)),
         loadStore := Capped(Total(turns, LoadStores)), fp := Capped(Total(turns, FpInstructions)))
  }

  /** Totals of the ranges before the current one. */
  ghost predicate Prior(turns: seq<Turn>, k: nat, cycles: nat, instructions: nat, loadStore: nat, fp: nat)
    requires k <= |turns|
  {
    && cycles == Total(turns[..k], Cycles) && instructions == Capped(Total(turns[..k], Instructions))
    && loadStore == Capped(Total(turns[..k], LoadStores)) && fp == Capped(Total(turns[..k], FpInstructions))
  }

  /** The exit with the counters of the earlier ranges added. */
  function WithTotals(e: NativeExit, cycles: nat, instructions: nat, loadStore: nat, fp: nat): NativeExit
    requires e.Words() && cycles <= MAX32 && instructions <= MAX32 && loadStore <= MAX32 && fp <= MAX32
  {
    e.(cycles := AddSat(cycles, e.cycles), instructions := AddSat(instructions, e.instructions),
       loadStore := AddSat(loadStore, e.loadStore), fp := AddSat(fp, e.fp))
  }

  lemma PriorMore(turns: seq<Turn>, k: nat, cycles: nat, instructions: nat, loadStore: nat, fp: nat)
    requires k < |turns| && Prior(turns, k, cycles, instructions, loadStore, fp) && ValidTurn(turns[k])
    ensures instructions <= MAX32 && loadStore <= MAX32 && fp <= MAX32
    ensures var e := turns[k].exit;
      Prior(turns, k + 1, cycles + e.cycles, AddSat(instructions, e.instructions), AddSat(loadStore, e.loadStore),
        AddSat(fp, e.fp))
    ensures cycles <= MAX32 ==> Summed(WithTotals(turns[k].exit, cycles, instructions, loadStore, fp), turns[..k + 1])
  {
    hide Total;
    TotalMore(turns, k, Cycles);
    TotalMore(turns, k, Instructions);
    TotalMore(turns, k, LoadStores);
    TotalMore(turns, k, FpInstructions);
    CappedAdds(Total(turns[..k], Instructions), turns[k].exit.instructions);
    CappedAdds(Total(turns[..k], LoadStores), turns[k].exit.loadStore);
    CappedAdds(Total(turns[..k], FpInstructions), turns[k].exit.fp);
    if cycles <= MAX32 { CappedAdds(cycles, turns[k].exit.cycles); }
  }

  /** Where to go on, if the exit may be chained. */
  method NextRange(lookup: Lookup, entries: seq<nat>, offsets: seq<nat>, bits: seq<set<nat>>, exit: NativeExit,
          remaining: nat, nextValid: bool)
    returns (next: Option<nat>)
    requires lookup.Valid() && WholeWords(lookup.ranges) && |offsets| == |lookup.ranges| && exit.Words()
    requires forall i | 0 <= i < |offsets| :: offsets[i] == Offset(lookup.ranges, i)
    requires Maps(lookup.ranges, entries, |entries|, bits)
    modifies lookup.cache
    ensures lookup.Valid()
    ensures next.Some? <==>
      (exit.reason == BudgetSpent && exit.cycles < remaining && (exit.cycles > 0 || exit.instructions > 0)
       && Recognised(lookup.ranges, entries, exit.pc) && nextValid)
    ensures next.Some? ==> next == Find(lookup.ranges, exit.pc)
  {
    hide Maps, WholeWords;
    next := None;
    if exit.reason == BudgetSpent && exit.cycles < remaining && (exit.cycles > 0 || exit.instructions > 0) {
      next := lookup.Find(exit.pc);
      if next.Some? {
        var supported := SupportsEntry(lookup, entries, offsets, bits, exit.pc);
        if !supported || !nextValid { next := None; }
      }
    }
  }

  lemma BeginsWith(v: Visit, required: Mask, dirty: Mask, valid: Mask, values: seq<bv64>, arch: Arch)
    requires v.dirty == dirty && v.missing == required - (dirty + valid) && v.valid == valid + v.missing
    requires v.arch == arch && arch.Valid() && Reloaded(arch, v.missing, values, v.values, Accessible())
    ensures EntersWith(v, required, dirty, valid, values, arch)
  {
    hide Held, PlaceOf;
  }

  /** Enter one range: prepare its inputs, run it, and keep what is persistent of its staging. */
  method Enter(host: Host, values: array<bv64>, dirty: Mask, valid: Mask, inputs: seq<Mask>, index: nat, pc: nat,
          remaining: nat, prior: nat, turn: Turn)
    returns (visit: Visit, dirty': Mask, valid': Mask)
    requires host.Valid() && values.Length == DolIR.STATE_COUNT && index < |inputs| && ValidTurn(turn)
    modifies host, values
    ensures host.arch == turn.arch && values[..] == turn.values && dirty' == Persistent(turn.dirty)
      && valid' == turn.valid
    ensures visit.index == index && visit.pc == pc && visit.remaining == remaining && visit.prior == prior
    ensures EntersWith(visit, inputs[index], dirty, valid, old(values[..]), old(host.arch))
    ensures Reloaded(visit.arch, visit.missing, old(values[..]), visit.values, Accessible())
    ensures visit.arch.Valid() && inputs[index] <= visit.dirty + visit.valid
  {
    hide Reloaded, Accessible, Persists, EntersWith, Held, PlaceOf;
    ghost var before, arch := values[..], host.arch;
    var prepared, missing := PrepareState(host, values, dirty, valid, inputs[index]);
    visit := Visit(index, pc, remaining, prior, values[..], dirty, prepared, missing, host.arch);
    BeginsWith(visit, inputs[index], dirty, valid, before, arch);
    forall i | 0 <= i < values.Length { values[i] := turn.values[i]; }
    host.arch := turn.arch;
    dirty', valid' := Persistent(turn.dirty), turn.valid;
  }

  /** Commit what is still staged when the loop ends. */
  method Finish(host: Host, values: array<bv64>, dirty: Mask)
    requires host.Valid() && values.Length == DolIR.STATE_COUNT
    modifies host
    ensures host.Valid()
    ensures if dirty == {} then host.arch == old(host.arch) else Committed(old(host.arch), values[..], dirty, host.arch)
  {
    hide Committed;
    if dirty != {} { host.Commit(values[..], dirty); }
  }

  /** The exit cannot be chained to a recognised entry of a valid range. */
  predicate Stops(ranges: seq<Cut>, entries: seq<nat>, v: Visit, t: Turn) {
    !(MayChain(v, t) && Recognised(ranges, entries, t.exit.pc))
  }

  /** The state staged by the last range is committed, if any of it persists. */
  ghost predicate Flushed(last: Turn, arch: Arch)
    requires ValidTurn(last)
  {
    if Persistent(last.dirty) == {} then arch == last.arch
    else Committed(last.arch, last.values, Persistent(last.dirty), arch)
  }

  /** The whole run over a script of what the entered ranges do; `None` when the script ends before
      the loop does.  Every visit is good, the exit sums all counters, and the state staged last is
      committed. */
  method Run(lookup: Lookup, entries: seq<nat>, offsets: seq<nat>, bits: seq<set<nat>>, inputs: seq<Mask>, host: Host,
          entryPc: nat, budget: nat, entryValid: bool, turns: seq<Turn>)
    returns (exit: Option<NativeExit>, visits: seq<Visit>)
    requires lookup.Valid() && WholeWords(lookup.ranges) && |offsets| == |lookup.ranges| == |inputs| && host.Valid()
    requires forall i | 0 <= i < |offsets| :: offsets[i] == Offset(lookup.ranges, i)
    requires Maps(lookup.ranges, entries, |entries|, bits)
    requires entryPc <= MAX32 && budget <= MAX32 && forall k | 0 <= k < |turns| :: ValidTurn(turns[k])
    modifies lookup.cache, host
    ensures lookup.Valid()
    ensures Find(lookup.ranges, entryPc).None? || !entryValid ==>
      visits == [] && exit == Some(NativeExit(InvalidatedCode, entryPc, (entryPc + 4) % (MAX32 + 1), 0, 0, 0, 0))
        && host.arch == old(host.arch)
    ensures Traced(lookup.ranges, entries, inputs, budget, visits, turns, entryPc, old(host.arch))
    ensures exit.None? ==> |visits| == |turns|
    ensures visits != [] && exit.Some?
      ==> Summed(exit.value, turns[..|visits|]) && Flushed(turns[|visits| - 1], host.arch)
    ensures visits != [] && exit.Some? ==> Stops(lookup.ranges, entries, visits[|visits| - 1], turns[|visits| - 1])
  {
    hide Maps, WholeWords, Offset, Reloaded, Accessible, Committed, Persistent, EntersWith, Starts, Leaves, Traced,
      AllGood, Linked, Prior, Summed, Flushed, Follows, Recognised, Find, WithTotals, GoodVisit, AddSat, Contains;
    visits := [];
    NoVisits(lookup.ranges, entries, inputs, budget, turns, entryPc, host.arch);
    var found := lookup.Find(entryPc);
    if found.None? || !entryValid {
      return Some(NativeExit(InvalidatedCode, entryPc, (entryPc + 4) % (MAX32 + 1), 0, 0, 0, 0)), visits;
    }
    var index: nat, pc: nat, remaining: nat, prior: nat := found.value, entryPc, budget, 0;
    var instructions: nat, loadStore: nat, fp: nat := 0, 0, 0;
    var values := new bv64[DolIR.STATE_COUNT](_ => 0);
    var dirty: Mask, valid: Mask := {}, {};
    var k := 0;
    while k < |turns|
      invariant 0 <= k <= |turns| && |visits| == k && lookup.Valid() && host.Valid()
      invariant Find(lookup.ranges, pc) == Some(index) && prior + remaining == budget && pc <= MAX32
      invariant values.Length == DolIR.STATE_COUNT && fresh(values)
      invariant k == 0 ==> pc == entryPc && prior == 0 && dirty == valid == {} && host.arch == old(host.arch)
      invariant k == 0 ==> values[..] == seq(DolIR.STATE_COUNT, _ => 0)
      invariant k > 0 ==> Leaves(turns[k - 1], dirty, valid, values[..], host.arch)
      invariant k > 0 ==> Recognised(lookup.ranges, entries, pc) && Continues(visits[k - 1], turns[k - 1], pc, prior)
      invariant Prior(turns, k, prior, instructions, loadStore, fp)
      invariant Traced(lookup.ranges, entries, inputs, budget, visits, turns, entryPc, old(host.arch))
    {
      var turn := turns[k];
      ghost var before, wasDirty, wasValid, arch := values[..], dirty, valid, host.arch;
      var visit;
      visit, dirty, valid := Enter(host, values, dirty, valid, inputs, index, pc, remaining, prior, turn);
      VisitIsGood(lookup.ranges, entries, inputs, budget, visit, k > 0, before);
      MoreTraced(lookup.ranges, entries, inputs, budget, visits, turns, entryPc, old(host.arch), visit,
                 wasDirty, wasValid, before, arch);
      visits := visits + [visit];
      PriorMore(turns, k, prior, instructions, loadStore, fp);
      var next := NextRange(lookup, entries, offsets, bits, turn.exit, remaining, turn.nextValid);
      if next.None? {
        Finish(host, values, dirty);
        Flushes(turn, host.arch);
        exit := Some(WithTotals(turn.exit, prior, instructions, loadStore, fp));
        return;
      }
      LeavesTurn(turn, dirty, valid, values[..], host.arch);
      prior, instructions := prior + turn.exit.cycles, AddSat(instructions, turn.exit.instructions);
      loadStore, fp := AddSat(loadStore, turn.exit.loadStore), AddSat(fp, turn.exit.fp);
      remaining, pc, index := remaining - turn.exit.cycles, turn.exit.pc, next.value;
      k := k + 1;
    }
    exit := None;
  }

  /** What a range leaves for the next one. */
  predicate Leaves(t: Turn, dirty: Mask, valid: Mask, values: seq<bv64>, arch: Arch) {
    dirty == Persistent(t.dirty) && valid == t.valid && values == t.values && arch == t.arch
  }

  lemma LeavesTurn(t: Turn, dirty: Mask, valid: Mask, values: seq<bv64>, arch: Arch)
    requires dirty == Persistent(t.dirty) && valid == t.valid && values == t.values && arch == t.arch
    ensures Leaves(t, dirty, valid, values, arch)
  {
    hide Persistent;
  }

  lemma GoesOn(v: Visit, t: Turn, w: Visit, inputs: seq<Mask>, dirty: Mask, valid: Mask, values: seq<bv64>, arch: Arch)
    requires Continues(v, t, w.pc, w.prior) && w.index < |inputs| && Leaves(t, dirty, valid, values, arch)
    requires EntersWith(w, inputs[w.index], dirty, valid, values, arch)
    ensures Follows(v, t, w, inputs)
  {
    hide Held, PlaceOf;
  }

  lemma MoreTraced(ranges: seq<Cut>, entries: seq<nat>, inputs: seq<Mask>, budget: nat, visits: seq<Visit>,
          turns: seq<Turn>, pc: nat, start: Arch, v: Visit, dirty: Mask, valid: Mask, values: seq<bv64>, arch: Arch)
    requires |inputs| == |ranges| && Traced(ranges, entries, inputs, budget, visits, turns, pc, start)
    requires |visits| < |turns| && v.index < |inputs| && GoodVisit(ranges, entries, inputs, budget, v, |visits| > 0)
    requires EntersWith(v, inputs[v.index], dirty, valid, values, arch)
    requires
      if visits == [] then
        v.pc == pc && v.prior == 0 && dirty == valid == {} && values == seq(DolIR.STATE_COUNT, _ => 0) && arch == start
      else
        Continues(visits[|visits| - 1], turns[|visits| - 1], v.pc, v.prior)
        && Leaves(turns[|visits| - 1], dirty, valid, values, arch)
    ensures Traced(ranges, entries, inputs, budget, visits + [v], turns, pc, start)
  {
    hide EntersWith, Leaves, GoodVisit, AllGood, Starts, Linked;
    MoreGood(ranges, entries, inputs, budget, visits, v);
    MoreStarted(visits, v, inputs, pc, start);
    if visits != [] { GoesOn(visits[|visits| - 1], turns[|visits| - 1], v, inputs, dirty, valid, values, arch); }
    MoreLinked(visits, turns, inputs, v);
  }

  lemma MoreStarted(visits: seq<Visit>, v: Visit, inputs: seq<Mask>, pc: nat, arch: Arch)
    requires Starts(visits, inputs, pc, arch)
    requires visits == [] ==>
      v.pc == pc && v.prior == 0 && v.index < |inputs|
      && EntersWith(v, inputs[v.index], {}, {}, seq(DolIR.STATE_COUNT, _ => 0), arch)
    ensures Starts(visits + [v], inputs, pc, arch)
  {
    hide EntersWith;
  }

  lemma Flushes(last: Turn, arch: Arch)
    requires ValidTurn(last)
    requires
      if Persistent(last.dirty) == {} then arch == last.arch
      else Committed(last.arch, last.values, Persistent(last.dirty), arch)
    ensures Flushed(last, arch)
  {
    hide Persistent, Committed;
  }

  lemma NoVisits(ranges: seq<Cut>, entries: seq<nat>, inputs: seq<Mask>, budget: nat, turns: seq<Turn>, pc: nat,
          arch: Arch)
    requires |inputs| == |ranges|
    ensures Traced(ranges, entries, inputs, budget, [], turns, pc, arch) && Prior(turns, 0, 0, 0, 0, 0)
  {
  }

  lemma MoreGood(ranges: seq<Cut>, entries: seq<nat>, inputs: seq<Mask>, budget: nat, visits: seq<Visit>, v: Visit)
    requires |inputs| == |ranges| && AllGood(ranges, entries, inputs, budget, visits)
    requires GoodVisit(ranges, entries, inputs, budget, v, |visits| > 0)
    ensures AllGood(ranges, entries, inputs, budget, visits + [v])
  {
    hide GoodVisit;
  }

  lemma MoreLinked(visits: seq<Visit>, turns: seq<Turn>, inputs: seq<Mask>, v: Visit)
    requires Linked(visits, turns, inputs) && |visits| < |turns|
    requires |visits| > 0 ==> Follows(visits[|visits| - 1], turns[|visits| - 1], v, inputs)
    ensures Linked(visits + [v], turns, inputs)
  {
    var more := visits + [v];
    forall k | 0 < k < |more| ensures Follows(more[k - 1], turns[k - 1], more[k], inputs) {
      if k < |visits| { assert Follows(visits[k - 1], turns[k - 1], visits[k], inputs); }
    }
  }

  /** The account over a whole run: the cycles spent before a visit are those of the ranges before
      it, and stay below the budget once anything was chained. */
  lemma {:induction false} CyclesAreConserved(ranges: seq<Cut>, entries: seq<nat>, inputs: seq<Mask>, budget: nat,
          visits: seq<Visit>, turns: seq<Turn>, k: nat)
    requires |inputs| == |ranges| && AllGood(ranges, entries, inputs, budget, visits) && Linked(visits, turns, inputs)
    requires k < |visits| && visits[0].prior == 0
    ensures visits[k].prior == Total(turns[..k], Cycles) && visits[k].prior + visits[k].remaining == budget
    ensures k > 0 ==> visits[k].remaining > 0
  {
    assert GoodVisit(ranges, entries, inputs, budget, visits[k], k > 0);
    if k > 0 {
      CyclesAreConserved(ranges, entries, inputs, budget, visits, turns, k - 1);
      assert Follows(visits[k - 1], turns[k - 1], visits[k], inputs);
      TotalMore(turns, k - 1, Cycles);
    }
  }

  /** A register staged by one range and read by the next arrives with its staged value. */
  lemma StagedArrives(visits: seq<Visit>, turns: seq<Turn>, inputs: seq<Mask>, k: nat, s: nat)
    requires Linked(visits, turns, inputs) && 0 < k < |visits| && s in turns[k - 1].dirty && s < DolIR.PS1_0 + 32
    ensures |visits[k].values| == |turns[k - 1].values| == DolIR.STATE_COUNT
    ensures s in visits[k].dirty && s !in visits[k].missing && visits[k].values[s] == turns[k - 1].values[s]
  {
    hide Held, PlaceOf;
    assert Follows(visits[k - 1], turns[k - 1], visits[k], inputs);
  }
}
