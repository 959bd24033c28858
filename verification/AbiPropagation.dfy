/** The two worklists of `dolllvm_propagate_function_abis` (src/backend/llvm/abi_policy.cpp:107-175):
    what a range needs and may write flows to its callers, what must survive a call flows to its
    callees.  Both end in the least solution, whatever order the ranges are visited in. */
module AbiPropagation {
  import opened CallLiveness
  import opened AbiRelations

  /** The masks that flow to callers. */
  datatype Which = SemanticInput | MayDef | Input | Output

  function Mask(r: Range, w: Which): Slots {
    match w
    case SemanticInput => r.semanticInput
    case MayDef => r.mayDef
    case Input => r.input
    case Output => r.output
  }

  /** Inputs pass an edge unless they are defined before it; writes always pass. */
  predicate Carries(rel: Relation, w: Which, s: nat) {
    w == MayDef || w == Output || s !in rel.edge.definedBefore
  }

  ghost predicate ValidRange(r: Range) {
    (forall w :: Mask(r, w) <= AllSlots()) && r.escape <= AllSlots()
  }

  /** A chain of calls from range `i` leads to a range with the slot in its own mask, and every
      edge of the chain carries it. */
  ghost predicate NeedsVia(ranges: seq<Range>, relations: seq<Relation>, chain: seq<nat>, i: nat, w: Which, s: nat)
    requires WellFormed(relations, |ranges|) && i < |ranges|
    decreases |chain|
  {
    if chain == [] then s in Mask(ranges[i], w)
    else
      && chain[0] < |relations| && relations[chain[0]].caller == i && Carries(relations[chain[0]], w, s)
      && NeedsVia(ranges, relations, chain[1..], relations[chain[0]].callee, w, s)
  }

  ghost predicate Needs(ranges: seq<Range>, relations: seq<Relation>, i: nat, w: Which, s: nat)
    requires WellFormed(relations, |ranges|) && i < |ranges|
  {
    exists chain :: NeedsVia(ranges, relations, chain, i, w, s)
  }

  lemma NeedsItself(ranges: seq<Range>, relations: seq<Relation>, i: nat, w: Which, s: nat)
    requires WellFormed(relations, |ranges|) && i < |ranges| && s in Mask(ranges[i], w)
    ensures Needs(ranges, relations, i, w, s)
  {
    assert NeedsVia(ranges, relations, [], i, w, s);
  }

  lemma NeedsOfCallee(ranges: seq<Range>, relations: seq<Relation>, r: nat, w: Which, s: nat)
    requires WellFormed(relations, |ranges|) && r < |relations|
    requires Needs(ranges, relations, relations[r].callee, w, s) && Carries(relations[r], w, s)
    ensures Needs(ranges, relations, relations[r].caller, w, s)
  {
    var chain :| NeedsVia(ranges, relations, chain, relations[r].callee, w, s);
    assert ([r] + chain)[1..] == chain;
    assert NeedsVia(ranges, relations, [r] + chain, relations[r].caller, w, s);
  }

  /** What one relation adds to its caller. */
  function Absorbed(caller: Range, callee: Range, rel: Relation): Range {
    caller.(
      semanticInput := caller.semanticInput + (callee.semanticInput - rel.edge.definedBefore),
      mayDef := caller.mayDef + callee.mayDef,
      input := caller.input + (callee.input - rel.edge.definedBefore),
      output := caller.output + callee.output)
  }

  lemma AbsorbedIs(caller: Range, callee: Range, rel: Relation, w: Which, s: nat)
    ensures s in Mask(Absorbed(caller, callee, rel), w)
       <==> (s in Mask(caller, w) || (s in Mask(callee, w) && Carries(rel, w, s)))
  {
  }

  lemma AbsorbedBounds(caller: Range, callee: Range, rel: Relation, w: Which)
    requires Mask(caller, w) <= AllSlots() && Mask(callee, w) <= AllSlots()
    ensures Mask(caller, w) <= Mask(Absorbed(caller, callee, rel), w) <= AllSlots()
  {
    hide AllSlots;
  }

  /** Nothing flows over the relation any more. */
  ghost predicate Settled(ranges: seq<Range>, rel: Relation)
    requires rel.caller < |ranges| && rel.callee < |ranges|
  {
    forall w, s :: s in Mask(ranges[rel.callee], w) && Carries(rel, w, s) ==> s in Mask(ranges[rel.caller], w)
  }

  ghost predicate Stable(ranges: seq<Range>, relations: seq<Relation>)
    requires WellFormed(relations, |ranges|)
  {
    forall r | 0 <= r < |relations| :: Settled(ranges, relations[r])
  }

  ghost predicate SameButMasks(before: Range, after: Range) {
    after == before.(
      semanticInput := after.semanticInput, mayDef := after.mayDef, input := after.input, output := after.output)
  }

  /** The masks have grown, by nothing a chain does not justify. */
  ghost predicate Grown(initial: seq<Range>, now: seq<Range>, relations: seq<Relation>)
    requires WellFormed(relations, |initial|)
  {
    && |now| == |initial|
    && (forall i | 0 <= i < |now| :: SameButMasks(initial[i], now[i]) && ValidRange(now[i]))
    && (forall i, w | 0 <= i < |now| :: Mask(initial[i], w) <= Mask(now[i], w))
    && (forall i, w, s | 0 <= i < |now| && s in Mask(now[i], w) :: Needs(initial, relations, i, w, s))
  }

  lemma StartsGrown(initial: seq<Range>, relations: seq<Relation>)
    requires WellFormed(relations, |initial|) && forall i | 0 <= i < |initial| :: ValidRange(initial[i])
    ensures Grown(initial, initial, relations)
  {
    hide Needs, AllSlots;
    forall i, w, s | 0 <= i < |initial| && s in Mask(initial[i], w) ensures Needs(initial, relations, i, w, s) {
      NeedsItself(initial, relations, i, w, s);
    }
  }

  lemma AbsorbKeepsGrown(initial: seq<Range>, now: seq<Range>, relations: seq<Relation>, r: nat)
    requires WellFormed(relations, |initial|) && Grown(initial, now, relations) && r < |relations|
    ensures var rel := relations[r];
      Grown(initial, now[rel.caller := Absorbed(now[rel.caller], now[rel.callee], rel)], relations)
  {
    hide Needs, AllSlots;
    var rel := relations[r];
    var after := now[rel.caller := Absorbed(now[rel.caller], now[rel.callee], rel)];
    forall i, w, s | 0 <= i < |now| && s in Mask(after[i], w) ensures Needs(initial, relations, i, w, s) {
      if i == rel.caller {
        AbsorbedIs(now[rel.caller], now[rel.callee], rel, w, s);
        if s !in Mask(now[i], w) { NeedsOfCallee(initial, relations, r, w, s); }
      }
    }
    forall i, w | 0 <= i < |now| ensures Mask(now[i], w) <= Mask(after[i], w) <= AllSlots() {
      assert ValidRange(now[rel.caller]) && ValidRange(now[rel.callee]) && ValidRange(now[i]);
      AbsorbedBounds(now[rel.caller], now[rel.callee], rel, w);
    }
  }

  lemma AbsorbSettles(now: seq<Range>, relations: seq<Relation>, r: nat, q: nat)
    requires WellFormed(relations, |now|) && r < |relations| && q < |relations|
    requires r == q || (relations[q].callee != relations[r].caller && Settled(now, relations[q]))
    ensures var rel := relations[r];
      Settled(now[rel.caller := Absorbed(now[rel.caller], now[rel.callee], rel)], relations[q])
  {
  }

  // Termination

  function Column(ranges: seq<Range>, w: Which): seq<Slots> {
    seq(|ranges|, i requires 0 <= i < |ranges| => Mask(ranges[i], w))
  }

  /** Slots the masks may still gain. */
  function MaskRoom(ranges: seq<Range>): nat {
    Room(Column(ranges, SemanticInput)) + Room(Column(ranges, MayDef)) + Room(Column(ranges, Input))
      + Room(Column(ranges, Output))
  }

  lemma ColumnRoom(ranges: seq<Range>, i: nat, r: Range, w: Which)
    requires i < |ranges| && Mask(ranges[i], w) <= Mask(r, w) <= AllSlots()
    ensures Room(Column(ranges[i := r], w)) <= Room(Column(ranges, w))
    ensures Mask(r, w) != Mask(ranges[i], w) ==> Room(Column(ranges[i := r], w)) < Room(Column(ranges, w))
  {
    hide AllSlots;
    assert Column(ranges[i := r], w) == Column(ranges, w)[i := Mask(r, w)];
    RoomUpdate(Column(ranges, w), i, Mask(r, w));
  }

  lemma MasksDecide(before: Range, after: Range)
    requires SameButMasks(before, after) && after != before
    ensures Mask(after, SemanticInput) != Mask(before, SemanticInput) || Mask(after, MayDef) != Mask(before, MayDef)
      || Mask(after, Input) != Mask(before, Input) || Mask(after, Output) != Mask(before, Output)
  {
  }

  lemma MaskRoomFalls(ranges: seq<Range>, i: nat, r: Range)
    requires i < |ranges| && (forall w :: Mask(ranges[i], w) <= Mask(r, w) <= AllSlots()) && SameButMasks(ranges[i], r)
    ensures MaskRoom(ranges[i := r]) <= MaskRoom(ranges)
    ensures r != ranges[i] ==> MaskRoom(ranges[i := r]) < MaskRoom(ranges)
  {
    hide AllSlots, Room, Column;
    ColumnRoom(ranges, i, r, SemanticInput);
    ColumnRoom(ranges, i, r, MayDef);
    ColumnRoom(ranges, i, r, Input);
    ColumnRoom(ranges, i, r, Output);
    if r != ranges[i] { MasksDecide(ranges[i], r); }
  }

  // The worklist towards callers

  /** Relations into ranges that are not waiting have settled. */
  ghost predicate SettledUnlessQueued(ranges: seq<Range>, relations: seq<Relation>, queued: seq<bool>)
    requires WellFormed(relations, |ranges|) && |queued| == |ranges|
  {
    forall r | 0 <= r < |relations| && !queued[relations[r].callee] :: Settled(ranges, relations[r])
  }

  ghost predicate Waiting(work: seq<nat>, queued: seq<bool>) {
    (forall k | 0 <= k < |work| :: work[k] < |queued|) && forall i | 0 <= i < |queued| && queued[i] :: i in work
  }

  method Everyone(queued: seq<bool>) returns (work: seq<nat>)
    ensures Waiting(work, queued)
  {
    work := [];
    for i := 0 to |queued|
      invariant |work| == i && (forall k | 0 <= k < i :: work[k] < |queued|) && forall j | 0 <= j < i :: j in work
    {
      work := work + [i];
    }
  }

  /** Merge one callee into one caller. */
  method Absorb(ranges: array<Range>, relations: seq<Relation>, r: nat, ghost initial: seq<Range>)
    returns (changed: bool)
    requires ranges.Length == |initial| && WellFormed(relations, |initial|) && r < |relations|
    requires Grown(initial, ranges[..], relations)
    modifies ranges
    ensures Grown(initial, ranges[..], relations)
    ensures ranges[..] == old(ranges[..])[relations[r].caller := ranges[relations[r].caller]]
    ensures Settled(ranges[..], relations[r])
    ensures forall q | 0 <= q < |relations| && relations[q].callee != relations[r].caller
      && old(Settled(ranges[..], relations[q])) ::
              Settled(ranges[..], relations[q])
    ensures !changed ==> ranges[..] == old(ranges[..])
    ensures changed ==> MaskRoom(ranges[..]) < old(MaskRoom(ranges[..]))
    ensures MaskRoom(ranges[..]) <= old(MaskRoom(ranges[..]))
    ensures relations[r].caller == relations[r].callee ==> !changed
  {
    hide AllSlots, Needs, MaskRoom, Settled;
    var rel := relations[r];
    ghost var before := ranges[..];
    var caller, callee := ranges[rel.caller], ranges[rel.callee];
    var after := Absorbed(caller, callee, rel);
    changed := after.semanticInput != caller.semanticInput || after.mayDef != caller.mayDef
      || after.input != caller.input || after.output != caller.output;
    AbsorbKeepsGrown(initial, before, relations, r);
    forall q | 0 <= q < |relations| && (q == r || (relations[q].callee != rel.caller && Settled(before, relations[q])))
      ensures Settled(before[rel.caller := after], relations[q])
    {
      AbsorbSettles(before, relations, r, q);
    }
    AbsorbFalls(initial, before, relations, r);
    ranges[rel.caller] := after;
    assert ranges[..] == before[rel.caller := after];
    assert !changed ==> after == caller;
  }

  lemma AbsorbFalls(initial: seq<Range>, now: seq<Range>, relations: seq<Relation>, r: nat)
    requires WellFormed(relations, |initial|) && Grown(initial, now, relations) && r < |relations|
    ensures var rel := relations[r]; var after := Absorbed(now[rel.caller], now[rel.callee], rel);
      MaskRoom(now[rel.caller := after]) <= MaskRoom(now)
      && (after != now[rel.caller] ==> MaskRoom(now[rel.caller := after]) < MaskRoom(now))
      && (rel.caller == rel.callee ==> after == now[rel.caller])
  {
    hide AllSlots, Needs, MaskRoom;
    var rel := relations[r];
    var after := Absorbed(now[rel.caller], now[rel.callee], rel);
    assert ValidRange(now[rel.caller]) && ValidRange(now[rel.callee]);
    forall w ensures Mask(now[rel.caller], w) <= Mask(after, w) <= AllSlots() {
      AbsorbedBounds(now[rel.caller], now[rel.callee], rel, w);
    }
    MaskRoomFalls(now, rel.caller, after);
    if rel.caller == rel.callee {
      assert after.semanticInput == now[rel.caller].semanticInput && after.mayDef == now[rel.caller].mayDef;
      assert after.input == now[rel.caller].input && after.output == now[rel.caller].output;
    }
  }

  /** The callee's callers after it changed: those it changes in turn join the queue. */
  method VisitCallers(ranges: array<Range>, relations: seq<Relation>, list: seq<nat>, callee: nat, queued: array<bool>,
          work: seq<nat>, ghost initial: seq<Range>)
    returns (work': seq<nat>)
    requires ranges.Length == queued.Length == |initial| && WellFormed(relations, |initial|) && callee < |initial|
    requires ListsCallsOf(list, relations, callee)
    requires Grown(initial, ranges[..], relations) && Waiting(work, queued[..]) && !queued[callee]
    requires SettledUnlessQueued(ranges[..], relations, queued[..][callee := true])
    modifies ranges, queued
    ensures Grown(initial, ranges[..], relations) && Waiting(work', queued[..])
    ensures SettledUnlessQueued(ranges[..], relations, queued[..])
    ensures work' == work || MaskRoom(ranges[..]) < old(MaskRoom(ranges[..]))
    ensures MaskRoom(ranges[..]) <= old(MaskRoom(ranges[..]))
  {
    hide AllSlots, Needs, MaskRoom, Settled, Grown;
    work' := work;
    for k := 0 to |list|
      invariant Grown(initial, ranges[..], relations) && Waiting(work', queued[..]) && !queued[callee]
      invariant forall r | 0 <= r < |relations| && relations[r].callee != callee && !queued[relations[r].callee] ::
                  Settled(ranges[..], relations[r])
      invariant forall j | 0 <= j < k :: list[j] < |relations| && Settled(ranges[..], relations[list[j]])
      invariant work' == work || MaskRoom(ranges[..]) < old(MaskRoom(ranges[..]))
      invariant MaskRoom(ranges[..]) <= old(MaskRoom(ranges[..]))
    {
      assert list[k] in list;
      var caller := relations[list[k]].caller;
      var changed := Absorb(ranges, relations, list[k], initial);
      if changed && !queued[caller] {
        queued[caller] := true;
        work' := work' + [caller];
      }
    }
  }

  method SpreadToCallers(ranges: array<Range>, relations: seq<Relation>, callers: seq<seq<nat>>)
    requires WellFormed(relations, ranges.Length) && |callers| == ranges.Length && ByCallee(relations, callers)
    requires forall i | 0 <= i < ranges.Length :: ValidRange(ranges[i])
    modifies ranges
    ensures Grown(old(ranges[..]), ranges[..], relations) && Stable(ranges[..], relations)
  {
    hide AllSlots, Needs, MaskRoom, Settled, Grown, ListsCallsOf, ValidRange;
    ghost var initial := ranges[..];
    StartsGrown(initial, relations);
    var queued := new bool[ranges.Length](_ => true);
    var work := Everyone(queued[..]);
    while work != []
      invariant Grown(initial, ranges[..], relations) && Waiting(work, queued[..])
      invariant SettledUnlessQueued(ranges[..], relations, queued[..])
      decreases MaskRoom(ranges[..]), |work|
    {
      var callee := work[0];
      ghost var waiting := queued[..];
      assert work == [callee] + work[1..];
      work := work[1..];
      queued[callee] := false;
      assert queued[..][callee := true] == waiting[callee := true];
      work := VisitCallers(ranges, relations, callers[callee], callee, queued, work, initial);
    }
  }

  /** Stable masks already hold whatever a chain asks for. */
  lemma {:induction false} StableHolds(initial: seq<Range>, now: seq<Range>, relations: seq<Relation>, chain: seq<nat>,
          i: nat, w: Which, s: nat)
    requires |now| == |initial| && WellFormed(relations, |now|) && Stable(now, relations) && i < |now|
    requires forall j | 0 <= j < |now| :: Mask(initial[j], w) <= Mask(now[j], w)
    requires NeedsVia(initial, relations, chain, i, w, s)
    ensures s in Mask(now[i], w)
    decreases |chain|
  {
    hide Mask;
    if chain != [] {
      StableHolds(initial, now, relations, chain[1..], relations[chain[0]].callee, w, s);
      assert Settled(now, relations[chain[0]]);
    }
  }

  /** The masks after the first worklist hold exactly what the chains ask for. */
  lemma MasksAreExact(initial: seq<Range>, now: seq<Range>, relations: seq<Relation>, i: nat, w: Which, s: nat)
    requires WellFormed(relations, |initial|) && Grown(initial, now, relations) && Stable(now, relations) && i < |now|
    ensures s in Mask(now[i], w) <==> Needs(initial, relations, i, w, s)
  {
    hide AllSlots;
    if Needs(initial, relations, i, w, s) {
      var chain :| NeedsVia(initial, relations, chain, i, w, s);
      StableHolds(initial, now, relations, chain, i, w, s);
    }
  }

  // The worklist towards callees

  /** A chain of native callers leads back from range `i` to one that must keep the slot: because
      it writes it, or because the slot escapes from it already. */
  ghost predicate EscapesVia(ranges: seq<Range>, relations: seq<Relation>, chain: seq<nat>, i: nat, s: nat)
    requires WellFormed(relations, |ranges|) && i < |ranges|
    decreases |chain|
  {
    if chain == [] then s in ranges[i].escape
    else
      && chain[0] < |relations| && relations[chain[0]].callee == i && ranges[relations[chain[0]].caller].native
      && (s in ranges[relations[chain[0]].caller].output
          || EscapesVia(ranges, relations, chain[1..], relations[chain[0]].caller, s))
  }

  ghost predicate Escapes(ranges: seq<Range>, relations: seq<Relation>, i: nat, s: nat)
    requires WellFormed(relations, |ranges|) && i < |ranges|
  {
    exists chain :: EscapesVia(ranges, relations, chain, i, s)
  }

  lemma EscapesFromCaller(ranges: seq<Range>, relations: seq<Relation>, r: nat, s: nat)
    requires WellFormed(relations, |ranges|) && r < |relations| && ranges[relations[r].caller].native
    requires s in ranges[relations[r].caller].output || Escapes(ranges, relations, relations[r].caller, s)
    ensures Escapes(ranges, relations, relations[r].callee, s)
  {
    if s in ranges[relations[r].caller].output {
      assert EscapesVia(ranges, relations, [r], relations[r].callee, s);
    } else {
      var chain :| EscapesVia(ranges, relations, chain, relations[r].caller, s);
      assert ([r] + chain)[1..] == chain;
      assert EscapesVia(ranges, relations, [r] + chain, relations[r].callee, s);
    }
  }

  ghost predicate EscapeSettled(ranges: seq<Range>, rel: Relation)
    requires rel.caller < |ranges| && rel.callee < |ranges|
  {
    ranges[rel.caller].native ==> ranges[rel.caller].escape + ranges[rel.caller].output <= ranges[rel.callee].escape
  }

  ghost predicate EscapeStable(ranges: seq<Range>, relations: seq<Relation>)
    requires WellFormed(relations, |ranges|)
  {
    forall r | 0 <= r < |relations| :: EscapeSettled(ranges, relations[r])
  }

  ghost predicate EscapeGrown(initial: seq<Range>, now: seq<Range>, relations: seq<Relation>)
    requires WellFormed(relations, |initial|)
  {
    && |now| == |initial|
    && (forall i | 0 <= i < |now| :: now[i] == initial[i].(escape := now[i].escape))
    && (forall i | 0 <= i < |now| :: initial[i].escape <= now[i].escape <= AllSlots() && now[i].output <= AllSlots())
    && (forall i, s | 0 <= i < |now| && s in now[i].escape :: Escapes(initial, relations, i, s))
  }

  lemma StartsEscapeGrown(initial: seq<Range>, relations: seq<Relation>)
    requires WellFormed(relations, |initial|) && forall i | 0 <= i < |initial| :: ValidRange(initial[i])
    ensures EscapeGrown(initial, initial, relations)
  {
    hide AllSlots;
    forall i, s | 0 <= i < |initial| && s in initial[i].escape ensures Escapes(initial, relations, i, s) {
      assert EscapesVia(initial, relations, [], i, s);
    }
    forall i | 0 <= i < |initial| ensures initial[i].output <= AllSlots() {
      assert ValidRange(initial[i]) && Mask(initial[i], Output) <= AllSlots();
    }
  }

  function EscapeColumn(ranges: seq<Range>): seq<Slots> {
    seq(|ranges|, i requires 0 <= i < |ranges| => ranges[i].escape)
  }

  function EscapeRoom(ranges: seq<Range>): nat { Room(EscapeColumn(ranges)) }

  lemma EscapeStep(initial: seq<Range>, now: seq<Range>, relations: seq<Relation>, r: nat)
    requires WellFormed(relations, |initial|) && EscapeGrown(initial, now, relations) && r < |relations|
    requires now[relations[r].caller].native
    ensures var rel := relations[r];
      var escape := now[rel.callee].escape + now[rel.caller].escape + now[rel.caller].output;
      var after := now[rel.callee := now[rel.callee].(escape := escape)];
      EscapeGrown(initial, after, relations)
      && EscapeRoom(after) <= EscapeRoom(now)
         && (escape != now[rel.callee].escape ==> EscapeRoom(after) < EscapeRoom(now))
  {
    hide AllSlots, Escapes, Room;
    var rel := relations[r];
    var escape := now[rel.callee].escape + now[rel.caller].escape + now[rel.caller].output;
    var after := now[rel.callee := now[rel.callee].(escape := escape)];
    forall i, s | 0 <= i < |now| && s in after[i].escape ensures Escapes(initial, relations, i, s) {
      if i == rel.callee && s !in now[i].escape { EscapesFromCaller(initial, relations, r, s); }
    }
    assert EscapeColumn(after) == EscapeColumn(now)[rel.callee := escape];
    RoomUpdate(EscapeColumn(now), rel.callee, escape);
  }

  ghost predicate EscapeSettledUnlessQueued(ranges: seq<Range>, relations: seq<Relation>, queued: seq<bool>)
    requires WellFormed(relations, |ranges|) && |queued| == |ranges|
  {
    forall r | 0 <= r < |relations| && !queued[relations[r].caller] :: EscapeSettled(ranges, relations[r])
  }

  /** Add what a caller keeps to one callee. */
  method Keep(ranges: array<Range>, relations: seq<Relation>, r: nat, ghost initial: seq<Range>) returns (changed: bool)
    requires ranges.Length == |initial| && WellFormed(relations, |initial|) && r < |relations|
    requires EscapeGrown(initial, ranges[..], relations) && ranges[relations[r].caller].native
    modifies ranges
    ensures EscapeGrown(initial, ranges[..], relations)
    ensures forall q | 0 <= q < |relations| && (!changed || relations[q].caller != relations[r].callee)
      && old(EscapeSettled(ranges[..], relations[q])) ::
              EscapeSettled(ranges[..], relations[q])
    ensures !changed || relations[r].caller != relations[r].callee ==> EscapeSettled(ranges[..], relations[r])
    ensures changed ==> EscapeRoom(ranges[..]) < old(EscapeRoom(ranges[..]))
    ensures !changed ==> EscapeRoom(ranges[..]) == old(EscapeRoom(ranges[..]))
  {
    hide AllSlots, Escapes, EscapeGrown, EscapeRoom;
    var rel := relations[r];
    ghost var before := ranges[..];
    var escape := ranges[rel.callee].escape + ranges[rel.caller].escape + ranges[rel.caller].output;
    changed := escape != ranges[rel.callee].escape;
    EscapeStep(initial, before, relations, r);
    ranges[rel.callee] := ranges[rel.callee].(escape := escape);
    assert ranges[..] == before[rel.callee := before[rel.callee].(escape := escape)];
    assert !changed ==> ranges[..] == before;
  }

  /** The callees of a caller after it changed. */
  method VisitCallees(ranges: array<Range>, relations: seq<Relation>, list: seq<nat>, caller: nat, queued: array<bool>,
          work: seq<nat>, ghost initial: seq<Range>)
    returns (work': seq<nat>)
    requires ranges.Length == queued.Length == |initial| && WellFormed(relations, |initial|) && caller < |initial|
    requires ListsCallsBy(list, relations, caller, ranges[caller].native)
    requires EscapeGrown(initial, ranges[..], relations) && Waiting(work, queued[..])
    requires EscapeSettledUnlessQueued(ranges[..], relations, queued[..][caller := true])
    modifies ranges, queued
    ensures EscapeGrown(initial, ranges[..], relations) && Waiting(work', queued[..])
    ensures EscapeSettledUnlessQueued(ranges[..], relations, queued[..])
    ensures work' == work || EscapeRoom(ranges[..]) < old(EscapeRoom(ranges[..]))
    ensures EscapeRoom(ranges[..]) <= old(EscapeRoom(ranges[..]))
  {
    hide AllSlots, Escapes, EscapeRoom, EscapeSettled, EscapeGrown;
    NativeKept(initial, ranges[..], relations);
    work' := work;
    for k := 0 to |list|
      invariant EscapeGrown(initial, ranges[..], relations) && Waiting(work', queued[..])
      invariant forall r | 0 <= r < |relations| && relations[r].caller != caller && !queued[relations[r].caller] ::
                  EscapeSettled(ranges[..], relations[r])
      invariant forall j | 0 <= j < k ::
        list[j] < |relations| && (queued[caller] || EscapeSettled(ranges[..], relations[list[j]]))
      invariant work' == work || EscapeRoom(ranges[..]) < old(EscapeRoom(ranges[..]))
      invariant EscapeRoom(ranges[..]) <= old(EscapeRoom(ranges[..]))
    {
      assert list[k] in list;
      NativeKept(initial, ranges[..], relations);
      var callee := relations[list[k]].callee;
      var changed := Keep(ranges, relations, list[k], initial);
      if changed && !queued[callee] {
        queued[callee] := true;
        work' := work' + [callee];
      }
    }
    NativeKept(initial, ranges[..], relations);
    NothingForOthers(ranges[..], relations, caller);
  }

  lemma NativeKept(initial: seq<Range>, now: seq<Range>, relations: seq<Relation>)
    requires WellFormed(relations, |initial|) && EscapeGrown(initial, now, relations)
    ensures |now| == |initial| && forall i | 0 <= i < |now| :: now[i].native == initial[i].native
  {
  }

  /** A range that is not native keeps nothing for its callees. */
  lemma NothingForOthers(ranges: seq<Range>, relations: seq<Relation>, caller: nat)
    requires WellFormed(relations, |ranges|) && caller < |ranges|
    ensures !ranges[caller].native
      ==> forall r | 0 <= r < |relations| && relations[r].caller == caller :: EscapeSettled(ranges, relations[r])
  {
  }

  method SpreadToCallees(ranges: array<Range>, relations: seq<Relation>, callees: seq<seq<nat>>)
    requires WellFormed(relations, ranges.Length) && ByNativeCaller(Natives(ranges[..]), relations, callees)
    requires forall i | 0 <= i < ranges.Length :: ValidRange(ranges[i])
    modifies ranges
    ensures EscapeGrown(old(ranges[..]), ranges[..], relations) && EscapeStable(ranges[..], relations)
  {
    hide AllSlots, Escapes, EscapeRoom, EscapeSettled, EscapeGrown, ListsCallsBy, ValidRange;
    ghost var initial := ranges[..];
    StartsEscapeGrown(initial, relations);
    var queued := new bool[ranges.Length](_ => true);
    var work := Everyone(queued[..]);
    while work != []
      invariant EscapeGrown(initial, ranges[..], relations) && Waiting(work, queued[..])
      invariant EscapeSettledUnlessQueued(ranges[..], relations, queued[..])
      decreases EscapeRoom(ranges[..]), |work|
    {
      var caller := work[0];
      ghost var waiting := queued[..];
      assert work == [caller] + work[1..];
      work := work[1..];
      queued[caller] := false;
      assert queued[..][caller := true] == waiting[caller := true];
      NativeKept(initial, ranges[..], relations);
      work := VisitCallees(ranges, relations, callees[caller], caller, queued, work, initial);
    }
  }

  lemma {:induction false} EscapeStableHolds(initial: seq<Range>, now: seq<Range>, relations: seq<Relation>,
          chain: seq<nat>, i: nat, s: nat)
    requires |now| == |initial| && WellFormed(relations, |now|) && EscapeStable(now, relations) && i < |now|
    requires forall j | 0 <= j < |now| :: initial[j].escape <= now[j].escape && initial[j].output <= now[j].output
    requires forall j | 0 <= j < |now| :: initial[j].native == now[j].native
    requires EscapesVia(initial, relations, chain, i, s)
    ensures s in now[i].escape
    decreases |chain|
  {
    if chain != [] {
      var caller := relations[chain[0]].caller;
      if s !in initial[caller].output {
        EscapeStableHolds(initial, now, relations, chain[1..], caller, s);
      }
      assert EscapeSettled(now, relations[chain[0]]);
    }
  }

  /** The escape masks after the second worklist hold exactly what the chains of callers keep. */
  lemma EscapesAreExact(initial: seq<Range>, now: seq<Range>, relations: seq<Relation>, i: nat, s: nat)
    requires WellFormed(relations, |initial|) && EscapeGrown(initial, now, relations)
      && EscapeStable(now, relations) && i < |now|
    ensures s in now[i].escape <==> Escapes(initial, relations, i, s)
  {
    hide AllSlots;
    if Escapes(initial, relations, i, s) {
      var chain :| EscapesVia(initial, relations, chain, i, s);
      EscapeStableHolds(initial, now, relations, chain, i, s);
    }
  }
}
