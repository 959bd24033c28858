/** `dolllvm_propagate_function_abis` as a whole (src/backend/llvm/abi_policy.cpp:48-196): what
    it computes, the call depths, and that running it on its own result changes no mask. */
module AbiPolicy {
  import opened CallLiveness
  import opened AbiRelations
  import opened AbiPropagation

  // Call depth

  /** Calls that follow one another from range `i`, each made by a native range to a native one. */
  ghost predicate NativeChain(native: seq<bool>, relations: seq<Relation>, chain: seq<nat>, i: nat)
    decreases |chain|
  {
    && i < |native| && native[i]
    && (chain == [] || (chain[0] < |relations| && relations[chain[0]].caller == i
                        && NativeChain(native, relations, chain[1..], relations[chain[0]].callee)))
  }

  ghost predicate Realised(native: seq<bool>, relations: seq<Relation>, i: nat, depth: nat) {
    exists chain :: NativeChain(native, relations, chain, i) && |chain| + 1 == depth
  }

  /** No calls go round in a circle: every one goes to a lower rank. */
  ghost predicate Ranked(native: seq<bool>, relations: seq<Relation>, rank: seq<nat>) {
    |rank| == |native|
    && forall r | 0 <= r < |relations| && relations[r].caller < |native| && relations[r].callee < |native|
       && native[relations[r].caller] ::
         rank[relations[r].callee] < rank[relations[r].caller]
  }

  ghost predicate Acyclic(native: seq<bool>, relations: seq<Relation>) {
    exists rank :: Ranked(native, relations, rank)
  }

  const UNVISITED: nat := 0
  const ENTERED: nat := 1
  const DONE: nat := 2

  ghost function Unvisited(visit: seq<nat>): set<nat> { set i: nat | i < |visit| && visit[i] == UNVISITED }

  /** Deeper than every callee, all of which are done. */
  ghost predicate AboveCallees(ranges: seq<Range>, visit: seq<nat>, relations: seq<Relation>, i: nat)
    requires WellFormed(relations, |ranges|) && |visit| == |ranges| && i < |ranges|
  {
    forall r | 0 <= r < |relations| && relations[r].caller == i ::
      visit[relations[r].callee] == DONE && ranges[i].depth >= 1 + ranges[relations[r].callee].depth
  }

  /** Finished ranges have the depth of some chain of calls, and of the longest one when no calls
      go round in a circle. */
  ghost predicate DepthsDone(ranges: seq<Range>, visit: seq<nat>, relations: seq<Relation>, rank: seq<nat>)
    requires WellFormed(relations, |ranges|) && |visit| == |ranges|
  {
    && (forall i | 0 <= i < |ranges| && visit[i] == DONE :: Realised(Natives(ranges), relations, i, ranges[i].depth))
    && (Ranked(Natives(ranges), relations, rank)
       ==> forall i | 0 <= i < |ranges| && visit[i] == DONE :: AboveCallees(ranges, visit, relations, i))
  }

  /** One call of `callDepth` only finishes ranges it had not entered before. */
  ghost predicate Visits(before: seq<Range>, visitBefore: seq<nat>, after: seq<Range>, visit: seq<nat>) {
    && |before| == |visitBefore| == |after| == |visit|
    && (forall i | 0 <= i < |visit| :: visit[i] == visitBefore[i] || (visitBefore[i] == UNVISITED && visit[i] == DONE))
    && (forall i | 0 <= i < |visit| :: after[i] == before[i].(depth := after[i].depth))
    && (forall i | 0 <= i < |visit| && visit[i] == visitBefore[i] :: after[i].depth == before[i].depth)
  }

  lemma RealisedThrough(native: seq<bool>, relations: seq<Relation>, r: nat, depth: nat)
    requires r < |relations| && relations[r].caller < |native| && native[relations[r].caller]
    requires Realised(native, relations, relations[r].callee, depth)
    ensures Realised(native, relations, relations[r].caller, depth + 1)
  {
    var chain :| NativeChain(native, relations, chain, relations[r].callee) && |chain| + 1 == depth;
    assert ([r] + chain)[1..] == chain;
    assert NativeChain(native, relations, [r] + chain, relations[r].caller);
  }

  lemma RealisedAlone(native: seq<bool>, relations: seq<Relation>, i: nat)
    requires i < |native| && native[i]
    ensures Realised(native, relations, i, 1)
  {
    assert NativeChain(native, relations, [], i);
  }

  lemma VisitsTrans(a: seq<Range>, va: seq<nat>, b: seq<Range>, vb: seq<nat>, c: seq<Range>, vc: seq<nat>)
    requires Visits(a, va, b, vb) && Visits(b, vb, c, vc)
    ensures Visits(a, va, c, vc) && Natives(b) == Natives(a) && Unvisited(vb) <= Unvisited(va)
  {
    forall i | 0 <= i < |a| ensures c[i] == a[i].(depth := c[i].depth) && b[i].native == a[i].native {
      assert b[i] == a[i].(depth := b[i].depth) && c[i] == b[i].(depth := c[i].depth);
    }
  }

  lemma VisitsItself(a: seq<Range>, va: seq<nat>)
    requires |a| == |va|
    ensures Visits(a, va, a, va)
  {
  }

  /** How far the callees of an entered range have been explored. */
  ghost predicate Exploring(ranges: seq<Range>, visit: seq<nat>, relations: seq<Relation>, rank: seq<nat>, caller: nat,
          depth: nat, list: seq<nat>, k: nat)
    requires WellFormed(relations, |ranges|) && |visit| == |ranges| && caller < |ranges| && k <= |list|
  {
    && visit[caller] == ENTERED && DepthsDone(ranges, visit, relations, rank)
    && depth >= 1 && Realised(Natives(ranges), relations, caller, depth)
    && (Ranked(Natives(ranges), relations, rank) ==>
          (forall i | 0 <= i < |visit| && visit[i] == ENTERED && i != caller :: rank[caller] < rank[i])
          && forall j | 0 <= j < k :: list[j] < |relations| && Below(ranges, visit, relations[list[j]].callee, depth))
  }

  predicate Below(ranges: seq<Range>, visit: seq<nat>, callee: nat, depth: nat)
    requires |visit| == |ranges|
  {
    callee < |ranges| && visit[callee] == DONE && depth >= 1 + ranges[callee].depth
  }

  lemma Enters(ranges: seq<Range>, visit: seq<nat>, relations: seq<Relation>, rank: seq<nat>, caller: nat,
          list: seq<nat>)
    requires WellFormed(relations, |ranges|) && |visit| == |ranges| && caller < |ranges| && ranges[caller].native
    requires DepthsDone(ranges, visit, relations, rank) && visit[caller] == UNVISITED
    requires Ranked(Natives(ranges), relations, rank)
      ==> forall i | 0 <= i < |visit| && visit[i] == ENTERED :: rank[caller] < rank[i]
    ensures Exploring(ranges, visit[caller := ENTERED], relations, rank, caller, 1, list, 0)
    ensures Unvisited(visit[caller := ENTERED]) < Unvisited(visit)
  {
    hide Realised, Ranked;
    RealisedAlone(Natives(ranges), relations, caller);
    assert caller in Unvisited(visit) && caller !in Unvisited(visit[caller := ENTERED]);
    assert Unvisited(visit[caller := ENTERED]) <= Unvisited(visit);
  }

  /** What one callee's result adds. */
  lemma Explores(before: seq<Range>, visitBefore: seq<nat>, ranges: seq<Range>, visit: seq<nat>,
          relations: seq<Relation>, rank: seq<nat>, caller: nat, depth: nat, below: nat, list: seq<nat>, k: nat)
    requires WellFormed(relations, |ranges|) && Visits(before, visitBefore, ranges, visit)
    requires caller < |ranges| && k < |list| && list[k] < |relations| && relations[list[k]].caller == caller
      && ranges[caller].native
    requires Exploring(before, visitBefore, relations, rank, caller, depth, list, k)
    requires DepthsDone(ranges, visit, relations, rank)
    requires var callee := relations[list[k]].callee;
      if visitBefore[callee] == ENTERED then below == 0 else visit[callee] == DONE && below == ranges[callee].depth
    ensures Exploring(ranges, visit, relations, rank, caller, if depth > 1 + below then depth else 1 + below, list,
      k + 1)
  {
    hide Realised, AboveCallees;
    assert Natives(ranges) == Natives(before) by {
      VisitsItself(ranges, visit);
      VisitsTrans(before, visitBefore, ranges, visit, ranges, visit);
    }
    var callee := relations[list[k]].callee;
    if visitBefore[callee] != ENTERED {
      RealisedThrough(Natives(ranges), relations, list[k], below);
    }
  }

  /** A range is done once all its callees are explored. */
  lemma Finishes(ranges: seq<Range>, visit: seq<nat>, relations: seq<Relation>, rank: seq<nat>, caller: nat, depth: nat,
          list: seq<nat>)
    requires WellFormed(relations, |ranges|) && |visit| == |ranges| && caller < |ranges| && ranges[caller].native
    requires Exploring(ranges, visit, relations, rank, caller, depth, list, |list|)
    requires ListsCallsBy(list, relations, caller, true)
    ensures DepthsDone(ranges[caller := ranges[caller].(depth := depth)], visit[caller := DONE], relations, rank)
  {
    hide Realised;
    var ranges', visit' := ranges[caller := ranges[caller].(depth := depth)], visit[caller := DONE];
    assert Natives(ranges') == Natives(ranges);
    if Ranked(Natives(ranges), relations, rank) {
      forall i | 0 <= i < |ranges| && visit'[i] == DONE ensures AboveCallees(ranges', visit', relations, i) {
        forall r | 0 <= r < |relations| && relations[r].caller == i
          ensures visit'[relations[r].callee] == DONE && ranges'[i].depth >= 1 + ranges'[relations[r].callee].depth
        {
          if i == caller {
            assert r in list;
            var j :| 0 <= j < |list| && list[j] == r;
            assert Below(ranges, visit, relations[r].callee, depth);
          } else {
            assert AboveCallees(ranges, visit, relations, i);
          }
        }
      }
    }
  }

  /** The depth of a range: one more than the deepest of its callees, with an entered one (a call
      that goes round in a circle) counting as none. */
  method CallDepth(ranges: array<Range>, visit: array<nat>, relations: seq<Relation>, callees: seq<seq<nat>>,
          caller: nat, ghost rank: seq<nat>)
    returns (depth: nat)
    requires visit.Length == ranges.Length && WellFormed(relations, ranges.Length) && caller < ranges.Length
    requires ByNativeCaller(Natives(ranges[..]), relations, callees)
    requires forall r | 0 <= r < |relations| :: ranges[relations[r].callee].native
    requires DepthsDone(ranges[..], visit[..], relations, rank)
    requires forall i | 0 <= i < visit.Length :: visit[i] <= DONE
    requires Ranked(Natives(ranges[..]), relations, rank) ==>
      forall i | 0 <= i < visit.Length && visit[i] == ENTERED :: rank[caller] < rank[i]
    modifies ranges, visit
    ensures Visits(old(ranges[..]), old(visit[..]), ranges[..], visit[..])
    ensures DepthsDone(ranges[..], visit[..], relations, rank)
    ensures ranges[caller].native && old(visit[caller]) != ENTERED
      ==> visit[caller] == DONE && depth == ranges[caller].depth
    ensures ranges[caller].native && old(visit[caller]) == ENTERED ==> depth == 0
    decreases Unvisited(visit[..]), 1
  {
    hide DepthsDone, Ranked, ListsCallsBy, Unvisited;
    VisitsItself(ranges[..], visit[..]);
    if !ranges[caller].native { return 0; }
    if visit[caller] == DONE { return ranges[caller].depth; }
    if visit[caller] == ENTERED { return 0; }
    ghost var before, visitBefore := ranges[..], visit[..];
    Enters(before, visitBefore, relations, rank, caller, callees[caller]);
    visit[caller] := ENTERED;
    assert visit[..] == visitBefore[caller := ENTERED];
    depth := Explore(ranges, visit, relations, callees, caller, rank);
    Finishes(ranges[..], visit[..], relations, rank, caller, depth, callees[caller]);
    ghost var now, visitNow := ranges[..], visit[..];
    visit[caller] := DONE;
    ranges[caller] := ranges[caller].(depth := depth);
    assert ranges[..] == now[caller := now[caller].(depth := depth)] && visit[..] == visitNow[caller := DONE];
  }

  /** The loop over the callees of an entered range. */
  method Explore(ranges: array<Range>, visit: array<nat>, relations: seq<Relation>, callees: seq<seq<nat>>, caller: nat,
          ghost rank: seq<nat>)
    returns (depth: nat)
    requires visit.Length == ranges.Length && WellFormed(relations, ranges.Length) && caller < ranges.Length
    requires ByNativeCaller(Natives(ranges[..]), relations, callees) && ranges[caller].native
    requires forall r | 0 <= r < |relations| :: ranges[relations[r].callee].native
    requires forall i | 0 <= i < visit.Length :: visit[i] <= DONE
    requires Exploring(ranges[..], visit[..], relations, rank, caller, 1, callees[caller], 0)
    modifies ranges, visit
    ensures Visits(old(ranges[..]), old(visit[..]), ranges[..], visit[..])
    ensures Exploring(ranges[..], visit[..], relations, rank, caller, depth, callees[caller], |callees[caller]|)
    decreases Unvisited(visit[..]), 2
  {
    hide DepthsDone, Ranked, Unvisited;
    depth := 1;
    ghost var before, visitBefore := ranges[..], visit[..];
    var list := callees[caller];
    VisitsItself(before, visitBefore);
    for k := 0 to |list|
      invariant Visits(before, visitBefore, ranges[..], visit[..])
      invariant Exploring(ranges[..], visit[..], relations, rank, caller, depth, list, k)
    {
      ghost var now, visitNow := ranges[..], visit[..];
      VisitsTrans(before, visitBefore, now, visitNow, now, visitNow) by { VisitsItself(now, visitNow); }
      assert list[k] in list;
      var callee := relations[list[k]].callee;
      LowerRank(now, visitNow, relations, rank, list[k]);
      var below := CallDepth(ranges, visit, relations, callees, callee, rank);
      Explores(now, visitNow, ranges[..], visit[..], relations, rank, caller, depth, below, list, k);
      VisitsTrans(before, visitBefore, now, visitNow, ranges[..], visit[..]);
      depth := if depth > 1 + below then depth else 1 + below;
    }
  }

  lemma LowerRank(ranges: seq<Range>, visit: seq<nat>, relations: seq<Relation>, rank: seq<nat>, r: nat)
    requires WellFormed(relations, |ranges|) && |visit| == |ranges| && r < |relations|
      && ranges[relations[r].caller].native
    ensures Ranked(Natives(ranges), relations, rank) ==>
      |rank| == |ranges| && rank[relations[r].callee] < rank[relations[r].caller]
  {
  }

  /** Native ranges have the depth of some chain of calls; without circles, of the longest. */
  ghost predicate HasDepths(ranges: seq<Range>, relations: seq<Relation>) {
    && (forall i | 0 <= i < |ranges| && ranges[i].native :: Realised(Natives(ranges), relations, i, ranges[i].depth))
    && (forall i | 0 <= i < |ranges| && !ranges[i].native :: ranges[i].depth == 0)
    && (Acyclic(Natives(ranges), relations) ==>
          forall i, chain | 0 <= i < |ranges| && NativeChain(Natives(ranges), relations, chain, i) ::
            |chain| + 1 <= ranges[i].depth)
  }

  lemma {:induction false} DeeperThanChains(ranges: seq<Range>, visit: seq<nat>, relations: seq<Relation>,
          rank: seq<nat>, chain: seq<nat>, i: nat)
    requires WellFormed(relations, |ranges|) && |visit| == |ranges| && i < |ranges|
    requires DepthsDone(ranges, visit, relations, rank) && Ranked(Natives(ranges), relations, rank)
    requires forall j | 0 <= j < |ranges| && ranges[j].native :: visit[j] == DONE
    requires NativeChain(Natives(ranges), relations, chain, i)
    ensures |chain| + 1 <= ranges[i].depth
    decreases |chain|
  {
    hide Ranked;
    if chain == [] {
      assert Realised(Natives(ranges), relations, i, ranges[i].depth);
    } else {
      DeeperThanChains(ranges, visit, relations, rank, chain[1..], relations[chain[0]].callee);
      assert AboveCallees(ranges, visit, relations, i);
    }
  }

  method ComputeDepths(ranges: array<Range>, relations: seq<Relation>, callees: seq<seq<nat>>)
    requires WellFormed(relations, ranges.Length) && ByNativeCaller(Natives(ranges[..]), relations, callees)
    requires forall r | 0 <= r < |relations| :: ranges[relations[r].callee].native
    requires forall i | 0 <= i < ranges.Length :: ranges[i].depth == 0
    modifies ranges
    ensures forall i | 0 <= i < ranges.Length :: ranges[i] == old(ranges[i]).(depth := ranges[i].depth)
    ensures HasDepths(ranges[..], relations)
  {
    hide Ranked, ListsCallsBy, Realised, NativeChain, HasDepths;
    ghost var before := ranges[..];
    ghost var rank: seq<nat> := [];
    if Acyclic(Natives(before), relations) {
      rank :| Ranked(Natives(before), relations, rank);
    }
    var visit := new nat[ranges.Length](_ => UNVISITED);
    ghost var visitBefore := visit[..];
    VisitsItself(before, visitBefore);
    for index := 0 to ranges.Length
      invariant Visits(before, visitBefore, ranges[..], visit[..]) && DepthsDone(ranges[..], visit[..], relations, rank)
      invariant forall i | 0 <= i < ranges.Length :: visit[i] == UNVISITED || visit[i] == DONE
      invariant forall i | 0 <= i < index && ranges[i].native :: visit[i] == DONE
      invariant forall i | 0 <= i < ranges.Length && !ranges[i].native :: ranges[i].depth == 0
    {
      ghost var now, visitNow := ranges[..], visit[..];
      VisitsItself(now, visitNow);
      VisitsTrans(before, visitBefore, now, visitNow, now, visitNow);
      var _ := CallDepth(ranges, visit, relations, callees, index, rank);
      VisitsTrans(before, visitBefore, now, visitNow, ranges[..], visit[..]);
      NonNativeKept(now, visitNow, ranges[..], visit[..], relations, rank);
    }
    ghost var after, visitAfter := ranges[..], visit[..];
    VisitsItself(after, visitAfter);
    VisitsTrans(before, visitBefore, after, visitAfter, after, visitAfter);
    DepthsHold(after, visitAfter, relations, rank);
  }

  lemma DepthsHold(ranges: seq<Range>, visit: seq<nat>, relations: seq<Relation>, rank: seq<nat>)
    requires WellFormed(relations, |ranges|) && |visit| == |ranges| && DepthsDone(ranges, visit, relations, rank)
    requires forall i | 0 <= i < |ranges| :: if ranges[i].native then visit[i] == DONE else ranges[i].depth == 0
    requires Acyclic(Natives(ranges), relations) ==> Ranked(Natives(ranges), relations, rank)
    ensures HasDepths(ranges, relations)
  {
    hide Realised, NativeChain, Ranked;
    if Acyclic(Natives(ranges), relations) {
      forall i, chain | 0 <= i < |ranges| && NativeChain(Natives(ranges), relations, chain, i)
        ensures |chain| + 1 <= ranges[i].depth
      {
        DeeperThanChains(ranges, visit, relations, rank, chain, i);
      }
    }
  }

  /** Only native ranges are ever done. */
  lemma NonNativeKept(before: seq<Range>, visitBefore: seq<nat>, ranges: seq<Range>, visit: seq<nat>,
          relations: seq<Relation>, rank: seq<nat>)
    requires Visits(before, visitBefore, ranges, visit) && WellFormed(relations, |ranges|)
      && DepthsDone(ranges, visit, relations, rank)
    requires forall i | 0 <= i < |visitBefore| :: visitBefore[i] == UNVISITED || visitBefore[i] == DONE
    requires forall i | 0 <= i < |before| && !before[i].native :: before[i].depth == 0
    ensures forall i | 0 <= i < |ranges| && !ranges[i].native :: ranges[i].depth == 0
  {
    hide Ranked;
    forall i | 0 <= i < |ranges| && visit[i] == DONE ensures ranges[i].native {
      assert Realised(Natives(ranges), relations, i, ranges[i].depth);
    }
    forall i | 0 <= i < |ranges| ensures ranges[i].native == before[i].native {
      assert ranges[i] == before[i].(depth := ranges[i].depth);
    }
  }

  // The whole propagation

  /** The ranges with the masks they end with, but the escapes they began with. */
  function BeforeEscapes(before: seq<Range>, after: seq<Range>): seq<Range>
    requires |before| == |after|
  {
    seq(|after|, i requires 0 <= i < |after| => after[i].(escape := before[i].escape))
  }

  /** What a range ends with besides the propagated masks. */
  ghost predicate Finished(before: Range, after: Range, i: nat, relations: seq<Relation>) {
    && SamePlace(before, after)
    && after.semanticOutput == after.mayDef * after.liveAfter
    && after.targets == (if before.native then CallsFrom(relations, i) else 0)
    && forall s ::
       s in after.liveAfter
       <==> (s in before.liveAfter || exists r :: r in relations && r.callee == i && s in r.edge.liveAfter)
  }

  ghost predicate Propagated(before: seq<Range>, after: seq<Range>, relations: seq<Relation>) {
    && WellFormed(relations, |before|) && |after| == |before|
    && (forall i | 0 <= i < |after| :: Finished(before[i], after[i], i, relations))
    && (forall i, w, s | 0 <= i < |after| :: s in Mask(after[i], w) <==> Needs(before, relations, i, w, s))
    && (forall i, s | 0 <= i < |after| ::
       s in after[i].escape <==> Escapes(BeforeEscapes(before, after), relations, i, s))
    && HasDepths(after, relations)
  }

  ghost predicate PropagatedBy(before: seq<Range>, after: seq<Range>, edges: seq<CallEdge>, order: seq<nat>,
          starts: map<nat, nat>)
  {
    && Ordered(before, order) && IndexesStarts(before, starts)
    && Propagated(before, after, Accepted(before, order, starts, edges))
  }

  lemma {:induction false} NeedsSame(ranges: seq<Range>, ranges': seq<Range>, relations: seq<Relation>, chain: seq<nat>,
          i: nat, w: Which, s: nat)
    requires |ranges| == |ranges'| && WellFormed(relations, |ranges|) && i < |ranges|
    requires forall j | 0 <= j < |ranges| :: Mask(ranges[j], w) == Mask(ranges'[j], w)
    ensures NeedsVia(ranges, relations, chain, i, w, s) == NeedsVia(ranges', relations, chain, i, w, s)
    decreases |chain|
  {
    hide Mask;
    if chain != [] && chain[0] < |relations| {
      NeedsSame(ranges, ranges', relations, chain[1..], relations[chain[0]].callee, w, s);
    }
  }

  lemma {:induction false} EscapesSame(ranges: seq<Range>, ranges': seq<Range>, relations: seq<Relation>,
          chain: seq<nat>, i: nat, s: nat)
    requires |ranges| == |ranges'| && WellFormed(relations, |ranges|) && i < |ranges|
    requires forall j | 0 <= j < |ranges| ::
      ranges[j].escape == ranges'[j].escape && ranges[j].output == ranges'[j].output
      && ranges[j].native == ranges'[j].native
    ensures EscapesVia(ranges, relations, chain, i, s) == EscapesVia(ranges', relations, chain, i, s)
    decreases |chain|
  {
    if chain != [] && chain[0] < |relations| {
      EscapesSame(ranges, ranges', relations, chain[1..], relations[chain[0]].caller, s);
    }
  }

  /** `semantic_output_state`: the writes some caller still reads. */
  method SetOutputs(ranges: array<Range>)
    modifies ranges
    ensures forall i | 0 <= i < ranges.Length :: ranges[i] == WithOutput(old(ranges[i]))
  {
    for i := 0 to ranges.Length
      invariant forall j | 0 <= j < ranges.Length ::
        ranges[j] == if j < i then WithOutput(old(ranges[j])) else old(ranges[j])
    {
      ranges[i] := ranges[i].(semanticOutput := ranges[i].mayDef * ranges[i].liveAfter);
    }
  }

  function WithOutput(r: Range): Range { r.(semanticOutput := r.mayDef * r.liveAfter) }

  method PropagateAbis(ranges: array<Range>, edges: seq<CallEdge>)
    returns (ghost order: seq<nat>, ghost starts: map<nat, nat>)
    requires forall i | 0 <= i < ranges.Length :: ValidRange(ranges[i])
    modifies ranges
    ensures PropagatedBy(old(ranges[..]), ranges[..], edges, order, starts)
  {
    hide AllSlots, Prepared, ListsCallsOf, ListsCallsBy, Grown, Stable, EscapeGrown, EscapeStable, HasDepths, Accepted,
      IsCall;
    ghost var s0 := ranges[..];
    var sorted := SortByStart(ranges[..]);
    var index := IndexStarts(ranges[..]);
    order, starts := sorted, index;
    var relations, callers, callees := BuildRelations(ranges, sorted, index, edges);
    ghost var s1 := ranges[..];
    PreparedKeeps(s0, s1, relations);
    CalleesNative(s0, sorted, index, edges);
    SetOutputs(ranges);
    ghost var s2 := ranges[..];
    SpreadToCallers(ranges, relations, callers);
    ghost var s3 := ranges[..];
    SetOutputs(ranges);
    ghost var s4 := ranges[..];
    GrownKeeps(s2, s3, relations);
    assert Natives(s4) == Natives(s1);
    SpreadToCallees(ranges, relations, callees);
    ghost var s5 := ranges[..];
    NativeKept(s4, s5, relations);
    assert Natives(s5) == Natives(s1);
    EscapeKeeps(s4, s5, relations);
    ComputeDepths(ranges, relations, callees);
    Assemble(s0, s1, s2, s3, s4, s5, ranges[..], relations);
  }

  lemma PreparedKeeps(s0: seq<Range>, s1: seq<Range>, relations: seq<Relation>)
    requires |s0| == |s1| && forall i | 0 <= i < |s0| :: Prepared(s0[i], s1[i], i, relations)
    requires forall i | 0 <= i < |s0| :: ValidRange(s0[i])
    ensures forall i | 0 <= i < |s0| :: ValidRange(s1[i]) && s1[i].native == s0[i].native && s1[i].depth == 0
    ensures forall i | 0 <= i < |s0| :: ValidRange(WithOutput(s1[i]))
  {
    hide AllSlots;
    forall i | 0 <= i < |s0|
      ensures ValidRange(s1[i]) && s1[i].native == s0[i].native && s1[i].depth == 0 && ValidRange(WithOutput(s1[i]))
    {
      assert Prepared(s0[i], s1[i], i, relations) && ValidRange(s0[i]);
      forall w ensures Mask(s1[i], w) == Mask(s0[i], w) == Mask(WithOutput(s1[i]), w) {}
    }
  }

  lemma {:induction false} CalleesNative(ranges: seq<Range>, order: seq<nat>, starts: map<nat, nat>,
          edges: seq<CallEdge>)
    requires Ordered(ranges, order)
    ensures forall r | r in Accepted(ranges, order, starts, edges) :: r.callee < |ranges| && ranges[r.callee].native
  {
    if edges != [] { CalleesNative(ranges, order, starts, edges[..|edges| - 1]); }
  }

  lemma GrownKeeps(s2: seq<Range>, s3: seq<Range>, relations: seq<Relation>)
    requires WellFormed(relations, |s2|) && Grown(s2, s3, relations)
    ensures |s3| == |s2| && forall i | 0 <= i < |s2| :: ValidRange(WithOutput(s3[i])) && SameButMasks(s2[i], s3[i])
  {
    hide AllSlots, Needs;
    forall i | 0 <= i < |s2| ensures ValidRange(WithOutput(s3[i])) {
      assert ValidRange(s3[i]);
      forall w ensures Mask(s3[i], w) == Mask(WithOutput(s3[i]), w) {}
    }
  }

  lemma EscapeKeeps(s4: seq<Range>, s5: seq<Range>, relations: seq<Relation>)
    requires WellFormed(relations, |s4|) && EscapeGrown(s4, s5, relations)
    ensures |s5| == |s4| && forall i | 0 <= i < |s4| :: s5[i] == s4[i].(escape := s5[i].escape)
  {
  }

  /** The steps of the propagation together. */
  lemma Assemble(s0: seq<Range>, s1: seq<Range>, s2: seq<Range>, s3: seq<Range>, s4: seq<Range>, s5: seq<Range>,
          s6: seq<Range>, relations: seq<Relation>)
    requires WellFormed(relations, |s0|) && |s0| == |s1| == |s2| == |s3| == |s4| == |s5| == |s6|
    requires forall i | 0 <= i < |s0| :: Prepared(s0[i], s1[i], i, relations) && s2[i] == WithOutput(s1[i])
    requires Grown(s2, s3, relations) && Stable(s3, relations)
    requires forall i | 0 <= i < |s0| :: s4[i] == WithOutput(s3[i])
    requires EscapeGrown(s4, s5, relations) && EscapeStable(s5, relations)
    requires forall i | 0 <= i < |s0| :: s6[i] == s5[i].(depth := s6[i].depth)
    requires HasDepths(s6, relations)
    ensures Propagated(s0, s6, relations)
  {
    hide AllSlots, Needs, Escapes, Stable, EscapeStable, HasDepths;
    GrownKeeps(s2, s3, relations);
    EscapeKeeps(s4, s5, relations);
    forall i | 0 <= i < |s0|
      ensures Finished(s0[i], s6[i], i, relations)
      ensures forall w :: Mask(s6[i], w) == Mask(s3[i], w) && Mask(s2[i], w) == Mask(s0[i], w)
      ensures s6[i].escape == s5[i].escape && s4[i].escape == s0[i].escape
      ensures s4[i].output == s6[i].output && s4[i].native == s6[i].native
    {
      assert Prepared(s0[i], s1[i], i, relations) && SameButMasks(s2[i], s3[i]);
    }
    forall i, w, s | 0 <= i < |s0| ensures s in Mask(s6[i], w) <==> Needs(s0, relations, i, w, s) {
      MasksAreExact(s2, s3, relations, i, w, s);
      NeedsEqual(s0, s2, relations, i, w, s);
    }
    forall i, s | 0 <= i < |s0| ensures s in s6[i].escape <==> Escapes(BeforeEscapes(s0, s6), relations, i, s) {
      EscapesAreExact(s4, s5, relations, i, s);
      EscapesEqual(s4, BeforeEscapes(s0, s6), relations, i, s);
    }
  }

  lemma NeedsEqual(ranges: seq<Range>, ranges': seq<Range>, relations: seq<Relation>, i: nat, w: Which, s: nat)
    requires |ranges| == |ranges'| && WellFormed(relations, |ranges|) && i < |ranges|
    requires forall j | 0 <= j < |ranges| :: Mask(ranges[j], w) == Mask(ranges'[j], w)
    ensures Needs(ranges, relations, i, w, s) == Needs(ranges', relations, i, w, s)
  {
    hide Mask;
    forall chain ensures NeedsVia(ranges, relations, chain, i, w, s) == NeedsVia(ranges', relations, chain, i, w, s) {
      NeedsSame(ranges, ranges', relations, chain, i, w, s);
    }
  }

  lemma EscapesEqual(ranges: seq<Range>, ranges': seq<Range>, relations: seq<Relation>, i: nat, s: nat)
    requires |ranges| == |ranges'| && WellFormed(relations, |ranges|) && i < |ranges|
    requires forall j | 0 <= j < |ranges| ::
      ranges[j].escape == ranges'[j].escape && ranges[j].output == ranges'[j].output
      && ranges[j].native == ranges'[j].native
    ensures Escapes(ranges, relations, i, s) == Escapes(ranges', relations, i, s)
  {
    forall chain ensures EscapesVia(ranges, relations, chain, i, s) == EscapesVia(ranges', relations, chain, i, s) {
      EscapesSame(ranges, ranges', relations, chain, i, s);
    }
  }

  // Idempotence

  lemma ResultIsStable(before: seq<Range>, after: seq<Range>, relations: seq<Relation>)
    requires Propagated(before, after, relations)
    ensures Stable(after, relations) && EscapeStable(after, relations)
  {
    hide Needs, Escapes, HasDepths, Finished;
    forall r | 0 <= r < |relations| ensures Settled(after, relations[r]) && EscapeSettled(after, relations[r]) {
      var rel := relations[r];
      forall w, s | s in Mask(after[rel.callee], w) && Carries(rel, w, s) ensures s in Mask(after[rel.caller], w) {
        NeedsOfCallee(before, relations, r, w, s);
      }
      forall s | after[rel.caller].native && s in after[rel.caller].escape + after[rel.caller].output
        ensures s in after[rel.callee].escape
      {
        EscapesFromCaller(BeforeEscapes(before, after), relations, r, s);
      }
    }
  }

  lemma SameRelations(before: seq<Range>, once: seq<Range>, edges: seq<CallEdge>, order: seq<nat>,
          starts: map<nat, nat>, order': seq<nat>, starts': map<nat, nat>)
    requires Disjoint(before) && PropagatedBy(before, once, edges, order, starts)
    requires Ordered(once, order') && IndexesStarts(once, starts')
    ensures Accepted(once, order', starts', edges) == Accepted(before, order, starts, edges)
  {
    hide Needs, Escapes, HasDepths, Accepted, Disjoint, IndexesStarts;
    forall i | 0 <= i < |before| ensures SamePlace(before[i], once[i]) {
      assert Finished(before[i], once[i], i, Accepted(before, order, starts, edges));
    }
    AcceptedSame(before, once, order, order', starts, starts', edges);
  }

  lemma MasksStay(once: seq<Range>, twice: seq<Range>, relations: seq<Relation>, i: nat, w: Which)
    requires Propagated(once, twice, relations) && Stable(once, relations) && i < |once|
    ensures Mask(twice[i], w) == Mask(once[i], w)
  {
    hide Mask, Escapes, HasDepths, Finished, Stable;
    forall s ensures s in Mask(twice[i], w) <==> s in Mask(once[i], w) {
      if Needs(once, relations, i, w, s) {
        var chain :| NeedsVia(once, relations, chain, i, w, s);
        StableHolds(once, once, relations, chain, i, w, s);
      }
      if s in Mask(once[i], w) { NeedsItself(once, relations, i, w, s); }
    }
  }

  lemma EscapesStay(once: seq<Range>, twice: seq<Range>, relations: seq<Relation>, i: nat)
    requires Propagated(once, twice, relations) && EscapeStable(once, relations) && i < |once|
    requires forall j | 0 <= j < |once| :: twice[j].output == once[j].output && twice[j].native == once[j].native
    ensures twice[i].escape == once[i].escape
  {
    hide Needs, HasDepths, Finished, EscapeStable;
    var initial := BeforeEscapes(once, twice);
    forall s ensures s in twice[i].escape <==> s in once[i].escape {
      if Escapes(initial, relations, i, s) {
        var chain :| EscapesVia(initial, relations, chain, i, s);
        EscapeStableHolds(initial, once, relations, chain, i, s);
      }
      if s in once[i].escape { assert EscapesVia(initial, relations, [], i, s); }
    }
  }

  lemma LiveStays(before: Range, once: Range, twice: Range, i: nat, relations: seq<Relation>)
    requires Finished(before, once, i, relations) && Finished(once, twice, i, relations)
    ensures twice.liveAfter == once.liveAfter && twice.targets == once.targets && SamePlace(once, twice)
  {
  }

  /** Running the propagation on its own result changes no mask, no target count and no place. */
  lemma PropagationIsIdempotent(before: seq<Range>, once: seq<Range>, twice: seq<Range>, edges: seq<CallEdge>,
          order: seq<nat>, starts: map<nat, nat>, order': seq<nat>, starts': map<nat, nat>)
    requires Disjoint(before)
    requires PropagatedBy(before, once, edges, order, starts) && PropagatedBy(once, twice, edges, order', starts')
    ensures |twice| == |once| && forall i | 0 <= i < |once| :: twice[i] == once[i].(depth := twice[i].depth)
  {
    hide Needs, Escapes, HasDepths, Accepted, IndexesStarts, Disjoint, Finished;
    var relations := Accepted(before, order, starts, edges);
    SameRelations(before, once, edges, order, starts, order', starts');
    ResultIsStable(before, once, relations);
    forall j | 0 <= j < |once|
      ensures twice[j].liveAfter == once[j].liveAfter && twice[j].targets == once[j].targets
        && SamePlace(once[j], twice[j])
      ensures twice[j].output == once[j].output
    {
      LiveStays(before[j], once[j], twice[j], j, relations);
      MasksStay(once, twice, relations, j, Output);
    }
    forall i | 0 <= i < |once| ensures twice[i] == once[i].(depth := twice[i].depth) {
      MasksStay(once, twice, relations, i, SemanticInput);
      MasksStay(once, twice, relations, i, MayDef);
      MasksStay(once, twice, relations, i, Input);
      EscapesStay(once, twice, relations, i);
      OutputStays(before[i], once[i], twice[i], i, relations);
    }
  }

  lemma OutputStays(before: Range, once: Range, twice: Range, i: nat, relations: seq<Relation>)
    requires Finished(before, once, i, relations) && Finished(once, twice, i, relations)
    ensures twice.mayDef == once.mayDef ==> twice.semanticOutput == once.semanticOutput
  {
  }
}
