/** Function ranges, call edges and the relations `dolllvm_propagate_function_abis` builds from
    them (src/backend/llvm/abi_policy.cpp:48-105). */
module AbiRelations {
  import opened Wrappers
  import opened CallLiveness

  datatype Range = Range(
    start: nat, end: nat, native: bool,
    semanticInput: Slots, mayDef: Slots, input: Slots, output: Slots,
    liveAfter: Slots, semanticOutput: Slots, escape: Slots,
    targets: nat, depth: nat)

  datatype CallEdge = CallEdge(callerStart: nat, calleeAddress: nat, liveAfter: Slots, definedBefore: Slots)

  datatype Relation = Relation(caller: nat, callee: nat, edge: CallEdge)

  predicate Contains(r: Range, address: nat) { r.start <= address < r.end }

  /** Non-empty ranges of which no two share an address. */
  ghost predicate Disjoint(ranges: seq<Range>) {
    (forall i | 0 <= i < |ranges| :: ranges[i].start < ranges[i].end)
    && forall i, j, a: nat | 0 <= i < |ranges| && 0 <= j < |ranges| && Contains(ranges[i], a)
       && Contains(ranges[j], a) :: i == j
  }

  // Lookup

  /** `order` lists every range once, by ascending start; ties may fall either way. */
  ghost predicate Ordered(ranges: seq<Range>, order: seq<nat>) {
    && (forall k | 0 <= k < |order| :: order[k] < |ranges|)
    && (forall i: nat | i < |ranges| :: i in order)
    && (forall j, k | 0 <= j < k < |order| :: ranges[order[j]].start <= ranges[order[k]].start)
  }

  method SortByStart(ranges: seq<Range>) returns (order: seq<nat>)
    ensures Ordered(ranges, order) && |order| == |ranges|
  {
    order := [];
    for i := 0 to |ranges|
      invariant |order| == i
      invariant forall k | 0 <= k < |order| :: order[k] < |ranges|
      invariant forall j: nat | j < i :: j in order
      invariant forall j, k | 0 <= j < k < |order| :: ranges[order[j]].start <= ranges[order[k]].start
    {
      order := InsertByStart(ranges, order, i);
    }
  }

  method InsertByStart(ranges: seq<Range>, order: seq<nat>, i: nat) returns (after: seq<nat>)
    requires i < |ranges| && forall k | 0 <= k < |order| :: order[k] < |ranges|
    requires forall j, k | 0 <= j < k < |order| :: ranges[order[j]].start <= ranges[order[k]].start
    ensures |after| == |order| + 1 && forall k | 0 <= k < |after| :: after[k] < |ranges|
    ensures i in after && forall j | j in order :: j in after
    ensures forall j, k | 0 <= j < k < |after| :: ranges[after[j]].start <= ranges[after[k]].start
  {
    var at := |order|;
    while at > 0 && ranges[order[at - 1]].start > ranges[i].start
      invariant 0 <= at <= |order|
      invariant forall k | at <= k < |order| :: ranges[order[k]].start > ranges[i].start
    {
      at := at - 1;
    }
    after := order[..at] + [i] + order[at..];
    assert after[at] == i;
    forall j | j in order ensures j in after {
      var k :| 0 <= k < |order| && order[k] == j;
      assert after[if k < at then k else k + 1] == j;
    }
  }

  /** The range among the ordered ones with the greatest start not above the address, when it
      reaches the address. */
  function Holder(ranges: seq<Range>, order: seq<nat>, address: nat): Option<nat>
    requires forall k | 0 <= k < |order| :: order[k] < |ranges|
  {
    if order == [] then None
    else
      var last := order[|order| - 1];
      if ranges[last].start <= address then (if address < ranges[last].end then Some(last) else None)
      else Holder(ranges, order[..|order| - 1], address)
  }

  /** `containing`, with the binary search of `std::upper_bound`. */
  method Containing(ranges: seq<Range>, order: seq<nat>, address: nat) returns (index: Option<nat>)
    requires Ordered(ranges, order)
    ensures index == Holder(ranges, order, address)
  {
    var low, high := 0, |order|;
    while low < high
      invariant 0 <= low <= high <= |order|
      invariant forall k | 0 <= k < low :: ranges[order[k]].start <= address
      invariant forall k | high <= k < |order| :: address < ranges[order[k]].start
    {
      var mid := (low + high) / 2;
      if address < ranges[order[mid]].start { high := mid; } else { low := mid + 1; }
    }
    HolderAt(ranges, order, address, low);
    if low == 0 { return None; }
    var found := order[low - 1];
    index := if address < ranges[found].end then Some(found) else None;
  }

  lemma {:induction false} HolderAt(ranges: seq<Range>, order: seq<nat>, address: nat, position: nat)
    requires position <= |order| && forall k | 0 <= k < |order| :: order[k] < |ranges|
    requires forall k | 0 <= k < position :: ranges[order[k]].start <= address
    requires forall k | position <= k < |order| :: address < ranges[order[k]].start
    ensures Holder(ranges, order, address)
         == if position == 0 || address >= ranges[order[position - 1]].end then None else Some(order[position - 1])
  {
    if position < |order| {
      HolderAt(ranges, order[..|order| - 1], address, position);
    }
  }

  /** For disjoint ranges the search finds the one range that contains the address. */
  lemma {:induction false} HolderContains(ranges: seq<Range>, order: seq<nat>, address: nat, i: nat)
    requires Ordered(ranges, order) && Disjoint(ranges) && i < |ranges|
    ensures Holder(ranges, order, address) == Some(i) <==> Contains(ranges[i], address)
  {
    assert i in order;
    if Contains(ranges[i], address) {
      var k :| 0 <= k < |order| && order[k] == i;
      HolderAbove(ranges, order, address, i, k);
    } else {
      HolderHolds(ranges, order, address);
    }
  }

  lemma {:induction false} HolderHolds(ranges: seq<Range>, order: seq<nat>, address: nat)
    requires forall k | 0 <= k < |order| :: order[k] < |ranges|
    ensures var found := Holder(ranges, order, address);
      found.Some? ==> found.value < |ranges| && Contains(ranges[found.value], address)
  {
    if order != [] { HolderHolds(ranges, order[..|order| - 1], address); }
  }

  lemma {:induction false} HolderAbove(ranges: seq<Range>, order: seq<nat>, address: nat, i: nat, k: nat)
    requires Disjoint(ranges) && k < |order| && order[k] == i < |ranges| && Contains(ranges[i], address)
    requires forall j | 0 <= j < |order| :: order[j] < |ranges|
    requires forall j | k < j < |order| :: ranges[i].start <= ranges[order[j]].start
    ensures Holder(ranges, order, address) == Some(i)
  {
    var last := order[|order| - 1];
    if address < ranges[last].start {
      HolderAbove(ranges, order[..|order| - 1], address, i, k);
    } else {
      assert Contains(ranges[last], ranges[last].start) && Contains(ranges[i], ranges[last].start);
    }
  }

  // Relations

  /** `starts`: the first range with each start address. */
  ghost predicate IndexesStarts(ranges: seq<Range>, starts: map<nat, nat>) {
    && (forall i | 0 <= i < |ranges| :: ranges[i].start in starts && starts[ranges[i].start] <= i)
    && (forall a | a in starts :: starts[a] < |ranges| && ranges[starts[a]].start == a)
  }

  method IndexStarts(ranges: seq<Range>) returns (starts: map<nat, nat>)
    ensures IndexesStarts(ranges, starts)
  {
    starts := map[];
    for i := 0 to |ranges|
      invariant forall j | 0 <= j < i :: ranges[j].start in starts && starts[ranges[j].start] <= j
      invariant forall a | a in starts :: starts[a] < i && ranges[starts[a]].start == a
    {
      if ranges[i].start !in starts { starts := starts[ranges[i].start := i]; }
    }
  }

  /** The relation of an edge whose caller is a range start and whose callee lies in a native range. */
  function Resolve(ranges: seq<Range>, order: seq<nat>, starts: map<nat, nat>, edge: CallEdge): Option<Relation>
    requires forall k | 0 <= k < |order| :: order[k] < |ranges|
  {
    var callee := Holder(ranges, order, edge.calleeAddress);
    if edge.callerStart in starts && callee.Some? && callee.value < |ranges| && ranges[callee.value].native
    then Some(Relation(starts[edge.callerStart], callee.value, edge)) else None
  }

  /** The relations of the edges, in their order. */
  function Accepted(ranges: seq<Range>, order: seq<nat>, starts: map<nat, nat>, edges: seq<CallEdge>): seq<Relation>
    requires forall k | 0 <= k < |order| :: order[k] < |ranges|
  {
    if edges == [] then []
    else
      var found := Resolve(ranges, order, starts, edges[|edges| - 1]);
      Accepted(ranges, order, starts, edges[..|edges| - 1]) + if found.Some? then [found.value] else []
  }

  /** Between disjoint ranges a relation is an edge from the first range starting at its caller
      address to the native range containing its callee address. */
  ghost predicate IsCall(ranges: seq<Range>, rel: Relation) {
    && rel.caller < |ranges| && ranges[rel.caller].start == rel.edge.callerStart
    && (forall i | 0 <= i < rel.caller :: ranges[i].start != rel.edge.callerStart)
    && rel.callee < |ranges| && Contains(ranges[rel.callee], rel.edge.calleeAddress) && ranges[rel.callee].native
  }

  lemma {:induction false} AcceptedAreCalls(ranges: seq<Range>, order: seq<nat>, starts: map<nat, nat>,
          edges: seq<CallEdge>, rel: Relation)
    requires Ordered(ranges, order) && IndexesStarts(ranges, starts) && Disjoint(ranges)
    ensures rel in Accepted(ranges, order, starts, edges) <==> (rel.edge in edges && IsCall(ranges, rel))
  {
    if edges != [] {
      var last := edges[|edges| - 1];
      assert edges == edges[..|edges| - 1] + [last];
      AcceptedAreCalls(ranges, order, starts, edges[..|edges| - 1], rel);
      ResolvesCall(ranges, order, starts, rel);
    }
  }

  lemma ResolvesCall(ranges: seq<Range>, order: seq<nat>, starts: map<nat, nat>, rel: Relation)
    requires Ordered(ranges, order) && IndexesStarts(ranges, starts) && Disjoint(ranges)
    ensures Resolve(ranges, order, starts, rel.edge) == Some(rel) <==> IsCall(ranges, rel)
  {
    HolderHolds(ranges, order, rel.edge.calleeAddress);
    if rel.callee < |ranges| { HolderContains(ranges, order, rel.edge.calleeAddress, rel.callee); }
    if rel.caller < |ranges| && ranges[rel.caller].start == rel.edge.callerStart {
      assert starts[rel.edge.callerStart] <= rel.caller;
    }
  }

  /** The relations only depend on where the ranges lie and which are native. */
  lemma {:induction false} AcceptedSame(ranges: seq<Range>, ranges': seq<Range>, order: seq<nat>, order': seq<nat>,
          starts: map<nat, nat>, starts': map<nat, nat>, edges: seq<CallEdge>)
    requires |ranges| == |ranges'| && Disjoint(ranges)
    requires forall i | 0 <= i < |ranges| :: SamePlace(ranges[i], ranges'[i])
    requires Ordered(ranges, order) && IndexesStarts(ranges, starts)
    requires Ordered(ranges', order') && IndexesStarts(ranges', starts')
    ensures Accepted(ranges', order', starts', edges) == Accepted(ranges, order, starts, edges)
  {
    if edges != [] {
      AcceptedSame(ranges, ranges', order, order', starts, starts', edges[..|edges| - 1]);
      ResolveSame(ranges, ranges', order, order', starts, starts', edges[|edges| - 1]);
    }
  }

  predicate SamePlace(r: Range, r': Range) { r'.start == r.start && r'.end == r.end && r'.native == r.native }

  lemma ResolveSame(ranges: seq<Range>, ranges': seq<Range>, order: seq<nat>, order': seq<nat>, starts: map<nat, nat>,
          starts': map<nat, nat>, edge: CallEdge)
    requires |ranges| == |ranges'| && Disjoint(ranges)
    requires forall i | 0 <= i < |ranges| :: SamePlace(ranges[i], ranges'[i])
    requires Ordered(ranges, order) && IndexesStarts(ranges, starts)
    requires Ordered(ranges', order') && IndexesStarts(ranges', starts')
    ensures Resolve(ranges', order', starts', edge) == Resolve(ranges, order, starts, edge)
  {
    hide Holder, IndexesStarts;
    var found, found' := Resolve(ranges, order, starts, edge), Resolve(ranges', order', starts', edge);
    forall i, a: nat | 0 <= i < |ranges| ensures Contains(ranges'[i], a) == Contains(ranges[i], a) {}
    assert Disjoint(ranges');
    if found.Some? {
      ResolvesCall(ranges, order, starts, found.value);
      ResolvesCall(ranges', order', starts', found.value);
    } else if found'.Some? {
      ResolvesCall(ranges, order, starts, found'.value);
      ResolvesCall(ranges', order', starts', found'.value);
    }
  }

  ghost predicate WellFormed(relations: seq<Relation>, count: nat) {
    forall r | 0 <= r < |relations| :: relations[r].caller < count && relations[r].callee < count
  }

  /** The list holds the calls of a range, by relation index. */
  ghost predicate ListsCallsOf(list: seq<nat>, relations: seq<Relation>, callee: nat) {
    forall r: nat :: r in list <==> (r < |relations| && relations[r].callee == callee)
  }

  /** The list holds the calls a native range makes. */
  ghost predicate ListsCallsBy(list: seq<nat>, relations: seq<Relation>, caller: nat, native: bool) {
    forall r: nat :: r in list <==> (r < |relations| && relations[r].caller == caller && native)
  }

  ghost predicate ByCallee(relations: seq<Relation>, callers: seq<seq<nat>>) {
    forall c | 0 <= c < |callers| :: ListsCallsOf(callers[c], relations, c)
  }

  ghost predicate ByNativeCaller(native: seq<bool>, relations: seq<Relation>, callees: seq<seq<nat>>) {
    |callees| == |native| && forall c | 0 <= c < |callees| :: ListsCallsBy(callees[c], relations, c, native[c])
  }

  function CallsFrom(relations: seq<Relation>, caller: nat): nat {
    if relations == [] then 0
    else CallsFrom(relations[..|relations| - 1], caller) + if relations[|relations| - 1].caller == caller then 1 else 0
  }

  /** What preparing the relations leaves in a range: the state live after any call of it, and
      how many native calls it makes. */
  ghost predicate Prepared(before: Range, after: Range, i: nat, relations: seq<Relation>) {
    && after == before.(liveAfter := after.liveAfter, targets := after.targets, depth := 0)
    && after.targets == (if before.native then CallsFrom(relations, i) else 0)
    && forall s ::
       s in after.liveAfter
       <==> (s in before.liveAfter || exists r :: r in relations && r.callee == i && s in r.edge.liveAfter)
  }

  function Cleared(r: Range): Range { r.(targets := 0, depth := 0) }

  method ClearCounts(ranges: array<Range>)
    modifies ranges
    ensures forall i | 0 <= i < ranges.Length :: ranges[i] == Cleared(old(ranges[i]))
  {
    for i := 0 to ranges.Length
      invariant forall j | 0 <= j < ranges.Length ::
        ranges[j] == if j < i then Cleared(old(ranges[j])) else old(ranges[j])
    {
      ranges[i] := ranges[i].(targets := 0, depth := 0);
    }
  }

  lemma {:induction false} HolderSame(ranges: seq<Range>, ranges': seq<Range>, order: seq<nat>, address: nat)
    requires |ranges| == |ranges'| && forall k | 0 <= k < |order| :: order[k] < |ranges|
    requires forall i | 0 <= i < |ranges| :: ranges'[i].start == ranges[i].start && ranges'[i].end == ranges[i].end
    ensures Holder(ranges', order, address) == Holder(ranges, order, address)
  {
    if order != [] { HolderSame(ranges, ranges', order[..|order| - 1], address); }
  }

  /** One edge, between ranges that were `before` the edges. */
  method AddRelation(ranges: array<Range>, order: seq<nat>, starts: map<nat, nat>, edges: seq<CallEdge>, e: nat,
          ghost before: seq<Range>, relations: seq<Relation>, callers: seq<seq<nat>>, callees: seq<seq<nat>>)
    returns (relations': seq<Relation>, callers': seq<seq<nat>>, callees': seq<seq<nat>>)
    requires e < |edges| && |before| == ranges.Length && Ordered(before, order) && IndexesStarts(before, starts)
    requires relations == Accepted(before, order, starts, edges[..e]) && WellFormed(relations, ranges.Length)
    requires |callers| == ranges.Length && ByCallee(relations, callers)
    requires |callees| == ranges.Length && ByNativeCaller(Natives(before), relations, callees)
    requires forall i | 0 <= i < ranges.Length :: Prepared(before[i], ranges[i], i, relations)
    modifies ranges
    ensures relations' == Accepted(before, order, starts, edges[..e + 1]) && WellFormed(relations', ranges.Length)
    ensures |callers'| == ranges.Length && ByCallee(relations', callers')
    ensures |callees'| == ranges.Length && ByNativeCaller(Natives(before), relations', callees')
    ensures forall i | 0 <= i < ranges.Length :: Prepared(before[i], ranges[i], i, relations')
  {
    hide Prepared, Holder, ByCallee, ByNativeCaller, Accepted;
    var edge := edges[e];
    AcceptedMore(before, order, starts, edges[..e], edge);
    FindsSame(before, ranges[..], order, relations, edge.calleeAddress);
    var callee := Containing(ranges[..], order, edge.calleeAddress);
    HolderHolds(before, order, edge.calleeAddress);
    relations', callers', callees' := relations, callers, callees;
    assert edges[..e + 1] == edges[..e] + [edge];
    if edge.callerStart in starts && callee.Some? && ranges[callee.value].native {
      var rel := Relation(starts[edge.callerStart], callee.value, edge);
      relations' := relations + [rel];
      callers' := callers[rel.callee := callers[rel.callee] + [|relations|]];
      AddsCaller(relations, callers, rel);
      if ranges[rel.caller].native {
        callees' := callees[rel.caller := callees[rel.caller] + [|relations|]];
      }
      AddsCallee(Natives(before), relations, callees, rel);
      CountCall(ranges, rel, before, relations);
    }
  }

  lemma AcceptedMore(ranges: seq<Range>, order: seq<nat>, starts: map<nat, nat>, edges: seq<CallEdge>, edge: CallEdge)
    requires forall k | 0 <= k < |order| :: order[k] < |ranges|
    ensures var found := Resolve(ranges, order, starts, edge);
      Accepted(ranges, order, starts, edges + [edge])
        == Accepted(ranges, order, starts, edges) + if found.Some? then [found.value] else []
  {
    assert (edges + [edge])[..|edges|] == edges;
  }

  /** The counts do not move the ranges. */
  lemma FindsSame(before: seq<Range>, now: seq<Range>, order: seq<nat>, relations: seq<Relation>, address: nat)
    requires |before| == |now| && Ordered(before, order)
    requires forall i | 0 <= i < |now| :: Prepared(before[i], now[i], i, relations)
    ensures Ordered(now, order) && Holder(now, order, address) == Holder(before, order, address)
    ensures forall i | 0 <= i < |now| :: now[i].native == before[i].native
  {
    forall i | 0 <= i < |now|
      ensures now[i].start == before[i].start && now[i].end == before[i].end && now[i].native == before[i].native
    {
      assert Prepared(before[i], now[i], i, relations);
    }
    HolderSame(before, now, order, address);
  }

  lemma AddsCaller(relations: seq<Relation>, callers: seq<seq<nat>>, rel: Relation)
    requires ByCallee(relations, callers) && rel.callee < |callers|
    ensures ByCallee(relations + [rel], callers[rel.callee := callers[rel.callee] + [|relations|]])
  {
    hide ListsCallsOf;
    forall c | 0 <= c < |callers|
      ensures ListsCallsOf(if c == rel.callee then callers[c] + [|relations|] else callers[c], relations + [rel], c)
    {
      ListsOneMoreOf(callers[c], relations, rel, c);
    }
  }

  lemma ListsOneMoreOf(list: seq<nat>, relations: seq<Relation>, rel: Relation, c: nat)
    requires ListsCallsOf(list, relations, c)
    ensures ListsCallsOf(if c == rel.callee then list + [|relations|] else list, relations + [rel], c)
  {
    assert forall r: nat :: r in list + [|relations|] <==> (r in list || r == |relations|);
  }

  lemma AddsCallee(native: seq<bool>, relations: seq<Relation>, callees: seq<seq<nat>>, rel: Relation)
    requires ByNativeCaller(native, relations, callees) && rel.caller < |callees|
    ensures ByNativeCaller(native, relations + [rel],
      if native[rel.caller] then callees[rel.caller := callees[rel.caller] + [|relations|]] else callees)
  {
    hide ListsCallsBy;
    forall c | 0 <= c < |callees|
      ensures ListsCallsBy(if c == rel.caller && native[c] then callees[c] + [|relations|] else callees[c],
        relations + [rel], c, native[c])
    {
      ListsOneMoreBy(callees[c], relations, rel, c, native[c]);
    }
  }

  lemma ListsOneMoreBy(list: seq<nat>, relations: seq<Relation>, rel: Relation, c: nat, native: bool)
    requires ListsCallsBy(list, relations, c, native)
    ensures ListsCallsBy(if c == rel.caller && native then list + [|relations|] else list, relations + [rel], c, native)
  {
    assert forall r: nat :: r in list + [|relations|] <==> (r in list || r == |relations|);
  }

  method CountCall(ranges: array<Range>, rel: Relation, ghost before: seq<Range>, ghost relations: seq<Relation>)
    requires |before| == ranges.Length && rel.caller < ranges.Length && rel.callee < ranges.Length
    requires forall i | 0 <= i < ranges.Length :: Prepared(before[i], ranges[i], i, relations)
    modifies ranges
    ensures forall i | 0 <= i < ranges.Length :: Prepared(before[i], ranges[i], i, relations + [rel])
  {
    hide Prepared;
    ghost var start := ranges[..];
    if ranges[rel.caller].native {
      ranges[rel.caller] := ranges[rel.caller].(targets := ranges[rel.caller].targets + 1);
    }
    ranges[rel.callee] := ranges[rel.callee].(liveAfter := ranges[rel.callee].liveAfter + rel.edge.liveAfter);
    forall i | 0 <= i < ranges.Length ensures Prepared(before[i], ranges[i], i, relations + [rel]) {
      PreparesMore(before[i], start[i], i, relations, rel);
    }
  }

  lemma PreparesMore(before: Range, now: Range, i: nat, relations: seq<Relation>, rel: Relation)
    requires Prepared(before, now, i, relations)
    ensures Prepared(before,
      now.(targets := if i == rel.caller && now.native then now.targets + 1 else now.targets,
           liveAfter := if i == rel.callee then now.liveAfter + rel.edge.liveAfter else now.liveAfter),
      i, relations + [rel])
  {
    assert (relations + [rel])[..|relations|] == relations;
  }

  method BuildRelations(ranges: array<Range>, order: seq<nat>, starts: map<nat, nat>, edges: seq<CallEdge>)
    returns (relations: seq<Relation>, callers: seq<seq<nat>>, callees: seq<seq<nat>>)
    requires Ordered(ranges[..], order) && IndexesStarts(ranges[..], starts)
    modifies ranges
    ensures relations == Accepted(old(ranges[..]), order, starts, edges) && WellFormed(relations, ranges.Length)
    ensures |callers| == ranges.Length && ByCallee(relations, callers)
    ensures ByNativeCaller(Natives(ranges[..]), relations, callees)
    ensures forall i | 0 <= i < ranges.Length :: Prepared(old(ranges[i]), ranges[i], i, relations)
  {
    ghost var before := ranges[..];
    ClearCounts(ranges);
    relations, callers, callees := [], seq(ranges.Length, _ => []), seq(ranges.Length, _ => []);
    for e := 0 to |edges|
      invariant relations == Accepted(before, order, starts, edges[..e]) && WellFormed(relations, ranges.Length)
      invariant |callers| == ranges.Length && ByCallee(relations, callers)
      invariant |callees| == ranges.Length && ByNativeCaller(Natives(before), relations, callees)
      invariant forall i | 0 <= i < ranges.Length :: Prepared(before[i], ranges[i], i, relations)
    {
      relations, callers, callees := AddRelation(ranges, order, starts, edges, e, before, relations, callers, callees);
    }
    assert edges[..|edges|] == edges;
  }

  function Natives(ranges: seq<Range>): (natives: seq<bool>)
    ensures |natives| == |ranges| && forall i | 0 <= i < |ranges| :: natives[i] == ranges[i].native
  {
    seq(|ranges|, i requires 0 <= i < |ranges| => ranges[i].native)
  }
}
