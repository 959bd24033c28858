/** Which lists of functions become the range table of a native module (`find_llvm_range` and
    `emit_ranges` in src/backend/native_module.c): the table is refused unless every function is found
    by its start, which puts the functions of ranges that do not overlap in order. */
module NativeRanges {
  import opened Wrappers
  import opened Partition

  /** The lower bound of a start between two positions. */
  function StartSearch(ranges: seq<Cut>, start: nat, first: nat, last: nat): (at: nat)
    requires first <= last <= |ranges|
    ensures first <= at <= last
    decreases last - first
  {
    if first == last then first
    else
      var middle := Middle(first, last);
      if ranges[middle].start < start then StartSearch(ranges, start, middle + 1, last)
      else StartSearch(ranges, start, first, middle)
  }

  function FindStart(ranges: seq<Cut>, start: nat): (found: Option<nat>)
    ensures found.Some? ==> found.value < |ranges| && ranges[found.value].start == start
  {
    var at := StartSearch(ranges, start, 0, |ranges|);
    if at < |ranges| && ranges[at].start == start then Some(at) else None
  }

  /** `find_llvm_range` */
  method FindLlvmRange(ranges: seq<Cut>, start: nat) returns (found: Option<nat>)
    ensures found == FindStart(ranges, start)
  {
    var first, last := 0, |ranges|;
    while first < last
      invariant 0 <= first <= last <= |ranges|
      invariant StartSearch(ranges, start, first, last) == StartSearch(ranges, start, 0, |ranges|)
    {
      var middle := first + (last - first) / 2;
      if ranges[middle].start < start { first := middle + 1; } else { last := middle; }
    }
    found := if first < |ranges| && ranges[first].start == start then Some(first) else None;
  }

  ghost predicate Accepted(functions: seq<Cut>, ranges: seq<Cut>) {
    forall k | 0 <= k < |functions| :: FindStart(ranges, functions[k].start).Some?
  }

  /** `emit_ranges`: the table is the list of functions as given, unless one of them is not found. */
  method EmitRanges(functions: seq<Cut>, ranges: seq<Cut>) returns (table: Option<seq<Cut>>)
    ensures table.Some? <==> Accepted(functions, ranges)
    ensures table.Some? ==> table.value == functions
  {
    var emitted: seq<Cut> := [];
    for k := 0 to |functions|
      invariant emitted == functions[..k] && forall j | 0 <= j < k :: FindStart(ranges, functions[j].start).Some?
    {
      var found := FindLlvmRange(ranges, functions[k].start);
      if found.None? { return None; }
      emitted := emitted + [functions[k]];
    }
    table := Some(emitted);
  }

  /** The functions are some of the ranges, in the order of the ranges: those that are native or
      patched. */
  ghost predicate Lists(functions: seq<Cut>, ranges: seq<Cut>, at: seq<nat>) {
    && |at| == |functions| && (forall k | 0 <= k < |at| :: at[k] < |ranges| && functions[k] == ranges[at[k]])
    && forall j, k | 0 <= j < k < |at| :: at[j] < at[k]
  }

  /** Of two ranges found where they are, the first starts first: at the middle that parts them one
      search turns left and the other right. */
  lemma {:induction false} FoundStartsAscend(ranges: seq<Cut>, first: nat, last: nat, j: nat, k: nat)
    requires first <= j < k <= last <= |ranges| && k < |ranges|
    requires StartSearch(ranges, ranges[j].start, first, last) == j
    requires StartSearch(ranges, ranges[k].start, first, last) == k
    ensures ranges[j].start <= ranges[k].start
    decreases last - first
  {
    var middle := Middle(first, last);
    if k <= middle {
      FoundStartsAscend(ranges, first, middle, j, k);
    } else if j > middle {
      FoundStartsAscend(ranges, middle + 1, last, j, k);
    }
  }

  lemma StartIsOnce(ranges: seq<Cut>, j: nat, i: nat)
    requires NonEmpty(ranges) && NoneOverlap(ranges) && j < |ranges| && i < |ranges|
    requires ranges[i].start == ranges[j].start
    ensures i == j
  {
    assert ContainedOnce(ranges, ranges[j].start);
    assert Contains(ranges[i], ranges[j].start) && Contains(ranges[j], ranges[j].start);
  }

  /** The table of a native module is in the order its searches need when no two ranges overlap. */
  lemma AcceptedAscends(functions: seq<Cut>, ranges: seq<Cut>, at: seq<nat>)
    requires NonEmpty(ranges) && NoneOverlap(ranges) && Lists(functions, ranges, at)
    requires Accepted(functions, ranges)
    ensures InOrder(functions) && NoneOverlap(functions)
  {
    hide StartSearch, NoneOverlap;
    forall k | 0 <= k < |functions| ensures StartSearch(ranges, ranges[at[k]].start, 0, |ranges|) == at[k] {
      assert FindStart(ranges, functions[k].start).Some?;
      StartIsOnce(ranges, at[k], FindStart(ranges, functions[k].start).value);
    }
    forall j, k | 0 <= j < k < |functions| ensures functions[j].end <= functions[k].start {
      FoundStartsAscend(ranges, 0, |ranges|, at[j], at[k]);
      NeighboursApart(ranges, at[j], at[k]);
    }
    OrderedApart(functions);
  }

  lemma NeighboursApart(ranges: seq<Cut>, i: nat, j: nat)
    requires NonEmpty(ranges) && NoneOverlap(ranges) && i < |ranges| && j < |ranges| && i != j
    requires ranges[i].start <= ranges[j].start
    ensures ranges[i].end <= ranges[j].start
  {
    assert ContainedOnce(ranges, ranges[j].start);
    assert Contains(ranges[j], ranges[j].start);
  }

  lemma OrderedApart(ranges: seq<Cut>)
    requires InOrder(ranges)
    ensures NoneOverlap(ranges)
  {
  }

  lemma {:induction false} AscendingStarts(ranges: seq<Cut>, first: nat, last: nat, k: nat)
    requires first <= k <= last <= |ranges| && k < |ranges| && NonEmpty(ranges) && Ascends(ranges, 0, |ranges|)
    ensures StartSearch(ranges, ranges[k].start, first, last) == k
    decreases last - first
  {
    if first < last {
      var middle := Middle(first, last);
      if middle < k {
        AscendingStarts(ranges, middle + 1, last, k);
      } else {
        AscendingStarts(ranges, first, middle, k);
      }
    }
  }

  /** A list of ranges of which no two overlap is accepted as a whole if and only if it ascends. */
  lemma AcceptsAllIff(ranges: seq<Cut>)
    requires NonEmpty(ranges) && NoneOverlap(ranges)
    ensures Accepted(ranges, ranges) <==> InOrder(ranges)
  {
    hide StartSearch, NoneOverlap;
    if Accepted(ranges, ranges) {
      var at := seq(|ranges|, i => i);
      AcceptedAscends(ranges, ranges, at);
    }
    if InOrder(ranges) {
      forall k | 0 <= k < |ranges| ensures FindStart(ranges, ranges[k].start).Some? {
        AscendingStarts(ranges, 0, |ranges|, k);
      }
    }
  }

  /** Descending sections give no native module. */
  lemma DescendingIsRefused()
    ensures !Accepted(DescendingRanges(), DescendingRanges())
  {
    DescendingIsMissed();
    var all := DescendingRanges();
    assert all[0].end > all[1].start;
    AcceptsAllIff(all);
  }

  /** The ranges of two sections that are each loaded twice. */
  function RepeatedRanges(): seq<Cut> {
    var a, b := Cut(0x8000_3000, 0x8000_3020), Cut(0x8000_4000, 0x8000_4020);
    [a, b, a, b]
  }

  /** They overlap, are not in order, and are accepted. */
  lemma RepeatedIsAccepted()
    ensures Accepted(RepeatedRanges(), RepeatedRanges()) && !InOrder(RepeatedRanges())
  {
    var all := RepeatedRanges();
    assert all[1].end > all[2].start;
    assert StartSearch(all, 0x8000_3000, 0, 1) == 0;
    assert StartSearch(all, 0x8000_3000, 0, 2) == 0;
    assert StartSearch(all, 0x8000_4000, 3, 4) == 3;
  }
}
