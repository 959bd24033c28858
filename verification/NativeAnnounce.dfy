/** What an invalidation bumps: over every interleaving each range its walk comes to, once, and no other.
    For ranges that ascend without overlap those are the ranges the write overlaps. */
module NativeAnnounce {
  import Partition
  import NativeHonesty
  import opened NativeValidation

  // Where the search ends

  /** On any list the search stops behind a range that ends by the address and before one that does not. */
  lemma {:induction false} SearchStops(ranges: seq<Range>, address: nat, first: nat, last: nat)
    requires first <= last <= |ranges|
    ensures var at := EndSearch(ranges, address, first, last);
      (first < at ==> ranges[at - 1].end <= address) && (at < last ==> address < ranges[at].end)
    decreases last - first
  {
    if first < last {
      var middle := first + (last - first) / 2;
      if ranges[middle].end <= address {
        SearchStops(ranges, address, middle + 1, last);
      } else {
        SearchStops(ranges, address, first, middle);
      }
    }
  }

  /** Where ranges ascend, those before the first end by the address and those from it on do not. */
  lemma FirstAfterParts(ranges: seq<Range>, address: nat, k: nat)
    requires ValidRanges(ranges) && Partition.InOrder(NativeHonesty.Extents(ranges)) && k < |ranges|
    ensures k < FirstAfter(ranges, address) <==> ranges[k].end <= address
  {
    var at, cuts := FirstAfter(ranges, address), NativeHonesty.Extents(ranges);
    SearchStops(ranges, address, 0, |ranges|);
    assert k < at - 1 ==> cuts[k].end <= cuts[at - 1].start;
    assert at < k ==> cuts[at].end <= cuts[k].start;
  }

  /** Bytes of the range lie between the first address of the write and its end. */
  predicate Overlaps(address: nat, size: nat, r: Range) { address < r.end && r.start < WriteEnd(address, size) }

  /** A walk over ascending ranges comes to exactly those the write overlaps. */
  lemma VisitsIsOverlap(ranges: seq<Range>, address: nat, size: nat, k: nat)
    requires ValidRanges(ranges) && Partition.InOrder(NativeHonesty.Extents(ranges)) && k < |ranges|
    ensures Visits(ranges, address, size, k) <==> Overlaps(address, size, ranges[k])
    ensures size > 0 ==> (Visits(ranges, address, size, k) <==> Hits(address, size, ranges[k]))
  {
    hide FirstAfter, Partition.InOrder;
    FirstAfterParts(ranges, address, k);
    if Overlaps(address, size, ranges[k]) {
      forall i | FirstAfter(ranges, address) <= i <= k ensures ranges[i].start < WriteEnd(address, size) {
        StartsAscend(ranges, i, k);
      }
    }
  }

  lemma StartsAscend(ranges: seq<Range>, i: nat, k: nat)
    requires ValidRanges(ranges) && Partition.InOrder(NativeHonesty.Extents(ranges)) && i <= k < |ranges|
    ensures ranges[i].start <= ranges[k].start
  {
    var cuts := NativeHonesty.Extents(ranges);
    assert i < k ==> cuts[i].end <= cuts[k].start;
  }

  // One invalidation in an interleaving

  predicate Walking(th: Thread, address: nat, size: nat) {
    (th.Invalidating? || th.Bumping? || th.Adding?) && th.address == address && th.size == size
  }

  /** Thread `t` goes from the search of an invalidation to its end, among steps of any threads. */
  ghost predicate Invalidation(ranges: seq<Range>, run: seq<State>, t: nat, address: nat, size: nat) {
    && |run| > 1 && (forall j | 0 <= j < |run| :: t < |run[j].threads|)
    && (forall j | 0 < j < |run| :: Next(ranges, run[j - 1], run[j]))
    && (forall j | 0 <= j < |run| - 1 :: Walking(run[j].threads[t], address, size))
    && run[0].threads[t].Invalidating? && run[0].threads[t].index == FirstAfter(ranges, address)
    && run[|run| - 1].threads[t].Idle?
  }

  /** A compare-and-swap of the thread on the word of range `k` has gone through. */
  predicate Bumped(th: Thread, th': Thread, k: nat) { th.Bumping? && th.index == k && !th'.Bumping? }

  /** How often the thread has bumped range `k`. */
  function Bumpings(run: seq<State>, t: nat, k: nat): nat
    requires forall j | 0 <= j < |run| :: t < |run[j].threads|
  {
    if |run| <= 1 then 0
    else
      var last := |run| - 1;
      Bumpings(run[..last], t, k) + if Bumped(run[last - 1].threads[t], run[last].threads[t], k) then 1 else 0
  }

  /** The first range still to be visited. */
  function Ahead(th: Thread): nat
    requires th.Invalidating? || th.Bumping? || th.Adding?
  {
    if th.Adding? then th.index + 1 else th.index
  }

  /** The walk has not gone beyond the ranges that start inside the write. */
  ghost predicate OnTheWay(ranges: seq<Range>, th: Thread, address: nat, size: nat) {
    && Walking(th, address, size) && FirstAfter(ranges, address) <= th.index
    && forall i | FirstAfter(ranges, address) <= i < |ranges|
       && (i < th.index || (i == th.index && !th.Invalidating?)) ::
         ranges[i].start < WriteEnd(address, size)
  }

  predicate StopsAt(ranges: seq<Range>, index: nat, address: nat, size: nat) {
    index >= |ranges| || ranges[index].start >= WriteEnd(address, size)
  }

  lemma WalkMoves(ranges: seq<Range>, s: State, s': State, t: nat, address: nat, size: nat)
    requires Next(ranges, s, s') && t < |s.threads| && t < |s'.threads|
    requires OnTheWay(ranges, s.threads[t], address, size)
    ensures var (th, th') := (s.threads[t], s'.threads[t]);
      if Walking(th', address, size) then
        OnTheWay(ranges, th', address, size) && Ahead(th') == Ahead(th) + if Bumped(th, th', th.index) then 1 else 0
      else th.Invalidating? && StopsAt(ranges, th.index, address, size)
  {
    hide FirstAfter, WriteEnd;
    var u :| StepOf(ranges, s, s', u);
    if u != t { assert s'.threads[t] == s.threads[t]; }
  }

  /** On the way each range behind has been bumped once, and no other. */
  lemma {:induction false} BumpedBehind(ranges: seq<Range>, run: seq<State>, t: nat, address: nat, size: nat, k: nat)
    requires run != [] && (forall j | 0 <= j < |run| :: t < |run[j].threads|)
    requires forall j | 0 < j < |run| :: Next(ranges, run[j - 1], run[j])
    requires forall j | 0 <= j < |run| :: Walking(run[j].threads[t], address, size)
    requires run[0].threads[t].Invalidating? && run[0].threads[t].index == FirstAfter(ranges, address)
    ensures var th := run[|run| - 1].threads[t];
      OnTheWay(ranges, th, address, size)
      && Bumpings(run, t, k) == if FirstAfter(ranges, address) <= k < Ahead(th) then 1 else 0
  {
    hide FirstAfter, WriteEnd, Next, OnTheWay;
    var last := |run| - 1;
    if last == 0 {
      Sets(ranges, run[0].threads[t], address, size);
    } else {
      BumpedBehind(ranges, run[..last], t, address, size, k);
      WalkMoves(ranges, run[last - 1], run[last], t, address, size);
      AheadIs(ranges, run[last - 1].threads[t], address, size);
    }
  }

  lemma Sets(ranges: seq<Range>, th: Thread, address: nat, size: nat)
    requires Walking(th, address, size) && th.Invalidating? && th.index == FirstAfter(ranges, address)
    ensures OnTheWay(ranges, th, address, size)
  {
  }

  lemma AheadIs(ranges: seq<Range>, th: Thread, address: nat, size: nat)
    requires OnTheWay(ranges, th, address, size)
    ensures FirstAfter(ranges, address) <= th.index <= Ahead(th)
  {
  }

  /** An invalidation bumps every range its walk visits, once, and no other, whatever runs beside it. */
  lemma BumpsVisited(ranges: seq<Range>, run: seq<State>, t: nat, address: nat, size: nat, k: nat)
    requires Invalidation(ranges, run, t, address, size) && k < |ranges|
    ensures Bumpings(run, t, k) == if Visits(ranges, address, size, k) then 1 else 0
  {
    hide FirstAfter, WriteEnd, Next;
    var last := |run| - 1;
    var th := run[last - 1].threads[t];
    BumpedBehind(ranges, run[..last], t, address, size, k);
    WalkMoves(ranges, run[last - 1], run[last], t, address, size);
  }

  /** Where ranges ascend without overlap it bumps exactly those the write overlaps. */
  lemma BumpsOverlapped(ranges: seq<Range>, run: seq<State>, t: nat, address: nat, size: nat, k: nat)
    requires ValidRanges(ranges) && Partition.InOrder(NativeHonesty.Extents(ranges)) && k < |ranges|
    requires Invalidation(ranges, run, t, address, size)
    ensures Bumpings(run, t, k) == if Overlaps(address, size, ranges[k]) then 1 else 0
  {
    hide Invalidation, Bumpings, Visits, Partition.InOrder;
    BumpsVisited(ranges, run, t, address, size, k);
    VisitsIsOverlap(ranges, address, size, k);
  }

  // Ranges no write comes to

  /** In a reachable state a thread bumps only where its walk goes. */
  lemma BumpsWhereItGoes(ranges: seq<Range>, th: Thread)
    requires WriterOk(ranges, th) && th.Bumping?
    ensures th.index < |ranges| && Visits(ranges, th.address, th.size, th.index)
  {
    hide FirstAfter, WriteEnd;
  }

  /** No writer's write overlaps the range. */
  predicate LeftAlone(s: State, r: Range) {
    forall t | 0 <= t < |s.threads| && s.threads[t].Writer() :: !Overlaps(s.threads[t].address, s.threads[t].size, r)
  }

  lemma StepKeepsRange(ranges: seq<Range>, s: State, s': State, k: nat)
    requires ValidRanges(ranges) && Partition.InOrder(NativeHonesty.Extents(ranges)) && k < |ranges|
    requires Inv(ranges, s) && Next(ranges, s, s') && LeftAlone(s, ranges[k])
    ensures |s'.words| == |s'.versions| == |ranges| && s'.versions[k] == s.versions[k]
    ensures s.words[k].status != DIRTY ==> s'.words[k] == s.words[k]
  {
    hide FirstAfter, Covers, Pending, HashOf, Count, WriteEnd, Visits, Partition.InOrder;
    var t: nat :| StepOf(ranges, s, s', t);
    var th := s.threads[t];
    assert ValidatorOk(ranges, s, th) && WriterOk(ranges, th);
    if th.Bumping? {
      BumpsWhereItGoes(ranges, th);
      VisitsIsOverlap(ranges, th.address, th.size, th.index);
    }
  }

  /** Over ranges that ascend without overlap, a range that no write overlaps keeps its version, and once
      validated its word, whatever writes and validations run. */
  lemma {:induction false} UntouchedIsKept(ranges: seq<Range>, run: seq<State>, from: nat, k: nat)
    requires ValidRanges(ranges) && Partition.InOrder(NativeHonesty.Extents(ranges)) && k < |ranges|
    requires Run(ranges, run) && from < |run|
    requires forall j | from <= j < |run| :: LeftAlone(run[j], ranges[k])
    ensures var (s, s') := (run[from], run[|run| - 1]);
      |s.words| == |s.versions| == |s'.words| == |s'.versions| == |ranges| && s'.versions[k] == s.versions[k]
      && (s.words[k].status != DIRTY ==> s'.words[k] == s.words[k])
  {
    hide Inv, Next, Reset, LeftAlone, Partition.InOrder;
    var last := |run| - 1;
    RunKeepsInv(ranges, run);
    InvShape(ranges, run[last]);
    if from < last {
      UntouchedIsKept(ranges, run[..last], from, k);
      RunKeepsInv(ranges, run[..last]);
      StepKeepsRange(ranges, run[last - 1], run[last], k);
    }
  }

  lemma InvShape(ranges: seq<Range>, s: State)
    requires ValidRanges(ranges) && Inv(ranges, s)
    ensures |s.words| == |s.versions| == |ranges|
  {
  }
}
