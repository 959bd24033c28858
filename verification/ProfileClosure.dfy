/** The closures of profile-driven range selection (src/app/pipeline.c:861-889, 1012-1167): what
    is reached, and that the queue holds every selected range once. */
module ProfileClosure {
  import opened Wrappers
  import opened Partition
  import opened ProfileSeeds

  // The queue

  /** Every selected range is queued once, except the seeds still to be queued. */
  ghost predicate QueueOk(selected: seq<bool>, queue: seq<nat>, pending: set<nat>) {
    && (forall k | 0 <= k < |queue| :: queue[k] < |selected|)
    && (forall j, k | 0 <= j < k < |queue| :: queue[j] != queue[k])
    && (forall i: nat | i < |selected| :: selected[i] <==> (i in queue || i in pending))
    && (forall i | i in pending :: i < |selected| && i !in queue)
  }

  lemma QueueHasRoom(selected: seq<bool>, queue: seq<nat>, pending: set<nat>, i: nat)
    requires QueueOk(selected, queue, pending) && i < |selected| && i !in queue
    ensures |queue| < |selected|
  {
    DistinctBounded(queue + [i], |selected|);
  }

  ghost function Chosen(selected: seq<bool>): set<nat> { set i: nat | i < |selected| && selected[i] }

  /** Select a range and queue it, unless it is selected. */
  method Select(selected: array<bool>, queue: array<nat>, count: nat, index: nat, ghost pending: set<nat>)
    returns (count': nat)
    requires queue.Length == selected.Length && count <= queue.Length && index < selected.Length
    requires QueueOk(selected[..], queue[..count], pending)
    modifies selected, queue
    ensures count <= count' <= queue.Length && queue[..count] == old(queue[..count])
    ensures QueueOk(selected[..], queue[..count'], pending)
    ensures Chosen(selected[..]) == old(Chosen(selected[..])) + {index}
  {
    count' := count;
    if !selected[index] {
      QueueHasRoom(selected[..], queue[..count], pending, index);
      ghost var before := queue[..count];
      selected[index] := true;
      queue[count] := index;
      count' := count + 1;
      assert queue[..count'] == before + [index];
    }
  }

  // Neighbours

  predicate Joined(ranges: seq<Cut>, k: nat) { k + 1 < |ranges| && ranges[k].end == ranges[k + 1].start }

  /** Ranges `low..high` adjoin one another. */
  ghost predicate Adjoin(ranges: seq<Cut>, low: nat, high: nat) {
    low <= high < |ranges| && forall k: nat | low <= k < high :: Joined(ranges, k)
  }

  /** At most `steps` adjoining ranges away. */
  ghost predicate Near(ranges: seq<Cut>, seed: nat, i: nat, steps: nat) {
    if i <= seed then seed - i <= steps && Adjoin(ranges, i, seed) else i - seed <= steps && Adjoin(ranges, seed, i)
  }

  ghost function Neighbours(ranges: seq<Cut>, seed: nat, steps: nat): set<nat> {
    set i: nat | i < |ranges| && Near(ranges, seed, i, steps)
  }

  /** How far the adjoining ranges have been followed to the left and right. */
  ghost predicate Followed(ranges: seq<Cut>, seed: nat, left: nat, right: nat, steps: nat) {
    && left <= seed <= right < |ranges| && Adjoin(ranges, left, seed) && Adjoin(ranges, seed, right)
    && seed - left <= steps && right - seed <= steps
    && (seed - left < steps ==> left == 0 || !Joined(ranges, left - 1))
    && (right - seed < steps ==> !Joined(ranges, right))
  }

  lemma FollowedIsNear(ranges: seq<Cut>, seed: nat, left: nat, right: nat, steps: nat, i: nat)
    requires Followed(ranges, seed, left, right, steps) && i < |ranges|
    ensures Near(ranges, seed, i, steps) <==> left <= i <= right
  {
  }

  predicate Between(left: nat, i: nat, right: nat) { left <= i <= right }

  ghost function Stretch(left: nat, right: nat): set<nat> { set i: nat | i <= right && Between(left, i, right) }

  ghost function SetOf(list: seq<nat>): set<nat> { set i | i in list }

  /** One step to both sides. */
  method AddPair(ranges: seq<Cut>, seed: nat, left: nat, right: nat, step: nat, selected: array<bool>,
          queue: array<nat>, count: nat, ghost pending: set<nat>)
    returns (left': nat, right': nat, count': nat)
    requires queue.Length == selected.Length == |ranges| && count <= queue.Length
    requires QueueOk(selected[..], queue[..count], pending) && Followed(ranges, seed, left, right, step)
    modifies selected, queue
    ensures count <= count' <= queue.Length && queue[..count] == old(queue[..count])
    ensures QueueOk(selected[..], queue[..count'], pending) && Followed(ranges, seed, left', right', step + 1)
    ensures left' <= left && right <= right'
    ensures Chosen(selected[..]) == old(Chosen(selected[..])) + (Stretch(left', right') - Stretch(left, right))
  {
    hide QueueOk, Chosen;
    left', right', count' := left, right, count;
    if left > 0 && ranges[left - 1].end == ranges[left].start {
      left' := left - 1;
      count' := Select(selected, queue, count', left', pending);
    }
    if right + 1 < |ranges| && ranges[right].end == ranges[right + 1].start {
      right' := right + 1;
      count' := Select(selected, queue, count', right', pending);
    }
  }

  method AddNeighbours(ranges: seq<Cut>, seed: nat, steps: nat, selected: array<bool>, queue: array<nat>, count: nat,
          ghost pending: set<nat>)
    returns (count': nat)
    requires queue.Length == selected.Length == |ranges| && count <= queue.Length && seed < |ranges|
    requires QueueOk(selected[..], queue[..count], pending) && selected[seed]
    modifies selected, queue
    ensures count <= count' <= queue.Length && queue[..count] == old(queue[..count])
    ensures QueueOk(selected[..], queue[..count'], pending)
    ensures Chosen(selected[..]) == old(Chosen(selected[..])) + Neighbours(ranges, seed, steps)
  {
    hide QueueOk;
    count' := count;
    var left: nat, right: nat := seed, seed;
    ghost var start := Chosen(selected[..]);
    for step := 0 to steps
      invariant count <= count' <= queue.Length && queue[..count] == old(queue[..count])
      invariant QueueOk(selected[..], queue[..count'], pending) && Followed(ranges, seed, left, right, step)
      invariant Chosen(selected[..]) == start + Stretch(left, right)
    {
      left, right, count' := AddPair(ranges, seed, left, right, step, selected, queue, count', pending);
    }
    forall i: nat | i < |ranges| ensures Near(ranges, seed, i, steps) <==> left <= i <= right {
      FollowedIsNear(ranges, seed, left, right, steps, i);
    }
  }

  /** Every range near one of the seeds. */
  ghost function AllNeighbours(ranges: seq<Cut>, seeds: seq<nat>, steps: nat): set<nat> {
    set i: nat, k: nat | k < |seeds| && i in Neighbours(ranges, seeds[k], steps) :: i
  }

  /** Queue the seeds, each followed by its neighbours. */
  method QueueSeeds(ranges: seq<Cut>, seeds: seq<nat>, steps: nat, selected: array<bool>, queue: array<nat>)
    returns (count: nat)
    requires queue.Length == selected.Length == |ranges|
    requires (forall k | 0 <= k < |seeds| :: seeds[k] < |ranges|) && forall j, k | 0 <= j < k < |seeds| ::
      seeds[j] != seeds[k]
    requires forall i | 0 <= i < selected.Length :: selected[i] <==> i in seeds
    modifies selected, queue
    ensures count <= queue.Length && QueueOk(selected[..], queue[..count], {})
    ensures Chosen(selected[..]) == AllNeighbours(ranges, seeds, steps)
  {
    count := 0;
    ghost var pending := SetOf(seeds);
    assert seeds[0..] == seeds;
    for k := 0 to |seeds|
      invariant count <= queue.Length && QueueOk(selected[..], queue[..count], pending)
      invariant pending == SetOf(seeds[k..])
      invariant Chosen(selected[..]) == AllNeighbours(ranges, seeds[..k], steps) + pending
    {
      hide AllNeighbours, Neighbours;
      var index := seeds[k];
      assert index in seeds[k..];
      assert seeds[k..] == [index] + seeds[k + 1..];
      assert index !in seeds[k + 1..];
      ghost var rest := pending - {index};
      count := QueuePending(selected, queue, count, index, pending);
      assert rest == SetOf(seeds[k + 1..]);
      count := AddNeighbours(ranges, index, steps, selected, queue, count, rest);
      MoreNeighbours(ranges, seeds, k, steps);
      pending := rest;
    }
    assert seeds[..|seeds|] == seeds;
  }

  lemma MoreNeighbours(ranges: seq<Cut>, seeds: seq<nat>, k: nat, steps: nat)
    requires k < |seeds| && seeds[k] < |ranges|
    ensures AllNeighbours(ranges, seeds[..k + 1], steps)
      == AllNeighbours(ranges, seeds[..k], steps) + Neighbours(ranges, seeds[k], steps)
    ensures seeds[k] in Neighbours(ranges, seeds[k], steps)
  {
    var more := seeds[..k + 1];
    forall i ensures i in AllNeighbours(ranges, more, steps)
                <==> (i in AllNeighbours(ranges, seeds[..k], steps) || i in Neighbours(ranges, seeds[k], steps))
    {
      if i in AllNeighbours(ranges, seeds[..k], steps) {
        var j: nat :| j < k && i in Neighbours(ranges, seeds[..k][j], steps);
        assert more[j] == seeds[..k][j];
      }
      if i in Neighbours(ranges, seeds[k], steps) { assert more[k] == seeds[k]; }
    }
  }

  /** Queue a seed, which is selected already. */
  method QueuePending(selected: array<bool>, queue: array<nat>, count: nat, index: nat, ghost pending: set<nat>)
    returns (count': nat)
    requires queue.Length == selected.Length && count <= queue.Length && index in pending
    requires QueueOk(selected[..], queue[..count], pending)
    modifies queue
    ensures count <= count' <= queue.Length && queue[..count] == old(queue[..count]) && selected[index]
    ensures QueueOk(selected[..], queue[..count'], pending - {index})
  {
    QueueHasRoom(selected[..], queue[..count], pending, index);
    ghost var before := queue[..count];
    queue[count] := index;
    count' := count + 1;
    assert queue[..count'] == before + [index];
  }

  // Further selections

  /** The ranges the search finds at one of the addresses. */
  ghost function Found(ranges: seq<Cut>, addresses: seq<nat>): set<nat> {
    set i: nat | i < |ranges| && exists k :: 0 <= k < |addresses| && Find(ranges, addresses[k]) == Some(i)
  }

  /** `llvm_profile_select_address` for each address in turn; also the forced entry points and
      the patches. */
  method SelectAddresses(ranges: seq<Cut>, addresses: seq<nat>, selected: array<bool>, queue: array<nat>, count: nat)
    returns (count': nat)
    requires queue.Length == selected.Length == |ranges| && count <= queue.Length
    requires QueueOk(selected[..], queue[..count], {})
    modifies selected, queue
    ensures count <= count' <= queue.Length && queue[..count] == old(queue[..count])
    ensures QueueOk(selected[..], queue[..count'], {})
    ensures Chosen(selected[..]) == old(Chosen(selected[..])) + Found(ranges, addresses)
  {
    hide QueueOk, Find;
    count' := count;
    for k := 0 to |addresses|
      invariant count <= count' <= queue.Length && queue[..count] == old(queue[..count])
      invariant QueueOk(selected[..], queue[..count'], {})
      invariant Chosen(selected[..]) == old(Chosen(selected[..])) + Found(ranges, addresses[..k])
    {
      hide Found, Chosen;
      MoreFound(ranges, addresses, k);
      var target := RangeFor(ranges, addresses[k]);
      if target.Some? {
        assert At(ranges, addresses[k]) == {target.value};
        count' := Select(selected, queue, count', target.value, {});
      }
    }
    assert addresses[..|addresses|] == addresses;
  }

  ghost function At(ranges: seq<Cut>, address: nat): set<nat> {
    set i: nat | i < |ranges| && Find(ranges, address) == Some(i)
  }

  lemma MoreFound(ranges: seq<Cut>, addresses: seq<nat>, k: nat)
    requires k < |addresses|
    ensures Found(ranges, addresses[..k + 1]) == Found(ranges, addresses[..k]) + At(ranges, addresses[k])
  {
    hide Find;
    var more := addresses[..k + 1];
    forall i: nat | i < |ranges|
      ensures (exists j :: 0 <= j < |more| && Find(ranges, more[j]) == Some(i))
         <==> ((exists j :: 0 <= j < k && Find(ranges, addresses[..k][j]) == Some(i))
               || Find(ranges, addresses[k]) == Some(i))
    {
      if j :| 0 <= j < k && Find(ranges, addresses[..k][j]) == Some(i) { assert more[j] == addresses[..k][j]; }
      assert more[k] == addresses[k];
    }
  }

  /** The ranges with enough misses of their own. */
  method SelectMissed(weights: seq<nat>, minimum: nat, selected: array<bool>, queue: array<nat>, count: nat)
    returns (count': nat)
    requires queue.Length == selected.Length == |weights| && count <= queue.Length
    requires QueueOk(selected[..], queue[..count], {})
    modifies selected, queue
    ensures count <= count' <= queue.Length && queue[..count] == old(queue[..count])
    ensures QueueOk(selected[..], queue[..count'], {})
    ensures Chosen(selected[..]) == old(Chosen(selected[..])) + Missed(weights, minimum, |weights|)
  {
    hide QueueOk;
    count' := count;
    for i := 0 to |weights|
      invariant count <= count' <= queue.Length && queue[..count] == old(queue[..count])
      invariant QueueOk(selected[..], queue[..count'], {})
      invariant Chosen(selected[..]) == old(Chosen(selected[..])) + Missed(weights, minimum, i)
    {
      hide Chosen;
      if weights[i] >= minimum && weights[i] != 0 {
        count' := Select(selected, queue, count', i, {});
      }
    }
  }

  ghost function Missed(weights: seq<nat>, minimum: nat, upTo: nat): set<nat> {
    set i: nat | i < upTo && i < |weights| && weights[i] >= minimum && weights[i] != 0
  }

  // Closure

  /** What a range's instructions transfer control to, by address; a range that is patched or has
      no section transfers nowhere.  A transfer leads where the search finds its address. */
  datatype Flow = Flow(ranges: seq<Cut>, targets: seq<seq<nat>>, leaf: seq<bool>) {
    ghost predicate Valid() { |targets| == |leaf| == |ranges| }

    /** One transfer leads from range `i` to range `j`. */
    ghost predicate Edge(i: nat, j: nat)
      requires |targets| == |leaf| == |ranges|
    {
      i < |ranges| && !leaf[i] && j in Found(ranges, targets[i])
    }

    ghost function Next(i: nat): set<nat>
      requires |targets| == |leaf| == |ranges|
    {
      set j: nat | j < |ranges| && Edge(i, j)
    }
  }

  /** At most `depth` transfers away from a base set. */
  ghost predicate Within(f: Flow, base: set<nat>, j: nat, depth: nat)
    requires f.Valid()
    decreases depth
  {
    if depth == 0 then j in base
    else Within(f, base, j, depth - 1) || exists i: nat :: Within(f, base, i, depth - 1) && f.Edge(i, j)
  }

  /** The selection after `depth` rounds: exactly what lies within that distance, with every range
      queued before `begin` expanded. */
  ghost predicate Closed(f: Flow, base: set<nat>, selected: seq<bool>, queue: seq<nat>, begin: nat, depth: nat)
    requires f.Valid()
  {
    && |selected| == |f.ranges| && QueueOk(selected, queue, {}) && begin <= |queue|
    && (forall j: nat | j < |f.ranges| :: selected[j] <==> Within(f, base, j, depth))
    && (forall k, j: nat | 0 <= k < begin && f.Edge(queue[k], j) :: Within(f, base, j, depth))
  }

  lemma StartsClosed(f: Flow, base: set<nat>, selected: seq<bool>, queue: seq<nat>)
    requires f.Valid() && |selected| == |f.ranges| && QueueOk(selected, queue, {}) && base == Chosen(selected)
    ensures Closed(f, base, selected, queue, 0, 0)
  {
  }

  ghost predicate LeadsTo(f: Flow, list: seq<nat>, j: nat)
    requires f.Valid()
  {
    exists k :: 0 <= k < |list| && f.Edge(list[k], j)
  }

  ghost function NextAll(f: Flow, list: seq<nat>): set<nat>
    requires f.Valid()
  {
    set j: nat | j < |f.ranges| && LeadsTo(f, list, j)
  }

  lemma MoreNext(f: Flow, list: seq<nat>, i: nat)
    requires f.Valid()
    ensures NextAll(f, list + [i]) == NextAll(f, list) + f.Next(i)
  {
    var more := list + [i];
    forall j: nat | j < |f.ranges| ensures LeadsTo(f, more, j) <==> (LeadsTo(f, list, j) || f.Edge(i, j)) {
      if k :| 0 <= k < |list| && f.Edge(list[k], j) { assert more[k] == list[k]; }
      assert more[|list|] == i;
    }
  }

  /** One round: what the ranges queued since the last round lead to. */
  lemma ClosedStep(f: Flow, base: set<nat>, selected: seq<bool>, queue: seq<nat>, begin: nat, depth: nat,
          selected': seq<bool>, queue': seq<nat>)
    requires f.Valid() && Closed(f, base, selected, queue, begin, depth)
    requires |selected'| == |selected| && QueueOk(selected', queue', {}) && queue <= queue'
    requires Chosen(selected') == Chosen(selected) + NextAll(f, queue[begin..])
    ensures Closed(f, base, selected', queue', |queue|, depth + 1)
  {
    hide Flow.Edge;
    forall j: nat | j < |f.ranges| ensures selected'[j] <==> Within(f, base, j, depth + 1) {
      assert selected'[j] <==> j in Chosen(selected');
      assert selected[j] <==> j in Chosen(selected);
      if Within(f, base, j, depth + 1) && !Within(f, base, j, depth) {
        var i: nat :| Within(f, base, i, depth) && f.Edge(i, j);
        EdgeInside(f, i, j);
        QueuedBefore(f, base, selected, queue, begin, depth, i, j);
      }
      if j in NextAll(f, queue[begin..]) {
        var k :| 0 <= k < |queue| - begin && f.Edge(queue[begin..][k], j);
        assert queue[begin..][k] == queue[begin + k] && selected[queue[begin + k]];
      }
    }
    forall k, j: nat | 0 <= k < |queue| && f.Edge(queue'[k], j) ensures Within(f, base, j, depth + 1) {
      assert queue'[k] == queue[k] && queue[k] in queue && selected[queue[k]];
    }
  }

  lemma EdgeInside(f: Flow, i: nat, j: nat)
    requires f.Valid() && f.Edge(i, j)
    ensures i < |f.ranges| && j < |f.ranges|
  {
  }

  /** A selected range with an edge to something further away was queued since the last round. */
  lemma QueuedBefore(f: Flow, base: set<nat>, selected: seq<bool>, queue: seq<nat>, begin: nat, depth: nat, i: nat,
          j: nat)
    requires f.Valid() && Closed(f, base, selected, queue, begin, depth)
    requires i < |f.ranges| && j < |f.ranges| && Within(f, base, i, depth) && f.Edge(i, j) && !Within(f, base, j, depth)
    ensures j in NextAll(f, queue[begin..])
  {
    hide Flow.Edge, Within;
    assert selected[i] && i in queue;
    var k :| 0 <= k < |queue| && queue[k] == i;
    assert k >= begin;
    assert queue[begin..][k - begin] == i;
  }

  /** Nothing new lies further away once every selected range is expanded. */
  lemma {:induction false} NothingFurther(f: Flow, base: set<nat>, selected: seq<bool>, queue: seq<nat>, depth: nat,
          more: nat, j: nat)
    requires f.Valid() && Closed(f, base, selected, queue, |queue|, depth) && depth <= more && j < |f.ranges|
    ensures selected[j] <==> Within(f, base, j, more)
    decreases more
  {
    hide Flow.Edge;
    if depth < more {
      NothingFurther(f, base, selected, queue, depth, more - 1, j);
      forall i: nat | Within(f, base, i, more - 1) && f.Edge(i, j) ensures selected[j] {
        EdgeInside(f, i, j);
        NothingFurther(f, base, selected, queue, depth, more - 1, i);
        assert i in queue;
        var k :| 0 <= k < |queue| && queue[k] == i;
        assert f.Edge(queue[k], j);
      }
    }
  }

  /** Select what one range leads to. */
  method Expand(f: Flow, index: nat, selected: array<bool>, queue: array<nat>, count: nat) returns (count': nat)
    requires f.Valid() && queue.Length == selected.Length == |f.ranges| && count <= queue.Length && index < |f.ranges|
    requires QueueOk(selected[..], queue[..count], {})
    modifies selected, queue
    ensures count <= count' <= queue.Length && queue[..count] == old(queue[..count])
    ensures QueueOk(selected[..], queue[..count'], {})
    ensures Chosen(selected[..]) == old(Chosen(selected[..])) + f.Next(index)
  {
    hide QueueOk, Chosen;
    count' := count;
    if f.leaf[index] {
      assert f.Next(index) == {};
      return;
    }
    assert f.Next(index) == Found(f.ranges, f.targets[index]);
    count' := SelectAddresses(f.ranges, f.targets[index], selected, queue, count);
  }

  /** The breadth-first closure: afterwards exactly the ranges within `limit` transfers of the
      ranges selected before are selected. */
  method Close(f: Flow, limit: nat, selected: array<bool>, queue: array<nat>, count: nat) returns (count': nat)
    requires f.Valid() && queue.Length == selected.Length == |f.ranges| && count <= queue.Length
    requires QueueOk(selected[..], queue[..count], {})
    modifies selected, queue
    ensures count <= count' <= queue.Length && QueueOk(selected[..], queue[..count'], {})
    ensures forall j: nat | j < |f.ranges| :: selected[j] <==> Within(f, old(Chosen(selected[..])), j, limit)
  {
    hide QueueOk, Flow.Valid, Within, Closed, Chosen;
    ghost var base := Chosen(selected[..]);
    var begin, end, depth := 0, count, 0;
    StartsClosed(f, base, selected[..], queue[..count]);
    while depth < limit && begin < end
      invariant count <= end <= queue.Length && begin <= end && depth <= limit
      invariant Closed(f, base, selected[..], queue[..end], begin, depth)
      decreases limit - depth
    {
      ghost var before, listed := selected[..], queue[..end];
      ClosedShape(f, base, before, listed, begin, depth);
      var next := ExpandAll(f, begin, end, selected, queue);
      assert listed == queue[..next][..end];
      ClosedStep(f, base, before, listed, begin, depth, selected[..], queue[..next]);
      begin, end, depth := end, next, depth + 1;
    }
    count' := end;
    ClosedShape(f, base, selected[..], queue[..end], begin, depth);
    forall j: nat | j < |f.ranges| ensures selected[j] <==> Within(f, base, j, limit) {
      if depth < limit { NothingFurther(f, base, selected[..], queue[..end], depth, limit, j); }
    }
  }

  lemma ClosedShape(f: Flow, base: set<nat>, selected: seq<bool>, queue: seq<nat>, begin: nat, depth: nat)
    requires f.Valid() && Closed(f, base, selected, queue, begin, depth)
    ensures |selected| == |f.ranges| && QueueOk(selected, queue, {})
    ensures forall j: nat | j < |f.ranges| :: selected[j] <==> Within(f, base, j, depth)
  {
  }

  /** Expand the ranges queued since the last round. */
  method ExpandAll(f: Flow, begin: nat, end: nat, selected: array<bool>, queue: array<nat>) returns (count: nat)
    requires f.Valid() && queue.Length == selected.Length == |f.ranges| && begin <= end <= queue.Length
    requires QueueOk(selected[..], queue[..end], {})
    modifies selected, queue
    ensures end <= count <= queue.Length && queue[..end] == old(queue[..end])
    ensures QueueOk(selected[..], queue[..count], {})
    ensures Chosen(selected[..]) == old(Chosen(selected[..])) + NextAll(f, old(queue[..end][begin..]))
  {
    hide Flow.Valid, Chosen, NextAll, Flow.Next;
    ghost var listed := queue[..end];
    ghost var start := Chosen(selected[..]);
    count := end;
    NextOfNone(f);
    assert listed[begin..begin] == [];
    for cursor := begin to end
      invariant end <= count <= queue.Length && queue[..end] == listed
      invariant QueueOk(selected[..], queue[..count], {})
      invariant Chosen(selected[..]) == start + NextAll(f, listed[begin..cursor])
    {
      assert queue[cursor] == queue[..end][cursor] == queue[..count][cursor];
      var index := queue[cursor];
      assert listed[begin..cursor + 1] == listed[begin..cursor] + [index];
      MoreNext(f, listed[begin..cursor], index);
      ghost var prefix := queue[..count];
      count := Expand(f, index, selected, queue, count);
      assert queue[..end] == prefix[..end];
    }
    assert listed[begin..end] == listed[begin..];
  }

  lemma NextOfNone(f: Flow)
    requires f.Valid()
    ensures NextAll(f, []) == {}
  {
  }

  // Compaction

  function Kept(ranges: seq<Cut>, selected: seq<bool>): seq<Cut>
    requires |selected| == |ranges|
  {
    if ranges == [] then []
    else
      var last := |ranges| - 1;
      Kept(ranges[..last], selected[..last]) + if selected[last] then [ranges[last]] else []
  }

  lemma {:induction false} KeptShort(ranges: seq<Cut>, selected: seq<bool>)
    requires |selected| == |ranges|
    ensures |Kept(ranges, selected)| <= |ranges|
  {
    if ranges != [] { KeptShort(ranges[..|ranges| - 1], selected[..|ranges| - 1]); }
  }

  /** Keep the selected ranges, in place and in order. */
  method Compact(ranges: array<Cut>, selected: array<bool>) returns (count: nat)
    requires ranges.Length == selected.Length
    modifies ranges
    ensures count <= ranges.Length && ranges[..count] == Kept(old(ranges[..]), selected[..])
  {
    ghost var before := ranges[..];
    count := 0;
    for i := 0 to ranges.Length
      invariant count <= i && ranges[..count] == Kept(before[..i], selected[..i]) && ranges[i..] == before[i..]
    {
      assert before[..i + 1][..i] == before[..i] && selected[..i + 1][..i] == selected[..i];
      assert ranges[i] == ranges[i..][0] == before[i];
      if selected[i] {
        ghost var kept := ranges[..count];
        ranges[count] := ranges[i];
        count := count + 1;
        assert ranges[..count] == kept + [before[i]];
      }
      assert ranges[i + 1..] == before[i..][1..];
    }
    assert before[..ranges.Length] == before && selected[..ranges.Length] == selected[..];
  }

  // The selection as a whole

  /** What the closures read of a decoded instruction that may transfer control. */
  datatype BranchWord = BranchWord(
    address: nat, direct: bool, linked: bool, target: nat, conditional: bool, fallsThrough: bool)

  /** The targets of direct calls. */
  function CallTargets(words: seq<BranchWord>): seq<nat> {
    if words == [] then []
    else
      var w := words[|words| - 1];
      CallTargets(words[..|words| - 1]) + if w.direct && w.linked then [w.target] else []
  }

  /** The targets of other direct branches, and the instructions after conditional ones. */
  function SuccessorTargets(words: seq<BranchWord>): seq<nat> {
    if words == [] then []
    else
      var w := words[|words| - 1];
      SuccessorTargets(words[..|words| - 1]) + (if w.direct && !w.linked then [w.target] else [])
      + if w.conditional && w.fallsThrough then [w.address + 4] else []
  }

  lemma {:induction false} CallTargetsAre(words: seq<BranchWord>, a: nat)
    ensures a in CallTargets(words) <==> exists w :: w in words && w.direct && w.linked && w.target == a
  {
    if words != [] {
      var before, w := words[..|words| - 1], words[|words| - 1];
      assert words == before + [w];
      CallTargetsAre(before, a);
    }
  }

  /** Direct branches without a link lead to their targets, conditional ones on to the next instruction. */
  lemma {:induction false} SuccessorTargetsAre(words: seq<BranchWord>, a: nat)
    ensures a in SuccessorTargets(words) <==>
      exists w :: w in words
                  && ((w.direct && !w.linked && w.target == a)
                      || (w.conditional && w.fallsThrough && a == w.address + 4))
  {
    if words != [] {
      var before, w := words[..|words| - 1], words[|words| - 1];
      assert words == before + [w];
      SuccessorTargetsAre(before, a);
    }
  }

  /** A range's instructions, whether it is patched or unreadable, and whether it runs on into the
      next range of its section. */
  datatype Body = Body(words: seq<BranchWord>, leaf: bool, runsOn: bool)

  function CallFlow(ranges: seq<Cut>, bodies: seq<Body>): (f: Flow)
    requires |bodies| == |ranges|
    ensures |f.targets| == |f.leaf| == |f.ranges| && f.ranges == ranges
  {
    Flow(ranges, seq(|ranges|, i requires 0 <= i < |ranges| => CallTargets(bodies[i].words)),
         seq(|ranges|, i requires 0 <= i < |ranges| => bodies[i].leaf))
  }

  function SuccessorFlow(ranges: seq<Cut>, bodies: seq<Body>): (f: Flow)
    requires |bodies| == |ranges|
    ensures |f.targets| == |f.leaf| == |f.ranges| && f.ranges == ranges
  {
    Flow(ranges, seq(|ranges|, i requires 0 <= i < |ranges| =>
                   SuccessorTargets(bodies[i].words) + if bodies[i].runsOn then [ranges[i].end] else []),
         seq(|ranges|, i requires 0 <= i < |ranges| => bodies[i].leaf))
  }

  /** What leads on from a range: nothing else than its calls, or its branches and its end. */
  lemma FlowTargets(ranges: seq<Cut>, bodies: seq<Body>, i: nat, a: nat)
    requires |bodies| == |ranges| && i < |ranges|
    ensures a in CallFlow(ranges, bodies).targets[i] <==>
      exists w :: w in bodies[i].words && w.direct && w.linked && w.target == a
    ensures a in SuccessorFlow(ranges, bodies).targets[i] <==>
      (bodies[i].runsOn && a == ranges[i].end)
      || exists w :: w in bodies[i].words
                     && ((w.direct && !w.linked && w.target == a)
                         || (w.conditional && w.fallsThrough && a == w.address + 4))
    ensures CallFlow(ranges, bodies).leaf[i] == SuccessorFlow(ranges, bodies).leaf[i] == bodies[i].leaf
  {
    CallTargetsAre(bodies[i].words, a);
    SuccessorTargetsAre(bodies[i].words, a);
    hide CallTargets, SuccessorTargets;
  }

  /** The ranges selected before any closure. */
  ghost function Base(ranges: seq<Cut>, seeds: seq<nat>, steps: nat, misses: seq<nat>, minimum: nat, forced: seq<nat>,
          patches: seq<nat>): set<nat>
  {
    AllNeighbours(ranges, seeds, steps) + Missed(misses, minimum, |misses|) + Found(ranges, forced)
      + Found(ranges, patches)
  }

  ghost function Reachable(f: Flow, base: set<nat>, depth: nat): set<nat>
    requires f.Valid()
  {
    set j: nat | j < |f.ranges| && Within(f, base, j, depth)
  }

  /** The ranges both closures reach. */
  ghost predicate Selects(selection: seq<bool>, ranges: seq<Cut>, bodies: seq<Body>, base: set<nat>, callDepth: nat,
          successorDepth: nat)
    requires |bodies| == |ranges|
  {
    var called := Reachable(CallFlow(ranges, bodies), base, callDepth);
    |selection| == |ranges|
    && forall j: nat | j < |ranges| ::
         selection[j] <==> Within(SuccessorFlow(ranges, bodies), called, j, successorDepth)
  }

  /** Seeds, neighbours, missed, forced and patched ranges, then both closures. */
  method SelectRanges(ranges: seq<Cut>, bodies: seq<Body>, seeds: seq<nat>, steps: nat, misses: seq<nat>, minimum: nat,
          forced: seq<nat>, patches: seq<nat>, callDepth: nat, successorDepth: nat)
    returns (selected: array<bool>, count: nat)
    requires |bodies| == |misses| == |ranges|
    requires (forall k | 0 <= k < |seeds| :: seeds[k] < |ranges|) && forall j, k | 0 <= j < k < |seeds| ::
      seeds[j] != seeds[k]
    ensures fresh(selected) && selected.Length == |ranges| && count <= |ranges|
    ensures Selects(selected[..], ranges, bodies, Base(ranges, seeds, steps, misses, minimum, forced, patches),
                    callDepth, successorDepth)
  {
    hide QueueOk, Within, AllNeighbours, Missed, Found;
    selected := new bool[|ranges|](_ => false);
    var queue := new nat[|ranges|](_ => 0);
    MarkSeeds(selected, seeds);
    count := QueueSeeds(ranges, seeds, steps, selected, queue);
    count := SelectMissed(misses, minimum, selected, queue, count);
    count := SelectAddresses(ranges, forced, selected, queue, count);
    count := SelectAddresses(ranges, patches, selected, queue, count);
    ghost var base := Base(ranges, seeds, steps, misses, minimum, forced, patches);
    count := Close(CallFlow(ranges, bodies), callDepth, selected, queue, count);
    assert Chosen(selected[..]) == Reachable(CallFlow(ranges, bodies), base, callDepth);
    count := Close(SuccessorFlow(ranges, bodies), successorDepth, selected, queue, count);
  }

  method MarkSeeds(selected: array<bool>, seeds: seq<nat>)
    requires forall k | 0 <= k < |seeds| :: seeds[k] < selected.Length
    requires forall i | 0 <= i < selected.Length :: !selected[i]
    modifies selected
    ensures forall i | 0 <= i < selected.Length :: selected[i] <==> i in seeds
  {
    for k := 0 to |seeds|
      invariant forall i | 0 <= i < selected.Length :: selected[i] <==> i in seeds[..k]
    {
      assert seeds[..k + 1] == seeds[..k] + [seeds[k]];
      selected[seeds[k]] := true;
    }
    assert seeds[..|seeds|] == seeds;
  }

  // From a profile to the ranges that stay

  function Indices(hot: seq<Hot>): (indices: seq<nat>)
    ensures |indices| == |hot| && forall k | 0 <= k < |hot| :: indices[k] == hot[k].index
  {
    seq(|hot|, k requires 0 <= k < |hot| => hot[k].index)
  }

  /** The eligible ranges, hottest first, and the fewest of them that reach the coverage target. */
  ghost predicate Seeded(hot: seq<Hot>, seeds: nat, weights: seq<nat>, minimum: nat, coverage: real) {
    && ListsEligible(hot, weights, minimum, |weights|) && 1 <= seeds <= |hot|
    && Reaches(Samples(hot[..seeds]), Samples(hot), coverage)
    && (seeds > 1 ==> !Reaches(Samples(hot[..seeds - 1]), Samples(hot), coverage))
  }

  /** `select_profiled_llvm_ranges` on a parsed profile: only the selected ranges stay, and the
      selection is what both closures reach from the fewest hot seeds, their neighbours, and the
      missed, forced and patched ranges.  A profile without an eligible range is refused. */
  method SelectProfiled(ranges: array<Cut>, bodies: seq<Body>, weights: seq<nat>, minimum: nat, coverage: real,
          steps: nat, misses: seq<nat>, missMinimum: nat, forced: seq<nat>, patches: seq<nat>, callDepth: nat,
          successorDepth: nat)
    returns (accepted: bool, count: nat, ghost hot: seq<Hot>, ghost seeds: nat, ghost selection: seq<bool>)
    requires |bodies| == |misses| == |weights| == ranges.Length && 0.0 < coverage <= 100.0
    modifies ranges
    ensures accepted <==> exists i: nat :: Eligible(weights, minimum, i)
    ensures !accepted ==> ranges[..] == old(ranges[..])
    ensures accepted ==> Seeded(hot, seeds, weights, minimum, coverage) && |selection| == ranges.Length
    ensures accepted ==>
      Selects(selection, old(ranges[..]), bodies,
              Base(old(ranges[..]), Indices(hot[..seeds]), steps, misses, missMinimum, forced, patches),
              callDepth, successorDepth)
    ensures accepted ==> count <= ranges.Length && ranges[..count] == Kept(old(ranges[..]), selection)
  {
    hide Base, Kept, Reaches, Samples, Selects;
    var list, eligible := CollectHot(weights, minimum);
    hot, seeds, selection, count := list, 0, [], 0;
    SomeEligible(list, weights, minimum);
    accepted := list != [];
    if !accepted { return; }
    var found, covered := CountSeeds(list, eligible, coverage);
    seeds := found;
    var all := ranges[..];
    SeedsDistinct(list, found, weights, minimum);
    var selected, queued := SelectRanges(all, bodies, Indices(list[..found]), steps, misses, missMinimum, forced,
                                         patches, callDepth, successorDepth);
    selection := selected[..];
    count := Compact(ranges, selected);
  }

  lemma SomeEligible(hot: seq<Hot>, weights: seq<nat>, minimum: nat)
    requires ListsEligible(hot, weights, minimum, |weights|)
    ensures hot != [] <==> exists i: nat :: Eligible(weights, minimum, i)
  {
    if hot != [] { assert Eligible(weights, minimum, hot[0].index); }
  }

  lemma SeedsDistinct(hot: seq<Hot>, seeds: nat, weights: seq<nat>, minimum: nat)
    requires ListsEligible(hot, weights, minimum, |weights|) && seeds <= |hot|
    ensures var list := Indices(hot[..seeds]);
      (forall k | 0 <= k < |list| :: list[k] < |weights|) && forall j, k | 0 <= j < k < |list| :: list[j] != list[k]
  {
  }

  // What the search misses

  /** The ranges that contain one of the addresses. */
  ghost function Containing(ranges: seq<Cut>, addresses: seq<nat>): set<nat> {
    set i: nat | i < |ranges| && exists k :: 0 <= k < |addresses| && Contains(ranges[i], addresses[k])
  }

  lemma FoundContains(ranges: seq<Cut>, addresses: seq<nat>)
    ensures Found(ranges, addresses) <= Containing(ranges, addresses)
    ensures InOrder(ranges) ==> Found(ranges, addresses) == Containing(ranges, addresses)
  {
    hide Find, InOrder;
    forall i | i in Found(ranges, addresses) ensures i in Containing(ranges, addresses) {
      var k :| 0 <= k < |addresses| && Find(ranges, addresses[k]) == Some(i);
      assert Contains(ranges[i], addresses[k]);
    }
    if InOrder(ranges) {
      OrderedFinds(ranges);
      forall i | i in Containing(ranges, addresses) ensures i in Found(ranges, addresses) {
        var k :| 0 <= k < |addresses| && Contains(ranges[i], addresses[k]);
        assert Find(ranges, addresses[k]) == Some(i);
      }
    }
  }

  lemma OrderedFinds(ranges: seq<Cut>)
    requires InOrder(ranges)
    ensures FindsEvery(ranges)
  {
    FindsEveryIff(ranges);
  }

  /** An address selects exactly the ranges that contain it, whatever the address, if and only if the
      ranges ascend without overlap. */
  lemma SelectsContainingIff(ranges: seq<Cut>)
    requires NonEmpty(ranges)
    ensures (forall address: nat :: At(ranges, address) == Containing(ranges, [address])) <==> InOrder(ranges)
  {
    if forall address: nat :: At(ranges, address) == Containing(ranges, [address]) {
      forall k, a: nat | 0 <= k < |ranges| && Contains(ranges[k], a) ensures Find(ranges, a) == Some(k) {
        assert [a][0] == a && k in Containing(ranges, [a]);
        assert k in At(ranges, a);
      }
      FindsEveryIff(ranges);
    }
    if InOrder(ranges) {
      forall address: nat ensures At(ranges, address) == Containing(ranges, [address]) {
        FoundContains(ranges, [address]);
        MoreFound(ranges, [address], 0);
        assert [address][..1] == [address] && Found(ranges, [address][..0]) == {};
      }
    }
  }

  /** At most `depth` transfers away, a transfer leading to every range that contains its address. */
  ghost predicate ReachesBy(f: Flow, base: set<nat>, j: nat, depth: nat)
    requires f.Valid()
    decreases depth
  {
    if depth == 0 then j in base
    else
      ReachesBy(f, base, j, depth - 1)
      || exists i: nat :: ReachesBy(f, base, i, depth - 1) && Transfers(f, i, j)
  }

  ghost predicate Transfers(f: Flow, i: nat, j: nat)
    requires f.Valid()
  {
    i < |f.ranges| && !f.leaf[i] && j in Containing(f.ranges, f.targets[i])
  }

  /** Over ranges in order the closure is reachability by address. */
  lemma {:induction false} WithinIsReach(f: Flow, base: set<nat>, j: nat, depth: nat)
    requires f.Valid() && InOrder(f.ranges)
    ensures Within(f, base, j, depth) <==> ReachesBy(f, base, j, depth)
    decreases depth
  {
    hide InOrder, Found, Containing;
    if depth > 0 {
      var before := depth - 1;
      forall i: nat ensures Within(f, base, i, before) <==> ReachesBy(f, base, i, before) {
        WithinIsReach(f, base, i, before);
      }
      forall i: nat ensures f.Edge(i, j) <==> Transfers(f, i, j) {
        if i < |f.ranges| { FoundContains(f.ranges, f.targets[i]); }
      }
    }
  }

  /** Descending sections: the second range calls the first, and no depth selects it. */
  function DescendingCall(): Flow { Flow(DescendingRanges(), [[], [0x8000_4000]], [false, false]) }

  lemma {:induction false} CallIsDropped(depth: nat)
    ensures ReachesBy(DescendingCall(), {1}, 0, depth + 1) && !Within(DescendingCall(), {1}, 0, depth)
  {
    hide Find;
    var f := DescendingCall();
    DescendingIsMissed();
    assert Contains(f.ranges[0], f.targets[1][0]);
    assert Transfers(f, 1, 0);
    StaysReached(f, {1}, 1, depth);
    if depth > 0 {
      CallIsDropped(depth - 1);
    }
    forall i: nat ensures !f.Edge(i, 0) {
      if i == 1 { assert f.targets[i] == [0x8000_4000]; }
    }
  }

  lemma {:induction false} StaysReached(f: Flow, base: set<nat>, j: nat, depth: nat)
    requires f.Valid() && j in base
    ensures ReachesBy(f, base, j, depth)
  {
    if depth > 0 { StaysReached(f, base, j, depth - 1); }
  }
}
