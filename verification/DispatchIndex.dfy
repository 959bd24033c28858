/** The page-and-run index of src/backend/dispatch.c:136-307, proved to find what the linear
    lookup finds. */
module DispatchIndex {
  import opened Wrappers
  import opened Dispatch

  datatype Index = Index(
    base: nat, pages: nat,
    runStart: seq<nat>, runEnd: seq<nat>, runStride: seq<nat>, runBase: seq<nat>,
    chunks: seq<nat>, pageFirst: seq<nat>, maxPerPage: nat)

  // Sorting

  predicate Before(a: FuncRange, b: FuncRange) { a.start < b.start || (a.start == b.start && a.end <= b.end) }

  /** A total order by start, and by end where starts are equal. */
  lemma BeforeOrders(a: FuncRange, b: FuncRange, c: FuncRange)
    ensures Before(a, b) || Before(b, a)
    ensures Before(a, b) && Before(b, a) ==> a.start == b.start && a.end == b.end
    ensures Before(a, b) && Before(b, c) ==> Before(a, c)
    ensures a.start < b.start ==> Before(a, b)
  {
  }

  /** The non-empty ranges, by ascending start and end. */
  ghost predicate Sorts(funcs: seq<FuncRange>, sorted: seq<FuncRange>) {
    && multiset(sorted) == multiset(NonEmptyOf(funcs))
    && InOrder(sorted)
  }

  function NonEmptyOf(funcs: seq<FuncRange>): seq<FuncRange> {
    if funcs == [] then []
    else NonEmptyOf(funcs[..|funcs| - 1]) + if NonEmpty(funcs[|funcs| - 1]) then [funcs[|funcs| - 1]] else []
  }

  lemma {:induction false} NonEmptyOfIs(funcs: seq<FuncRange>, r: FuncRange)
    ensures r in NonEmptyOf(funcs) <==> r in funcs && NonEmpty(r)
  {
    if funcs != [] {
      NonEmptyOfIs(funcs[..|funcs| - 1], r);
      assert funcs == funcs[..|funcs| - 1] + [funcs[|funcs| - 1]];
    }
  }

  method Sort(funcs: seq<FuncRange>) returns (sorted: seq<FuncRange>)
    ensures Sorts(funcs, sorted)
  {
    sorted := [];
    for i := 0 to |funcs|
      invariant Sorts(funcs[..i], sorted)
    {
      assert funcs[..i + 1][..i] == funcs[..i];
      if funcs[i].start < funcs[i].end {
        sorted := Insert(sorted, funcs[i]);
      }
    }
    assert funcs[..|funcs|] == funcs;
  }

  ghost predicate InOrder(sorted: seq<FuncRange>) {
    forall i, j | 0 <= i < j < |sorted| :: Before(sorted[i], sorted[j])
  }

  method Insert(sorted: seq<FuncRange>, r: FuncRange) returns (after: seq<FuncRange>)
    requires InOrder(sorted)
    ensures multiset(after) == multiset(sorted) + multiset{r} && InOrder(after)
  {
    var at := |sorted|;
    while at > 0 && !Before(sorted[at - 1], r)
      invariant 0 <= at <= |sorted|
      invariant forall k | at <= k < |sorted| :: Before(r, sorted[k])
    {
      at := at - 1;
    }
    after := sorted[..at] + [r] + sorted[at..];
    InsertKeepsOrder(sorted, at, r);
    assert sorted == sorted[..at] + sorted[at..];
  }

  lemma InsertKeepsOrder(sorted: seq<FuncRange>, at: nat, r: FuncRange)
    requires InOrder(sorted) && at <= |sorted|
    requires at > 0 ==> Before(sorted[at - 1], r)
    requires forall k | at <= k < |sorted| :: Before(r, sorted[k])
    ensures InOrder(sorted[..at] + [r] + sorted[at..])
  {
    var after := sorted[..at] + [r] + sorted[at..];
    forall k | 0 <= k < at ensures Before(sorted[k], r) {
      assert k < at - 1 ==> Before(sorted[k], sorted[at - 1]);
    }
    forall i, j | 0 <= i < j < |after| ensures Before(after[i], after[j]) {
      if i < at && j > at { assert Before(sorted[i], sorted[j - 1]); }
      if i > at { assert Before(sorted[i - 1], sorted[j - 1]); }
      if j < at { assert Before(sorted[i], sorted[j]); }
    }
  }

  /** Non-empty ranges in order, none overlapping the next. */
  ghost predicate Separate(sorted: seq<FuncRange>) {
    (forall i | 0 <= i < |sorted| :: NonEmpty(sorted[i]))
    && forall i, j | 0 <= i < j < |sorted| :: sorted[i].end <= sorted[j].start
  }

  lemma SortedNonEmpty(funcs: seq<FuncRange>, sorted: seq<FuncRange>, r: FuncRange)
    requires Sorts(funcs, sorted)
    ensures r in sorted <==> r in funcs && NonEmpty(r)
  {
    NonEmptyOfIs(funcs, r);
    assert r in sorted <==> r in multiset(sorted);
    assert r in NonEmptyOf(funcs) <==> r in multiset(NonEmptyOf(funcs));
  }

  /** Checks the sorted list for overlaps. */
  method CheckSeparate(funcs: seq<FuncRange>, sorted: seq<FuncRange>) returns (separate: bool)
    requires Sorts(funcs, sorted)
    ensures separate <==> Separate(sorted)
  {
    forall i | 0 <= i < |sorted| ensures NonEmpty(sorted[i]) { SortedNonEmpty(funcs, sorted, sorted[i]); }
    var i := 1;
    while i < |sorted|
      invariant i >= 1
      invariant forall j, k | 0 <= j < k < i && k < |sorted| :: sorted[j].end <= sorted[k].start
    {
      if sorted[i].start < sorted[i - 1].end { return false; }
      ghost var before := sorted[i - 1];
      assert NonEmpty(before) && forall j | 0 <= j < i - 1 :: sorted[j].end <= before.start;
      i := i + 1;
    }
    separate := true;
  }

  lemma OwnersMeet(sorted: seq<FuncRange>, address: nat, i: nat, j: nat)
    requires Separate(sorted) && i < |sorted| && j < |sorted| && Owns(sorted[i], address) && Owns(sorted[j], address)
    ensures i == j
  {
  }

  /** Separate ranges have one owner at most, so the order of the list does not matter. */
  lemma SameOwner(funcs: seq<FuncRange>, sorted: seq<FuncRange>, address: nat)
    requires Sorts(funcs, sorted) && Separate(sorted)
    ensures FirstOwner(sorted, address) == FirstOwner(funcs, address)
  {
    forall r ensures r in sorted <==> r in funcs && NonEmpty(r) { SortedNonEmpty(funcs, sorted, r); }
    if r :| r in sorted && Owns(r, address) {
      forall q | q in sorted && Owns(q, address) ensures q == r {
        var i :| 0 <= i < |sorted| && sorted[i] == q;
        var j :| 0 <= j < |sorted| && sorted[j] == r;
        OwnersMeet(sorted, address, i, j);
      }
      FirstOwnerIs(sorted, address, r);
      FirstOwnerIs(funcs, address, r);
    } else {
      FirstOwnerNone(sorted, address);
      FirstOwnerNone(funcs, address);
    }
  }

  // The tables

  /** Positions in the sorted list where the runs begin, and its length. */
  ghost predicate Runs(sorted: seq<FuncRange>, runFirst: seq<nat>) {
    && |runFirst| >= 1 && runFirst[0] == 0 && runFirst[|runFirst| - 1] == |sorted|
    && forall k | 0 <= k < |runFirst| - 1 :: Uniform(sorted, runFirst[k], runFirst[k + 1])
  }

  method BuildRuns(sorted: seq<FuncRange>) returns (runFirst: seq<nat>)
    ensures Runs(sorted, runFirst)
  {
    runFirst := [];
    var first := 0;
    while first < |sorted|
      invariant 0 <= first <= |sorted|
      invariant |runFirst| == 0 ==> first == 0
      invariant |runFirst| > 0 ==> runFirst[0] == 0 && Uniform(sorted, runFirst[|runFirst| - 1], first)
      invariant forall k | 0 <= k < |runFirst| - 1 :: Uniform(sorted, runFirst[k], runFirst[k + 1])
    {
      runFirst := runFirst + [first];
      first := UniformRunEnd(sorted, first);
    }
    runFirst := runFirst + [|sorted|];
  }

  function RunCount(runFirst: seq<nat>): nat { if |runFirst| == 0 then 0 else |runFirst| - 1 }

  function PageStart(base: nat, page: nat): nat { base + page * PAGE }

  /** `page_first[page]`: the first run that ends after the page begins. */
  ghost predicate FirstAfter(ends: seq<nat>, run: nat, address: nat) {
    run <= |ends| && (forall k | 0 <= k < run :: ends[k] <= address) && (run < |ends| ==> ends[run] > address)
  }

  ghost predicate Increasing(ends: seq<nat>) { forall j, k | 0 <= j < k < |ends| :: ends[j] < ends[k] }

  method BuildPages(ends: seq<nat>, base: nat, pages: nat) returns (pageFirst: seq<nat>)
    requires Increasing(ends)
    ensures |pageFirst| == pages && forall p | 0 <= p < pages :: FirstAfter(ends, pageFirst[p], PageStart(base, p))
  {
    pageFirst := [];
    var run := 0;
    for page := 0 to pages
      invariant |pageFirst| == page && run <= |ends|
      invariant forall p | 0 <= p < page :: FirstAfter(ends, pageFirst[p], PageStart(base, p))
      invariant forall k | 0 <= k < run :: ends[k] <= PageStart(base, page)
    {
      var pageStart := PageStart(base, page);
      while run < |ends| && ends[run] <= pageStart
        invariant run <= |ends| && forall k | 0 <= k < run :: ends[k] <= pageStart
      {
        run := run + 1;
      }
      pageFirst := pageFirst + [run];
    }
  }

  /** The runs from `run` on that start before an address. */
  function StartingBefore(starts: seq<nat>, run: nat, address: nat): (here: nat)
    ensures run + here <= |starts| || here == 0
    decreases |starts| - run
  {
    if run < |starts| && starts[run] < address then 1 + StartingBefore(starts, run + 1, address) else 0
  }

  lemma {:induction false} StartingBeforeIs(starts: seq<nat>, run: nat, address: nat, end: nat)
    requires run <= end <= |starts| && forall k | run <= k < end :: starts[k] < address
    ensures end - run <= StartingBefore(starts, run, address)
    decreases end - run
  {
    if run < end { StartingBeforeIs(starts, run + 1, address, end); }
  }

  /** The end of a page as a 32-bit word; the last page of the address space wraps. */
  function PageEnd(base: nat, page: nat): nat { PageStart(base, page + 1) % WORD }

  /** The largest count over all pages. */
  ghost predicate Most(starts: seq<nat>, pageFirst: seq<nat>, base: nat, most: nat) {
    && (forall p | 0 <= p < |pageFirst| :: PageCountOf(starts, pageFirst, base, p) <= most)
    && (most == 0 || exists p :: 0 <= p < |pageFirst| && most == PageCountOf(starts, pageFirst, base, p))
  }

  function PageCountOf(starts: seq<nat>, pageFirst: seq<nat>, base: nat, page: nat): nat
    requires page < |pageFirst|
  {
    StartingBefore(starts, pageFirst[page], PageEnd(base, page))
  }

  method CountPerPage(starts: seq<nat>, pageFirst: seq<nat>, base: nat) returns (maxPerPage: nat)
    requires forall p | 0 <= p < |pageFirst| :: pageFirst[p] <= |starts|
    ensures Most(starts, pageFirst, base, maxPerPage)
  {
    maxPerPage := 0;
    for page := 0 to |pageFirst|
      invariant forall p | 0 <= p < page :: PageCountOf(starts, pageFirst, base, p) <= maxPerPage
      invariant maxPerPage == 0
        || exists p :: 0 <= p < page && maxPerPage == PageCountOf(starts, pageFirst, base, p)
    {
      var pageEnd := PageEnd(base, page);
      var here, run := 0, pageFirst[page];
      while run < |starts| && starts[run] < pageEnd
        invariant pageFirst[page] <= run <= |starts| && here == run - pageFirst[page]
        invariant here + StartingBefore(starts, run, pageEnd) == PageCountOf(starts, pageFirst, base, page)
      {
        here, run := here + 1, run + 1;
      }
      if here > maxPerPage { maxPerPage := here; }
    }
  }

  function PageBase(start: nat): (base: nat)
    ensures base <= start < base + PAGE && base % PAGE == 0
  {
    start - start % PAGE
  }

  function PageCount(sorted: seq<FuncRange>): nat
    requires sorted != [] && sorted[0].start <= sorted[|sorted| - 1].end
  {
    (sorted[|sorted| - 1].end - PageBase(sorted[0].start)) / PAGE + 1
  }

  /** The tables of a sorted list. */
  ghost predicate Represents(index: Index, sorted: seq<FuncRange>, runFirst: seq<nat>) {
    && sorted != [] && Separate(sorted) && sorted[0].start <= sorted[|sorted| - 1].end && Runs(sorted, runFirst)
    && index.base == PageBase(sorted[0].start) && index.pages == PageCount(sorted)
    && |index.runStart| == |index.runEnd| == |index.runStride| == |index.runBase| == RunCount(runFirst)
    && (forall k | 0 <= k < RunCount(runFirst) :: RunTables(index, sorted, runFirst, k))
    && |index.chunks| == |sorted| && (forall i | 0 <= i < |sorted| :: index.chunks[i] == sorted[i].start)
    && |index.pageFirst| == index.pages
    && (forall p | 0 <= p < index.pages :: FirstAfter(index.runEnd, index.pageFirst[p], PageStart(index.base, p)))
    && Most(index.runStart, index.pageFirst, index.base, index.maxPerPage)
  }

  /** One entry of the run tables, for the run of ranges `from..to`. */
  predicate RunEntry(sorted: seq<FuncRange>, from: nat, to: nat, start: nat, end: nat, stride: nat, base: nat) {
    from < to <= |sorted| && start == sorted[from].start && end == sorted[to - 1].end && stride == Width(sorted[from])
      && base == from
  }

  ghost predicate RunTables(index: Index, sorted: seq<FuncRange>, runFirst: seq<nat>, k: nat)
    requires k < RunCount(runFirst)
    requires |index.runStart| == |index.runEnd| == |index.runStride| == |index.runBase| == RunCount(runFirst)
  {
    RunEntry(sorted, runFirst[k], runFirst[k + 1], index.runStart[k], index.runEnd[k], index.runStride[k],
      index.runBase[k])
  }

  lemma RunAt(sorted: seq<FuncRange>, runFirst: seq<nat>, k: nat)
    requires Runs(sorted, runFirst) && k < RunCount(runFirst)
    ensures Uniform(sorted, runFirst[k], runFirst[k + 1]) && runFirst[k] < runFirst[k + 1] <= |sorted|
  {
  }

  function TablesOf(runStart: seq<nat>, runEnd: seq<nat>, runStride: seq<nat>, runBase: seq<nat>): Index {
    Index(0, 0, runStart, runEnd, runStride, runBase, [], [], 0)
  }

  /** The four run tables. */
  method BuildTables(sorted: seq<FuncRange>, runFirst: seq<nat>)
    returns (runStart: seq<nat>, runEnd: seq<nat>, runStride: seq<nat>, runBase: seq<nat>)
    requires Separate(sorted) && Runs(sorted, runFirst)
    ensures |runStart| == |runEnd| == |runStride| == |runBase| == RunCount(runFirst)
    ensures forall k | 0 <= k < RunCount(runFirst) ::
      RunTables(TablesOf(runStart, runEnd, runStride, runBase), sorted, runFirst, k)
    ensures Increasing(runEnd)
  {
    hide Runs, Uniform, Separate;
    runStart, runEnd, runStride, runBase := [], [], [], [];
    RunsShape(sorted, runFirst);
    for k := 0 to |runFirst| - 1
      invariant |runStart| == |runEnd| == |runStride| == |runBase| == k
      invariant forall j | 0 <= j < k ::
        RunEntry(sorted, runFirst[j], runFirst[j + 1], runStart[j], runEnd[j], runStride[j], runBase[j])
    {
      RunAt(sorted, runFirst, k);
      var head := sorted[runFirst[k]];
      HeadNonEmpty(sorted, runFirst[k]);
      runStart := runStart + [head.start];
      runEnd := runEnd + [sorted[runFirst[k + 1] - 1].end];
      runStride := runStride + [head.end - head.start];
      runBase := runBase + [runFirst[k]];
    }
    forall j, k | 0 <= j < k < |runEnd| ensures runEnd[j] < runEnd[k] {
      assert RunEntry(sorted, runFirst[j], runFirst[j + 1], runStart[j], runEnd[j], runStride[j], runBase[j]);
      RunEndsIncrease(sorted, runFirst, j, k);
    }
  }

  lemma RunsShape(sorted: seq<FuncRange>, runFirst: seq<nat>)
    requires Runs(sorted, runFirst)
    ensures |runFirst| >= 1
  {
  }

  lemma HeadNonEmpty(sorted: seq<FuncRange>, i: nat)
    requires Separate(sorted) && i < |sorted|
    ensures NonEmpty(sorted[i])
  {
  }

  lemma RunEndsIncrease(sorted: seq<FuncRange>, runFirst: seq<nat>, j: nat, k: nat)
    requires Separate(sorted) && Runs(sorted, runFirst) && j < k < RunCount(runFirst)
    ensures 0 < runFirst[j + 1] <= |sorted| && 0 < runFirst[k + 1] <= |sorted|
    ensures sorted[runFirst[j + 1] - 1].end < sorted[runFirst[k + 1] - 1].end
  {
    RunAt(sorted, runFirst, j);
    RunAt(sorted, runFirst, k);
    RunsAdvance(sorted, runFirst, j + 1, k);
    HeadNonEmpty(sorted, runFirst[k + 1] - 1);
  }

  lemma {:induction false} RunsAdvance(sorted: seq<FuncRange>, runFirst: seq<nat>, j: nat, k: nat)
    requires Runs(sorted, runFirst) && j <= k < |runFirst|
    ensures runFirst[j] <= runFirst[k] <= |sorted| && (j < k ==> runFirst[j] < runFirst[k])
    decreases k
  {
    if j < k {
      assert Uniform(sorted, runFirst[k - 1], runFirst[k]);
      RunsAdvance(sorted, runFirst, j, k - 1);
    } else if k > 0 {
      assert Uniform(sorted, runFirst[k - 1], runFirst[k]);
    }
  }

  lemma Ends(sorted: seq<FuncRange>)
    requires Separate(sorted) && sorted != []
    ensures sorted[0].start <= sorted[|sorted| - 1].end
  {
    HeadNonEmpty(sorted, 0);
    HeadNonEmpty(sorted, |sorted| - 1);
  }

  /** Some range, and not too many pages. */
  predicate Indexable(sorted: seq<FuncRange>) {
    sorted != [] && sorted[0].start <= sorted[|sorted| - 1].end && PageCount(sorted) <= MAX_INDEX_PAGES
  }

  /** Every range list without overlaps and within the page limit gets an index. */
  method EmitLookupIndexed(funcs: seq<FuncRange>)
    returns (index: Option<Index>, sorted: seq<FuncRange>, runFirst: seq<nat>)
    ensures Sorts(funcs, sorted)
    ensures index.Some? <==> (Separate(sorted) && Indexable(sorted))
    ensures index.Some? ==> Represents(index.value, sorted, runFirst)
  {
    hide Sorts, Separate, Runs, RunTables, Increasing, FirstAfter, Most;
    sorted := Sort(funcs);
    runFirst := [];
    if sorted == [] { return None, sorted, runFirst; }
    var separate := CheckSeparate(funcs, sorted);
    if !separate { return None, sorted, runFirst; }
    Ends(sorted);
    var base := PageBase(sorted[0].start);
    var pages := (sorted[|sorted| - 1].end - base) / PAGE + 1;
    if pages > MAX_INDEX_PAGES { return None, sorted, runFirst; }
    runFirst := BuildRuns(sorted);
    var runStart, runEnd, runStride, runBase := BuildTables(sorted, runFirst);
    var pageFirst := BuildPages(runEnd, base, pages);
    forall p | 0 <= p < |pageFirst|
      ensures pageFirst[p] <= |runStart|
    {
      AfterIsInside(runEnd, pageFirst[p], PageStart(base, p));
    }
    var maxPerPage := CountPerPage(runStart, pageFirst, base);
    var value := Index(base, pages, runStart, runEnd, runStride, runBase, Starts(sorted), pageFirst, maxPerPage);
    forall k | 0 <= k < RunCount(runFirst) ensures RunTables(value, sorted, runFirst, k) {
      SameTables(TablesOf(runStart, runEnd, runStride, runBase), value, sorted, runFirst, k);
    }
    index := Some(value);
  }

  lemma AfterIsInside(ends: seq<nat>, run: nat, address: nat)
    requires FirstAfter(ends, run, address)
    ensures run <= |ends|
  {
  }

  lemma SameTables(a: Index, b: Index, sorted: seq<FuncRange>, runFirst: seq<nat>, k: nat)
    requires k < RunCount(runFirst)
    requires |a.runStart| == |a.runEnd| == |a.runStride| == |a.runBase| == RunCount(runFirst)
    requires b.runStart == a.runStart && b.runEnd == a.runEnd && b.runStride == a.runStride && b.runBase == a.runBase
    requires RunTables(a, sorted, runFirst, k)
    ensures RunTables(b, sorted, runFirst, k)
  {
  }

  // The indexed lookup

  lemma NoOwnerBetween(sorted: seq<FuncRange>, at: nat, address: nat)
    requires Separate(sorted) && at <= |sorted|
    requires at > 0 ==> sorted[at - 1].end <= address
    requires at < |sorted| ==> address < sorted[at].start
    ensures FirstOwner(sorted, address) == None
  {
    forall r | r in sorted ensures !Owns(r, address) {
      var i :| 0 <= i < |sorted| && sorted[i] == r;
      if i < at - 1 { assert sorted[i].end <= sorted[at - 1].start; HeadNonEmpty(sorted, at - 1); }
      if i > at { assert sorted[at].end <= sorted[i].start; HeadNonEmpty(sorted, at); }
    }
    FirstOwnerNone(sorted, address);
  }

  lemma OwnerAt(sorted: seq<FuncRange>, index: nat, address: nat)
    requires Separate(sorted) && index < |sorted| && sorted[index].start <= address < sorted[index].end
    ensures FirstOwner(sorted, address) == if Owns(sorted[index], address) then Some(sorted[index].start) else None
  {
    forall r | r in sorted && Owns(r, address) ensures r == sorted[index] {
      var i :| 0 <= i < |sorted| && sorted[i] == r;
      ContainersMeet(sorted, address, i, index);
    }
    if Owns(sorted[index], address) {
      FirstOwnerIs(sorted, address, sorted[index]);
    } else {
      FirstOwnerNone(sorted, address);
    }
  }

  lemma ContainersMeet(sorted: seq<FuncRange>, address: nat, i: nat, j: nat)
    requires Separate(sorted) && i < |sorted| && j < |sorted|
    requires sorted[i].start <= address < sorted[i].end && sorted[j].start <= address < sorted[j].end
    ensures i == j
  {
  }

  /** The tables at one run. */
  lemma EntryAt(index: Index, sorted: seq<FuncRange>, runFirst: seq<nat>, k: nat)
    requires Represents(index, sorted, runFirst) && k < |index.runEnd|
    ensures k < RunCount(runFirst)
      && RunEntry(sorted, runFirst[k], runFirst[k + 1], index.runStart[k], index.runEnd[k], index.runStride[k],
      index.runBase[k])
    ensures Uniform(sorted, runFirst[k], runFirst[k + 1]) && NonEmpty(sorted[runFirst[k]])
  {
    assert RunTables(index, sorted, runFirst, k);
    RunAt(sorted, runFirst, k);
    HeadNonEmpty(sorted, runFirst[k]);
  }

  lemma RunMisses(index: Index, sorted: seq<FuncRange>, runFirst: seq<nat>, run: nat, address: nat)
    requires Represents(index, sorted, runFirst) && run <= |index.runEnd| && |index.runStart| == |index.runEnd|
    requires run > 0 ==> index.runEnd[run - 1] <= address
    requires run < |index.runEnd| ==> address < index.runStart[run]
    ensures FirstOwner(sorted, address) == None
  {
    hide FirstOwner, Uniform;
    if run > 0 { EntryAt(index, sorted, runFirst, run - 1); }
    if run < |index.runEnd| { EntryAt(index, sorted, runFirst, run); }
    NoOwnerBetween(sorted, runFirst[run], address);
  }

  lemma RunHits(index: Index, sorted: seq<FuncRange>, runFirst: seq<nat>, run: nat, address: nat)
    requires Represents(index, sorted, runFirst) && run < |index.runEnd|
    requires |index.runStart| == |index.runEnd| == |index.runStride| == |index.runBase|
    requires index.runStart[run] <= address < index.runEnd[run]
    ensures index.runStride[run] > 0
    ensures var i := index.runBase[run] + Chunk(address - index.runStart[run], index.runStride[run]);
      i < |index.chunks|
      && FirstOwner(sorted, address) == if (address - index.runStart[run]) % 4 == 0 then Some(index.chunks[i]) else None
  {
    EntryAt(index, sorted, runFirst, run);
    hide FirstOwner, Uniform, Chunk;
    InsideRun(sorted, runFirst[run], runFirst[run + 1], address);
  }

  /** Inside a run the division picks the owner, if any range of the list owns the address. */
  lemma InsideRun(sorted: seq<FuncRange>, from: nat, to: nat, address: nat)
    requires Separate(sorted) && Uniform(sorted, from, to) && NonEmpty(sorted[from])
    requires sorted[from].start <= address < sorted[to - 1].end
    ensures var i := from + Chunk(address - sorted[from].start, Width(sorted[from]));
      i < |sorted|
      && FirstOwner(sorted, address) == if (address - sorted[from].start) % 4 == 0 then Some(sorted[i].start) else None
  {
    hide Chunk;
    RunIndex(sorted, from, to, address);
    OwnerAt(sorted, from + RunOffset(sorted, from, address), address);
  }

  /** Addresses outside the pages have no owner. */
  lemma OutsidePages(index: Index, sorted: seq<FuncRange>, runFirst: seq<nat>, address: nat)
    requires Represents(index, sorted, runFirst)
    requires address < index.base || (address - index.base) / PAGE >= index.pages
    ensures FirstOwner(sorted, address) == None
  {
    if address < index.base {
      NoOwnerBetween(sorted, 0, address);
    } else {
      NoOwnerBetween(sorted, |sorted|, address);
    }
  }

  /** The runs walked over all start before the page ends. */
  lemma WalkIsShort(index: Index, sorted: seq<FuncRange>, runFirst: seq<nat>, page: nat, run: nat, address: nat)
    requires Represents(index, sorted, runFirst) && page < index.pages && index.pageFirst[page] <= run <= |index.runEnd|
    requires forall k | 0 <= k < run :: index.runEnd[k] <= address
    requires address < PageStart(index.base, page + 1) < WORD
    ensures run - index.pageFirst[page] <= index.maxPerPage
  {
    forall k | index.pageFirst[page] <= k < run ensures index.runStart[k] < PageEnd(index.base, page) {
      assert RunTables(index, sorted, runFirst, k);
      RunAt(sorted, runFirst, k);
      RunOrdered(sorted, runFirst, k);
    }
    StartingBeforeIs(index.runStart, index.pageFirst[page], PageEnd(index.base, page), run);
    assert PageCountOf(index.runStart, index.pageFirst, index.base, page) <= index.maxPerPage;
  }

  lemma RunOrdered(sorted: seq<FuncRange>, runFirst: seq<nat>, k: nat)
    requires Separate(sorted) && Runs(sorted, runFirst) && k < RunCount(runFirst)
    ensures runFirst[k] < runFirst[k + 1] <= |sorted| && sorted[runFirst[k]].start < sorted[runFirst[k + 1] - 1].end
  {
    RunAt(sorted, runFirst, k);
    HeadNonEmpty(sorted, runFirst[k]);
    HeadNonEmpty(sorted, runFirst[k + 1] - 1);
  }

  lemma PageOf(base: nat, address: nat)
    requires base <= address
    ensures var page := (address - base) / PAGE; PageStart(base, page) <= address < PageStart(base, page + 1)
  {
  }

  /** The runs from `run` on that end at an address or before it. */
  function EndingBy(ends: seq<nat>, run: nat, address: nat): (walked: nat)
    ensures run + walked <= |ends| || walked == 0
    ensures forall k | run <= k < run + walked :: ends[k] <= address
    ensures run + walked < |ends| ==> ends[run + walked] > address
    decreases |ends| - run
  {
    if run < |ends| && ends[run] <= address then 1 + EndingBy(ends, run + 1, address) else 0
  }

  /** How many runs the lookup of an address walks over. */
  function WalkLength(index: Index, address: nat): nat
    requires |index.pageFirst| == index.pages
  {
    if address < index.base || (address - index.base) / PAGE >= index.pages then 0
    else EndingBy(index.runEnd, index.pageFirst[(address - index.base) / PAGE], address)
  }

  /** The emitted walk from the first run of the address's page. */
  method WalkPage(index: Index, page: nat, address: nat, ghost sorted: seq<FuncRange>, ghost runFirst: seq<nat>)
    returns (found: Option<nat>, walked: nat)
    requires Represents(index, sorted, runFirst) && page < index.pages
    requires PageStart(index.base, page) <= address < PageStart(index.base, page + 1)
    ensures found == FirstOwner(sorted, address)
    ensures |index.pageFirst| == index.pages && walked == EndingBy(index.runEnd, index.pageFirst[page], address)
  {
    hide FirstOwner, Represents, PageStart;
    RepresentsShape(index, sorted, runFirst);
    var run := index.pageFirst[page];
    assert FirstAfter(index.runEnd, run, PageStart(index.base, page));
    while run < |index.runEnd| && index.runEnd[run] <= address
      invariant index.pageFirst[page] <= run <= |index.runEnd|
      invariant forall k | 0 <= k < run :: index.runEnd[k] <= address
      invariant run - index.pageFirst[page] + EndingBy(index.runEnd, run, address)
        == EndingBy(index.runEnd, index.pageFirst[page], address)
    {
      run := run + 1;
    }
    walked := run - index.pageFirst[page];
    if run >= |index.runEnd| || address < index.runStart[run] {
      RunMisses(index, sorted, runFirst, run, address);
      return None, walked;
    }
    RunHits(index, sorted, runFirst, run, address);
    var offset := address - index.runStart[run];
    if offset % 4 != 0 { return None, walked; }
    found := Some(index.chunks[index.runBase[run] + offset / index.runStride[run]]);
  }

  /** The emitted indexed lookup finds what the linear one finds; `WalkBoundIff` says when it walks
      over at most `maxPerPage` runs. */
  method FindIndexed(index: Index, address: nat, ghost funcs: seq<FuncRange>, ghost sorted: seq<FuncRange>,
          ghost runFirst: seq<nat>)
    returns (found: Option<nat>, walked: nat)
    requires Sorts(funcs, sorted) && Represents(index, sorted, runFirst)
    ensures found == FirstOwner(funcs, address)
    ensures |index.pageFirst| == index.pages && walked == WalkLength(index, address)
  {
    hide Sorts, FirstOwner, Represents, PageStart;
    RepresentsShape(index, sorted, runFirst);
    SameOwner(funcs, sorted, address);
    if address < index.base {
      OutsidePages(index, sorted, runFirst, address);
      return None, 0;
    }
    var page := (address - index.base) / PAGE;
    if page >= index.pages {
      OutsidePages(index, sorted, runFirst, address);
      return None, 0;
    }
    PageOf(index.base, address);
    found, walked := WalkPage(index, page, address, sorted, runFirst);
  }

  lemma RepresentsShape(index: Index, sorted: seq<FuncRange>, runFirst: seq<nat>)
    requires Represents(index, sorted, runFirst)
    ensures Separate(sorted) && |index.pageFirst| == index.pages
    ensures |index.runStart| == |index.runEnd| == |index.runStride| == |index.runBase|
    ensures forall p | 0 <= p < index.pages :: FirstAfter(index.runEnd, index.pageFirst[p], PageStart(index.base, p))
  {
  }

  // The bound on the walk

  /** Pages other than one that ends at the top of the address space keep the bound. */
  lemma WalkInPage(index: Index, sorted: seq<FuncRange>, runFirst: seq<nat>, page: nat, address: nat)
    requires Represents(index, sorted, runFirst) && page < index.pages
    requires PageStart(index.base, page) <= address < PageStart(index.base, page + 1) < WORD
    ensures EndingBy(index.runEnd, index.pageFirst[page], address) <= index.maxPerPage
  {
    var first := index.pageFirst[page];
    assert FirstAfter(index.runEnd, first, PageStart(index.base, page));
    var run := first + EndingBy(index.runEnd, first, address);
    forall k | 0 <= k < run ensures index.runEnd[k] <= address {
    }
    WalkIsShort(index, sorted, runFirst, page, run, address);
  }

  /** The pages reach no further than the top of the address space. */
  lemma PagesInside(index: Index, sorted: seq<FuncRange>, runFirst: seq<nat>)
    requires Represents(index, sorted, runFirst) && Words(sorted)
    ensures index.pages > 0 && PageStart(index.base, index.pages) <= WORD
  {
    hide Most, Separate, Runs, RunTables;
    PagesEnd(index.base, sorted[|sorted| - 1].end);
  }

  lemma PagesEnd(base: nat, limit: nat)
    requires base % PAGE == 0 && base <= limit < WORD
    ensures PageStart(base, (limit - base) / PAGE + 1) <= WORD
  {
    var n := (limit - base) / PAGE;
    var b := base / PAGE;
    assert base == b * PAGE;
    assert (b + n) * PAGE <= limit;
  }

  lemma EndsAreWords(index: Index, sorted: seq<FuncRange>, runFirst: seq<nat>, k: nat)
    requires Represents(index, sorted, runFirst) && Words(sorted) && k < |index.runEnd|
    ensures index.runEnd[k] < WORD
  {
    EntryAt(index, sorted, runFirst, k);
  }

  lemma SortedWords(funcs: seq<FuncRange>, sorted: seq<FuncRange>)
    requires Words(funcs) && Sorts(funcs, sorted)
    ensures Words(sorted)
  {
    forall i | 0 <= i < |sorted| ensures sorted[i].start < WORD && sorted[i].end < WORD {
      SortedNonEmpty(funcs, sorted, sorted[i]);
    }
  }

  /** Starts before an address end where the count does. */
  lemma {:induction false} StartingBeforeStops(starts: seq<nat>, run: nat, address: nat)
    requires run <= |starts|
    ensures var end := run + StartingBefore(starts, run, address);
      end <= |starts| && (forall k | run <= k < end :: starts[k] < address)
        && (end < |starts| ==> starts[end] >= address)
    decreases |starts| - run
  {
    if run < |starts| && starts[run] < address { StartingBeforeStops(starts, run + 1, address); }
  }

  lemma RunStartsIncrease(index: Index, sorted: seq<FuncRange>, runFirst: seq<nat>, j: nat, k: nat)
    requires Represents(index, sorted, runFirst) && j < k < |index.runStart|
    ensures index.runEnd[j] <= index.runStart[k]
  {
    hide Most, FirstAfter, PageStart;
    EntryAt(index, sorted, runFirst, j);
    EntryAt(index, sorted, runFirst, k);
    RunsAdvance(sorted, runFirst, j + 1, k);
    HeadNonEmpty(sorted, runFirst[j + 1] - 1);
  }

  /** The runs counted for a page, from its first on, are exactly those that share an address with it. */
  lemma CountsMeeting(index: Index, sorted: seq<FuncRange>, runFirst: seq<nat>, page: nat, k: nat)
    requires Represents(index, sorted, runFirst) && page < index.pages && k < |index.runStart|
    requires PageStart(index.base, page + 1) < WORD
    ensures |index.runEnd| == |index.runStart| && |index.pageFirst| == index.pages
    ensures var first := index.pageFirst[page];
      first <= k < first + PageCountOf(index.runStart, index.pageFirst, index.base, page) <==>
        index.runStart[k] < PageStart(index.base, page + 1) && PageStart(index.base, page) < index.runEnd[k]
  {
    hide Most, Separate, Runs, RunTables;
    var first, limit := index.pageFirst[page], PageStart(index.base, page + 1);
    assert FirstAfter(index.runEnd, first, PageStart(index.base, page));
    StartingBeforeStops(index.runStart, first, limit);
    var end := first + StartingBefore(index.runStart, first, limit);
    RunIsNotEmpty(index, sorted, runFirst, k);
    if first < k { RunStartsIncrease(index, sorted, runFirst, first, k); }
    if end < k {
      RunStartsIncrease(index, sorted, runFirst, end, k);
      RunIsNotEmpty(index, sorted, runFirst, end);
    }
  }

  lemma RunIsNotEmpty(index: Index, sorted: seq<FuncRange>, runFirst: seq<nat>, k: nat)
    requires Represents(index, sorted, runFirst) && k < |index.runStart|
    ensures index.runStart[k] < index.runEnd[k]
  {
    EntryAt(index, sorted, runFirst, k);
    RunOrdered(sorted, runFirst, k);
  }

  /** At the last address every run has ended. */
  lemma WalkAtTop(index: Index, sorted: seq<FuncRange>, runFirst: seq<nat>, page: nat)
    requires Represents(index, sorted, runFirst) && Words(sorted) && page < index.pages
    ensures index.pageFirst[page] <= |index.runEnd|
    ensures EndingBy(index.runEnd, index.pageFirst[page], WORD - 1) == |index.runEnd| - index.pageFirst[page]
  {
    hide Most, Separate, Runs, RunTables;
    var first := index.pageFirst[page];
    assert FirstAfter(index.runEnd, first, PageStart(index.base, page));
    var run := first + EndingBy(index.runEnd, first, WORD - 1);
    if run < |index.runEnd| { EndsAreWords(index, sorted, runFirst, run); }
  }

  /** The runs that end in the last page or after its start. */
  function LastPageRuns(index: Index): int
    requires index.pages > 0 && |index.pageFirst| == index.pages
  {
    |index.runEnd| - index.pageFirst[index.pages - 1]
  }

  /** `maxPerPage` bounds the walk at every address if and only if the last page does not end at the
      top of the address space, where the page end wraps to 0 and counts nothing, or has no more runs
      than `maxPerPage`. */
  lemma WalkBoundIff(index: Index, funcs: seq<FuncRange>, sorted: seq<FuncRange>, runFirst: seq<nat>)
    requires Words(funcs) && Sorts(funcs, sorted) && Represents(index, sorted, runFirst)
    ensures index.pages > 0 && |index.pageFirst| == index.pages
    ensures (forall address: nat | address < WORD :: WalkLength(index, address) <= index.maxPerPage)
       <==> (PageStart(index.base, index.pages) < WORD || LastPageRuns(index) <= index.maxPerPage)
  {
    hide Represents, PageStart, Words, EndingBy, Sorts;
    SortedWords(funcs, sorted);
    RepresentsShape(index, sorted, runFirst);
    PagesInside(index, sorted, runFirst);
    var last := index.pages - 1;
    WalkAtTop(index, sorted, runFirst, last);
    if PageStart(index.base, index.pages) < WORD || LastPageRuns(index) <= index.maxPerPage {
      forall address: nat | address < WORD ensures WalkLength(index, address) <= index.maxPerPage {
        WalkBounded(index, sorted, runFirst, address);
      }
    } else {
      TopAddress(index.base, last);
      assert WalkLength(index, WORD - 1) > index.maxPerPage;
    }
  }

  /** The last address lies in the page that ends at the top. */
  lemma TopAddress(base: nat, page: nat)
    requires PageStart(base, page + 1) == WORD
    ensures base <= WORD - 1 && (WORD - 1 - base) / PAGE == page
  {
  }

  lemma PageStartGrows(base: nat, p: nat, q: nat)
    requires p <= q
    ensures PageStart(base, p) <= PageStart(base, q) && (p < q ==> PageStart(base, p) < PageStart(base, q))
  {
  }

  lemma WalkBounded(index: Index, sorted: seq<FuncRange>, runFirst: seq<nat>, address: nat)
    requires Represents(index, sorted, runFirst) && Words(sorted) && address < WORD
    requires index.pages > 0 && |index.pageFirst| == index.pages
    requires PageStart(index.base, index.pages) < WORD || LastPageRuns(index) <= index.maxPerPage
    ensures WalkLength(index, address) <= index.maxPerPage
  {
    hide Represents, PageStart, Words;
    if index.base <= address {
      var page := (address - index.base) / PAGE;
      if page < index.pages {
        PageOf(index.base, address);
        PagesInside(index, sorted, runFirst);
        PageStartGrows(index.base, page + 1, index.pages);
        if PageStart(index.base, page + 1) < WORD {
          WalkInPage(index, sorted, runFirst, page, address);
        } else {
          WalkAtTop(index, sorted, runFirst, page);
        }
      }
    }
  }

  /** Two ranges in the last page of the address space. */
  function TopRanges(): seq<FuncRange> { [FuncRange(0xFFFF_F000, 0xFFFF_F004), FuncRange(0xFFFF_F100, 0xFFFF_F104)] }

  lemma PairCounts(a: FuncRange, b: FuncRange)
    ensures multiset{a, b}[a] == if a == b then 2 else 1
  {
  }

  lemma TopSorted(sorted: seq<FuncRange>)
    requires Sorts(TopRanges(), sorted)
    ensures sorted == TopRanges()
  {
    var funcs := TopRanges();
    assert funcs[..1] == [funcs[0]] && funcs[..1][..0] == [];
    assert NonEmptyOf(funcs[..1]) == [funcs[0]];
    assert NonEmptyOf(funcs) == [funcs[0]] + [funcs[1]];
    assert |multiset(sorted)| == 2;
    assert sorted[0] in multiset(sorted) && sorted[1] in multiset(sorted);
    assert sorted == [sorted[0], sorted[1]];
    assert multiset(sorted) == multiset{sorted[0], sorted[1]};
    PairCounts(sorted[0], sorted[1]);
  }

  /** Their tables claim that no run is walked over, and a lookup walks over one. */
  lemma WrappedPageBreaksBound(index: Index, sorted: seq<FuncRange>, runFirst: seq<nat>)
    requires Sorts(TopRanges(), sorted) && Represents(index, sorted, runFirst)
    ensures |index.pageFirst| == index.pages
    ensures index.maxPerPage == 0 && WalkLength(index, 0xFFFF_F100) == 1
  {
    TopSorted(sorted);
    RunAt(sorted, runFirst, 0);
    assert !Continues(sorted, 0, 2, 1);
    RunsAdvance(sorted, runFirst, 1, |runFirst| - 1);
    RunAt(sorted, runFirst, 1);
    RunsAdvance(sorted, runFirst, 2, |runFirst| - 1);
    assert RunTables(index, sorted, runFirst, 0) && RunTables(index, sorted, runFirst, 1);
    assert FirstAfter(index.runEnd, index.pageFirst[0], PageStart(index.base, 0));
    assert index.pages == 1 && PageEnd(index.base, 0) == 0;
  }
}
