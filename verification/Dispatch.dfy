/** The emitted lookups from a guest address to its recompiled function (src/backend/dispatch.c):
    the linear list of run checks and the page-and-run index both find the same function. */
module Dispatch {
  import opened Wrappers

  const PAGE: nat := 4096
  const MAX_INDEX_PAGES: nat := 65536

  datatype FuncRange = FuncRange(start: nat, end: nat)

  /** Starts and ends are 32-bit. */
  ghost predicate Words(ranges: seq<FuncRange>) {
    forall i | 0 <= i < |ranges| :: ranges[i].start < WORD && ranges[i].end < WORD
  }

  /** An address belongs to a range that contains it at a multiple-of-4 offset. */
  predicate Owns(r: FuncRange, address: nat) {
    r.start <= address < r.end && (address - r.start) % 4 == 0
  }

  /** The function of the first range that owns the address. */
  function FirstOwner(ranges: seq<FuncRange>, address: nat): Option<nat> {
    if ranges == [] then None
    else if Owns(ranges[0], address) then Some(ranges[0].start)
    else FirstOwner(ranges[1..], address)
  }

  lemma {:induction false} FirstOwnerNone(ranges: seq<FuncRange>, address: nat)
    requires forall r | r in ranges :: !Owns(r, address)
    ensures FirstOwner(ranges, address) == None
  {
    if ranges != [] {
      assert ranges[0] in ranges;
      FirstOwnerNone(ranges[1..], address);
    }
  }

  lemma {:induction false} FirstOwnerIs(ranges: seq<FuncRange>, address: nat, r: FuncRange)
    requires r in ranges && Owns(r, address)
    requires forall q | q in ranges && Owns(q, address) :: q.start == r.start
    ensures FirstOwner(ranges, address) == Some(r.start)
  {
    assert ranges[0] in ranges;
    if !Owns(ranges[0], address) { FirstOwnerIs(ranges[1..], address, r); }
  }

  lemma {:induction false} FirstOwnerSplits(before: seq<FuncRange>, after: seq<FuncRange>, address: nat)
    ensures FirstOwner(before + after, address)
         == if FirstOwner(before, address).Some? then FirstOwner(before, address) else FirstOwner(after, address)
  {
    if before == [] {
      assert before + after == after;
    } else {
      assert (before + after)[1..] == before[1..] + after;
      FirstOwnerSplits(before[1..], after, address);
    }
  }

  // Runs

  predicate NonEmpty(r: FuncRange) { r.start < r.end }

  function Width(r: FuncRange): nat { if NonEmpty(r) then r.end - r.start else 0 }

  /** Adjoining ranges of one width divisible by 4, the last perhaps shorter; or one range. */
  ghost predicate Uniform(ranges: seq<FuncRange>, first: nat, end: nat) {
    && first < end <= |ranges|
    && (end == first + 1
        || (NonEmpty(ranges[first]) && Width(ranges[first]) % 4 == 0
            && forall k | first < k < end :: Continues(ranges, first, end, k)))
  }

  predicate Continues(ranges: seq<FuncRange>, first: nat, end: nat, k: nat)
    requires first < k < end <= |ranges|
  {
    && ranges[k - 1].end == ranges[k].start && NonEmpty(ranges[k])
    && Width(ranges[k]) <= Width(ranges[first]) && (k < end - 1 ==> Width(ranges[k]) == Width(ranges[first]))
  }

  /** The longest uniform run from `first`. */
  method UniformRunEnd(ranges: seq<FuncRange>, first: nat) returns (end: nat)
    requires first < |ranges|
    ensures Uniform(ranges, first, end)
    ensures !Uniform(ranges, first, end + 1)
  {
    end := first + 1;
    if ranges[first].start >= ranges[first].end { return; }
    var stride := ranges[first].end - ranges[first].start;
    if stride % 4 != 0 { return; }
    while end < |ranges|
      invariant Uniform(ranges, first, end)
      invariant forall k | first < k < end :: Width(ranges[k]) == stride
    {
      var previous, current := ranges[end - 1], ranges[end];
      if previous.end != current.start || current.start >= current.end {
        assert Uniform(ranges, first, end + 1) ==> Continues(ranges, first, end + 1, end);
        break;
      }
      var width := current.end - current.start;
      if width > stride {
        assert Uniform(ranges, first, end + 1) ==> Continues(ranges, first, end + 1, end);
        break;
      }
      ghost var next := end + 1;
      forall k | first < k < next ensures Continues(ranges, first, next, k) {
        if k < end { assert Continues(ranges, first, end, k); }
      }
      end := end + 1;
      if width != stride {
        assert Uniform(ranges, first, end + 1) ==> Continues(ranges, first, end + 1, end - 1);
        break;
      }
    }
  }

  lemma {:induction false} RunStarts(ranges: seq<FuncRange>, first: nat, end: nat, j: nat)
    requires Uniform(ranges, first, end) && first + j < end
    ensures ranges[first + j].start == ranges[first].start + j * Width(ranges[first])
  {
    if j > 0 {
      RunStarts(ranges, first, end, j - 1);
      assert Continues(ranges, first, end, first + j);
      if j > 1 { assert Continues(ranges, first, end, first + j - 1); }
      var stride := Width(ranges[first]);
      assert ranges[first + j].start == ranges[first + j - 1].start + stride;
      Step(j, stride);
    }
  }

  /** Chunk `j` of a stretch cut every `stride` bytes, the last chunk perhaps shorter. */
  function ChunkAt(start: nat, length: nat, stride: nat, j: nat): FuncRange {
    FuncRange(start + j * stride, start + if (j + 1) * stride < length then (j + 1) * stride else length)
  }

  /** A section split into equal chunks and at most one short one is a uniform run. */
  lemma SplitIsUniform(ranges: seq<FuncRange>, first: nat, end: nat, start: nat, length: nat, stride: nat)
    requires first < end <= |ranges| && stride > 0 && stride % 4 == 0
    requires (end - first - 1) * stride < length <= (end - first) * stride
    requires forall k | first <= k < end :: ranges[k] == ChunkAt(start, length, stride, k - first)
    ensures Uniform(ranges, first, end)
  {
    if end > first + 1 {
      WholeChunk(start, length, stride, 0, end - first);
      forall k | first < k < end ensures Continues(ranges, first, end, k) {
        WholeChunk(start, length, stride, k - first - 1, end - first);
        if k < end - 1 {
          WholeChunk(start, length, stride, k - first, end - first);
        } else {
          LastChunk(start, length, stride, end - first);
        }
      }
    }
  }

  lemma WholeChunk(start: nat, length: nat, stride: nat, j: nat, count: nat)
    requires j + 1 < count && stride > 0 && (count - 1) * stride < length
    ensures var r := ChunkAt(start, length, stride, j);
      r.end == start + (j + 1) * stride && NonEmpty(r) && Width(r) == stride
  {
    Steps(j + 1, count - 1, stride);
    Step(j + 1, stride);
  }

  lemma LastChunk(start: nat, length: nat, stride: nat, count: nat)
    requires count > 0 && stride > 0 && (count - 1) * stride < length <= count * stride
    ensures var r := ChunkAt(start, length, stride, count - 1);
      r.end == start + length && NonEmpty(r) && Width(r) <= stride
  {
    Step(count, stride);
  }

  lemma Steps(j: nat, k: nat, stride: nat)
    requires j <= k
    ensures j * stride <= k * stride
  {
  }

  lemma Step(j: nat, stride: nat)
    requires j > 0
    ensures (j - 1) * stride + stride == j * stride
  {
  }

  lemma {:induction false} MultipleOfFour(j: nat, stride: nat)
    requires stride % 4 == 0
    ensures (j * stride) % 4 == 0
  {
    assert stride == 4 * (stride / 4);
    assert j * stride == 4 * (j * (stride / 4)) by { Regroup(j, stride / 4); }
  }

  lemma Regroup(j: nat, quarter: nat)
    ensures j * (4 * quarter) == 4 * (j * quarter)
  {
  }

  lemma Quotient(offset: nat, stride: nat)
    requires stride > 0
    ensures (offset / stride) * stride <= offset < (offset / stride + 1) * stride
  {
  }

  lemma {:induction false} Below(a: nat, b: nat, stride: nat)
    requires a <= b
    ensures a * stride <= b * stride
  {
    if a < b {
      Below(a, b - 1, stride);
      Step(b, stride);
    }
  }

  lemma LastEnds(ranges: seq<FuncRange>, first: nat, end: nat)
    requires Uniform(ranges, first, end) && NonEmpty(ranges[first])
    ensures ranges[end - 1].end <= ranges[first].start + (end - first) * Width(ranges[first])
  {
    var last := end - 1 - first;
    RunStarts(ranges, first, end, last);
    if last > 0 { assert Continues(ranges, first, end, end - 1); }
    Step(last + 1, Width(ranges[first]));
  }

  lemma RangeEnds(ranges: seq<FuncRange>, first: nat, end: nat, q: nat)
    requires Uniform(ranges, first, end) && first + q + 1 < end
    ensures ranges[first + q].end == ranges[first].start + (q + 1) * Width(ranges[first])
  {
    RunStarts(ranges, first, end, q + 1);
    assert Continues(ranges, first, end, first + q + 1);
  }

  /** The range of a run at a quotient and its remainder. */
  lemma RangeAt(ranges: seq<FuncRange>, first: nat, end: nat, address: nat, q: nat)
    requires Uniform(ranges, first, end) && NonEmpty(ranges[first])
    requires ranges[first].start <= address < ranges[end - 1].end
    requires q * Width(ranges[first]) <= address - ranges[first].start < (q + 1) * Width(ranges[first])
    ensures first + q < end && ranges[first + q].start <= address < ranges[first + q].end
  {
    LastEnds(ranges, first, end);
    if q >= end - first { Below(end - first, q, Width(ranges[first])); }
    RunStarts(ranges, first, end, q);
    if first + q + 1 < end { RangeEnds(ranges, first, end, q); }
  }

  lemma AlignedAt(ranges: seq<FuncRange>, first: nat, end: nat, address: nat, q: nat)
    requires Uniform(ranges, first, end) && first + q < end && ranges[first + q].start <= address
    ensures (address - ranges[first + q].start) % 4 == 0 <==> (address - ranges[first].start) % 4 == 0
  {
    RunStarts(ranges, first, end, q);
    if q > 0 {
      MultipleOfFour(q, Width(ranges[first]));
      SameRemainder(address - ranges[first + q].start, q * Width(ranges[first]));
    }
  }

  lemma SameRemainder(x: nat, m: nat)
    requires m % 4 == 0
    ensures x % 4 == 0 <==> (x + m) % 4 == 0
  {
  }

  function RunOffset(ranges: seq<FuncRange>, first: nat, address: nat): nat
    requires first < |ranges| && NonEmpty(ranges[first]) && ranges[first].start <= address
  {
    Chunk(address - ranges[first].start, Width(ranges[first]))
  }

  /** The position of an offset in a table of chunks `stride` wide. */
  function Chunk(offset: nat, stride: nat): nat { if stride == 0 then 0 else offset / stride }

  /** Dividing the offset into a run by its stride gives the range there. */
  lemma RunIndex(ranges: seq<FuncRange>, first: nat, end: nat, address: nat)
    requires Uniform(ranges, first, end) && NonEmpty(ranges[first])
    requires ranges[first].start <= address < ranges[end - 1].end
    ensures var index := first + RunOffset(ranges, first, address);
      index < end && ranges[index].start <= address < ranges[index].end
      && (Owns(ranges[index], address) <==> (address - ranges[first].start) % 4 == 0)
  {
    hide Uniform;
    UniformBounds(ranges, first, end);
    var q := RunOffset(ranges, first, address);
    Quotient(address - ranges[first].start, Width(ranges[first]));
    RangeAt(ranges, first, end, address, q);
    AlignedAt(ranges, first, end, address, q);
  }

  /** The ends of a run only grow. */
  lemma {:induction false} RunEndsGrow(ranges: seq<FuncRange>, first: nat, end: nat, j: nat, k: nat)
    requires Uniform(ranges, first, end) && first <= j <= k < end && NonEmpty(ranges[first])
    ensures ranges[first].start <= ranges[j].start < ranges[j].end <= ranges[k].end
      && (j < k ==> ranges[j].end <= ranges[k].start)
    decreases k
  {
    if j < k {
      RunEndsGrow(ranges, first, end, j, k - 1);
      assert Continues(ranges, first, end, k);
    } else if k > first {
      RunEndsGrow(ranges, first, end, first, k - 1);
      assert Continues(ranges, first, end, k);
    }
  }

  // The linear lookup

  /** One emitted check: of a single range, or of a run through a table of functions. */
  datatype RunCheck =
    | Single(start: nat, end: nat)
    | Table(start: nat, span: nat, stride: nat, functions: seq<nat>)

  predicate ValidCheck(c: RunCheck) {
    c.Table? ==> c.stride > 0 && forall offset | 0 <= offset < c.span :: offset / c.stride < |c.functions|
  }

  function SubWord(a: nat, b: nat): nat
    requires a < WORD && b < WORD
  {
    (a + WORD - b) % WORD
  }

  function Check(c: RunCheck, address: nat): Option<nat>
    requires ValidCheck(c) && address < WORD && c.start < WORD
  {
    match c
    case Single(start, end) =>
      if address >= start && address < end && SubWord(address, start) % 4 == 0 then Some(start) else None
    case Table(start, span, stride, functions) =>
      var offset := SubWord(address, start);
      if offset < span && offset % 4 == 0 then Some(functions[offset / stride]) else None
  }

  /** What the emitted `dolrecomp_find_original` returns. */
  function LinearLookup(checks: seq<RunCheck>, address: nat): Option<nat>
    requires address < WORD && forall c | c in checks :: ValidCheck(c) && c.start < WORD
  {
    if checks == [] then None
    else if Check(checks[0], address).Some? then Check(checks[0], address)
    else LinearLookup(checks[1..], address)
  }

  function Starts(ranges: seq<FuncRange>): (starts: seq<nat>)
    ensures |starts| == |ranges| && forall i | 0 <= i < |ranges| :: starts[i] == ranges[i].start
  {
    seq(|ranges|, i requires 0 <= i < |ranges| => ranges[i].start)
  }

  ghost function RunCheckOf(ranges: seq<FuncRange>, first: nat, end: nat): RunCheck
    requires Uniform(ranges, first, end)
  {
    if end == first + 1 then Single(ranges[first].start, ranges[first].end)
    else
      RunEndsGrow(ranges, first, end, first, end - 1);
      Table(ranges[first].start, ranges[end - 1].end - ranges[first].start, ranges[first].end - ranges[first].start,
               Starts(ranges[first..end]))
  }

  lemma SubWordIs(address: nat, start: nat, end: nat)
    requires address < WORD && start < end < WORD
    ensures SubWord(address, start) < end - start <==> start <= address < end
    ensures start <= address ==> SubWord(address, start) == address - start
  {
  }

  /** Every offset inside a run's span has a function. */
  lemma TableIsLarge(ranges: seq<FuncRange>, first: nat, end: nat)
    requires Uniform(ranges, first, end) && end > first + 1
    ensures ValidCheck(RunCheckOf(ranges, first, end))
  {
    RunEndsGrow(ranges, first, end, first, end - 1);
    var c := RunCheckOf(ranges, first, end);
    forall offset | 0 <= offset < c.span ensures offset / c.stride < |c.functions| {
      RunIndex(ranges, first, end, ranges[first].start + offset);
    }
  }

  /** The check of a run finds what its ranges own. */
  lemma CheckFindsOwner(ranges: seq<FuncRange>, first: nat, end: nat, address: nat)
    requires Words(ranges) && Uniform(ranges, first, end) && address < WORD
    ensures var c := RunCheckOf(ranges, first, end);
      ValidCheck(c) && c.start < WORD && Check(c, address) == FirstOwner(ranges[first..end], address)
  {
    var run := ranges[first..end];
    if end == first + 1 {
      assert run == [ranges[first]];
      assert run[1..] == [];
      if NonEmpty(ranges[first]) { SubWordIs(address, ranges[first].start, ranges[first].end); }
    } else {
      TableIsLarge(ranges, first, end);
      TableFindsOwner(ranges, first, end, address);
    }
  }

  lemma TableFindsOwner(ranges: seq<FuncRange>, first: nat, end: nat, address: nat)
    requires Words(ranges) && Uniform(ranges, first, end) && address < WORD && end > first + 1
    requires ValidCheck(RunCheckOf(ranges, first, end))
    ensures Check(RunCheckOf(ranges, first, end), address) == FirstOwner(ranges[first..end], address)
  {
    hide ValidCheck;
    var run := ranges[first..end];
    RunEndsGrow(ranges, first, end, first, end - 1);
    SubWordIs(address, ranges[first].start, ranges[end - 1].end);
    hide SubWord, Uniform;
    if ranges[first].start <= address < ranges[end - 1].end {
      RunIndex(ranges, first, end, address);
      OnlyOwnerInRun(ranges, first, end, address, first + RunOffset(ranges, first, address));
    } else {
      NoOwnerOutside(ranges, first, end, address);
    }
  }

  lemma NoOwnerOutside(ranges: seq<FuncRange>, first: nat, end: nat, address: nat)
    requires Uniform(ranges, first, end) && NonEmpty(ranges[first])
    requires !(ranges[first].start <= address < ranges[end - 1].end)
    ensures FirstOwner(ranges[first..end], address) == None
  {
    var run := ranges[first..end];
    forall r | r in run ensures !Owns(r, address) {
      var j :| 0 <= j < |run| && run[j] == r;
      RunEndsGrow(ranges, first, end, first + j, end - 1);
    }
    FirstOwnerNone(run, address);
  }

  lemma OnlyOwnerInRun(ranges: seq<FuncRange>, first: nat, end: nat, address: nat, index: nat)
    requires Uniform(ranges, first, end) && NonEmpty(ranges[first]) && first <= index < end
    requires ranges[index].start <= address < ranges[index].end
    ensures FirstOwner(ranges[first..end], address)
      == if Owns(ranges[index], address) then Some(ranges[index].start) else None
  {
    var run := ranges[first..end];
    forall r | r in run && Owns(r, address) ensures r == ranges[index] {
      var j :| 0 <= j < |run| && run[j] == r;
      if first + j < index { RunEndsGrow(ranges, first, end, first + j, index); }
      if index < first + j { RunEndsGrow(ranges, first, end, index, first + j); }
    }
    if Owns(ranges[index], address) {
      assert run[index - first] == ranges[index];
      FirstOwnerIs(run, address, ranges[index]);
    } else {
      FirstOwnerNone(run, address);
    }
  }

  lemma {:induction false} LinearLookupAppend(checks: seq<RunCheck>, c: RunCheck, address: nat)
    requires address < WORD && (forall d | d in checks :: ValidCheck(d) && d.start < WORD) && ValidCheck(c)
      && c.start < WORD
    ensures forall d | d in checks + [c] :: ValidCheck(d) && d.start < WORD
    ensures LinearLookup(checks + [c], address)
         == if LinearLookup(checks, address).Some? then LinearLookup(checks, address) else Check(c, address)
  {
    if checks == [] {
      assert checks + [c] == [c] && [c][1..] == [];
    } else {
      assert (checks + [c])[1..] == checks[1..] + [c];
      LinearLookupAppend(checks[1..], c, address);
    }
  }

  /** The emitted checks find the first range that owns the address, in every list. */
  method EmitFunctionLookup(ranges: seq<FuncRange>) returns (checks: seq<RunCheck>)
    requires Words(ranges)
    ensures forall c | c in checks :: ValidCheck(c) && c.start < WORD
    ensures forall address: nat | address < WORD :: LinearLookup(checks, address) == FirstOwner(ranges, address)
  {
    checks := [];
    var first := 0;
    while first < |ranges|
      invariant 0 <= first <= |ranges|
      invariant forall c | c in checks :: ValidCheck(c) && c.start < WORD
      invariant forall address: nat | address < WORD ::
        LinearLookup(checks, address) == FirstOwner(ranges[..first], address)
    {
      hide ValidCheck, Words, Check, LinearLookup, FirstOwner, Uniform;
      var end := UniformRunEnd(ranges, first);
      UniformBounds(ranges, first, end);
      var c := EmitLookupRun(ranges, first, end);
      forall address: nat | address < WORD
        ensures ValidCheck(c) && c.start < WORD && (forall d | d in checks + [c] :: ValidCheck(d) && d.start < WORD)
        ensures LinearLookup(checks + [c], address) == FirstOwner(ranges[..end], address)
      {
        CheckFindsOwner(ranges, first, end, address);
        LinearLookupAppend(checks, c, address);
        assert ranges[..end] == ranges[..first] + ranges[first..end];
        FirstOwnerSplits(ranges[..first], ranges[first..end], address);
      }
      CheckFindsOwner(ranges, first, end, 0);
      LinearLookupAppend(checks, c, 0);
      checks := checks + [c];
      first := end;
    }
    assert ranges[..|ranges|] == ranges;
  }

  lemma UniformBounds(ranges: seq<FuncRange>, first: nat, end: nat)
    requires Uniform(ranges, first, end)
    ensures first < end <= |ranges|
  {
  }

  method EmitLookupRun(ranges: seq<FuncRange>, first: nat, end: nat) returns (c: RunCheck)
    requires Words(ranges) && Uniform(ranges, first, end)
    ensures c == RunCheckOf(ranges, first, end)
  {
    if end == first + 1 || ranges[first].start >= ranges[first].end {
      return Single(ranges[first].start, ranges[first].end);
    }
    RunEndsGrow(ranges, first, end, first, end - 1);
    var functions: seq<nat> := [];
    for i := first to end
      invariant functions == Starts(ranges[first..i])
    {
      functions := functions + [ranges[i].start];
    }
    c := Table(ranges[first].start, ranges[end - 1].end - ranges[first].start, ranges[first].end - ranges[first].start,
      functions);
  }
}
