/** How code sections are cut into ranges (src/app/pipeline.c:545-571, 732-800): the ranges tile
    every section, respect the partition points and keep patches whole, and exactly when they fit
    their allocation. */
module Partition {
  import opened Wrappers

  datatype Section = Section(address: Word32, size: Word32)
  datatype Patch = Patch(start: nat, end: nat)
  datatype Cut = Cut(start: nat, end: nat)

  /** Bytes in the whole words of a section. */
  function WordBytes(s: Section): nat { s.size - s.size % 4 }

  /** The end of the whole words of a section, as a 32-bit word. */
  function WordsEnd(s: Section): nat { (s.address + WordBytes(s)) % WORD }

  /** The addresses the loop over a section runs through. */
  predicate Holds(s: Section, a: nat) { s.address <= a < WordsEnd(s) }

  // Partition points

  ghost predicate Sorted(points: seq<nat>) { forall i, j | 0 <= i < j < |points| :: points[i] < points[j] }

  ghost predicate Ascending(points: seq<nat>) { forall i, j | 0 <= i < j < |points| :: points[i] <= points[j] }

  method SortPoints(points: seq<nat>) returns (sorted: seq<nat>)
    ensures Ascending(sorted) && |sorted| == |points| && forall p :: p in sorted <==> p in points
  {
    sorted := [];
    for i := 0 to |points|
      invariant Ascending(sorted) && |sorted| == i && forall p :: p in sorted <==> p in points[..i]
    {
      var at := |sorted|;
      while at > 0 && sorted[at - 1] > points[i]
        invariant 0 <= at <= |sorted| && forall k | at <= k < |sorted| :: sorted[k] > points[i]
      {
        at := at - 1;
      }
      InsertPoint(sorted, at, points[i]);
      assert points[..i + 1] == points[..i] + [points[i]];
      sorted := sorted[..at] + [points[i]] + sorted[at..];
    }
    assert points[..|points|] == points;
  }

  lemma InsertPoint(sorted: seq<nat>, at: nat, p: nat)
    requires Ascending(sorted) && at <= |sorted| && (at > 0 ==> sorted[at - 1] <= p)
    requires forall k | at <= k < |sorted| :: sorted[k] > p
    ensures var after := sorted[..at] + [p] + sorted[at..];
      Ascending(after) && forall q :: q in after <==> (q in sorted || q == p)
  {
    var after := sorted[..at] + [p] + sorted[at..];
    forall k | 0 <= k < at ensures sorted[k] <= p {
      assert k < at - 1 ==> sorted[k] <= sorted[at - 1];
    }
    forall i, j | 0 <= i < j < |after| ensures after[i] <= after[j] {
      if i < at && j > at { assert sorted[i] <= sorted[j - 1]; }
      if i > at { assert sorted[i - 1] <= sorted[j - 1]; }
      if j < at { assert sorted[i] <= sorted[j]; }
    }
    SameMembers(sorted, at, p);
  }

  lemma SameMembers(sorted: seq<nat>, at: nat, p: nat)
    requires at <= |sorted|
    ensures forall q :: q in sorted[..at] + [p] + sorted[at..] <==> (q in sorted || q == p)
  {
    assert sorted == sorted[..at] + sorted[at..];
  }

  /** Drop repeated neighbours, in place. */
  method Unique(sorted: seq<nat>) returns (points: seq<nat>)
    requires Ascending(sorted)
    ensures Sorted(points) && |points| <= |sorted| && forall p :: p in points <==> p in sorted
  {
    points := [];
    for i := 0 to |sorted|
      invariant Sorted(points) && |points| <= i && forall p :: p in points <==> p in sorted[..i]
      invariant points == [] <==> i == 0
      invariant i > 0 ==> points[|points| - 1] == sorted[i - 1]
    {
      assert sorted[..i + 1] == sorted[..i] + [sorted[i]];
      if points == [] || sorted[i] != points[|points| - 1] {
        assert forall k | 0 <= k < |points| - 1 :: points[k] < points[|points| - 1];
        points := points + [sorted[i]];
      }
    }
    assert sorted[..|sorted|] == sorted;
  }

  /** The bounds the patches add. */
  predicate IsBound(patches: seq<Patch>, includeEnd: bool, p: nat) {
    exists i :: 0 <= i < |patches| && (p == patches[i].start || (includeEnd && p == patches[i].end))
  }

  method AppendPatchPoints(patches: seq<Patch>, includeEnd: bool, points: seq<nat>) returns (all: seq<nat>)
    requires Sorted(points)
    ensures Sorted(all) && forall p :: p in all <==> (p in points || IsBound(patches, includeEnd, p))
  {
    if patches == [] { return points; }
    var list := points;
    for i := 0 to |patches|
      invariant forall p :: p in list <==> (p in points || IsBound(patches[..i], includeEnd, p))
    {
      ghost var before := list;
      list := list + [patches[i].start];
      if includeEnd { list := list + [patches[i].end]; }
      MoreBounds(patches, i, includeEnd);
    }
    assert patches[..|patches|] == patches;
    var sorted := SortPoints(list);
    all := Unique(sorted);
  }

  lemma MoreBounds(patches: seq<Patch>, i: nat, includeEnd: bool)
    requires i < |patches|
    ensures forall p :: IsBound(patches[..i + 1], includeEnd, p)
                   <==> (IsBound(patches[..i], includeEnd, p) || p == patches[i].start
                     || (includeEnd && p == patches[i].end))
  {
    var more := patches[..i + 1];
    forall p
      ensures IsBound(more, includeEnd, p)
         <==> (IsBound(patches[..i], includeEnd, p) || p == patches[i].start || (includeEnd && p == patches[i].end))
    {
      if IsBound(more, includeEnd, p) {
        var k :| 0 <= k < |more| && (p == more[k].start || (includeEnd && p == more[k].end));
        assert k < i ==> patches[..i][k] == more[k];
      }
      if IsBound(patches[..i], includeEnd, p) {
        var k :| 0 <= k < i && (p == patches[..i][k].start || (includeEnd && p == patches[..i][k].end));
        assert more[k] == patches[..i][k];
      }
      assert more[i] == patches[i];
    }
  }

  // Ranges

  /** `next_llvm_partition_point`: the first point after `start`, or `end`. */
  method NextPoint(points: seq<nat>, start: nat, end: nat) returns (next: nat)
    requires Sorted(points) && start < end
    ensures start < next <= end && (next == end || next in points)
    ensures forall p | p in points :: !(start < p < next)
  {
    var low, high := 0, |points|;
    while low < high
      invariant 0 <= low <= high <= |points|
      invariant forall k | 0 <= k < low :: points[k] <= start
      invariant forall k | high <= k < |points| :: points[k] > start
    {
      var middle := low + (high - low) / 2;
      if points[middle] <= start { low := middle + 1; } else { high := middle; }
    }
    next := if low < |points| && points[low] < end then points[low] else end;
  }

  function FirstPatch(patches: seq<Patch>, start: nat): (found: Option<Patch>)
    ensures found.Some? ==> found.value in patches && found.value.start == start
    ensures found.None? ==> !StartsPatch(patches, start)
  {
    if patches == [] then None
    else if patches[0].start == start then Some(patches[0])
    else FirstPatch(patches[1..], start)
  }

  /** `llvm_patch_for_start` */
  method PatchForStart(patches: seq<Patch>, start: nat) returns (found: Option<Patch>)
    ensures found == FirstPatch(patches, start)
  {
    for i := 0 to |patches|
      invariant FirstPatch(patches, start) == FirstPatch(patches[i..], start)
    {
      if patches[i].start == start { return Some(patches[i]); }
    }
    found := None;
  }

  ghost predicate StartsPatch(patches: seq<Patch>, start: nat) { exists q :: q in patches && q.start == start }

  /** What the loader of patches checks and does: they are not empty, do not overlap and have both
      ends among the points. */
  ghost predicate Patched(points: seq<nat>, patches: seq<Patch>) {
    && (forall q | q in patches :: q.start < q.end && q.start in points && q.end in points)
    && (forall q, r | q in patches && r in patches :: q == r || q.end <= r.start || r.end <= q.start)
  }

  /** Adjoining non-empty ranges from one address to another. */
  ghost predicate Tiles(cuts: seq<Cut>, from: nat, to: nat) {
    if cuts == [] then from == to
    else
      && cuts[0].start == from && cuts[|cuts| - 1].end == to
      && (forall k | 0 <= k < |cuts| :: cuts[k].start < cuts[k].end)
      && (forall k | 0 < k < |cuts| :: cuts[k - 1].end == cuts[k].start)
  }

  /** A range is a patch, or is at most a chunk long with no partition point inside. */
  ghost predicate WellCut(cut: Cut, chunk: nat, points: seq<nat>, patches: seq<Patch>, limit: nat) {
    if StartsPatch(patches, cut.start) then Patch(cut.start, cut.end) in patches
    else
      && cut.end <= limit && cut.end - cut.start <= 4 * chunk
      && (forall p | p in points :: !(cut.start < p < cut.end))
      && (cut.end in points || cut.end == limit || cut.end == cut.start + 4 * chunk)
  }

  /** Where the ranges of a section stop. */
  function Stop(cuts: seq<Cut>, s: Section): nat { if cuts == [] then s.address else cuts[|cuts| - 1].end }

  /** A section is tiled by well-cut ranges: from its start up to its end, or up to the end of a patch
      that crosses it. */
  ghost predicate TiledSection(cuts: seq<Cut>, s: Section, chunk: nat, points: seq<nat>, patches: seq<Patch>) {
    && Tiles(cuts, s.address, Stop(cuts, s)) && WordsEnd(s) <= Stop(cuts, s)
    && forall k | 0 <= k < |cuts| ::
         Holds(s, cuts[k].start) && WellCut(cuts[k], chunk, points, patches, WordsEnd(s))
  }

  /** `ceil(n / d)` as the allocation computes it. */
  function Ceiling(n: nat, d: nat): nat
    requires d > 0
  {
    (n + d - 1) / d
  }

  /** The 32-bit sum of the allocation before it wraps. */
  function Capacity(sections: seq<Section>, chunk: nat, points: nat): nat
    requires chunk > 0
  {
    if sections == [] then points
    else Capacity(sections[..|sections| - 1], chunk, points) + Ceiling(sections[|sections| - 1].size / 4, chunk)
  }

  // How many ranges a section needs

  /** The first point strictly inside, or the end. */
  function NextAfter(points: seq<nat>, start: nat, end: nat): (next: nat)
    requires start < end
    ensures start < next <= end && (next == end || next in points)
    ensures forall p | p in points :: !(start < p < next)
  {
    if points == [] then end
    else
      var next, p := NextAfter(points[..|points| - 1], start, end), points[|points| - 1];
      assert points == points[..|points| - 1] + [p];
      if start < p < next then p else next
  }

  /** Each patch needs one range, and each stretch between neighbouring points, or a point and an end
      of the section, its length over the chunk, rounded up. */
  ghost function Pieces(start: nat, end: nat, chunk: nat, points: seq<nat>, patches: seq<Patch>): nat
    requires chunk > 0 && Patched(points, patches)
    decreases if start < end then end - start else 0
  {
    if start >= end then 0
    else match FirstPatch(patches, start)
      case Some(q) => 1 + Pieces(q.end, end, chunk, points, patches)
      case None =>
        var next := NextAfter(points, start, end);
        Ceiling(next - start, 4 * chunk) + Pieces(next, end, chunk, points, patches)
  }

  ghost function SectionPieces(s: Section, chunk: nat, points: seq<nat>, patches: seq<Patch>): nat
    requires chunk > 0 && Patched(points, patches)
  {
    Pieces(s.address, WordsEnd(s), chunk, points, patches)
  }

  ghost function TotalPieces(sections: seq<Section>, chunk: nat, points: seq<nat>, patches: seq<Patch>): nat
    requires chunk > 0 && Patched(points, patches)
  {
    if sections == [] then 0
    else TotalPieces(sections[..|sections| - 1], chunk, points, patches)
         + SectionPieces(sections[|sections| - 1], chunk, points, patches)
  }

  lemma CeilingStep(n: nat, d: nat)
    requires d > 0
    ensures n >= d ==> Ceiling(n - d, d) + 1 == Ceiling(n, d)
    ensures n > 0 ==> Ceiling(n, d) >= 1
    ensures Ceiling(0, d) == 0
  {
    if n >= d { DivStep(n - 1, d); }
    if n > 0 { DivStep(n + d - 1, d); }
    DivSmall(d - 1, d);
  }

  lemma DivSmall(n: nat, d: nat)
    requires n < d
    ensures n / d == 0
  {
  }

  lemma {:induction false} Product(a: nat, b: nat, d: nat)
    requires a <= b
    ensures a * d <= b * d
  {
    if a < b { Product(a, b - 1, d); }
  }

  lemma DivUnique(n: nat, d: nat, q: nat)
    requires d > 0 && q * d <= n < q * d + d
    ensures n / d == q
  {
    var k := n / d;
    assert k * d <= n < k * d + d by { DivBounds(n, d); }
    if k < q { Product(k + 1, q, d); }
    if q < k { Product(q + 1, k, d); }
  }

  lemma DivBounds(n: nat, d: nat)
    requires d > 0
    ensures (n / d) * d <= n < (n / d) * d + d
  {
  }

  lemma DivStep(n: nat, d: nat)
    requires d > 0
    ensures (n + d) / d == n / d + 1
    ensures n >= d ==> n / d >= 1
  {
    DivBounds(n, d);
    var q := n / d;
    assert (q + 1) * d == q * d + d;
    DivUnique(n + d, d, q + 1);
  }

  lemma {:induction false} CeilingGrows(m: nat, n: nat, d: nat)
    requires d > 0 && m <= n
    ensures Ceiling(m, d) <= Ceiling(n, d)
  {
    DivGrows(m + d - 1, n + d - 1, d);
  }

  lemma {:induction false} DivGrows(m: nat, n: nat, d: nat)
    requires d > 0 && m <= n
    ensures m / d <= n / d
    decreases n
  {
    if n >= d {
      if m >= d {
        DivGrows(m - d, n - d, d);
        DivStep(m - d, d);
        DivStep(n - d, d);
      } else {
        DivSmall(m, d);
      }
    } else {
      DivSmall(m, d);
      DivSmall(n, d);
    }
  }

  lemma CeilingOfWords(w: nat, c: nat)
    requires c > 0
    ensures Ceiling(4 * w, 4 * c) == Ceiling(w, c)
  {
    var q := Ceiling(w, c);
    DivBounds(w + c - 1, c);
    assert q * (4 * c) == 4 * (q * c);
    DivUnique(4 * w + 4 * c - 1, 4 * c, q);
  }

  lemma NextIs(points: seq<nat>, start: nat, end: nat, next: nat)
    requires start < next <= end && (next == end || next in points)
    requires forall p | p in points :: !(start < p < next)
    ensures NextAfter(points, start, end) == next
  {
  }

  /** The end of the range the loop cuts at `start` outside patches. */
  function CutEnd(points: seq<nat>, start: nat, limit: nat, chunk: nat): (end: nat)
    requires start < limit && chunk > 0
    ensures start < end <= limit
  {
    NextAfter(points, start, if limit - start < 4 * chunk then limit else start + 4 * chunk)
  }

  lemma CeilingOfOne(n: nat, d: nat)
    requires 0 < n <= d
    ensures Ceiling(n, d) == 1
  {
    DivUnique(n + d - 1, d, 1);
  }

  /** Every range the loop cuts is one of the pieces. */
  lemma PieceCut(start: nat, limit: nat, chunk: nat, points: seq<nat>, patches: seq<Patch>)
    requires chunk > 0 && Patched(points, patches) && start < limit && FirstPatch(patches, start).None?
    ensures var end := CutEnd(points, start, limit, chunk);
      Pieces(start, limit, chunk, points, patches) == 1 + Pieces(end, limit, chunk, points, patches)
  {
    hide Ceiling, NextAfter;
    var next, end := NextAfter(points, start, limit), CutEnd(points, start, limit, chunk);
    if next - start <= 4 * chunk {
      NextIs(points, start, if limit - start < 4 * chunk then limit else start + 4 * chunk, next);
      CeilingOfOne(next - start, 4 * chunk);
    } else {
      NextIs(points, start, start + 4 * chunk, start + 4 * chunk);
      CeilingStep(next - start, 4 * chunk);
      NextIs(points, end, limit, next);
      assert end !in points && FirstPatch(patches, end).None?;
    }
  }

  lemma PatchPiece(start: nat, limit: nat, chunk: nat, points: seq<nat>, patches: seq<Patch>)
    requires chunk > 0 && Patched(points, patches) && start < limit && FirstPatch(patches, start).Some?
    ensures var q := FirstPatch(patches, start).value;
      Pieces(start, limit, chunk, points, patches) == 1 + Pieces(q.end, limit, chunk, points, patches)
  {
  }

  lemma SomePiece(start: nat, limit: nat, chunk: nat, points: seq<nat>, patches: seq<Patch>)
    requires chunk > 0 && Patched(points, patches) && start < limit
    ensures Pieces(start, limit, chunk, points, patches) > 0
  {
    if FirstPatch(patches, start).None? { PieceCut(start, limit, chunk, points, patches); }
  }

  // The loop

  /** What is cut of a section so far. */
  ghost predicate Cutting(cuts: seq<Cut>, s: Section, start: nat, chunk: nat, points: seq<nat>, patches: seq<Patch>) {
    && Tiles(cuts, s.address, start) && start == Stop(cuts, s)
    && forall k | 0 <= k < |cuts| ::
         Holds(s, cuts[k].start) && WellCut(cuts[k], chunk, points, patches, WordsEnd(s))
  }

  /** The range that begins at `start`. */
  method NextCut(start: nat, limit: nat, chunk: nat, points: seq<nat>, patches: seq<Patch>) returns (end: nat)
    requires chunk > 0 && Sorted(points) && Patched(points, patches) && start < limit
    ensures start < end && WellCut(Cut(start, end), chunk, points, patches, limit)
    ensures Pieces(start, limit, chunk, points, patches) == 1 + Pieces(end, limit, chunk, points, patches)
  {
    hide Pieces, NextAfter, Sorted, FirstPatch;
    var patch := PatchForStart(patches, start);
    if patch.Some? {
      end := patch.value.end;
      PatchPiece(start, limit, chunk, points, patches);
    } else {
      var remaining, span := limit - start, chunk * 4;
      end := if remaining < span then limit else start + span;
      ghost var bound := end;
      end := NextPoint(points, start, end);
      NextIs(points, start, bound, end);
      PieceCut(start, limit, chunk, points, patches);
    }
  }

  lemma CutsOn(cuts: seq<Cut>, s: Section, start: nat, chunk: nat, points: seq<nat>, patches: seq<Patch>, end: nat)
    requires Cutting(cuts, s, start, chunk, points, patches) && Holds(s, start) && start < end
    requires WellCut(Cut(start, end), chunk, points, patches, WordsEnd(s))
    ensures Cutting(cuts + [Cut(start, end)], s, end, chunk, points, patches)
  {
    hide WellCut;
  }

  /** Cut one section into the ranges from `first` on.  `fits` is false when a write would fall outside
      the array; the source makes no such check. */
  method CutSection(s: Section, chunk: nat, points: seq<nat>, patches: seq<Patch>, ranges: array<Cut>, first: nat)
    returns (count: nat, fits: bool)
    requires chunk > 0 && Sorted(points) && Patched(points, patches) && first <= ranges.Length
    modifies ranges
    ensures ranges[..first] == old(ranges[..first])
    ensures fits <==> first + SectionPieces(s, chunk, points, patches) <= ranges.Length
    ensures fits ==> first <= count <= ranges.Length && count == first + SectionPieces(s, chunk, points, patches)
    ensures fits ==> TiledSection(ranges[first..count], s, chunk, points, patches)
  {
    hide Pieces, Patched, Sorted, WellCut, Ceiling;
    var start, end := s.address, WordsEnd(s);
    count, fits := first, true;
    assert ranges[first..first] == [];
    while start < end
      invariant first <= count <= ranges.Length && ranges[..first] == old(ranges[..first])
      invariant Cutting(ranges[first..count], s, start, chunk, points, patches)
      invariant count + Pieces(start, end, chunk, points, patches) == first + SectionPieces(s, chunk, points, patches)
      decreases if start < end then end - start else 0
    {
      if count == ranges.Length {
        SomePiece(start, end, chunk, points, patches);
        return count, false;
      }
      CuttingHolds(ranges[first..count], s, start, chunk, points, patches);
      var next := NextCut(start, end, chunk, points, patches);
      CutsOn(ranges[first..count], s, start, chunk, points, patches, next);
      ghost var cuts := ranges[first..count];
      ranges[count] := Cut(start, next);
      count := count + 1;
      assert ranges[first..count] == cuts + [Cut(start, next)];
      start := next;
    }
    NothingLeft(start, end, chunk, points, patches);
  }

  lemma NothingLeft(start: nat, end: nat, chunk: nat, points: seq<nat>, patches: seq<Patch>)
    requires chunk > 0 && Patched(points, patches) && start >= end
    ensures Pieces(start, end, chunk, points, patches) == 0
  {
  }

  lemma CuttingHolds(cuts: seq<Cut>, s: Section, start: nat, chunk: nat, points: seq<nat>, patches: seq<Patch>)
    requires Cutting(cuts, s, start, chunk, points, patches) && start < WordsEnd(s)
    ensures Holds(s, start)
  {
    hide WellCut;
    if cuts != [] { assert Holds(s, cuts[|cuts| - 1].start); }
  }

  /** The ranges of section `i` lie between `firsts[i]` and `firsts[i + 1]`. */
  ghost predicate Bounds(firsts: seq<nat>, sections: nat, count: nat) {
    && |firsts| == sections + 1 && firsts[0] == 0 && firsts[sections] == count
    && forall i, j | 0 <= i <= j < |firsts| :: firsts[i] <= firsts[j]
  }

  ghost predicate Tiled(cuts: seq<Cut>, firsts: seq<nat>, sections: seq<Section>, chunk: nat, points: seq<nat>,
          patches: seq<Patch>)
  {
    && Bounds(firsts, |sections|, |cuts|)
    && forall i | 0 <= i < |sections| ::
         TiledSection(cuts[firsts[i]..firsts[i + 1]], sections[i], chunk, points, patches)
  }

  lemma MoreTiled(cuts: seq<Cut>, firsts: seq<nat>, more: seq<Cut>, sections: seq<Section>, i: nat, chunk: nat,
          points: seq<nat>, patches: seq<Patch>)
    requires i < |sections| && Tiled(cuts, firsts, sections[..i], chunk, points, patches)
    requires TiledSection(more, sections[i], chunk, points, patches)
    ensures Tiled(cuts + more, firsts + [|cuts| + |more|], sections[..i + 1], chunk, points, patches)
  {
    hide TiledSection;
    var all, firsts' := cuts + more, firsts + [|cuts| + |more|];
    forall j | 0 <= j < i + 1
      ensures TiledSection(all[firsts'[j]..firsts'[j + 1]], sections[..i + 1][j], chunk, points, patches)
    {
      if j < i {
        assert all[firsts'[j]..firsts'[j + 1]] == cuts[firsts[j]..firsts[j + 1]];
        assert sections[..i + 1][j] == sections[..i][j];
      } else {
        assert all[firsts'[j]..firsts'[j + 1]] == more;
      }
    }
  }

  /** The longest chunk the command line and the environment accept; with it no term of the
      allocation wraps, only their sum may. */
  const MAX_CHUNK: nat := 4096

  method AddCeilings(sections: seq<Section>, chunk: nat, points: nat) returns (capacity: Word32)
    requires 0 < chunk <= MAX_CHUNK && points < WORD
    ensures capacity == Capacity(sections, chunk, points) % WORD
  {
    hide Ceiling, Capacity;
    capacity := points;
    NoSections(chunk, points);
    for i := 0 to |sections|
      invariant capacity == Capacity(sections[..i], chunk, points) % WORD
    {
      CapacityStep(sections, i, chunk, points);
      AddThenWrap(Capacity(sections[..i], chunk, points), Ceiling(sections[i].size / 4, chunk));
      capacity := (capacity + Ceiling(sections[i].size / 4, chunk)) % WORD;
    }
    assert sections[..|sections|] == sections;
  }

  lemma NoSections(chunk: nat, points: nat)
    requires chunk > 0
    ensures Capacity([], chunk, points) == points
  {
  }

  lemma CapacityStep(sections: seq<Section>, i: nat, chunk: nat, points: nat)
    requires chunk > 0 && i < |sections|
    ensures Capacity(sections[..i + 1], chunk, points)
         == Capacity(sections[..i], chunk, points) + Ceiling(sections[i].size / 4, chunk)
  {
    assert sections[..i + 1][..i] == sections[..i];
  }

  lemma AddThenWrap(a: nat, b: nat)
    ensures (a % WORD + b) % WORD == (a + b) % WORD
  {
  }

  /** Cut every section.  Every write falls inside the allocation if and only if the sections need no
      more ranges than it holds. */
  method BuildRanges(sections: seq<Section>, chunk: nat, points: seq<nat>, patches: seq<Patch>)
    returns (ranges: array<Cut>, count: nat, fits: bool, ghost firsts: seq<nat>)
    requires 0 < chunk <= MAX_CHUNK && |points| < WORD && Sorted(points) && Patched(points, patches)
    ensures ranges.Length == Capacity(sections, chunk, |points|) % WORD
    ensures fits <==> TotalPieces(sections, chunk, points, patches) <= ranges.Length
    ensures fits ==> count == TotalPieces(sections, chunk, points, patches)
    ensures fits ==> Tiled(ranges[..count], firsts, sections, chunk, points, patches)
  {
    hide TiledSection, Ceiling, Sorted, WellCut, Tiled, Capacity, Patched, Pieces, SectionPieces;
    var capacity := AddCeilings(sections, chunk, |points|);
    ranges := new Cut[capacity](_ => Cut(0, 0));
    count, fits, firsts := 0, true, [0];
    NothingTiled(sections, chunk, points, patches);
    assert ranges[..0] == [];
    for i := 0 to |sections|
      invariant count <= ranges.Length && count == TotalPieces(sections[..i], chunk, points, patches)
      invariant Tiled(ranges[..count], firsts, sections[..i], chunk, points, patches)
    {
      TotalStep(sections, i, chunk, points, patches);
      ghost var cuts := ranges[..count];
      var next;
      next, fits := CutSection(sections[i], chunk, points, patches, ranges, count);
      if !fits {
        TotalGrows(sections, i + 1, chunk, points, patches);
        return ranges, count, fits, firsts;
      }
      MoreTiled(cuts, firsts, ranges[count..next], sections, i, chunk, points, patches);
      assert ranges[..next] == cuts + ranges[count..next];
      count, firsts := next, firsts + [next];
    }
    assert sections[..|sections|] == sections;
  }

  lemma TotalStep(sections: seq<Section>, i: nat, chunk: nat, points: seq<nat>, patches: seq<Patch>)
    requires chunk > 0 && Patched(points, patches) && i < |sections|
    ensures TotalPieces(sections[..i + 1], chunk, points, patches)
         == TotalPieces(sections[..i], chunk, points, patches) + SectionPieces(sections[i], chunk, points, patches)
  {
    assert sections[..i + 1][..i] == sections[..i];
  }

  lemma {:induction false} TotalGrows(sections: seq<Section>, i: nat, chunk: nat, points: seq<nat>, patches: seq<Patch>)
    requires chunk > 0 && Patched(points, patches) && i <= |sections|
    ensures TotalPieces(sections[..i], chunk, points, patches) <= TotalPieces(sections, chunk, points, patches)
    decreases |sections| - i
  {
    if i < |sections| {
      TotalStep(sections, i, chunk, points, patches);
      TotalGrows(sections, i + 1, chunk, points, patches);
    } else {
      assert sections[..i] == sections;
    }
  }

  lemma NothingTiled(sections: seq<Section>, chunk: nat, points: seq<nat>, patches: seq<Patch>)
    ensures Tiled([], [0], sections[..0], chunk, points, patches)
  {
  }

  // When the allocation is large enough

  lemma CeilingSplit(a: nat, b: nat, d: nat)
    requires d > 0
    ensures Ceiling(a, d) + Ceiling(b, d) <= Ceiling(a + b, d) + 1
  {
    var p, q, r := Ceiling(a, d), Ceiling(b, d), Ceiling(a + b, d);
    DivBounds(a + d - 1, d);
    DivBounds(b + d - 1, d);
    DivBounds(a + b + d - 1, d);
    hide Ceiling;
    assert (p + q) * d == p * d + q * d;
    assert (r + 2) * d == r * d + d + d;
    LessByProduct(p + q, r + 2, d);
  }

  lemma LessByProduct(m: nat, n: nat, d: nat)
    requires m * d < n * d
    ensures m < n
  {
    if n <= m { Product(n, m, d); }
  }

  /** The points strictly between two addresses. */
  ghost function Inner(points: seq<nat>, start: nat, end: nat): set<nat> { set p | p in points && start < p < end }

  lemma InnerGrows(points: seq<nat>, start: nat, next: nat, end: nat)
    requires start < next < end && next in points
    ensures |Inner(points, start, end)| >= 1 + |Inner(points, next, end)|
  {
    var rest := Inner(points, next, end);
    assert rest + {next} <= Inner(points, start, end);
    SubsetSize(rest + {next}, Inner(points, start, end));
    assert next !in rest;
  }

  lemma SubsetSize(a: set<nat>, b: set<nat>)
    requires a <= b
    ensures |a| <= |b|
  {
    assert b == a + (b - a);
  }

  /** A stretch needs no more ranges than its chunks and the points inside. */
  lemma {:induction false} PiecesBound(start: nat, end: nat, chunk: nat, points: seq<nat>, patches: seq<Patch>)
    requires chunk > 0 && Patched(points, patches) && start < end
    ensures Pieces(start, end, chunk, points, patches) <= |Inner(points, start, end)| + Ceiling(end - start, 4 * chunk)
    decreases end - start
  {
    hide Ceiling, NextAfter, Inner;
    CeilingStep(end - start, 4 * chunk);
    match FirstPatch(patches, start) {
      case Some(q) =>
        if q.end < end {
          PiecesBound(q.end, end, chunk, points, patches);
          InnerGrows(points, start, q.end, end);
          CeilingGrows(end - q.end, end - start, 4 * chunk);
        }
      case None =>
        var next := NextAfter(points, start, end);
        if next < end {
          PiecesBound(next, end, chunk, points, patches);
          InnerGrows(points, start, next, end);
          CeilingSplit(next - start, end - next, 4 * chunk);
        }
    }
  }

  lemma SectionBound(s: Section, chunk: nat, points: seq<nat>, patches: seq<Patch>)
    requires chunk > 0 && Patched(points, patches)
    ensures SectionPieces(s, chunk, points, patches)
         <= |Inner(points, s.address, WordsEnd(s))| + Ceiling(s.size / 4, chunk)
  {
    hide Ceiling, Inner, Pieces;
    if s.address < WordsEnd(s) {
      PiecesBound(s.address, WordsEnd(s), chunk, points, patches);
      CeilingOfWords(s.size / 4, chunk);
    } else {
      NothingLeft(s.address, WordsEnd(s), chunk, points, patches);
    }
  }

  ghost predicate Apart(sections: seq<Section>) {
    forall i, j, a: nat | 0 <= i < |sections| && 0 <= j < |sections| && Holds(sections[i], a)
      && Holds(sections[j], a) :: i == j
  }

  /** The points inside one of the sections. */
  ghost function Inside(sections: seq<Section>, points: seq<nat>): set<nat> {
    set p | p in points && exists i :: 0 <= i < |sections| && Holds(sections[i], p)
  }

  lemma InnerIsHeld(points: seq<nat>, s: Section, p: nat)
    ensures p in Inner(points, s.address, WordsEnd(s)) ==> Holds(s, p)
  {
  }

  lemma {:induction false} TotalBound(sections: seq<Section>, chunk: nat, points: seq<nat>, patches: seq<Patch>)
    requires chunk > 0 && Patched(points, patches) && Apart(sections)
    ensures TotalPieces(sections, chunk, points, patches) + |points|
         <= |Inside(sections, points)| + Capacity(sections, chunk, |points|)
  {
    hide Ceiling, SectionPieces;
    if sections != [] {
      var n := |sections| - 1;
      TotalBound(sections[..n], chunk, points, patches);
      SectionBound(sections[n], chunk, points, patches);
      var before, inner := Inside(sections[..n], points), Inner(points, sections[n].address, WordsEnd(sections[n]));
      forall p | p in before ensures p !in inner {
        var i :| 0 <= i < n && Holds(sections[..n][i], p);
        assert Holds(sections[i], p);
        InnerIsHeld(points, sections[n], p);
      }
      forall p | p in before + inner ensures p in Inside(sections, points) {
        if p in before {
          var i :| 0 <= i < n && Holds(sections[..n][i], p);
          assert Holds(sections[i], p);
        } else {
          InnerIsHeld(points, sections[n], p);
        }
      }
      SubsetSize(before + inner, Inside(sections, points));
    }
  }

  lemma {:induction false} SetOfSeq(points: seq<nat>, used: set<nat>)
    requires forall p | p in used :: p in points
    ensures |used| <= |points|
    decreases |points|
  {
    if points != [] {
      var last := points[|points| - 1];
      var rest := used - {last};
      assert points == points[..|points| - 1] + [last];
      SetOfSeq(points[..|points| - 1], rest);
      assert used <= rest + {last};
      CardinalityAtMost(used, rest, last);
    } else {
      assert used == {};
    }
  }

  lemma CardinalityAtMost(used: set<nat>, rest: set<nat>, last: nat)
    requires rest == used - {last}
    ensures |used| <= |rest| + 1
  {
    if last in used { assert used == rest + {last}; } else { assert used == rest; }
  }

  /** Sections that do not overlap need no more ranges than the allocation counts, and so fit it when the
      count is a 32-bit word. */
  lemma ApartFits(sections: seq<Section>, chunk: nat, points: seq<nat>, patches: seq<Patch>)
    requires chunk > 0 && Patched(points, patches) && Apart(sections)
    ensures TotalPieces(sections, chunk, points, patches) <= Capacity(sections, chunk, |points|)
    ensures Capacity(sections, chunk, |points|) < WORD
      ==> TotalPieces(sections, chunk, points, patches) <= Capacity(sections, chunk, |points|) % WORD
  {
    TotalBound(sections, chunk, points, patches);
    SetOfSeq(points, Inside(sections, points));
  }

  // Sections that overlap

  /** Every word of `size` words from `start` on. */
  function EveryWord(start: nat, size: nat): seq<nat> { seq(size, i requires 0 <= i < size => start + 4 * i) }

  lemma {:induction false} EveryWordCounts(start: nat, size: nat, k: nat, chunk: nat)
    requires k <= size && chunk > 0
    ensures Pieces(start + 4 * k, start + 4 * size, chunk, EveryWord(start, size), []) == size - k
    decreases size - k
  {
    hide EveryWord, Pieces, NextAfter;
    if k < size {
      EveryWordCounts(start, size, k + 1, chunk);
      EveryWordNext(start, size, k);
      OneWordPiece(start + 4 * k, start + 4 * size, chunk, EveryWord(start, size));
    } else {
      NothingLeft(start + 4 * k, start + 4 * size, chunk, EveryWord(start, size), []);
    }
  }

  lemma OneWordPiece(start: nat, end: nat, chunk: nat, points: seq<nat>)
    requires chunk > 0 && start < end && NextAfter(points, start, end) == start + 4
    ensures Pieces(start, end, chunk, points, []) == 1 + Pieces(start + 4, end, chunk, points, [])
  {
    hide Ceiling, NextAfter;
    CeilingOfOne(4, 4 * chunk);
  }

  lemma EveryWordNext(start: nat, size: nat, k: nat)
    requires k < size
    ensures NextAfter(EveryWord(start, size), start + 4 * k, start + 4 * size) == start + 4 * (k + 1)
  {
    hide NextAfter;
    var points := EveryWord(start, size);
    if k + 1 < size { assert points[k + 1] == start + 4 * (k + 1); }
    NextIs(points, start + 4 * k, start + 4 * size, start + 4 * (k + 1));
  }

  /** Two sections of eight words at one address, every word a point, as returns at every word make it:
      sixteen ranges are written, ten are allocated. */
  lemma OverlapOverruns(address: Word32)
    requires address + 32 < WORD
    ensures var s, points := Section(address, 32), EveryWord(address, 8);
      Patched(points, []) && TotalPieces([s, s], 64, points, []) == 16 && Capacity([s, s], 64, |points|) == 10
  {
    var s, points := Section(address, 32), EveryWord(address, 8);
    EveryWordCounts(address, 8, 0, 64);
    assert [s, s][..1] == [s] && [s][..0] == [];
    assert TotalPieces([s], 64, points, []) == 8;
    assert Capacity([s], 64, 8) == 9;
  }

  // Sections at the top of the address space

  /** The loop runs through all words of a section if and only if they end below the top. */
  lemma HoldsWordsIff(s: Section)
    ensures (forall a: nat :: Holds(s, a) <==> s.address <= a < s.address + WordBytes(s))
       <==> (s.address + WordBytes(s) < WORD || WordBytes(s) == 0)
  {
    if s.address + WordBytes(s) >= WORD && WordBytes(s) > 0 {
      assert WordsEnd(s) == s.address + WordBytes(s) - WORD;
      assert !Holds(s, s.address);
    }
  }

  /** A section that ends at the top gets no range at all. */
  lemma TopSectionIsDropped(chunk: nat, points: seq<nat>, patches: seq<Patch>)
    requires chunk > 0 && Patched(points, patches)
    ensures var s := Section(0xFFFF_F000, 0x1000);
      SectionPieces(s, chunk, points, patches) == 0 && forall a :: !Holds(s, a)
  {
  }

  // What the tiling means

  predicate Contains(c: Cut, a: nat) { c.start <= a < c.end }

  lemma {:induction false} TilesGrow(cuts: seq<Cut>, from: nat, to: nat, j: nat, k: nat)
    requires Tiles(cuts, from, to) && j <= k < |cuts|
    ensures from <= cuts[j].start < cuts[j].end <= cuts[k].end <= to && (j < k ==> cuts[j].end <= cuts[k].start)
    decreases k - j
  {
    if j < k {
      TilesGrow(cuts, from, to, j + 1, k);
      TilesStart(cuts, from, to, j);
    } else {
      TilesStart(cuts, from, to, j);
      TilesEnd(cuts, from, to, j);
    }
  }

  lemma {:induction false} TilesStart(cuts: seq<Cut>, from: nat, to: nat, j: nat)
    requires Tiles(cuts, from, to) && j < |cuts|
    ensures from <= cuts[j].start < cuts[j].end && (j + 1 < |cuts| ==> cuts[j].end == cuts[j + 1].start)
  {
    if j > 0 { TilesStart(cuts, from, to, j - 1); }
  }

  lemma {:induction false} TilesEnd(cuts: seq<Cut>, from: nat, to: nat, j: nat)
    requires Tiles(cuts, from, to) && j < |cuts|
    ensures cuts[j].end <= to
    decreases |cuts| - j
  {
    if j + 1 < |cuts| {
      TilesEnd(cuts, from, to, j + 1);
      TilesStart(cuts, from, to, j);
    }
  }

  /** Tiles leave no gap. */
  lemma {:induction false} TilesCover(cuts: seq<Cut>, from: nat, to: nat, a: nat, k: nat) returns (found: nat)
    requires Tiles(cuts, from, to) && k < |cuts| && cuts[k].start <= a < to
    ensures found < |cuts| && Contains(cuts[found], a)
    decreases |cuts| - k
  {
    TilesStart(cuts, from, to, k);
    if a < cuts[k].end {
      found := k;
    } else {
      found := TilesCover(cuts, from, to, a, k + 1);
    }
  }

  /** A patch that starts in a section is exactly one of the section's ranges. */
  lemma PatchIsRange(cuts: seq<Cut>, s: Section, chunk: nat, points: seq<nat>, patches: seq<Patch>, q: Patch)
    requires Patched(points, patches) && TiledSection(cuts, s, chunk, points, patches)
    requires q in patches && Holds(s, q.start)
    ensures Cut(q.start, q.end) in cuts
  {
    var k := TilesCover(cuts, s.address, Stop(cuts, s), q.start, 0);
    CutAtPatch(cuts[k], chunk, points, patches, WordsEnd(s), q);
  }

  lemma CutAtPatch(cut: Cut, chunk: nat, points: seq<nat>, patches: seq<Patch>, limit: nat, q: Patch)
    requires Patched(points, patches) && WellCut(cut, chunk, points, patches, limit)
      && q in patches && Contains(cut, q.start)
    ensures cut == Cut(q.start, q.end)
  {
    assert q.start in points && q.end > q.start && (q.start == cut.start ==> StartsPatch(patches, cut.start));
    if StartsPatch(patches, cut.start) {
      var r := Patch(cut.start, cut.end);
      assert q == r || q.end <= r.start || r.end <= q.start;
    }
  }

  ghost predicate StaysInside(s: Section, patches: seq<Patch>) {
    forall q | q in patches && Holds(s, q.start) :: q.end <= WordsEnd(s)
  }

  /** The ranges of a section end where it ends if and only if no patch that starts in it crosses its
      end. */
  lemma EndsExactlyIff(cuts: seq<Cut>, s: Section, chunk: nat, points: seq<nat>, patches: seq<Patch>)
    requires Patched(points, patches) && TiledSection(cuts, s, chunk, points, patches)
    ensures (cuts == [] || Stop(cuts, s) == WordsEnd(s)) <==> StaysInside(s, patches)
  {
    if cuts == [] || Stop(cuts, s) == WordsEnd(s) {
      forall q | q in patches && Holds(s, q.start) ensures q.end <= WordsEnd(s) {
        PatchIsRange(cuts, s, chunk, points, patches, q);
        var k :| 0 <= k < |cuts| && cuts[k] == Cut(q.start, q.end);
        TilesGrow(cuts, s.address, Stop(cuts, s), k, |cuts| - 1);
      }
    } else {
      var last := cuts[|cuts| - 1];
      assert Holds(s, last.start) && WellCut(last, chunk, points, patches, WordsEnd(s));
      assert Patch(last.start, last.end) in patches;
    }
  }

  ghost predicate InSomeSection(sections: seq<Section>, q: Patch) {
    q.start < q.end
    && exists j :: 0 <= j < |sections| && sections[j].address <= q.start && q.end <= WordsEnd(sections[j])
  }

  /** Patches inside a section, as the loader of patches checks, stay inside when sections do not
      overlap. */
  lemma LoadedPatchesStay(sections: seq<Section>, patches: seq<Patch>, i: nat)
    requires Apart(sections) && i < |sections|
    requires forall q | q in patches :: InSomeSection(sections, q)
    ensures StaysInside(sections[i], patches)
  {
    forall q | q in patches && Holds(sections[i], q.start) ensures q.end <= WordsEnd(sections[i]) {
      var j :| 0 <= j < |sections| && sections[j].address <= q.start && q.end <= WordsEnd(sections[j]);
      assert Holds(sections[j], q.start);
    }
  }

  ghost predicate AllStayInside(sections: seq<Section>, patches: seq<Patch>) {
    forall i | 0 <= i < |sections| :: StaysInside(sections[i], patches)
  }

  lemma Covered(all: seq<Cut>, firsts: seq<nat>, sections: seq<Section>, chunk: nat, points: seq<nat>,
          patches: seq<Patch>, i: nat, a: nat)
    returns (k: nat)
    requires Tiled(all, firsts, sections, chunk, points, patches) && i < |sections| && Holds(sections[i], a)
    ensures firsts[i] <= k < firsts[i + 1] <= |all| && Contains(all[k], a)
  {
    hide WellCut;
    var cuts := all[firsts[i]..firsts[i + 1]];
    assert TiledSection(cuts, sections[i], chunk, points, patches);
    k := TilesCover(cuts, sections[i].address, Stop(cuts, sections[i]), a, 0);
    k := firsts[i] + k;
  }

  /** The section a range belongs to, and that it lies inside. */
  lemma RangeInSection(all: seq<Cut>, firsts: seq<nat>, sections: seq<Section>, chunk: nat, points: seq<nat>,
          patches: seq<Patch>, k: nat)
    returns (i: nat)
    requires Tiled(all, firsts, sections, chunk, points, patches) && k < |all|
    requires Patched(points, patches) && AllStayInside(sections, patches)
    ensures i < |sections| == |firsts| - 1 && firsts[i] <= k < firsts[i + 1] <= |all|
    ensures sections[i].address <= all[k].start < all[k].end <= WordsEnd(sections[i])
    ensures Tiles(all[firsts[i]..firsts[i + 1]], sections[i].address, WordsEnd(sections[i]))
  {
    hide WellCut;
    i := SegmentOf(firsts, |sections|, |all|, k, 0);
    var cuts := all[firsts[i]..firsts[i + 1]];
    assert TiledSection(cuts, sections[i], chunk, points, patches);
    EndsExactlyIff(cuts, sections[i], chunk, points, patches);
    TilesGrow(cuts, sections[i].address, WordsEnd(sections[i]), k - firsts[i], k - firsts[i]);
  }

  lemma {:induction false} SegmentOf(firsts: seq<nat>, sections: nat, count: nat, k: nat, from: nat) returns (i: nat)
    requires Bounds(firsts, sections, count) && k < count && from < |firsts| && firsts[from] <= k
    ensures i < sections && firsts[i] <= k < firsts[i + 1] <= count
    decreases sections - from
  {
    i := from;
    if firsts[from + 1] <= k { i := SegmentOf(firsts, sections, count, k, from + 1); }
  }

  lemma OnceInSection(cuts: seq<Cut>, s: Section, a: nat, j: nat, k: nat)
    requires Tiles(cuts, s.address, WordsEnd(s)) && j < |cuts| && k < |cuts|
    requires Contains(cuts[j], a) && Contains(cuts[k], a)
    ensures j == k
  {
    if j < k { TilesGrow(cuts, s.address, WordsEnd(s), j, k); }
    if k < j { TilesGrow(cuts, s.address, WordsEnd(s), k, j); }
  }

  ghost predicate HeldOnce(sections: seq<Section>, a: nat) {
    forall i, j | 0 <= i < |sections| && 0 <= j < |sections| && Holds(sections[i], a) && Holds(sections[j], a) :: i == j
  }

  ghost predicate ContainedOnce(all: seq<Cut>, a: nat) {
    forall j, k | 0 <= j < |all| && 0 <= k < |all| && Contains(all[j], a) && Contains(all[k], a) :: j == k
  }

  /** Some range contains an address if and only if some section holds it, and only one range does if
      and only if only one section does. */
  lemma CoveredOnce(all: seq<Cut>, firsts: seq<nat>, sections: seq<Section>, chunk: nat, points: seq<nat>,
          patches: seq<Patch>, a: nat)
    requires Tiled(all, firsts, sections, chunk, points, patches)
    requires Patched(points, patches) && AllStayInside(sections, patches)
    ensures (exists i :: 0 <= i < |sections| && Holds(sections[i], a))
       <==> exists k :: 0 <= k < |all| && Contains(all[k], a)
    ensures HeldOnce(sections, a) <==> ContainedOnce(all, a)
  {
    hide Tiled, Patched;
    if i :| 0 <= i < |sections| && Holds(sections[i], a) {
      var _ := Covered(all, firsts, sections, chunk, points, patches, i, a);
    }
    if k :| 0 <= k < |all| && Contains(all[k], a) {
      var i := RangeInSection(all, firsts, sections, chunk, points, patches, k);
      assert Holds(sections[i], a);
    }
    if HeldOnce(sections, a) {
      forall j, k | 0 <= j < |all| && 0 <= k < |all| && Contains(all[j], a) && Contains(all[k], a) ensures j == k {
        AtMostOnce(all, firsts, sections, chunk, points, patches, a, j, k);
      }
    } else {
      var i, j :| 0 <= i < |sections| && 0 <= j < |sections| && Holds(sections[i], a) && Holds(sections[j], a)
        && i != j;
      ApartRanges(all, firsts, sections, chunk, points, patches, a, i, j);
    }
  }

  lemma AtMostOnce(all: seq<Cut>, firsts: seq<nat>, sections: seq<Section>, chunk: nat, points: seq<nat>,
          patches: seq<Patch>, a: nat, j: nat, k: nat)
    requires Tiled(all, firsts, sections, chunk, points, patches) && HeldOnce(sections, a)
    requires Patched(points, patches) && AllStayInside(sections, patches)
    requires j < |all| && k < |all| && Contains(all[j], a) && Contains(all[k], a)
    ensures j == k
  {
    hide Tiled, Patched, AllStayInside, Tiles;
    var i := RangeInSection(all, firsts, sections, chunk, points, patches, j);
    var i' := RangeInSection(all, firsts, sections, chunk, points, patches, k);
    assert Holds(sections[i], a) && Holds(sections[i'], a);
    OnceInSection(all[firsts[i]..firsts[i + 1]], sections[i], a, j - firsts[i], k - firsts[i]);
  }

  /** Two sections that hold an address give two ranges. */
  lemma ApartRanges(all: seq<Cut>, firsts: seq<nat>, sections: seq<Section>, chunk: nat, points: seq<nat>,
          patches: seq<Patch>, a: nat, i: nat, j: nat)
    requires Tiled(all, firsts, sections, chunk, points, patches)
    requires i < |sections| && j < |sections| && i != j && Holds(sections[i], a) && Holds(sections[j], a)
    ensures !ContainedOnce(all, a)
  {
    var k := Covered(all, firsts, sections, chunk, points, patches, i, a);
    var l := Covered(all, firsts, sections, chunk, points, patches, j, a);
    hide TiledSection;
    assert k != l;
  }

  // Lookup

  ghost predicate InOrder(all: seq<Cut>) { NonEmpty(all) && Ascends(all, 0, |all|) }

  ghost predicate NonEmpty(all: seq<Cut>) { forall k | 0 <= k < |all| :: all[k].start < all[k].end }

  /** The ranges between two positions ascend. */
  ghost predicate Ascends(all: seq<Cut>, first: nat, last: nat)
    requires last <= |all|
  {
    forall j, k | first <= j < k < last :: all[j].end <= all[k].start
  }

  /** No address lies in two of the ranges. */
  ghost predicate NoneOverlap(all: seq<Cut>) { forall a: nat :: ContainedOnce(all, a) }

  function Middle(first: nat, last: nat): (middle: nat)
    requires first < last
    ensures first <= middle < last
  {
    first + (last - first) / 2
  }

  /** What the search finds between two positions. */
  function Search(all: seq<Cut>, address: nat, first: nat, last: nat): (found: Option<nat>)
    requires first <= last <= |all|
    ensures found.Some? ==> first <= found.value < last && Contains(all[found.value], address)
    decreases last - first
  {
    if first == last then None
    else
      var middle := Middle(first, last);
      if address < all[middle].start then Search(all, address, first, middle)
      else if address >= all[middle].end then Search(all, address, middle + 1, last)
      else Some(middle)
  }

  function Find(all: seq<Cut>, address: nat): (found: Option<nat>)
    ensures found.Some? ==> found.value < |all| && Contains(all[found.value], address)
  {
    Search(all, address, 0, |all|)
  }

  /** `llvm_range_for`, on any list. */
  method RangeFor(all: seq<Cut>, address: nat) returns (found: Option<nat>)
    ensures found == Find(all, address)
  {
    var first, last := 0, |all|;
    while first < last
      invariant 0 <= first <= last <= |all| && Search(all, address, first, last) == Find(all, address)
    {
      var middle := first + (last - first) / 2;
      if address < all[middle].start {
        last := middle;
      } else if address >= all[middle].end {
        first := middle + 1;
      } else {
        return Some(middle);
      }
    }
    found := None;
  }

  /** The search finds each of the ranges between two positions at every address it contains. */
  ghost predicate FindsBetween(all: seq<Cut>, first: nat, last: nat)
    requires first <= last <= |all|
  {
    forall k, a: nat | first <= k < last && Contains(all[k], a) :: Search(all, a, first, last) == Some(k)
  }

  ghost predicate FindsEvery(all: seq<Cut>) {
    forall k, a: nat | 0 <= k < |all| && Contains(all[k], a) :: Find(all, a) == Some(k)
  }

  /** A range left of the middle ends before it: otherwise the search at its last address turns right. */
  lemma LeftEndsBefore(all: seq<Cut>, first: nat, last: nat, k: nat)
    requires first < last <= |all| && NonEmpty(all) && FindsBetween(all, first, last)
    requires first <= k < Middle(first, last)
    ensures all[k].end <= all[Middle(first, last)].start
    ensures forall a: nat | Contains(all[k], a) :: Search(all, a, first, Middle(first, last)) == Some(k)
  {
    var middle := Middle(first, last);
    forall a: nat | Contains(all[k], a)
      ensures a < all[middle].start && Search(all, a, first, middle) == Some(k)
    {
      assert Search(all, a, first, last) == Some(k);
    }
    assert Contains(all[k], all[k].end - 1);
  }

  /** A range right of the middle starts after it: otherwise the search at its first address turns left. */
  lemma RightStartsAfter(all: seq<Cut>, first: nat, last: nat, k: nat)
    requires first < last <= |all| && NonEmpty(all) && FindsBetween(all, first, last)
    requires Middle(first, last) < k < last
    ensures all[Middle(first, last)].end <= all[k].start
    ensures forall a: nat | Contains(all[k], a) :: Search(all, a, Middle(first, last) + 1, last) == Some(k)
  {
    var middle := Middle(first, last);
    forall a: nat | Contains(all[k], a)
      ensures a >= all[middle].end && Search(all, a, middle + 1, last) == Some(k)
    {
      assert Search(all, a, first, last) == Some(k);
    }
    assert Contains(all[k], all[k].start);
  }

  lemma {:induction false} FindsOnlyAscending(all: seq<Cut>, first: nat, last: nat)
    requires first <= last <= |all| && NonEmpty(all) && FindsBetween(all, first, last)
    ensures Ascends(all, first, last)
    decreases last - first
  {
    hide Search;
    if first < last {
      var middle := Middle(first, last);
      forall k | first <= k < middle
        ensures all[k].end <= all[middle].start
        ensures forall a: nat | Contains(all[k], a) :: Search(all, a, first, middle) == Some(k)
      {
        LeftEndsBefore(all, first, last, k);
      }
      forall k | middle < k < last
        ensures all[middle].end <= all[k].start
        ensures forall a: nat | Contains(all[k], a) :: Search(all, a, middle + 1, last) == Some(k)
      {
        RightStartsAfter(all, first, last, k);
      }
      FindsOnlyAscending(all, first, middle);
      FindsOnlyAscending(all, middle + 1, last);
    }
  }

  lemma {:induction false} AscendingFinds(all: seq<Cut>, first: nat, last: nat, k: nat, a: nat)
    requires first <= k < last <= |all| && NonEmpty(all) && Ascends(all, first, last) && Contains(all[k], a)
    ensures Search(all, a, first, last) == Some(k)
    decreases last - first
  {
    var middle := Middle(first, last);
    if k < middle {
      AscendingFinds(all, first, middle, k, a);
    } else if k > middle {
      AscendingFinds(all, middle + 1, last, k, a);
    }
  }

  /** The search finds every range at every address it contains if and only if the ranges ascend
      without overlap. */
  lemma FindsEveryIff(all: seq<Cut>)
    requires NonEmpty(all)
    ensures FindsEvery(all) <==> InOrder(all)
  {
    if FindsEvery(all) {
      forall k, a: nat | 0 <= k < |all| && Contains(all[k], a) ensures Search(all, a, 0, |all|) == Some(k) {
        assert Find(all, a) == Some(k);
      }
      FindsOnlyAscending(all, 0, |all|);
    }
    if InOrder(all) {
      forall k, a: nat | 0 <= k < |all| && Contains(all[k], a) ensures Find(all, a) == Some(k) {
        AscendingFinds(all, 0, |all|, k, a);
      }
    }
  }

  /** The ranges of two sections in descending order: the search finds nothing at an address of the
      first. */
  function DescendingRanges(): seq<Cut> { [Cut(0x8000_4000, 0x8000_4020), Cut(0x8000_3000, 0x8000_3020)] }

  lemma DescendingIsMissed()
    ensures var all := DescendingRanges();
      NonEmpty(all) && NoneOverlap(all) && Contains(all[0], 0x8000_4000) && Find(all, 0x8000_4000) == None
  {
    var all := DescendingRanges();
    assert Search(all, 0x8000_4000, 2, 2) == None;
  }

  /** Sections that hold words ascend, and no patch that starts in one reaches into a later one. */
  ghost predicate SectionsAscend(sections: seq<Section>, patches: seq<Patch>) {
    forall i, j | 0 <= i < j < |sections| && Holds(sections[i], sections[i].address)
      && Holds(sections[j], sections[j].address) ::
      WordsEnd(sections[i]) <= sections[j].address && PatchesEndBy(sections[i], patches, sections[j].address)
  }

  ghost predicate PatchesEndBy(s: Section, patches: seq<Patch>, limit: nat) {
    forall q | q in patches && Holds(s, q.start) :: q.end <= limit
  }

  /** The ranges of the sections are in the order the search needs if and only if the sections are. */
  lemma TiledInOrderIff(all: seq<Cut>, firsts: seq<nat>, sections: seq<Section>, chunk: nat, points: seq<nat>,
          patches: seq<Patch>)
    requires Tiled(all, firsts, sections, chunk, points, patches) && Patched(points, patches)
    ensures NonEmpty(all) && (InOrder(all) <==> SectionsAscend(sections, patches))
  {
    hide TiledSection, Patched, SectionsAscend, Ascends;
    forall k | 0 <= k < |all| ensures all[k].start < all[k].end {
      var _ := RangeOfSection(all, firsts, sections, chunk, points, patches, k);
    }
    if InOrder(all) { OrderedSections(all, firsts, sections, chunk, points, patches); }
    if SectionsAscend(sections, patches) { OrderedRanges(all, firsts, sections, chunk, points, patches); }
  }

  /** The section a range belongs to. */
  lemma RangeOfSection(all: seq<Cut>, firsts: seq<nat>, sections: seq<Section>, chunk: nat, points: seq<nat>,
          patches: seq<Patch>, k: nat)
    returns (i: nat)
    requires Tiled(all, firsts, sections, chunk, points, patches) && k < |all|
    ensures i < |sections| == |firsts| - 1 && firsts[i] <= k < firsts[i + 1] <= |all|
    ensures all[k].start < all[k].end && Holds(sections[i], all[k].start)
    ensures all[k].end <= WordsEnd(sections[i]) || Patch(all[k].start, all[k].end) in patches
    ensures Tiles(all[firsts[i]..firsts[i + 1]], sections[i].address, Stop(all[firsts[i]..firsts[i + 1]], sections[i]))
  {
    i := SegmentOf(firsts, |sections|, |all|, k, 0);
    var cuts := all[firsts[i]..firsts[i + 1]];
    assert TiledSection(cuts, sections[i], chunk, points, patches);
    assert cuts[k - firsts[i]] == all[k];
    TilesGrow(cuts, sections[i].address, Stop(cuts, sections[i]), k - firsts[i], k - firsts[i]);
  }

  lemma OrderedRanges(all: seq<Cut>, firsts: seq<nat>, sections: seq<Section>, chunk: nat, points: seq<nat>,
          patches: seq<Patch>)
    requires Tiled(all, firsts, sections, chunk, points, patches) && SectionsAscend(sections, patches)
    ensures Ascends(all, 0, |all|)
  {
    hide TiledSection;
    forall j, k | 0 <= j < k < |all| ensures all[j].end <= all[k].start {
      var i := RangeOfSection(all, firsts, sections, chunk, points, patches, j);
      var i' := RangeOfSection(all, firsts, sections, chunk, points, patches, k);
      if i == i' {
        var cuts := all[firsts[i]..firsts[i + 1]];
        TilesGrow(cuts, sections[i].address, Stop(cuts, sections[i]), j - firsts[i], k - firsts[i]);
      } else {
        assert i < i';
        assert PatchesEndBy(sections[i], patches, sections[i'].address);
      }
    }
  }

  /** The first and the last range of a section that holds words. */
  lemma SectionEnds(all: seq<Cut>, firsts: seq<nat>, sections: seq<Section>, chunk: nat, points: seq<nat>,
          patches: seq<Patch>, i: nat)
    requires Tiled(all, firsts, sections, chunk, points, patches)
    requires i < |sections| && Holds(sections[i], sections[i].address)
    ensures |firsts| == |sections| + 1 && firsts[i] < firsts[i + 1] <= |all|
    ensures all[firsts[i]].start == sections[i].address && WordsEnd(sections[i]) <= all[firsts[i + 1] - 1].end
  {
    hide WellCut;
    assert TiledSection(all[firsts[i]..firsts[i + 1]], sections[i], chunk, points, patches);
  }

  lemma OrderedSections(all: seq<Cut>, firsts: seq<nat>, sections: seq<Section>, chunk: nat, points: seq<nat>,
          patches: seq<Patch>)
    requires Tiled(all, firsts, sections, chunk, points, patches) && Patched(points, patches) && InOrder(all)
    ensures SectionsAscend(sections, patches)
  {
    hide TiledSection, Patched;
    forall i, j | 0 <= i < j < |sections| && Holds(sections[i], sections[i].address)
      && Holds(sections[j], sections[j].address)
      ensures WordsEnd(sections[i]) <= sections[j].address
      ensures PatchesEndBy(sections[i], patches, sections[j].address)
    {
      SectionEnds(all, firsts, sections, chunk, points, patches, i);
      SectionEnds(all, firsts, sections, chunk, points, patches, j);
      assert firsts[i + 1] <= firsts[j];
      forall q | q in patches && Holds(sections[i], q.start) ensures q.end <= sections[j].address {
        var cuts := all[firsts[i]..firsts[i + 1]];
        assert TiledSection(cuts, sections[i], chunk, points, patches);
        PatchIsRange(cuts, sections[i], chunk, points, patches, q);
        var k :| 0 <= k < |cuts| && cuts[k] == Cut(q.start, q.end);
        assert all[firsts[i] + k] == cuts[k];
      }
    }
  }
}
