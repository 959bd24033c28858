/** The lossy lookup cache and the entry bitmap of a native module (`emit_lookup` and
    `emit_entry_map` in src/backend/native_module.c:135-230). */
module NativeLookup {
  import opened Wrappers
  import opened Partition

  const LOOKUP_SIZE: nat := 4096

  /** The first range that contains the address, by a linear scan. */
  function Scan(ranges: seq<Cut>, address: nat): (found: Option<nat>)
    ensures found.Some? ==> found.value < |ranges|
  {
    if ranges == [] then None
    else
      var last := |ranges| - 1;
      var earlier := Scan(ranges[..last], address);
      if earlier.Some? then earlier
      else if Contains(ranges[last], address) then Some(last) else None
  }

  lemma {:induction false} ScanNone(ranges: seq<Cut>, address: nat)
    requires forall k | 0 <= k < |ranges| :: !Contains(ranges[k], address)
    ensures Scan(ranges, address) == None
  {
    if ranges != [] { ScanNone(ranges[..|ranges| - 1], address); }
  }

  lemma {:induction false} ScanSome(ranges: seq<Cut>, address: nat, k: nat)
    requires k < |ranges| && Contains(ranges[k], address) && ContainedOnce(ranges, address)
    ensures Scan(ranges, address) == Some(k)
  {
    var last := |ranges| - 1;
    if k < last {
      ScanSome(ranges[..last], address, k);
    } else {
      ScanNone(ranges[..last], address);
    }
  }

  /** On ranges of which no two overlap the search is the linear scan if and only if they ascend. */
  lemma FindIsScanIff(ranges: seq<Cut>)
    requires NonEmpty(ranges) && NoneOverlap(ranges)
    ensures (forall address: nat :: Find(ranges, address) == Scan(ranges, address)) <==> InOrder(ranges)
  {
    hide Find, Scan, InOrder, NonEmpty;
    FindsEveryIff(ranges);
    forall address: nat
      ensures Find(ranges, address) == Scan(ranges, address) <==>
        forall k | 0 <= k < |ranges| && Contains(ranges[k], address) :: Find(ranges, address) == Some(k)
    {
      FindIsScanAt(ranges, address);
    }
    if FindsEvery(ranges) {
      forall address: nat ensures Find(ranges, address) == Scan(ranges, address) {
        assert forall k | 0 <= k < |ranges| && Contains(ranges[k], address) :: Find(ranges, address) == Some(k);
      }
    }
  }

  lemma FindIsScanAt(ranges: seq<Cut>, address: nat)
    requires NoneOverlap(ranges)
    ensures Find(ranges, address) == Scan(ranges, address) <==>
      forall k | 0 <= k < |ranges| && Contains(ranges[k], address) :: Find(ranges, address) == Some(k)
  {
    hide Find, Scan;
    assert ContainedOnce(ranges, address);
    if k :| 0 <= k < |ranges| && Contains(ranges[k], address) {
      ScanSome(ranges, address, k);
    } else {
      ScanNone(ranges, address);
    }
  }

  function Slot(address: nat): (slot: nat)
    ensures slot < LOOKUP_SIZE
  {
    (address / 4) % LOOKUP_SIZE
  }

  /** `(address << 32) | (index + 1)` */
  function Pack(address: nat, index: nat): (cached: nat)
    requires address < WORD && index + 1 < WORD
    ensures CachedAddress(cached) == address && CachedIndex(cached) == index + 1
  {
    address * WORD + index + 1
  }

  function CachedAddress(cached: nat): nat { cached / WORD }

  function CachedIndex(cached: nat): nat { cached % WORD }

  /** A cache entry is empty or remembers what the search found. */
  predicate Truthful(ranges: seq<Cut>, cached: nat) {
    var index := CachedIndex(cached);
    index == 0 || Find(ranges, CachedAddress(cached)) == Some(index - 1)
  }

  ghost predicate AllTruthful(ranges: seq<Cut>, cache: seq<nat>) {
    forall s | 0 <= s < |cache| :: Truthful(ranges, cache[s])
  }

  class Lookup {
    const ranges: seq<Cut>
    const cache: array<nat>

    ghost predicate Valid()
      reads this, cache
    {
      && |ranges| < WORD - 1 && cache.Length == LOOKUP_SIZE
      && AllTruthful(ranges, cache[..])
    }

    constructor (ranges: seq<Cut>)
      requires |ranges| < WORD - 1
      ensures Valid() && this.ranges == ranges && fresh(cache)
    {
      this.ranges := ranges;
      cache := new nat[LOOKUP_SIZE](_ => 0);
    }

    /** `moderngekko_native_find`: the cache never changes what is found. */
    method Find(address: nat) returns (found: Option<nat>)
      requires Valid() && address < WORD
      modifies cache
      ensures Valid() && found == Partition.Find(ranges, address)
    {
      var slot := Slot(address);
      var cached := cache[slot];
      var cachedIndex := CachedIndex(cached);
      if CachedAddress(cached) == address && cachedIndex != 0 {
        assert cached == cache[..][slot] && Truthful(ranges, cached);
        return Some(cachedIndex - 1);
      }
      found := RangeFor(ranges, address);
      if found.Some? {
        ghost var before := cache[..];
        StoresKeepTruth(ranges, before, slot, address, found.value);
        cache[slot] := Pack(address, found.value);
        assert cache[..] == before[slot := Pack(address, found.value)];
      }
    }
  }

  /** Another thread's store keeps every entry truthful, so lookups may interleave freely. */
  /** Aligned addresses share a slot exactly when they lie a multiple of 16 KiB apart. */
  lemma SlotsShared(a: nat, b: nat)
    requires a % 4 == 0 && b % 4 == 0
    ensures Slot(a) == Slot(b) <==> (a - b) % 0x4000 == 0
  {
  }

  lemma StoresKeepTruth(ranges: seq<Cut>, cache: seq<nat>, slot: nat, address: nat, index: nat)
    requires slot < |cache| && AllTruthful(ranges, cache)
    requires address < WORD && index + 1 < WORD && Find(ranges, address) == Some(index)
    ensures AllTruthful(ranges, cache[slot := Pack(address, index)])
  {
  }

  // The entry map

  function Slots(c: Cut): nat { if c.start <= c.end then (c.end - c.start) / 4 else 0 }

  function Offset(ranges: seq<Cut>, index: nat): nat
    requires index <= |ranges|
  {
    if index == 0 then 0 else Offset(ranges, index - 1) + Slots(ranges[index - 1])
  }

  lemma {:induction false} OffsetGrows(ranges: seq<Cut>, i: nat, j: nat)
    requires i <= j <= |ranges|
    ensures Offset(ranges, i) <= Offset(ranges, j)
    ensures i < j ==> Offset(ranges, i) + Slots(ranges[i]) <= Offset(ranges, j)
    decreases j
  {
    if i < j { OffsetGrows(ranges, i, j - 1); }
  }

  predicate Aligned(c: Cut, address: nat) { Contains(c, address) && (address - c.start) % 4 == 0 }

  /** Every range is a whole number of instructions. */
  ghost predicate WholeWords(ranges: seq<Cut>) {
    forall k | 0 <= k < |ranges| :: ranges[k].start < ranges[k].end && (ranges[k].end - ranges[k].start) % 4 == 0
  }

  /** The bit of an address in range `index`. */
  function BitFor(ranges: seq<Cut>, index: nat, address: nat): nat
    requires index < |ranges| && ranges[index].start <= address
  {
    Offset(ranges, index) + (address - ranges[index].start) / 4
  }

  lemma BitInRange(ranges: seq<Cut>, i: nat, a: nat)
    requires WholeWords(ranges) && i < |ranges| && Aligned(ranges[i], a)
    ensures Offset(ranges, i) <= BitFor(ranges, i, a) < Offset(ranges, i) + Slots(ranges[i]) <= Offset(ranges, |ranges|)
  {
    OffsetGrows(ranges, i, |ranges|);
  }

  /** Different aligned addresses have different bits. */
  lemma BitsApart(ranges: seq<Cut>, i: nat, a: nat, j: nat, b: nat)
    requires WholeWords(ranges) && i < |ranges| && j < |ranges| && Aligned(ranges[i], a) && Aligned(ranges[j], b)
    requires BitFor(ranges, i, a) == BitFor(ranges, j, b)
    ensures i == j && a == b
  {
    hide WholeWords;
    BitInRange(ranges, i, a);
    BitInRange(ranges, j, b);
    if i < j { OffsetGrows(ranges, i, j); }
    if j < i { OffsetGrows(ranges, j, i); }
  }

  /** Every bit below the total is that of an aligned address of some range. */
  lemma {:induction false} BitsOnto(ranges: seq<Cut>, count: nat, b: nat) returns (i: nat, a: nat)
    requires WholeWords(ranges) && count <= |ranges| && b < Offset(ranges, count)
    ensures i < count && Aligned(ranges[i], a) && BitFor(ranges, i, a) == b
  {
    if b >= Offset(ranges, count - 1) {
      i := count - 1;
      a := ranges[i].start + 4 * (b - Offset(ranges, i));
    } else {
      i, a := BitsOnto(ranges, count - 1, b);
    }
  }

  /** The addresses an entry list supports, by the specification. */
  predicate Supported(ranges: seq<Cut>, entries: seq<nat>, address: nat) {
    address in entries && exists i :: 0 <= i < |ranges| && Aligned(ranges[i], address)
  }

  /** The first range from `index` on that ends after the address: the one that takes an entry. */
  function Taker(ranges: seq<Cut>, address: nat, index: nat): (first: nat)
    requires index <= |ranges|
    ensures index <= first <= |ranges| && (first < |ranges| ==> address < ranges[first].end)
    ensures forall i | index <= i < first :: ranges[i].end <= address
    decreases |ranges| - index
  {
    if index == |ranges| || address < ranges[index].end then index else Taker(ranges, address, index + 1)
  }

  predicate Takes(ranges: seq<Cut>, address: nat, b: nat) {
    var i := Taker(ranges, address, 0);
    i < |ranges| && Aligned(ranges[i], address) && BitFor(ranges, i, address) == b
  }

  /** Bit `b` is set for an entry among the first `upTo`. */
  ghost predicate Marked(ranges: seq<Cut>, entries: seq<nat>, upTo: nat, b: nat)
    requires upTo <= |entries|
  {
    exists k :: 0 <= k < upTo && Takes(ranges, entries[k], b)
  }

  /** The bitmap, in 64-bit words given by their set bits. */
  predicate Test(bits: seq<set<nat>>, b: nat) { b / 64 < |bits| && b % 64 in bits[b / 64] }

  ghost predicate Maps(ranges: seq<Cut>, entries: seq<nat>, upTo: nat, bits: seq<set<nat>>)
    requires upTo <= |entries|
  {
    |bits| == WordCount(Offset(ranges, |ranges|)) && forall b: nat ::
      Test(bits, b) <==> Marked(ranges, entries, upTo, b)
  }

  function WordCount(slots: nat): nat { slots / 64 + if slots % 64 != 0 then 1 else 0 }

  /** As many words as the slots need, and no more. */
  lemma WordsAreFull(slots: nat)
    ensures 64 * WordCount(slots) >= slots && (slots > 0 ==> 64 * (WordCount(slots) - 1) < slots)
    ensures slots == 0 ==> WordCount(slots) == 0
  {
  }

  lemma WordFits(b: nat, slots: nat)
    requires b < slots
    ensures b / 64 < WordCount(slots)
  {
  }

  lemma SetTest(bits: seq<set<nat>>, b: nat, c: nat)
    requires b / 64 < |bits|
    ensures Test(bits[b / 64 := bits[b / 64] + {b % 64}], c) <==> (Test(bits, c) || c == b)
  {
    if c / 64 == b / 64 && c % 64 == b % 64 {
      assert c == 64 * (c / 64) + c % 64 && b == 64 * (b / 64) + b % 64;
    }
  }

  /** Ascending entries. */
  ghost predicate SortedEntries(entries: seq<nat>) { forall i, j | 0 <= i < j < |entries| :: entries[i] <= entries[j] }

  lemma TakerIs(ranges: seq<Cut>, address: nat, index: nat)
    requires index <= |ranges| && (forall i | 0 <= i < index :: ranges[i].end <= address)
    requires index < |ranges| ==> address < ranges[index].end
    ensures Taker(ranges, address, 0) == index
  {
  }

  /** One more entry, in the range whose turn it is. */
  lemma MapsMore(ranges: seq<Cut>, entries: seq<nat>, k: nat, index: nat, bits: seq<set<nat>>)
    requires WholeWords(ranges) && k < |entries| && index < |ranges| && Maps(ranges, entries, k, bits)
    requires Taker(ranges, entries[k], 0) == index
    ensures Aligned(ranges[index], entries[k]) ==>
      var b := BitFor(ranges, index, entries[k]);
      b / 64 < |bits| && Maps(ranges, entries, k + 1, bits[b / 64 := bits[b / 64] + {b % 64}])
    ensures !Aligned(ranges[index], entries[k]) ==> Maps(ranges, entries, k + 1, bits)
  {
    hide WholeWords, Offset, BitFor, Taker;
    var address := entries[k];
    var bits' := bits;
    if Aligned(ranges[index], address) {
      var b := BitFor(ranges, index, address);
      BitInRange(ranges, index, address);
      WordFits(b, Offset(ranges, |ranges|));
      bits' := bits[b / 64 := bits[b / 64] + {b % 64}];
      forall c: nat ensures Test(bits', c) <==> (Test(bits, c) || c == b) { SetTest(bits, b, c); }
    }
    hide Takes;
    forall c: nat
      ensures Marked(ranges, entries, k + 1, c) <==> (Marked(ranges, entries, k, c) || Takes(ranges, address, c))
    {
      MarkedMore(ranges, entries, k, c);
    }
    hide Marked;
    TakesHere(ranges, address, index);
    forall c: nat ensures Test(bits', c) <==> Marked(ranges, entries, k + 1, c) {
      assert Test(bits, c) <==> Marked(ranges, entries, k, c);
    }
  }

  lemma TakesHere(ranges: seq<Cut>, address: nat, index: nat)
    requires index < |ranges| && Taker(ranges, address, 0) == index
    ensures forall c: nat ::
      Takes(ranges, address, c) <==> (Aligned(ranges[index], address) && BitFor(ranges, index, address) == c)
  {
  }

  lemma MarkedMore(ranges: seq<Cut>, entries: seq<nat>, k: nat, c: nat)
    requires k < |entries|
    ensures Marked(ranges, entries, k + 1, c) <==> (Marked(ranges, entries, k, c) || Takes(ranges, entries[k], c))
  {
    hide Takes;
  }

  method CountSlots(ranges: seq<Cut>) returns (total: nat)
    ensures total == Offset(ranges, |ranges|)
  {
    total := 0;
    for i := 0 to |ranges|
      invariant total == Offset(ranges, i)
    {
      total := total + Slots(ranges[i]);
    }
  }

  /** `emit_entry_map`; nothing is emitted when there are too many slots to number. */
  method EmitEntryMap(ranges: seq<Cut>, entries: seq<nat>) returns (ok: bool, offsets: seq<nat>, bits: seq<set<nat>>)
    requires WholeWords(ranges) && SortedEntries(entries)
    ensures ok <==> Offset(ranges, |ranges|) < WORD
    ensures ok ==> |offsets| == |ranges| && forall i | 0 <= i < |ranges| :: offsets[i] == Offset(ranges, i)
    ensures ok ==> Maps(ranges, entries, |entries|, bits)
  {
    hide Maps, WholeWords, WordCount;
    var total := CountSlots(ranges);
    if total >= WORD { return false, [], []; }
    ok, offsets, bits := true, [], seq(WordCount(total), _ => {});
    var entry: nat, base: nat := 0, 0;
    NothingMapped(ranges, entries, bits);
    for index := 0 to |ranges|
      invariant |offsets| == index && forall i | 0 <= i < index :: offsets[i] == Offset(ranges, i)
      invariant base == Offset(ranges, index) && entry <= |entries| && Maps(ranges, entries, entry, bits)
      invariant entry < |entries| ==> forall i | 0 <= i < index :: ranges[i].end <= entries[entry]
    {
      offsets := offsets + [base];
      entry, bits := MarkRange(ranges, entries, index, base, entry, bits);
      base := base + Slots(ranges[index]);
    }
    RestUnmapped(ranges, entries, entry, bits);
  }

  lemma NothingMapped(ranges: seq<Cut>, entries: seq<nat>, bits: seq<set<nat>>)
    requires |bits| == WordCount(Offset(ranges, |ranges|)) && forall w | 0 <= w < |bits| :: bits[w] == {}
    ensures Maps(ranges, entries, 0, bits)
  {
  }

  /** Entries that no range takes mark nothing. */
  lemma RestUnmapped(ranges: seq<Cut>, entries: seq<nat>, entry: nat, bits: seq<set<nat>>)
    requires SortedEntries(entries) && entry <= |entries| && Maps(ranges, entries, entry, bits)
    requires entry < |entries| ==> forall i | 0 <= i < |ranges| :: ranges[i].end <= entries[entry]
    ensures Maps(ranges, entries, |entries|, bits)
  {
    hide BitFor, Taker;
    forall k, b: nat | entry <= k < |entries| ensures !Takes(ranges, entries[k], b) {
      assert entries[entry] <= entries[k];
      TakerIs(ranges, entries[k], |ranges|);
    }
  }

  /** The entries of one range. */
  method MarkRange(ranges: seq<Cut>, entries: seq<nat>, index: nat, base: nat, first: nat, before: seq<set<nat>>)
    returns (entry: nat, bits: seq<set<nat>>)
    requires WholeWords(ranges) && SortedEntries(entries) && index < |ranges| && base == Offset(ranges, index)
    requires first <= |entries| && Maps(ranges, entries, first, before)
    requires first < |entries| ==> forall i | 0 <= i < index :: ranges[i].end <= entries[first]
    ensures entry <= |entries| && Maps(ranges, entries, entry, bits)
    ensures entry < |entries| ==> forall i | 0 <= i <= index :: ranges[i].end <= entries[entry]
  {
    hide Maps, WholeWords;
    entry, bits := first, before;
    while entry < |entries| && entries[entry] < ranges[index].end
      invariant first <= entry <= |entries| && Maps(ranges, entries, entry, bits)
      invariant entry < |entries| ==> forall i | 0 <= i < index :: ranges[i].end <= entries[entry]
    {
      var address := entries[entry];
      TakerIs(ranges, address, index);
      MapsMore(ranges, entries, entry, index, bits);
      if address >= ranges[index].start && (address - ranges[index].start) % 4 == 0 {
        var bit := base + (address - ranges[index].start) / 4;
        bits := bits[bit / 64 := bits[bit / 64] + {bit % 64}];
      }
      entry := entry + 1;
      assert entry < |entries| ==> entries[entry - 1] <= entries[entry];
    }
  }

  /** The listed entries whose range the search finds and which that range has taken. */
  predicate Recognised(ranges: seq<Cut>, entries: seq<nat>, address: nat) {
    var found := Find(ranges, address);
    address in entries && found == Some(Taker(ranges, address, 0)) && Aligned(ranges[found.value], address)
  }

  /** `moderngekko_native_supports_entry`: true exactly for the recognised entries. */
  method SupportsEntry(lookup: Lookup, entries: seq<nat>, offsets: seq<nat>, bits: seq<set<nat>>, address: nat)
    returns (supported: bool)
    requires lookup.Valid() && address < WORD && WholeWords(lookup.ranges) && |offsets| == |lookup.ranges|
    requires forall i | 0 <= i < |offsets| :: offsets[i] == Offset(lookup.ranges, i)
    requires Maps(lookup.ranges, entries, |entries|, bits)
    modifies lookup.cache
    ensures lookup.Valid() && supported == Recognised(lookup.ranges, entries, address)
  {
    hide Find, Taker, WholeWords, Marked, AllTruthful;
    var ranges := lookup.ranges;
    var index := lookup.Find(address);
    if index.None? { return false; }
    if (address - ranges[index.value].start) % 4 != 0 { return false; }
    var bit := offsets[index.value] + (address - ranges[index.value].start) / 4;
    RecognisedIsMarked(ranges, entries, index.value, address);
    BitInRange(ranges, index.value, address);
    WordFits(bit, Offset(ranges, |ranges|));
    supported := bit % 64 in bits[bit / 64];
  }

  lemma RecognisedIsMarked(ranges: seq<Cut>, entries: seq<nat>, index: nat, address: nat)
    requires WholeWords(ranges) && index < |ranges| && Aligned(ranges[index], address)
    requires Find(ranges, address) == Some(index)
    ensures Marked(ranges, entries, |entries|, BitFor(ranges, index, address)) <==> Recognised(ranges, entries, address)
  {
    hide WholeWords, Find, Taker, BitFor;
    var b := BitFor(ranges, index, address);
    if Marked(ranges, entries, |entries|, b) {
      var k :| 0 <= k < |entries| && Takes(ranges, entries[k], b);
      BitsApart(ranges, index, address, Taker(ranges, entries[k], 0), entries[k]);
    }
    if Recognised(ranges, entries, address) {
      var k :| 0 <= k < |entries| && entries[k] == address;
      assert Takes(ranges, entries[k], b);
    }
  }

  lemma RecognisedIsSupported(ranges: seq<Cut>, entries: seq<nat>, address: nat)
    ensures Recognised(ranges, entries, address) ==> Supported(ranges, entries, address)
    ensures InOrder(ranges) && Supported(ranges, entries, address) ==> Recognised(ranges, entries, address)
  {
    hide Find, Taker;
    if InOrder(ranges) && Supported(ranges, entries, address) {
      var i :| 0 <= i < |ranges| && Aligned(ranges[i], address);
      FindsEveryIff(ranges);
      assert Find(ranges, address) == Some(i);
      TakerIs(ranges, address, i);
    }
  }

  /** Among whole-word ranges of which no two overlap exactly the listed entries that lie aligned in a
      range are recognised, whatever the list, if and only if the ranges ascend. */
  lemma SupportsListedIff(ranges: seq<Cut>)
    requires WholeWords(ranges) && NoneOverlap(ranges)
    ensures (forall entries, address: nat | SortedEntries(entries) ::
               Recognised(ranges, entries, address) <==> Supported(ranges, entries, address))
       <==> InOrder(ranges)
  {
    hide Recognised, Supported;
    if InOrder(ranges) {
      forall entries, address: nat | SortedEntries(entries)
        ensures Recognised(ranges, entries, address) <==> Supported(ranges, entries, address)
      {
        RecognisedIsSupported(ranges, entries, address);
      }
    } else {
      var j, k :| 0 <= j < k < |ranges| && ranges[j].end > ranges[k].start;
      StartNotTaken(ranges, j, k);
    }
  }

  /** The first address of a range after one that ends later is taken by that one, which does not contain
      it. */
  lemma StartNotTaken(ranges: seq<Cut>, j: nat, k: nat)
    requires WholeWords(ranges) && NoneOverlap(ranges) && j < k < |ranges| && ranges[j].end > ranges[k].start
    ensures var start := ranges[k].start;
      SortedEntries([start]) && Supported(ranges, [start], start) && !Recognised(ranges, [start], start)
  {
    hide Find, Taker;
    var start := ranges[k].start;
    assert ContainedOnce(ranges, start) && Aligned(ranges[k], start) && start in [start];
    assert Taker(ranges, start, 0) <= j;
  }
}
