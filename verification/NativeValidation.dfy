/** The validation protocol of a native module (`emit_validation` and `emit_invalidation` in
    src/backend/native_module.c) as interleaved, sequentially consistent steps of any number of
    validators, byte writers and invalidators, starting from a reset. */
module NativeValidation {
  import Partition

  /** Guest code `[start, end)` compiled from bytes with the given hash; `readable` says that
      the bytes lie in memory. */
  datatype Range = Range(start: nat, end: nat, hash: bv64, readable: bool)

  const ADDRESS_LIMIT: nat := 0x1_0000_0000
  const TAG_LIMIT: nat := 0x4000_0000

  predicate ValidRanges(ranges: seq<Range>) {
    && |ranges| < ADDRESS_LIMIT
    && (forall i | 0 <= i < |ranges| :: ranges[i].start < ranges[i].end < ADDRESS_LIMIT)
  }

  datatype Status = DIRTY | VALID | CHANGED

  /** A state word: the status in the two low bits, a version tag above them. */
  datatype Word = Word(tag: nat, status: Status)

  const HASH_START: bv64 := 0xCBF2_9CE4_8422_2325

  function Scramble(x: bv64): bv64 { x * 0x100_0000_01B3 }

  function Joined(hash: bv64, byte: bv8): bv64 { hash ^ byte as bv64 }

  function Mix(hash: bv64, byte: bv8): bv64 { Scramble(Joined(hash, byte)) }

  type Memory = nat -> bv8

  /** `moderngekko_native_hash` of the bytes `[from, to)`. */
  function HashOf(mem: Memory, from: nat, to: nat): bv64
    requires from <= to
  {
    if from == to then HASH_START else Mix(HashOf(mem, from, to - 1), mem(to - 1))
  }

  /** Program counters.  `version` counts the bumps of an index since the reset and is what a
      tag stands for; `written` is the set of addresses a writer has stored to. */
  datatype Thread =
    | Idle
    | Loaded(i: nat, observed: Word, version: nat)
    | Hashing(i: nat, observed: Word, version: nat, pos: nat, hash: bv64)
    | Decided(i: nat, observed: Word, version: nat, matches: bool)
    | Subtracting
    | Writing(address: nat, size: nat, written: set<nat>)
    | Invalidating(address: nat, size: nat, written: set<nat>, index: nat)
    | Bumping(address: nat, size: nat, written: set<nat>, index: nat, seen: Word)
    | Adding(address: nat, size: nat, written: set<nat>, index: nat)
  {
    predicate Validating() { Loaded? || Hashing? || Decided? }

    /** The validation has begun to trust what it reads. */
    predicate Validates(k: nat) { Validating() && i == k }

    predicate Writer() { Writing? || Invalidating? || Bumping? || Adding? }
  }

  datatype State = State(mem: Memory, words: seq<Word>, versions: seq<nat>, unavailable: nat, threads: seq<Thread>)

  /** `UINT32_MAX - address < size ? UINT32_MAX : address + size` */
  function WriteEnd(address: nat, size: nat): nat {
    if ADDRESS_LIMIT - 1 - address < size then ADDRESS_LIMIT - 1 else address + size
  }

  predicate Touches(written: set<nat>, r: Range) { exists a :: a in written && r.start <= a < r.end }

  /** A writer that has stored to range `k` and has not yet bumped it. */
  predicate PendingBy(th: Thread, k: nat, r: Range) {
    th.Writer() && Touches(th.written, r)
    && (th.Writing? || ((th.Invalidating? || th.Bumping?) && th.index <= k) || (th.Adding? && th.index < k))
  }

  ghost predicate Pending(ranges: seq<Range>, s: State, k: nat)
    requires k < |ranges|
  {
    exists t :: 0 <= t < |s.threads| && PendingBy(s.threads[t], k, ranges[k])
  }

  /** Where the binary search for the first range that ends after the address ends up. */
  function EndSearch(ranges: seq<Range>, address: nat, first: nat, last: nat): (index: nat)
    requires first <= last <= |ranges|
    ensures first <= index <= last
    decreases last - first
  {
    if first == last then first
    else
      var middle := first + (last - first) / 2;
      if ranges[middle].end <= address then EndSearch(ranges, address, middle + 1, last)
      else EndSearch(ranges, address, first, middle)
  }

  /** The range an invalidation begins at. */
  function FirstAfter(ranges: seq<Range>, address: nat): (first: nat)
    ensures first <= |ranges|
  {
    EndSearch(ranges, address, 0, |ranges|)
  }

  method FindFirstAfter(ranges: seq<Range>, address: nat) returns (first: nat)
    ensures first == FirstAfter(ranges, address)
    ensures first > 0 ==> ranges[first - 1].end <= address
    ensures first < |ranges| ==> address < ranges[first].end
  {
    first := 0;
    var last := |ranges|;
    while first < last
      invariant first <= last <= |ranges|
      invariant first > 0 ==> ranges[first - 1].end <= address
      invariant last < |ranges| ==> address < ranges[last].end
      invariant EndSearch(ranges, address, first, last) == FirstAfter(ranges, address)
    {
      var middle := first + (last - first) / 2;
      if ranges[middle].end <= address { first := middle + 1; } else { last := middle; }
    }
  }

  /** A write of `size` bytes hits a range. */
  predicate Hits(address: nat, size: nat, r: Range) {
    size > 0 && address < r.end && r.start < WriteEnd(address, size)
  }

  /** The invalidation after a write comes to range `k`: it begins there or before and does not stop
      earlier. */
  predicate Visits(ranges: seq<Range>, address: nat, size: nat, k: nat)
    requires k < |ranges|
  {
    var first := FirstAfter(ranges, address);
    first <= k && forall i | first <= i <= k :: ranges[i].start < WriteEnd(address, size)
  }

  /** Every write is announced to every range it hits. */
  ghost predicate Covers(ranges: seq<Range>) {
    forall address: nat, size: nat, k: nat | address < ADDRESS_LIMIT && k < |ranges|
      && Hits(address, size, ranges[k]) ::
      Visits(ranges, address, size, k)
  }

  // The steps of one thread: the thread's next program counter and the new shared state.

  ghost predicate Unchanged(s: State, s': State) {
    s'.mem == s.mem && s'.words == s.words && s'.versions == s.versions && s'.unavailable == s.unavailable
  }

  function Add32(x: nat, y: nat): nat { (x + y) % ADDRESS_LIMIT }

  ghost predicate StartsValidation(ranges: seq<Range>, s: State, th: Thread, s': State, th': Thread) {
    th.Idle? && Unchanged(s, s') && th'.Loaded? && th'.i < |ranges| == |s.words| == |s.versions|
    && th'.observed == s.words[th'.i] && th'.version == s.versions[th'.i]
  }

  ghost predicate ReadsStatus(ranges: seq<Range>, s: State, th: Thread, s': State, th': Thread) {
    th.Loaded? && th.i < |ranges| && Unchanged(s, s')
    && th' == if th.observed.status != DIRTY then Idle
              else if ranges[th.i].readable then Hashing(th.i, th.observed, th.version, ranges[th.i].start, HASH_START)
              else Decided(th.i, th.observed, th.version, false)
  }

  ghost predicate HashesByte(ranges: seq<Range>, s: State, th: Thread, s': State, th': Thread) {
    th.Hashing? && th.i < |ranges| && Unchanged(s, s')
    && th' == if th.pos < ranges[th.i].end
              then th.(pos := th.pos + 1, hash := Mix(th.hash, s.mem(th.pos)))
              else Decided(th.i, th.observed, th.version, th.hash == ranges[th.i].hash)
  }

  /** The compare-and-swap publishes the verdict. */
  ghost predicate Publishes(ranges: seq<Range>, s: State, th: Thread, s': State, th': Thread) {
    th.Decided? && th.i < |ranges| == |s.words| && s.words[th.i] == th.observed
    && s'.mem == s.mem && s'.versions == s.versions && s'.unavailable == s.unavailable
    && s'.words == s.words[th.i := th.observed.(status := if th.matches then VALID else CHANGED)]
    && th' == if th.matches then Subtracting else Idle
  }

  /** The compare-and-swap fails, possibly spuriously, and reloads. */
  ghost predicate Reloads(ranges: seq<Range>, s: State, th: Thread, s': State, th': Thread) {
    th.Decided? && th.i < |ranges| == |s.words| == |s.versions| && Unchanged(s, s')
    && th' == Loaded(th.i, s.words[th.i], s.versions[th.i])
  }

  ghost predicate Subtracts(ranges: seq<Range>, s: State, th: Thread, s': State, th': Thread) {
    th.Subtracting? && s' == s.(unavailable := Add32(s.unavailable, ADDRESS_LIMIT - 1), threads := s'.threads)
      && th'.Idle?
  }

  ghost predicate StartsWrite(ranges: seq<Range>, s: State, th: Thread, s': State, th': Thread) {
    th.Idle? && Unchanged(s, s') && th'.Writing? && th'.address < ADDRESS_LIMIT && th'.written == {}
  }

  ghost predicate WritesByte(ranges: seq<Range>, s: State, th: Thread, s': State, th': Thread, a: nat) {
    th.Writing? && th.address <= a < th.address + th.size && a < ADDRESS_LIMIT
    && s'.words == s.words && s'.versions == s.versions && s'.unavailable == s.unavailable
    && (forall x: nat :: x != a ==> s'.mem(x) == s.mem(x))
    && th' == Writing(th.address, th.size, th.written + {a})
  }

  ghost predicate StartsInvalidation(ranges: seq<Range>, s: State, th: Thread, s': State, th': Thread) {
    th.Writing? && Unchanged(s, s') && th'.Invalidating? && th'.index == FirstAfter(ranges, th.address)
    && th' == Invalidating(th.address, th.size, th.written, th'.index)
  }

  ghost predicate VisitsRange(ranges: seq<Range>, s: State, th: Thread, s': State, th': Thread) {
    th.Invalidating? && Unchanged(s, s')
    && if th.index < |ranges| && ranges[th.index].start < WriteEnd(th.address, th.size)
       then |s.words| == |ranges| && th' == Bumping(th.address, th.size, th.written, th.index, s.words[th.index])
       else th' == Idle
  }

  ghost predicate RereadsWord(ranges: seq<Range>, s: State, th: Thread, s': State, th': Thread) {
    th.Bumping? && th.index < |ranges| == |s.words| && Unchanged(s, s') && th' == th.(seen := s.words[th.index])
  }

  /** Assumed of every bump: no validation in flight spans a whole cycle of tags. */
  predicate TagsDistinguish(s: State, k: nat)
    requires k < |s.versions|
  {
    forall t | 0 <= t < |s.threads| && s.threads[t].Validates(k) :: s.versions[k] + 1 < s.threads[t].version + TAG_LIMIT
  }

  ghost predicate Bumps(ranges: seq<Range>, s: State, th: Thread, s': State, th': Thread) {
    th.Bumping? && th.index < |ranges| == |s.words| == |s.versions| && s.words[th.index] == th.seen
    && TagsDistinguish(s, th.index)
    && s'.mem == s.mem && s'.unavailable == s.unavailable
    && s'.words == s.words[th.index := Word((th.seen.tag + 1) % TAG_LIMIT, DIRTY)]
    && s'.versions == s.versions[th.index := s.versions[th.index] + 1]
    && th' == if th.seen.status == VALID then Adding(th.address, th.size, th.written, th.index)
              else Invalidating(th.address, th.size, th.written, th.index + 1)
  }

  ghost predicate Adds(ranges: seq<Range>, s: State, th: Thread, s': State, th': Thread) {
    th.Adding? && s' == s.(unavailable := Add32(s.unavailable, 1), threads := s'.threads)
    && th' == Invalidating(th.address, th.size, th.written, th.index + 1)
  }

  ghost predicate Moves(ranges: seq<Range>, s: State, th: Thread, s': State, th': Thread) {
    StartsValidation(ranges, s, th, s', th') || ReadsStatus(ranges, s, th, s', th')
      || HashesByte(ranges, s, th, s', th')
    || Publishes(ranges, s, th, s', th') || Reloads(ranges, s, th, s', th') || Subtracts(ranges, s, th, s', th')
    || StartsWrite(ranges, s, th, s', th') || StartsInvalidation(ranges, s, th, s', th')
    || VisitsRange(ranges, s, th, s', th') || RereadsWord(ranges, s, th, s', th')
    || Bumps(ranges, s, th, s', th') || Adds(ranges, s, th, s', th')
    || exists a :: WritesByte(ranges, s, th, s', th', a)
  }

  ghost predicate StepOf(ranges: seq<Range>, s: State, s': State, t: nat) {
    t < |s.threads| == |s'.threads| && s'.threads == s.threads[t := s'.threads[t]]
    && Moves(ranges, s, s.threads[t], s', s'.threads[t])
  }

  /** `moderngekko_native_reset` */
  ghost predicate Reset(ranges: seq<Range>, s: State) {
    && |s.words| == |s.versions| == |ranges| && s.unavailable == |ranges|
    && (forall i | 0 <= i < |ranges| :: s.words[i] == Word(0, DIRTY) && s.versions[i] == 0)
    && forall t | 0 <= t < |s.threads| :: s.threads[t].Idle?
  }

  // What every reachable state satisfies

  /** Writes are announced, and the range still has the version a validation started from and no write
      awaiting its announcement. */
  ghost predicate Quiet(ranges: seq<Range>, s: State, k: nat, version: nat)
    requires k < |ranges| == |s.versions|
  {
    Covers(ranges) && s.versions[k] == version && !Pending(ranges, s, k)
  }

  predicate Matches(r: Range, mem: Memory)
    requires r.start <= r.end
  {
    r.readable && HashOf(mem, r.start, r.end) == r.hash
  }

  ghost predicate ValidatorOk(ranges: seq<Range>, s: State, th: Thread)
    requires ValidRanges(ranges) && |s.versions| == |ranges|
  {
    th.Validating() ==>
      && th.i < |ranges|
      && th.version <= s.versions[th.i] < th.version + TAG_LIMIT && th.observed.tag == th.version % TAG_LIMIT
      && (th.Hashing? || th.Decided? ==> th.observed.status == DIRTY)
      && (th.Hashing? ==> ranges[th.i].readable && ranges[th.i].start <= th.pos <= ranges[th.i].end)
      && (th.Hashing? && Quiet(ranges, s, th.i, th.version) ==> th.hash == HashOf(s.mem, ranges[th.i].start, th.pos))
      && (th.Decided? && th.matches && Quiet(ranges, s, th.i, th.version) ==> Matches(ranges[th.i], s.mem))
  }

  ghost predicate WriterOk(ranges: seq<Range>, th: Thread) {
    th.Writer() ==>
      && th.address < ADDRESS_LIMIT
      && (forall a | a in th.written :: th.address <= a < th.address + th.size && a < ADDRESS_LIMIT)
      && (th.Bumping? || th.Adding? ==>
            th.index < |ranges| && ranges[th.index].start < WriteEnd(th.address, th.size))
      && (!th.Writing? ==> FirstAfter(ranges, th.address) <= th.index)
      && (!th.Writing? ==>
            forall i | FirstAfter(ranges, th.address) <= i < th.index && i < |ranges| ::
              ranges[i].start < WriteEnd(th.address, th.size))
  }

  ghost predicate RangeOk(ranges: seq<Range>, s: State, k: nat)
    requires ValidRanges(ranges) && k < |ranges| == |s.words| == |s.versions|
  {
    s.words[k].tag == s.versions[k] % TAG_LIMIT
    && (Covers(ranges) && s.words[k].status == VALID && !Pending(ranges, s, k) ==> Matches(ranges[k], s.mem))
  }

  function Count<T>(items: seq<T>, p: T -> bool): nat {
    if items == [] then 0 else Count(items[..|items| - 1], p) + if p(items[|items| - 1]) then 1 else 0
  }

  function Unavailable(words: seq<Word>): nat { Count(words, (w: Word) => w.status != VALID) }

  function Increments(threads: seq<Thread>): nat { Count(threads, (th: Thread) => th.Adding?) }

  function Decrements(threads: seq<Thread>): nat { Count(threads, (th: Thread) => th.Subtracting?) }

  /** The counter with the updates still on their way is the number of ranges not valid. */
  predicate CounterOk(s: State) {
    s.unavailable < ADDRESS_LIMIT
    && (s.unavailable + Increments(s.threads) - Decrements(s.threads) - Unavailable(s.words)) % ADDRESS_LIMIT == 0
  }

  ghost predicate Inv(ranges: seq<Range>, s: State)
    requires ValidRanges(ranges)
  {
    && |s.words| == |s.versions| == |ranges|
    && (forall t | 0 <= t < |s.threads| :: ValidatorOk(ranges, s, s.threads[t]) && WriterOk(ranges, s.threads[t]))
    && (forall k | 0 <= k < |ranges| :: RangeOk(ranges, s, k))
    && CounterOk(s)
  }

  lemma {:induction false} CountUpdate<T>(items: seq<T>, p: T -> bool, t: nat, x: T)
    requires t < |items|
    ensures Count(items[t := x], p) == Count(items, p) - (if p(items[t]) then 1 else 0) + (if p(x) then 1 else 0)
  {
    var last := |items| - 1;
    if t == last {
      assert items[t := x][..last] == items[..last];
    } else {
      assert items[t := x][..last] == items[..last][t := x];
      CountUpdate(items[..last], p, t, x);
    }
  }

  lemma {:induction false} HashFrame(mem: Memory, mem': Memory, from: nat, to: nat)
    requires from <= to && forall a | from <= a < to :: mem(a) == mem'(a)
    ensures HashOf(mem, from, to) == HashOf(mem', from, to)
  {
    hide Mix, Scramble;
    if from < to { HashFrame(mem, mem', from, to - 1); }
  }

  /** A thread's move leaves every range pending exactly as before. */
  ghost predicate SamePending(ranges: seq<Range>, th: Thread, th': Thread) {
    forall k | 0 <= k < |ranges| :: PendingBy(th, k, ranges[k]) == PendingBy(th', k, ranges[k])
  }

  lemma PendingUnchanged(ranges: seq<Range>, s: State, s': State, t: nat, k: nat)
    requires t < |s.threads| == |s'.threads| && s'.threads == s.threads[t := s'.threads[t]] && k < |ranges|
    requires PendingBy(s.threads[t], k, ranges[k]) == PendingBy(s'.threads[t], k, ranges[k])
    ensures Pending(ranges, s, k) == Pending(ranges, s', k)
  {
    if Pending(ranges, s, k) {
      var u :| 0 <= u < |s.threads| && PendingBy(s.threads[u], k, ranges[k]);
      assert PendingBy(s'.threads[u], k, ranges[k]);
    }
    if Pending(ranges, s', k) {
      var u :| 0 <= u < |s'.threads| && PendingBy(s'.threads[u], k, ranges[k]);
      assert PendingBy(s.threads[u], k, ranges[k]);
    }
  }

  /** Moves that change no shared state but the counter. */
  lemma LocalMoveKeeps(ranges: seq<Range>, s: State, s': State, t: nat)
    requires ValidRanges(ranges) && Inv(ranges, s)
    requires t < |s.threads| == |s'.threads| && s'.threads == s.threads[t := s'.threads[t]]
    requires s'.mem == s.mem && s'.words == s.words && s'.versions == s.versions
    requires Covers(ranges) ==> SamePending(ranges, s.threads[t], s'.threads[t])
    requires ValidatorOk(ranges, s, s'.threads[t]) && WriterOk(ranges, s'.threads[t])
    requires CounterOk(s')
    ensures Inv(ranges, s')
  {
    forall k | 0 <= k < |ranges| && Covers(ranges) ensures Pending(ranges, s, k) == Pending(ranges, s', k) {
      PendingUnchanged(ranges, s, s', t, k);
    }
    hide PendingBy, Pending, HashOf, Count, CounterOk, Covers;
    forall u | 0 <= u < |s'.threads| ensures ValidatorOk(ranges, s', s'.threads[u]) && WriterOk(ranges, s'.threads[u]) {
      assert ValidatorOk(ranges, s, s'.threads[u]) && WriterOk(ranges, s'.threads[u]);
    }
    forall k | 0 <= k < |ranges| ensures RangeOk(ranges, s', k) { assert RangeOk(ranges, s, k); }
  }

  lemma CountersMove(s: State, s': State, t: nat)
    requires t < |s.threads| == |s'.threads| && s'.threads == s.threads[t := s'.threads[t]]
    ensures Increments(s'.threads) == Increments(s.threads)
      - (if s.threads[t].Adding? then 1 else 0) + (if s'.threads[t].Adding? then 1 else 0)
    ensures Decrements(s'.threads) == Decrements(s.threads)
      - (if s.threads[t].Subtracting? then 1 else 0) + (if s'.threads[t].Subtracting? then 1 else 0)
  {
    CountUpdate(s.threads, (th: Thread) => th.Adding?, t, s'.threads[t]);
    CountUpdate(s.threads, (th: Thread) => th.Subtracting?, t, s'.threads[t]);
  }

  lemma TouchHits(th: Thread, ranges: seq<Range>, k: nat)
    requires ValidRanges(ranges) && th.Writer() && WriterOk(ranges, th) && k < |ranges|
    requires Touches(th.written, ranges[k])
    ensures Hits(th.address, th.size, ranges[k])
  {
    var a :| a in th.written && ranges[k].start <= a < ranges[k].end;
  }

  lemma FirstRangeIsPending(ranges: seq<Range>, th: Thread)
    requires ValidRanges(ranges) && Covers(ranges) && th.Writing? && WriterOk(ranges, th)
    ensures SamePending(ranges, th, Invalidating(th.address, th.size, th.written, FirstAfter(ranges, th.address)))
  {
    hide FirstAfter, Touches;
    forall k | 0 <= k < FirstAfter(ranges, th.address) ensures !Touches(th.written, ranges[k]) {
      if Touches(th.written, ranges[k]) { TouchHits(th, ranges, k); }
    }
  }

  /** When the loop of an invalidation stops, every range the writer stored to has been bumped. */
  lemma LastRangeIsBumped(ranges: seq<Range>, th: Thread)
    requires ValidRanges(ranges) && Covers(ranges) && th.Invalidating? && WriterOk(ranges, th)
    requires th.index >= |ranges| || ranges[th.index].start >= WriteEnd(th.address, th.size)
    ensures SamePending(ranges, th, Idle)
  {
    hide FirstAfter, Touches;
    forall k | 0 <= k < |ranges| && th.index <= k ensures !Touches(th.written, ranges[k]) {
      assert Hits(th.address, th.size, ranges[k]) ==> Visits(ranges, th.address, th.size, k);
      if Touches(th.written, ranges[k]) { TouchHits(th, ranges, k); }
    }
  }

  lemma ReadKeeps(ranges: seq<Range>, s: State, s': State, t: nat)
    requires ValidRanges(ranges) && Inv(ranges, s) && t < |s.threads| == |s'.threads|
    requires s'.threads == s.threads[t := s'.threads[t]]
    requires var (th, th') := (s.threads[t], s'.threads[t]);
      StartsValidation(ranges, s, th, s', th') || ReadsStatus(ranges, s, th, s', th')
        || HashesByte(ranges, s, th, s', th')
      || Reloads(ranges, s, th, s', th')
    ensures Inv(ranges, s')
  {
    hide Mix, Scramble, Pending;
    var th, th' := s.threads[t], s'.threads[t];
    assert ValidatorOk(ranges, s, th);
    CountersMove(s, s', t);
    if th'.Validating() { assert RangeOk(ranges, s, th'.i); }
    LocalMoveKeeps(ranges, s, s', t);
  }

  lemma CounterKeeps(ranges: seq<Range>, s: State, s': State, t: nat)
    requires ValidRanges(ranges) && Inv(ranges, s) && t < |s.threads| == |s'.threads|
    requires s'.threads == s.threads[t := s'.threads[t]]
    requires var (th, th') := (s.threads[t], s'.threads[t]);
      Subtracts(ranges, s, th, s', th') || Adds(ranges, s, th, s', th')
    ensures Inv(ranges, s')
  {
    var th, th' := s.threads[t], s'.threads[t];
    hide FirstAfter, Covers;
    assert WriterOk(ranges, th);
    CountersMove(s, s', t);
    LocalMoveKeeps(ranges, s, s', t);
  }

  lemma WalkKeeps(ranges: seq<Range>, s: State, s': State, t: nat)
    requires ValidRanges(ranges) && Inv(ranges, s) && t < |s.threads| == |s'.threads|
    requires s'.threads == s.threads[t := s'.threads[t]]
    requires var (th, th') := (s.threads[t], s'.threads[t]);
      StartsWrite(ranges, s, th, s', th') || StartsInvalidation(ranges, s, th, s', th')
      || VisitsRange(ranges, s, th, s', th') || RereadsWord(ranges, s, th, s', th')
    ensures Inv(ranges, s')
  {
    var th, th' := s.threads[t], s'.threads[t];
    assert WriterOk(ranges, th);
    CountersMove(s, s', t);
    hide FirstAfter, Covers;
    if Covers(ranges) {
      if StartsInvalidation(ranges, s, th, s', th') {
        FirstRangeIsPending(ranges, th);
      } else if VisitsRange(ranges, s, th, s', th') && th'.Idle? {
        LastRangeIsBumped(ranges, th);
      }
    }
    LocalMoveKeeps(ranges, s, s', t);
  }

  /** A successful compare-and-swap saw the version the validation started from: fewer than a
      cycle of tags have passed. */
  lemma SameTagSameVersion(old_: nat, now: nat)
    requires old_ <= now < old_ + TAG_LIMIT && old_ % TAG_LIMIT == now % TAG_LIMIT
    ensures old_ == now
  {
  }

  lemma PublishKeeps(ranges: seq<Range>, s: State, s': State, t: nat)
    requires ValidRanges(ranges) && Inv(ranges, s) && t < |s.threads| == |s'.threads|
    requires s'.threads == s.threads[t := s'.threads[t]]
    requires Publishes(ranges, s, s.threads[t], s', s'.threads[t])
    ensures Inv(ranges, s')
  {
    var th, th' := s.threads[t], s'.threads[t];
    assert ValidatorOk(ranges, s, th) && RangeOk(ranges, s, th.i);
    SameTagSameVersion(th.version, s.versions[th.i]);
    CountersMove(s, s', t);
    CountUpdate(s.words, (w: Word) => w.status != VALID, th.i, s'.words[th.i]);
    forall k | 0 <= k < |ranges| ensures Pending(ranges, s, k) == Pending(ranges, s', k) {
      PendingUnchanged(ranges, s, s', t, k);
    }
    hide PendingBy, Pending, HashOf, Count;
    forall u | 0 <= u < |s'.threads| ensures ValidatorOk(ranges, s', s'.threads[u]) && WriterOk(ranges, s'.threads[u]) {
      assert ValidatorOk(ranges, s, s.threads[u]) && WriterOk(ranges, s.threads[u]);
    }
    forall k | 0 <= k < |ranges| ensures RangeOk(ranges, s', k) { assert RangeOk(ranges, s, k); }
  }

  /** A store makes the ranges it hits pending and leaves the bytes of the others alone. */
  lemma StoreEffect(ranges: seq<Range>, s: State, s': State, t: nat, a: nat, k: nat)
    requires ValidRanges(ranges) && k < |ranges| && t < |s.threads| == |s'.threads|
    requires s'.threads == s.threads[t := s'.threads[t]]
    requires WritesByte(ranges, s, s.threads[t], s', s'.threads[t], a)
    ensures ranges[k].start <= a < ranges[k].end ==> Pending(ranges, s', k)
    ensures !(ranges[k].start <= a < ranges[k].end) ==>
      Pending(ranges, s, k) == Pending(ranges, s', k)
      && forall pos | ranges[k].start <= pos <= ranges[k].end ::
           HashOf(s'.mem, ranges[k].start, pos) == HashOf(s.mem, ranges[k].start, pos)
  {
    if ranges[k].start <= a < ranges[k].end {
      assert PendingBy(s'.threads[t], k, ranges[k]);
    } else {
      PendingUnchanged(ranges, s, s', t, k);
      forall pos | ranges[k].start <= pos <= ranges[k].end
        ensures HashOf(s'.mem, ranges[k].start, pos) == HashOf(s.mem, ranges[k].start, pos)
      {
        HashFrame(s.mem, s'.mem, ranges[k].start, pos);
      }
    }
  }

  lemma StoreKeeps(ranges: seq<Range>, s: State, s': State, t: nat, a: nat)
    requires ValidRanges(ranges) && Inv(ranges, s) && t < |s.threads| == |s'.threads|
    requires s'.threads == s.threads[t := s'.threads[t]]
    requires WritesByte(ranges, s, s.threads[t], s', s'.threads[t], a)
    ensures Inv(ranges, s')
  {
    assert WriterOk(ranges, s.threads[t]);
    CountersMove(s, s', t);
    hide PendingBy, Pending, HashOf, Count;
    forall u | 0 <= u < |s'.threads| ensures ValidatorOk(ranges, s', s'.threads[u]) && WriterOk(ranges, s'.threads[u]) {
      assert ValidatorOk(ranges, s, s.threads[u]) && WriterOk(ranges, s.threads[u]);
      if s'.threads[u].Validating() { StoreEffect(ranges, s, s', t, a, s'.threads[u].i); }
    }
    forall k | 0 <= k < |ranges| ensures RangeOk(ranges, s', k) {
      assert RangeOk(ranges, s, k);
      StoreEffect(ranges, s, s', t, a, k);
    }
  }

  /** A bump leaves the other ranges pending as they were. */
  lemma BumpLeavesPending(ranges: seq<Range>, s: State, s': State, t: nat, k: nat)
    requires t < |s.threads| == |s'.threads| && s'.threads == s.threads[t := s'.threads[t]]
    requires Bumps(ranges, s, s.threads[t], s', s'.threads[t]) && k < |ranges| && k != s.threads[t].index
    ensures Pending(ranges, s, k) == Pending(ranges, s', k)
  {
    PendingUnchanged(ranges, s, s', t, k);
  }

  lemma BumpKeeps(ranges: seq<Range>, s: State, s': State, t: nat)
    requires ValidRanges(ranges) && Inv(ranges, s) && t < |s.threads| == |s'.threads|
    requires s'.threads == s.threads[t := s'.threads[t]]
    requires Bumps(ranges, s, s.threads[t], s', s'.threads[t])
    ensures Inv(ranges, s')
  {
    hide FirstAfter, Covers, PendingBy, Pending, HashOf, Count, WriteEnd;
    var th, th' := s.threads[t], s'.threads[t];
    assert WriterOk(ranges, th) && RangeOk(ranges, s, th.index);
    CountersMove(s, s', t);
    CountUpdate(s.words, (w: Word) => w.status != VALID, th.index, s'.words[th.index]);
    forall k | 0 <= k < |ranges| && k != th.index ensures Pending(ranges, s, k) == Pending(ranges, s', k) {
      BumpLeavesPending(ranges, s, s', t, k);
    }
    NextTag(s.versions[th.index]);
    forall u | 0 <= u < |s'.threads| ensures ValidatorOk(ranges, s', s'.threads[u]) && WriterOk(ranges, s'.threads[u]) {
      assert ValidatorOk(ranges, s, s.threads[u]) && WriterOk(ranges, s.threads[u]);
    }
    forall k | 0 <= k < |ranges| ensures RangeOk(ranges, s', k) { assert RangeOk(ranges, s, k); }
  }

  lemma NextTag(version: nat)
    ensures (version % TAG_LIMIT + 1) % TAG_LIMIT == (version + 1) % TAG_LIMIT
  {
  }

  lemma StepKeepsInv(ranges: seq<Range>, s: State, s': State, t: nat)
    requires ValidRanges(ranges) && Inv(ranges, s) && StepOf(ranges, s, s', t)
    ensures Inv(ranges, s')
  {
    var th, th' := s.threads[t], s'.threads[t];
    if Publishes(ranges, s, th, s', th') {
      PublishKeeps(ranges, s, s', t);
    } else if Bumps(ranges, s, th, s', th') {
      BumpKeeps(ranges, s, s', t);
    } else if Subtracts(ranges, s, th, s', th') || Adds(ranges, s, th, s', th') {
      CounterKeeps(ranges, s, s', t);
    } else if exists a :: WritesByte(ranges, s, th, s', th', a) {
      var a :| WritesByte(ranges, s, th, s', th', a);
      StoreKeeps(ranges, s, s', t, a);
    } else if StartsWrite(ranges, s, th, s', th') || StartsInvalidation(ranges, s, th, s', th')
              || VisitsRange(ranges, s, th, s', th') || RereadsWord(ranges, s, th, s', th') {
      WalkKeeps(ranges, s, s', t);
    } else {
      ReadKeeps(ranges, s, s', t);
    }
  }

  lemma {:induction false} CountAll<T>(items: seq<T>, p: T -> bool)
    ensures Count(items, p) <= |items|
    ensures (forall k | 0 <= k < |items| :: p(items[k])) ==> Count(items, p) == |items|
    ensures Count(items, p) == 0 <==> forall k | 0 <= k < |items| :: !p(items[k])
  {
    if items != [] { CountAll(items[..|items| - 1], p); }
  }

  lemma ResetEstablishes(ranges: seq<Range>, s: State)
    requires ValidRanges(ranges) && Reset(ranges, s)
    ensures Inv(ranges, s)
  {
    CountAll(s.words, (w: Word) => w.status != VALID);
    CountAll(s.threads, (th: Thread) => th.Adding?);
    CountAll(s.threads, (th: Thread) => th.Subtracting?);
  }

  ghost predicate Next(ranges: seq<Range>, s: State, s': State) { exists t :: StepOf(ranges, s, s', t) }

  /** The states of an interleaving that starts at a reset. */
  ghost predicate Run(ranges: seq<Range>, run: seq<State>) {
    run != [] && Reset(ranges, run[0]) && forall k | 0 < k < |run| :: Next(ranges, run[k - 1], run[k])
  }

  lemma {:induction false} RunKeepsInv(ranges: seq<Range>, run: seq<State>)
    requires ValidRanges(ranges) && Run(ranges, run)
    ensures Inv(ranges, run[|run| - 1])
  {
    hide Inv, StepOf, Reset, ValidRanges;
    var last := |run| - 1;
    if last == 0 {
      ResetEstablishes(ranges, run[0]);
    } else {
      RunKeepsInv(ranges, run[..last]);
      assert Next(ranges, run[last - 1], run[last]);
      var t :| StepOf(ranges, run[last - 1], run[last], t);
      StepKeepsInv(ranges, run[last - 1], run[last], t);
    }
  }

  /** Where every write is announced to the ranges it hits, a range marked VALID with no write still
      awaiting its invalidation holds the bytes it was compiled from, as far as the hash can tell. */
  lemma ValidIsHonest(ranges: seq<Range>, run: seq<State>, k: nat)
    requires ValidRanges(ranges) && Covers(ranges) && Run(ranges, run) && k < |ranges|
    ensures var s := run[|run| - 1];
      |s.words| == |ranges|
      && (s.words[k].status == VALID && !Pending(ranges, s, k) ==>
            ranges[k].readable && HashOf(s.mem, ranges[k].start, ranges[k].end) == ranges[k].hash)
  {
    RunKeepsInv(ranges, run);
    assert RangeOk(ranges, run[|run| - 1], k);
  }

  /** In every reachable state the counter, with its pending updates, counts the ranges that are
      not VALID; once none is pending it is zero exactly when all of them are VALID. */
  lemma CounterTracksStatuses(ranges: seq<Range>, run: seq<State>)
    requires ValidRanges(ranges) && Run(ranges, run)
    ensures var s := run[|run| - 1];
      (s.unavailable + Increments(s.threads) - Decrements(s.threads)) % ADDRESS_LIMIT
        == Unavailable(s.words) % ADDRESS_LIMIT
    ensures var s := run[|run| - 1];
      (forall t | 0 <= t < |s.threads| :: !s.threads[t].Adding? && !s.threads[t].Subtracting?) ==>
        s.unavailable == Unavailable(s.words)
        && (s.unavailable == 0 <==> forall k | 0 <= k < |s.words| :: s.words[k].status == VALID)
  {
    RunKeepsInv(ranges, run);
    InvCounts(ranges, run[|run| - 1]);
    hide Inv, Run;
  }

  lemma InvCounts(ranges: seq<Range>, s: State)
    requires ValidRanges(ranges) && Inv(ranges, s)
    ensures (s.unavailable + Increments(s.threads) - Decrements(s.threads)) % ADDRESS_LIMIT
      == Unavailable(s.words) % ADDRESS_LIMIT
    ensures (forall t | 0 <= t < |s.threads| :: !s.threads[t].Adding? && !s.threads[t].Subtracting?) ==>
      s.unavailable == Unavailable(s.words)
      && (s.unavailable == 0 <==> forall k | 0 <= k < |s.words| :: s.words[k].status == VALID)
  {
    hide RangeOk, ValidatorOk, WriterOk;
    CountAll(s.words, (w: Word) => w.status != VALID);
    CountAll(s.threads, (th: Thread) => th.Adding?);
    CountAll(s.threads, (th: Thread) => th.Subtracting?);
    SameResidue(s.unavailable + Increments(s.threads) - Decrements(s.threads), Unavailable(s.words));
  }

  lemma SameResidue(x: int, y: nat)
    requires (x - y) % ADDRESS_LIMIT == 0
    ensures x % ADDRESS_LIMIT == y % ADDRESS_LIMIT
    ensures 0 <= x < ADDRESS_LIMIT && y < ADDRESS_LIMIT ==> x == y
  {
  }
}
