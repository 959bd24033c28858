/** When VALID can be trusted: the honesty of the statuses holds over all interleavings exactly when
    the invalidation after every write comes to every range the write hits.  For ranges of which no
    two overlap that is when they ascend, as the tables of native modules then do. */
module NativeHonesty {
  import Partition
  import NativeRanges
  import opened NativeValidation

  /** Where the ranges lie. */
  function Extents(ranges: seq<Range>): (cuts: seq<Partition.Cut>)
    ensures |cuts| == |ranges|
    ensures forall k | 0 <= k < |cuts| :: cuts[k] == Partition.Cut(ranges[k].start, ranges[k].end)
  {
    seq(|ranges|, k requires 0 <= k < |ranges| => Partition.Cut(ranges[k].start, ranges[k].end))
  }

  // Which lists announce every write

  lemma {:induction false} SearchGrows(ranges: seq<Range>, a: nat, b: nat, first: nat, last: nat)
    requires first <= last <= |ranges| && a <= b
    ensures EndSearch(ranges, a, first, last) <= EndSearch(ranges, b, first, last)
    decreases last - first
  {
    if first < last {
      var middle := first + (last - first) / 2;
      SearchGrows(ranges, a, b, middle + 1, last);
      SearchGrows(ranges, a, b, first, middle);
    }
  }

  lemma {:induction false} SearchFromStart(ranges: seq<Range>, address: nat, first: nat, last: nat)
    requires first <= last <= |ranges| && forall k | first <= k < last :: address < ranges[k].end
    ensures EndSearch(ranges, address, first, last) == first
    decreases last - first
  {
    if first < last {
      var middle := first + (last - first) / 2;
      SearchFromStart(ranges, address, first, middle);
    }
  }

  /** Starts never fall, and the search for the last address of a range ends up at it or before. */
  ghost predicate Announces(ranges: seq<Range>) {
    && (forall i, k | 0 <= i < k < |ranges| :: ranges[i].start <= ranges[k].start)
    && (forall k | 0 <= k < |ranges| :: ranges[k].end > 0 && FirstAfter(ranges, ranges[k].end - 1) <= k)
  }

  /** A condition on the table alone. */
  lemma CoversIff(ranges: seq<Range>)
    requires ValidRanges(ranges)
    ensures Covers(ranges) <==> Announces(ranges)
  {
    if Covers(ranges) { CoversAnnounces(ranges); }
    if Announces(ranges) {
      forall address: nat, size: nat, k: nat
        | address < ADDRESS_LIMIT && k < |ranges| && Hits(address, size, ranges[k])
        ensures Visits(ranges, address, size, k)
      {
        SearchGrows(ranges, address, ranges[k].end - 1, 0, |ranges|);
      }
    }
  }

  /** A write from address 0 to the start of a range and a write to its last address. */
  lemma CoversAnnounces(ranges: seq<Range>)
    requires ValidRanges(ranges) && Covers(ranges)
    ensures Announces(ranges)
  {
    hide Visits, FirstAfter;
    forall i, k | 0 <= i < k < |ranges| ensures ranges[i].start <= ranges[k].start {
      assert Hits(0, ranges[k].start + 1, ranges[k]);
      FromTheFirst(ranges, ranges[k].start + 1, k, i);
    }
    forall k | 0 <= k < |ranges| ensures ranges[k].end > 0 && FirstAfter(ranges, ranges[k].end - 1) <= k {
      assert Hits(ranges[k].end - 1, 1, ranges[k]);
      VisitBegins(ranges, ranges[k].end - 1, 1, k);
    }
  }

  lemma FromTheFirst(ranges: seq<Range>, size: nat, k: nat, i: nat)
    requires ValidRanges(ranges) && i <= k < |ranges| && Visits(ranges, 0, size, k)
    ensures ranges[i].start < WriteEnd(0, size)
  {
    SearchFromStart(ranges, 0, 0, |ranges|);
  }

  lemma VisitBegins(ranges: seq<Range>, address: nat, size: nat, k: nat)
    requires k < |ranges| && Visits(ranges, address, size, k)
    ensures FirstAfter(ranges, address) <= k
  {
  }

  lemma {:induction false} OrderedEndSearch(ranges: seq<Range>, address: nat, first: nat, last: nat, k: nat)
    requires first <= k < last <= |ranges| && ValidRanges(ranges) && Partition.InOrder(Extents(ranges))
    requires address < ranges[k].end
    ensures EndSearch(ranges, address, first, last) <= k
    decreases last - first
  {
    var middle := first + (last - first) / 2;
    var cuts := Extents(ranges);
    assert k < middle ==> cuts[k].end <= cuts[middle].start;
    if ranges[middle].end <= address {
      OrderedEndSearch(ranges, address, middle + 1, last, k);
    } else if k < middle {
      OrderedEndSearch(ranges, address, first, middle, k);
    }
  }

  /** Ranges of which no two overlap are told of every write if and only if they ascend. */
  lemma CoversIsOrder(ranges: seq<Range>)
    requires ValidRanges(ranges) && Partition.NoneOverlap(Extents(ranges))
    ensures Covers(ranges) <==> Partition.InOrder(Extents(ranges))
  {
    var cuts := Extents(ranges);
    hide FirstAfter, Partition.NoneOverlap, Covers;
    CoversIff(ranges);
    if Covers(ranges) {
      forall i, k | 0 <= i < k < |cuts| ensures cuts[i].end <= cuts[k].start {
        NativeRanges.NeighboursApart(cuts, i, k);
      }
    }
    if Partition.InOrder(cuts) {
      forall i, k | 0 <= i < k < |ranges| ensures ranges[i].start <= ranges[k].start {
        assert cuts[i].end <= cuts[k].start;
      }
      forall k | 0 <= k < |ranges| ensures FirstAfter(ranges, ranges[k].end - 1) <= k {
        EndAtOrBefore(ranges, k);
      }
    }
  }

  lemma EndAtOrBefore(ranges: seq<Range>, k: nat)
    requires ValidRanges(ranges) && Partition.InOrder(Extents(ranges)) && k < |ranges|
    ensures FirstAfter(ranges, ranges[k].end - 1) <= k
  {
    OrderedEndSearch(ranges, ranges[k].end - 1, 0, |ranges|, k);
  }

  /** The table of a native module made of ranges that do not overlap announces every write. */
  lemma AcceptedCovers(ranges: seq<Range>, all: seq<Partition.Cut>, at: seq<nat>)
    requires ValidRanges(ranges) && Partition.NonEmpty(all) && Partition.NoneOverlap(all)
    requires NativeRanges.Lists(Extents(ranges), all, at) && NativeRanges.Accepted(Extents(ranges), all)
    ensures Covers(ranges)
  {
    hide Partition.NoneOverlap, Covers, NativeRanges.Accepted;
    NativeRanges.AcceptedAscends(Extents(ranges), all, at);
    CoversIsOrder(ranges);
  }

  // Bytes and hashes

  /** The inverse of the multiplier modulo 2^64. */
  function Unscramble(x: bv64): bv64 { x * 0xCE96_5057_AFF6_957B }

  lemma ScrambleIs(x: bv64)
    ensures Scramble(x) == x * 0x100_0000_01B3
  {
  }

  lemma ProductIsUndone(x: bv64)
    ensures Unscramble(x * 0x100_0000_01B3) == x
  {
  }

  lemma BackAgain(x: bv64)
    ensures Unscramble(Scramble(x)) == x
  {
    hide Scramble, Unscramble;
    ScrambleIs(x);
    ProductIsUndone(x);
  }

  lemma JoinedIs(hash: bv64, byte: bv8)
    ensures Joined(hash, byte) == hash ^ byte as bv64
  {
  }

  lemma WordsDiffer(h: bv64, h': bv64, b: bv8)
    requires h != h'
    ensures (h ^ b as bv64) != (h' ^ b as bv64)
  {
  }

  lemma BytesDiffer(h: bv64, b: bv8, b': bv8)
    requires b != b'
    ensures (h ^ b as bv64) != (h ^ b' as bv64)
  {
  }

  lemma JoinDistinguishes(h: bv64, h': bv64, b: bv8, b': bv8)
    requires h == h' || b == b'
    requires h != h' || b != b'
    ensures Joined(h, b) != Joined(h', b')
  {
    hide Joined;
    JoinedIs(h, b);
    JoinedIs(h', b');
    if h != h' { WordsDiffer(h, h', b); } else { BytesDiffer(h, b, b'); }
  }

  lemma MixDistinguishes(h: bv64, h': bv64, b: bv8, b': bv8)
    requires h == h' || b == b'
    requires h != h' || b != b'
    ensures Mix(h, b) != Mix(h', b')
  {
    hide Scramble, Unscramble, Joined;
    JoinDistinguishes(h, h', b, b');
    BackAgain(Joined(h, b));
    BackAgain(Joined(h', b'));
  }

  /** One byte changed is a hash changed. */
  lemma {:induction false} OneByteShows(mem: Memory, mem': Memory, from: nat, to: nat, a: nat)
    requires from <= a < to && mem(a) != mem'(a) && forall x | from <= x < to && x != a :: mem(x) == mem'(x)
    ensures HashOf(mem, from, to) != HashOf(mem', from, to)
    decreases (to)
  {
    hide Mix, Scramble;
    if a == to - 1 {
      HashFrame(mem, mem', from, to - 1);
    } else {
      OneByteShows(mem, mem', from, to - 1, a);
    }
    MixDistinguishes(HashOf(mem, from, to - 1), HashOf(mem', from, to - 1), mem(to - 1), mem'(to - 1));
  }

  // A run in which a write is not announced

  ghost predicate Reaches(ranges: seq<Range>, s: State) {
    exists run :: Run(ranges, run) && run[|run| - 1] == s
  }

  lemma ReachesReset(ranges: seq<Range>, s: State)
    requires Reset(ranges, s)
    ensures Reaches(ranges, s)
  {
    assert Run(ranges, [s]);
  }

  lemma ReachesNext(ranges: seq<Range>, s: State, s': State)
    requires Reaches(ranges, s) && |s.threads| == |s'.threads| == 1
    requires Moves(ranges, s, s.threads[0], s', s'.threads[0])
    ensures Reaches(ranges, s')
  {
    hide Moves, Reset;
    assert StepOf(ranges, s, s', 0);
    var run :| Run(ranges, run) && run[|run| - 1] == s;
    assert Run(ranges, run + [s']);
  }

  /** One thread, after a reset. */
  function Alone(ranges: seq<Range>, mem: Memory, th: Thread): State {
    State(mem, seq(|ranges|, _ => Word(0, DIRTY)), seq(|ranges|, _ => 0), |ranges|, [th])
  }

  lemma {:induction false} ReachesHash(ranges: seq<Range>, mem: Memory, k: nat, pos: nat)
    requires ValidRanges(ranges) && k < |ranges| && ranges[k].readable && ranges[k].start <= pos <= ranges[k].end
    ensures Reaches(ranges,
      Alone(ranges, mem, Hashing(k, Word(0, DIRTY), 0, pos, HashOf(mem, ranges[k].start, pos))))
  {
    hide Mix, Reaches;
    var dirty, from := Word(0, DIRTY), ranges[k].start;
    var s' := Alone(ranges, mem, Hashing(k, dirty, 0, pos, HashOf(mem, from, pos)));
    if pos == from {
      var idle, loaded := Alone(ranges, mem, Idle), Alone(ranges, mem, Loaded(k, dirty, 0));
      ReachesReset(ranges, idle);
      assert StartsValidation(ranges, idle, Idle, loaded, loaded.threads[0]);
      ReachesNext(ranges, idle, loaded);
      assert ReadsStatus(ranges, loaded, loaded.threads[0], s', s'.threads[0]);
      ReachesNext(ranges, loaded, s');
    } else {
      ReachesHash(ranges, mem, k, pos - 1);
      var s := Alone(ranges, mem, Hashing(k, dirty, 0, pos - 1, HashOf(mem, from, pos - 1)));
      assert HashesByte(ranges, s, s.threads[0], s', s'.threads[0]);
      ReachesNext(ranges, s, s');
    }
  }

  /** Only range `k` has been validated. */
  function Trusting(ranges: seq<Range>, mem: Memory, k: nat, th: Thread): State
    requires k < |ranges|
  {
    Alone(ranges, mem, th)
      .(words := Alone(ranges, mem, th).words[k := Word(0, VALID)],
        unavailable := Add32(|ranges|, ADDRESS_LIMIT - 1))
  }

  lemma ReachesTrust(ranges: seq<Range>, mem: Memory, k: nat)
    requires ValidRanges(ranges) && k < |ranges| && Matches(ranges[k], mem)
    ensures Reaches(ranges, Trusting(ranges, mem, k, Idle))
  {
    hide Mix, Reaches, HashOf;
    var r, dirty := ranges[k], Word(0, DIRTY);
    ReachesHash(ranges, mem, k, r.end);
    var hashed := Alone(ranges, mem, Hashing(k, dirty, 0, r.end, HashOf(mem, r.start, r.end)));
    var decided := Alone(ranges, mem, Decided(k, dirty, 0, true));
    var published := Trusting(ranges, mem, k, Subtracting).(unavailable := |ranges|);
    var idle := Trusting(ranges, mem, k, Idle);
    assert HashesByte(ranges, hashed, hashed.threads[0], decided, decided.threads[0]);
    ReachesNext(ranges, hashed, decided);
    assert Publishes(ranges, decided, decided.threads[0], published, published.threads[0]);
    ReachesNext(ranges, decided, published);
    assert Subtracts(ranges, published, Subtracting, idle, Idle);
    ReachesNext(ranges, published, idle);
  }

  /** The memory with one byte changed. */
  function Changed(mem: Memory, a: nat): Memory { (x: nat) => if x == a then mem(x) ^ 1 else mem(x) }

  lemma ChangedShows(mem: Memory, r: Range, a: nat)
    requires r.start <= a < r.end && Matches(r, mem)
    ensures !Matches(r, Changed(mem, a))
  {
    hide HashOf;
    OneByteShows(mem, Changed(mem, a), r.start, r.end, a);
  }

  /** A write to range `k` that is about to be announced, with range `k` still trusted. */
  ghost predicate Announcing(ranges: seq<Range>, s: State, mem: Memory, address: nat, size: nat, a: nat, k: nat,
          index: nat)
    requires k < |ranges|
  {
    && s.mem == mem && s.threads == [Invalidating(address, size, {a}, index)]
    && |s.words| == |s.versions| == |ranges| && s.words[k].status == VALID
    && (forall i | 0 <= i < |ranges| && i != k :: s.words[i].status == DIRTY)
    && FirstAfter(ranges, address) <= index
    && forall i | FirstAfter(ranges, address) <= i < index && i < |ranges| :: ranges[i].start < WriteEnd(address, size)
  }

  lemma ReachesAnnouncing(ranges: seq<Range>, mem: Memory, address: nat, size: nat, a: nat, k: nat) returns (s: State)
    requires ValidRanges(ranges) && k < |ranges| && Matches(ranges[k], mem)
    requires address <= a < address + size && a < ADDRESS_LIMIT
    ensures Reaches(ranges, s)
    ensures Announcing(ranges, s, Changed(mem, a), address, size, a, k, FirstAfter(ranges, address))
  {
    hide FirstAfter, Reaches, Matches;
    ReachesTrust(ranges, mem, k);
    var idle := Trusting(ranges, mem, k, Idle);
    var before := Trusting(ranges, mem, k, Writing(address, size, {}));
    var after := Trusting(ranges, Changed(mem, a), k, Writing(address, size, {a}));
    s := Trusting(ranges, Changed(mem, a), k, Invalidating(address, size, {a}, FirstAfter(ranges, address)));
    assert StartsWrite(ranges, idle, Idle, before, before.threads[0]);
    ReachesNext(ranges, idle, before);
    assert WritesByte(ranges, before, before.threads[0], after, after.threads[0], a);
    ReachesNext(ranges, before, after);
    assert StartsInvalidation(ranges, after, after.threads[0], s, s.threads[0]);
    ReachesNext(ranges, after, s);
  }

  lemma {:induction false} ReachesEnd(ranges: seq<Range>, s: State, mem: Memory, address: nat, size: nat, a: nat,
          k: nat, index: nat)
    returns (s': State)
    requires ValidRanges(ranges) && k < |ranges| && Reaches(ranges, s) && !Visits(ranges, address, size, k)
    requires Announcing(ranges, s, mem, address, size, a, k, index)
    ensures Reaches(ranges, s') && s'.mem == mem && s'.threads == [Idle]
    ensures |s'.words| == |ranges| && s'.words[k].status == VALID
    decreases |ranges| + 1 - index
  {
    hide FirstAfter, Reaches;
    if index < |ranges| && ranges[index].start < WriteEnd(address, size) {
      var word := s.words[index];
      assert index != k;
      var bumping := s.(threads := [Bumping(address, size, {a}, index, word)]);
      assert VisitsRange(ranges, s, s.threads[0], bumping, bumping.threads[0]);
      ReachesNext(ranges, s, bumping);
      var bumped := s.(words := s.words[index := Word((word.tag + 1) % TAG_LIMIT, DIRTY)],
                       versions := s.versions[index := s.versions[index] + 1],
                       threads := [Invalidating(address, size, {a}, index + 1)]);
      assert Bumps(ranges, bumping, bumping.threads[0], bumped, bumped.threads[0]);
      ReachesNext(ranges, bumping, bumped);
      s' := ReachesEnd(ranges, bumped, mem, address, size, a, k, index + 1);
    } else {
      s' := s.(threads := [Idle]);
      assert VisitsRange(ranges, s, s.threads[0], s', s'.threads[0]);
      ReachesNext(ranges, s, s');
    }
  }

  /** A state that marks a range VALID, with no write under way, whose bytes it was not compiled from. */
  ghost predicate Dishonest(ranges: seq<Range>, s: State, k: nat)
    requires ValidRanges(ranges) && k < |ranges|
  {
    |s.words| == |ranges| && s.words[k].status == VALID && !Pending(ranges, s, k) && !Matches(ranges[k], s.mem)
  }

  lemma MissedWriteIsDishonest(ranges: seq<Range>, mem: Memory, address: nat, size: nat, k: nat) returns (s: State)
    requires ValidRanges(ranges) && k < |ranges| && Matches(ranges[k], mem) && address < ADDRESS_LIMIT
    requires Hits(address, size, ranges[k]) && !Visits(ranges, address, size, k)
    ensures Reaches(ranges, s) && Dishonest(ranges, s, k)
  {
    hide FirstAfter, Reaches, Matches, Visits;
    var a := if address < ranges[k].start then ranges[k].start else address;
    var announcing := ReachesAnnouncing(ranges, mem, address, size, a, k);
    s := ReachesEnd(ranges, announcing, Changed(mem, a), address, size, a, k, FirstAfter(ranges, address));
    ChangedShows(mem, ranges[k], a);
  }

  /** The statuses can be trusted in every state of every interleaving of any threads if and only if
      every write is announced to the ranges it hits. */
  lemma HonestIff(ranges: seq<Range>)
    requires ValidRanges(ranges) && forall k | 0 <= k < |ranges| :: exists mem :: Matches(ranges[k], mem)
    ensures (forall s, k | 0 <= k < |ranges| && Reaches(ranges, s) :: !Dishonest(ranges, s, k)) <==> Covers(ranges)
  {
    hide Reaches, Dishonest, Matches, FirstAfter, Visits;
    if Covers(ranges) {
      forall s, k | 0 <= k < |ranges| && Reaches(ranges, s) ensures !Dishonest(ranges, s, k) {
        HonestState(ranges, s, k);
      }
    } else {
      var address: nat, size: nat, k: nat :| address < ADDRESS_LIMIT && k < |ranges|
        && Hits(address, size, ranges[k]) && !Visits(ranges, address, size, k);
      var mem :| Matches(ranges[k], mem);
      var s := MissedWriteIsDishonest(ranges, mem, address, size, k);
    }
  }

  lemma HonestState(ranges: seq<Range>, s: State, k: nat)
    requires ValidRanges(ranges) && Covers(ranges) && Reaches(ranges, s) && k < |ranges|
    ensures !Dishonest(ranges, s, k)
  {
    hide Reset, Next, Covers;
    var run :| Run(ranges, run) && run[|run| - 1] == s;
    ValidIsHonest(ranges, run, k);
  }

  // Two tables

  /** Where sections descend, a write to the upper range is announced to none. */
  lemma DescendingIsNotTold(ranges: seq<Range>)
    requires Extents(ranges) == Partition.DescendingRanges()
    ensures FirstAfter(ranges, 0x8000_4000) == |ranges| && Hits(0x8000_4000, 4, ranges[0]) && !Covers(ranges)
  {
  }

  /** A module of sections loaded twice is emitted, and a write to the lower one is announced to its
      first copy only. */
  lemma RepeatedIsNotTold(ranges: seq<Range>)
    requires Extents(ranges) == NativeRanges.RepeatedRanges()
    ensures NativeRanges.Accepted(Extents(ranges), Extents(ranges))
    ensures Hits(0x8000_3000, 4, ranges[2]) && !Visits(ranges, 0x8000_3000, 4, 2) && !Covers(ranges)
  {
    NativeRanges.RepeatedIsAccepted();
  }
}
