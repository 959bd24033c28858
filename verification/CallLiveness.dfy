/** The graph of recorded successors and the liveness analysis over it
    (src/backend/llvm/call_liveness.cpp:12-40, 103-149), proved exact against paths. */
module CallLiveness {

  type Slots = set<nat>

  /** State slots fit in the mask words. */
  const MASK_BITS: nat := 192

  predicate IsSlot(s: nat) { s < MASK_BITS }

  function AllSlots(): Slots { set s: nat | s < MASK_BITS && IsSlot(s) }

  /** Successor lists and the state each block reads before writing, writes, and has written
      after its call. */
  datatype Graph = Graph(succs: seq<seq<nat>>, uses: seq<Slots>, defs: seq<Slots>, post: seq<Slots>) {
    function Count(): nat { |succs| }

    ghost predicate Valid() {
      && |uses| == |defs| == |post| == Count()
      && (forall b, k | 0 <= b < Count() && 0 <= k < |succs[b]| :: succs[b][k] < Count())
      && (forall b | 0 <= b < Count() :: uses[b] <= AllSlots() && defs[b] <= AllSlots() && post[b] <= AllSlots())
    }

    predicate Edge(b: nat, t: nat) { b < Count() && t in succs[b] }

    /** A recorded path. */
    predicate Path(p: seq<nat>) {
      p != [] && (forall k | 0 <= k < |p| :: p[k] < Count()) && forall k | 0 < k < |p| :: Edge(p[k - 1], p[k])
    }
  }

  function Union(sets: seq<Slots>, members: seq<nat>): Slots
    requires forall k | 0 <= k < |members| :: members[k] < |sets|
  {
    if members == [] then {} else Union(sets, members[..|members| - 1]) + sets[members[|members| - 1]]
  }

  lemma {:induction false} UnionIs(sets: seq<Slots>, members: seq<nat>, s: nat)
    requires forall k | 0 <= k < |members| :: members[k] < |sets|
    ensures s in Union(sets, members) <==> exists m :: m in members && s in sets[m]
  {
    if members != [] {
      var last := |members| - 1;
      UnionIs(sets, members[..last], s);
      assert members == members[..last] + [members[last]];
    }
  }

  lemma {:induction false} UnionGrows(sets: seq<Slots>, sets': seq<Slots>, members: seq<nat>)
    requires |sets| == |sets'| && forall k | 0 <= k < |members| :: members[k] < |sets|
    requires forall b | 0 <= b < |sets| :: sets[b] <= sets'[b]
    ensures Union(sets, members) <= Union(sets', members)
  {
    if members != [] { UnionGrows(sets, sets', members[..|members| - 1]); }
  }

  /** Slots the sets may still gain. */
  function Room(sets: seq<Slots>): nat {
    if sets == [] then 0 else Room(sets[..|sets| - 1]) + |AllSlots() - sets[|sets| - 1]|
  }

  lemma {:induction false} RoomUpdate(sets: seq<Slots>, b: nat, x: Slots)
    requires b < |sets| && sets[b] <= x <= AllSlots()
    ensures Room(sets[b := x]) <= Room(sets)
    ensures x != sets[b] ==> Room(sets[b := x]) < Room(sets)
  {
    hide AllSlots;
    var last := |sets| - 1;
    var all := AllSlots();
    if b == last {
      assert sets[b := x][..last] == sets[..last];
      SmallerComplement(all, sets[b], x);
    } else {
      assert sets[b := x][..last] == sets[..last][b := x];
      RoomUpdate(sets[..last], b, x);
    }
  }

  lemma SmallerComplement(all: Slots, x: Slots, y: Slots)
    requires x <= y <= all
    ensures |all - y| <= |all - x| && (x != y ==> |all - y| < |all - x|)
  {
    assert all - x == (all - y) + (y - x);
    assert (all - y) !! (y - x);
    if x != y { assert exists s :: s in y - x; }
  }

  // Liveness

  /** No block of the path but the last writes the slot; the last reads it first, or leaves the
      function with it among the outputs. */
  ghost predicate LiveAlong(g: Graph, outputs: Slots, p: seq<nat>, s: nat)
    requires g.Valid() && g.Path(p)
  {
    var last := p[|p| - 1];
    && (forall k | 0 <= k < |p| - 1 :: s !in g.defs[p[k]])
    && (s in g.uses[last] || (g.succs[last] == [] && s in outputs && s !in g.defs[last]))
  }

  ghost predicate Live(g: Graph, outputs: Slots, b: nat, s: nat)
    requires g.Valid()
  {
    exists p :: g.Path(p) && p[0] == b && LiveAlong(g, outputs, p, s)
  }

  function Outgoing(g: Graph, outputs: Slots, liveIn: seq<Slots>, b: nat): Slots
    requires g.Valid() && |liveIn| == g.Count() && b < g.Count()
  {
    if g.succs[b] == [] then outputs else Union(liveIn, g.succs[b])
  }

  function Incoming(g: Graph, b: nat, outgoing: Slots): Slots
    requires g.Valid() && b < g.Count()
  {
    g.uses[b] + (outgoing - g.defs[b])
  }

  /** The masks only contain live slots and never exceed what the equations allow. */
  ghost predicate LiveInv(g: Graph, outputs: Slots, liveIn: seq<Slots>, liveOut: seq<Slots>)
    requires g.Valid()
  {
    && |liveIn| == |liveOut| == g.Count()
    && (forall b | 0 <= b < g.Count() :: liveOut[b] <= Outgoing(g, outputs, liveIn, b) <= AllSlots())
    && (forall b | 0 <= b < g.Count() ::
          liveIn[b] <= Incoming(g, b, Outgoing(g, outputs, liveIn, b)) && liveIn[b] <= AllSlots())
    && (forall b, s | 0 <= b < g.Count() && s in liveIn[b] :: Live(g, outputs, b, s))
  }

  ghost predicate LiveSolved(g: Graph, outputs: Slots, liveIn: seq<Slots>, liveOut: seq<Slots>, b: nat)
    requires g.Valid() && |liveIn| == |liveOut| == g.Count() && b < g.Count()
  {
    liveOut[b] == Outgoing(g, outputs, liveIn, b) && liveIn[b] == Incoming(g, b, liveOut[b])
  }

  lemma LiveExtends(g: Graph, outputs: Slots, b: nat, t: nat, s: nat)
    requires g.Valid() && g.Edge(b, t) && t < g.Count() && Live(g, outputs, t, s) && s !in g.defs[b]
    ensures Live(g, outputs, b, s)
  {
    var p :| g.Path(p) && p[0] == t && LiveAlong(g, outputs, p, s);
    var q := [b] + p;
    assert forall k | 0 < k < |q| :: q[k] == p[k - 1];
    assert g.Path(q) && LiveAlong(g, outputs, q, s);
  }

  lemma LiveHere(g: Graph, outputs: Slots, b: nat, s: nat)
    requires g.Valid() && b < g.Count()
    requires s in g.uses[b] || (g.succs[b] == [] && s in outputs && s !in g.defs[b])
    ensures Live(g, outputs, b, s)
  {
    assert g.Path([b]) && LiveAlong(g, outputs, [b], s);
  }

  lemma IncomingIsLive(g: Graph, outputs: Slots, liveIn: seq<Slots>, b: nat, s: nat)
    requires g.Valid() && |liveIn| == g.Count() && b < g.Count()
    requires forall t, x | 0 <= t < g.Count() && x in liveIn[t] :: Live(g, outputs, t, x)
    requires s in Incoming(g, b, Outgoing(g, outputs, liveIn, b))
    ensures Live(g, outputs, b, s)
  {
    hide Live;
    if s in g.uses[b] || g.succs[b] == [] {
      LiveHere(g, outputs, b, s);
    } else {
      UnionIs(liveIn, g.succs[b], s);
      var t :| t in g.succs[b] && s in liveIn[t];
      LiveExtends(g, outputs, b, t, s);
    }
  }

  /** Updating one block keeps the masks below the equations and only adds slots. */
  lemma LiveUpdate(g: Graph, outputs: Slots, liveIn: seq<Slots>, liveOut: seq<Slots>, b: nat)
    requires g.Valid() && outputs <= AllSlots() && LiveInv(g, outputs, liveIn, liveOut) && b < g.Count()
    ensures var outgoing := Outgoing(g, outputs, liveIn, b); var incoming := Incoming(g, b, outgoing);
      liveIn[b] <= incoming <= AllSlots() && liveOut[b] <= outgoing <= AllSlots()
      && LiveInv(g, outputs, liveIn[b := incoming], liveOut[b := outgoing])
  {
    hide Live, AllSlots;
    var outgoing := Outgoing(g, outputs, liveIn, b);
    var incoming := Incoming(g, b, outgoing);
    var liveIn', liveOut' := liveIn[b := incoming], liveOut[b := outgoing];
    forall c | 0 <= c < g.Count()
      ensures Outgoing(g, outputs, liveIn, c) <= Outgoing(g, outputs, liveIn', c) <= AllSlots()
    {
      UnionGrows(liveIn, liveIn', g.succs[c]);
      UnionInside(liveIn', g.succs[c]);
    }
    forall c, s | 0 <= c < g.Count() && s in liveIn'[c] ensures Live(g, outputs, c, s) {
      if c == b { IncomingIsLive(g, outputs, liveIn, b, s); }
    }
  }

  lemma {:induction false} UnionInside(sets: seq<Slots>, members: seq<nat>)
    requires forall k | 0 <= k < |members| :: members[k] < |sets|
    requires forall b | 0 <= b < |sets| :: sets[b] <= AllSlots()
    ensures Union(sets, members) <= AllSlots()
  {
    if members != [] { UnionInside(sets, members[..|members| - 1]); }
  }

  method SolveLiveness(g: Graph, outputs: Slots, liveIn: array<Slots>, liveOut: array<Slots>)
    requires g.Valid() && outputs <= AllSlots()
    requires liveIn.Length == liveOut.Length == g.Count() && liveIn != liveOut
    requires forall b | 0 <= b < g.Count() :: liveIn[b] == {} && liveOut[b] == {}
    modifies liveIn, liveOut
    ensures LiveInv(g, outputs, liveIn[..], liveOut[..])
    ensures forall b | 0 <= b < g.Count() :: LiveSolved(g, outputs, liveIn[..], liveOut[..], b)
  {
    hide Live, AllSlots, LiveInv, LiveSolved, Room, Graph.Valid;
    NothingLive(g, outputs, liveIn[..], liveOut[..]);
    var changed := true;
    while changed
      invariant LiveInv(g, outputs, liveIn[..], liveOut[..])
      invariant !changed ==> forall b | 0 <= b < g.Count() :: LiveSolved(g, outputs, liveIn[..], liveOut[..], b)
      decreases Room(liveIn[..]) + Room(liveOut[..]), changed
    {
      changed := false;
      ghost var room := Room(liveIn[..]) + Room(liveOut[..]);
      var position: nat := g.Count();
      while position != 0
        invariant position <= g.Count() && LiveInv(g, outputs, liveIn[..], liveOut[..])
        invariant Room(liveIn[..]) + Room(liveOut[..]) <= room
        invariant changed ==> Room(liveIn[..]) + Room(liveOut[..]) < room
        invariant !changed
          ==> forall b | position <= b < g.Count() :: LiveSolved(g, outputs, liveIn[..], liveOut[..], b)
      {
        position := position - 1;
        var blockChanged := UpdateLive(g, outputs, liveIn, liveOut, position);
        changed := changed || blockChanged;
      }
    }
  }

  /** One visit of the backward loop. */
  method UpdateLive(g: Graph, outputs: Slots, liveIn: array<Slots>, liveOut: array<Slots>, block: nat)
    returns (changed: bool)
    requires g.Valid() && outputs <= AllSlots() && block < g.Count()
    requires liveIn.Length == liveOut.Length == g.Count() && liveIn != liveOut
    requires LiveInv(g, outputs, liveIn[..], liveOut[..])
    modifies liveIn, liveOut
    ensures LiveInv(g, outputs, liveIn[..], liveOut[..])
    ensures !changed ==> liveIn[..] == old(liveIn[..]) && liveOut[..] == old(liveOut[..])
    ensures !changed ==> LiveSolved(g, outputs, liveIn[..], liveOut[..], block)
    ensures changed ==> Room(liveIn[..]) + Room(liveOut[..]) < old(Room(liveIn[..]) + Room(liveOut[..]))
  {
    hide Live, AllSlots, Room, LiveInv;
    LiveShape(g, outputs, liveIn[..], liveOut[..]);
    var outgoing: Slots := outputs;
    if g.succs[block] != [] {
      outgoing := {};
      for k := 0 to |g.succs[block]|
        invariant outgoing == Union(liveIn[..], g.succs[block][..k])
      {
        assert g.succs[block][..k + 1][..k] == g.succs[block][..k];
        outgoing := outgoing + liveIn[g.succs[block][k]];
      }
      assert g.succs[block][..|g.succs[block]|] == g.succs[block];
    }
    var incoming := g.uses[block] + (outgoing - g.defs[block]);
    changed := incoming != liveIn[block] || outgoing != liveOut[block];
    LiveUpdate(g, outputs, liveIn[..], liveOut[..], block);
    if changed {
      ghost var before, beforeOut := liveIn[..], liveOut[..];
      RoomUpdate(before, block, incoming);
      RoomUpdate(beforeOut, block, outgoing);
      liveIn[block] := incoming;
      liveOut[block] := outgoing;
      assert liveIn[..] == before[block := incoming] && liveOut[..] == beforeOut[block := outgoing];
    }
  }

  lemma LiveShape(g: Graph, outputs: Slots, liveIn: seq<Slots>, liveOut: seq<Slots>)
    requires g.Valid() && LiveInv(g, outputs, liveIn, liveOut)
    ensures |liveIn| == |liveOut| == g.Count()
    ensures forall b | 0 <= b < g.Count() :: liveIn[b] <= AllSlots() && liveOut[b] <= AllSlots()
  {
  }

  lemma NothingLive(g: Graph, outputs: Slots, liveIn: seq<Slots>, liveOut: seq<Slots>)
    requires g.Valid() && outputs <= AllSlots() && |liveIn| == |liveOut| == g.Count()
    requires forall b | 0 <= b < g.Count() :: liveIn[b] == {} && liveOut[b] == {}
    ensures LiveInv(g, outputs, liveIn, liveOut)
  {
    forall b | 0 <= b < g.Count() ensures Union(liveIn, g.succs[b]) <= AllSlots() { UnionInside(liveIn, g.succs[b]); }
  }

  /** The solution contains every slot some recorded path makes live. */
  lemma {:induction false} LivePathIsFound(g: Graph, outputs: Slots, liveIn: seq<Slots>, liveOut: seq<Slots>,
          p: seq<nat>, s: nat)
    requires g.Valid() && |liveIn| == |liveOut| == g.Count()
    requires forall b | 0 <= b < g.Count() :: LiveSolved(g, outputs, liveIn, liveOut, b)
    requires g.Path(p) && LiveAlong(g, outputs, p, s)
    ensures s in liveIn[p[0]]
    decreases |p|
  {
    assert LiveSolved(g, outputs, liveIn, liveOut, p[0]);
    if |p| > 1 {
      var rest := p[1..];
      assert forall k | 0 <= k < |rest| :: rest[k] == p[k + 1];
      assert g.Edge(p[0], p[1]);
      LivePathIsFound(g, outputs, liveIn, liveOut, rest, s);
      UnionIs(liveIn, g.succs[p[0]], s);
    }
  }

  /** Liveness is exact: a slot is in liveIn[b] if and only if some recorded path from b reaches
      a use of it, or an exit with it among the outputs, before any definition. */
  lemma LivenessIsExact(g: Graph, outputs: Slots, liveIn: seq<Slots>, liveOut: seq<Slots>, b: nat, s: nat)
    requires g.Valid() && LiveInv(g, outputs, liveIn, liveOut) && b < g.Count()
    requires forall c | 0 <= c < g.Count() :: LiveSolved(g, outputs, liveIn, liveOut, c)
    ensures s in liveIn[b] <==> Live(g, outputs, b, s)
  {
    if Live(g, outputs, b, s) {
      var p :| g.Path(p) && p[0] == b && LiveAlong(g, outputs, p, s);
      LivePathIsFound(g, outputs, liveIn, liveOut, p, s);
    }
  }
}
