/** The may-dirty analysis (src/backend/llvm/call_liveness.cpp:63-90, 175-198), proved exact
    against recorded paths and above the must-define analysis. */
module MayDirty {
  import opened CallLiveness
  import opened MustDefine

  /** An earlier block of the path wrote the slot, itself or after its call. */
  ghost predicate DirtiedBefore(g: Graph, p: seq<nat>, s: nat)
    requires g.Valid() && g.Path(p)
  {
    exists k :: 0 <= k < |p| - 1 && s in g.defs[p[k]] + g.post[p[k]]
  }

  ghost predicate DirtyOnEntry(g: Graph, b: nat, s: nat)
    requires g.Valid()
  {
    exists p :: g.Path(p) && p[|p| - 1] == b && DirtiedBefore(g, p, s)
  }

  /** A path ends at `b` on which the slot was written in `b`, or in an earlier block. */
  ghost predicate MayBeDirty(g: Graph, b: nat, s: nat)
    requires g.Valid()
  {
    exists p :: g.Path(p) && p[|p| - 1] == b && (s in g.defs[b] || DirtiedBefore(g, p, s))
  }

  function Leaving(g: Graph, b: nat, incoming: Slots): Slots
    requires g.Valid() && b < g.Count()
  {
    incoming + g.defs[b] + g.post[b]
  }

  /** The masks never exceed what the equations allow. */
  ghost predicate DirtyBelow(g: Graph, preds: seq<seq<nat>>, dirtyIn: seq<Slots>, out: seq<Slots>)
    requires g.Valid() && Inverts(g, preds)
  {
    && |dirtyIn| == |out| == g.Count()
    && (forall b | 0 <= b < g.Count() :: dirtyIn[b] <= Union(out, preds[b]) && dirtyIn[b] <= AllSlots())
    && (forall b | 0 <= b < g.Count() :: out[b] <= Leaving(g, b, Union(out, preds[b])) && out[b] <= AllSlots())
  }

  /** The masks only contain slots some path dirties. */
  ghost predicate DirtyReached(g: Graph, dirtyIn: seq<Slots>, out: seq<Slots>)
    requires g.Valid()
  {
    && |dirtyIn| == |out| == g.Count()
    && (forall b, s | 0 <= b < g.Count() && s in dirtyIn[b] :: DirtyOnEntry(g, b, s))
    && (forall b, s | 0 <= b < g.Count() && s in out[b] :: DirtyOnEntry(g, b, s) || s in g.defs[b] + g.post[b])
  }

  ghost predicate DirtyInv(g: Graph, preds: seq<seq<nat>>, dirtyIn: seq<Slots>, out: seq<Slots>)
    requires g.Valid() && Inverts(g, preds)
  {
    DirtyBelow(g, preds, dirtyIn, out) && DirtyReached(g, dirtyIn, out)
  }

  ghost predicate DirtySolved(g: Graph, preds: seq<seq<nat>>, dirtyIn: seq<Slots>, out: seq<Slots>, b: nat)
    requires g.Valid() && Inverts(g, preds) && |dirtyIn| == |out| == g.Count() && b < g.Count()
  {
    dirtyIn[b] == Union(out, preds[b]) && out[b] == Leaving(g, b, dirtyIn[b])
  }

  lemma DirtyExtends(g: Graph, q: nat, b: nat, s: nat)
    requires g.Valid() && g.Edge(q, b) && q < g.Count() && b < g.Count()
    requires DirtyOnEntry(g, q, s) || s in g.defs[q] + g.post[q]
    ensures DirtyOnEntry(g, b, s)
  {
    if s in g.defs[q] + g.post[q] {
      var p := [q, b];
      assert g.Path(p) && p[0] == q && DirtiedBefore(g, p, s);
    } else {
      var p :| g.Path(p) && p[|p| - 1] == q && DirtiedBefore(g, p, s);
      var k :| 0 <= k < |p| - 1 && s in g.defs[p[k]] + g.post[p[k]];
      var longer := p + [b];
      assert g.Path(longer) && longer[k] == p[k] && DirtiedBefore(g, longer, s);
    }
  }

  lemma EntersDirty(g: Graph, preds: seq<seq<nat>>, dirtyIn: seq<Slots>, out: seq<Slots>, b: nat, s: nat)
    requires g.Valid() && Inverts(g, preds) && DirtyInv(g, preds, dirtyIn, out) && b < g.Count()
    requires s in Union(out, preds[b])
    ensures DirtyOnEntry(g, b, s)
  {
    hide DirtyOnEntry;
    UnionIs(out, preds[b], s);
    var q :| q in preds[b] && s in out[q];
    assert g.Edge(q, b);
    DirtyExtends(g, q, b, s);
  }

  lemma DirtyUpdate(g: Graph, preds: seq<seq<nat>>, dirtyIn: seq<Slots>, out: seq<Slots>, b: nat)
    requires g.Valid() && Inverts(g, preds) && DirtyInv(g, preds, dirtyIn, out) && b < g.Count()
    ensures var incoming := Union(out, preds[b]); var outgoing := Leaving(g, b, incoming);
      dirtyIn[b] <= incoming <= AllSlots() && out[b] <= outgoing <= AllSlots()
      && DirtyInv(g, preds, dirtyIn[b := incoming], out[b := outgoing])
  {
    hide DirtyOnEntry, AllSlots, DirtyReached;
    var incoming := Union(out, preds[b]);
    UnionInside(out, preds[b]);
    StaysBelow(g, preds, dirtyIn, out, b, incoming, Leaving(g, b, incoming));
    StaysReached(g, preds, dirtyIn, out, b, incoming, Leaving(g, b, incoming));
  }

  lemma StaysBelow(g: Graph, preds: seq<seq<nat>>, dirtyIn: seq<Slots>, out: seq<Slots>, b: nat, incoming: Slots,
          outgoing: Slots)
    requires g.Valid() && Inverts(g, preds) && DirtyBelow(g, preds, dirtyIn, out) && b < g.Count()
    requires incoming == Union(out, preds[b]) <= AllSlots() && outgoing == Leaving(g, b, incoming) <= AllSlots()
    ensures DirtyBelow(g, preds, dirtyIn[b := incoming], out[b := outgoing])
  {
    hide AllSlots;
    var dirtyIn', out' := dirtyIn[b := incoming], out[b := outgoing];
    forall c | 0 <= c < g.Count()
      ensures dirtyIn'[c] <= Union(out', preds[c]) && out'[c] <= Leaving(g, c, Union(out', preds[c]))
    {
      UnionGrows(out, out', preds[c]);
    }
  }

  lemma StaysReached(g: Graph, preds: seq<seq<nat>>, dirtyIn: seq<Slots>, out: seq<Slots>, b: nat, incoming: Slots,
          outgoing: Slots)
    requires g.Valid() && Inverts(g, preds) && DirtyInv(g, preds, dirtyIn, out) && b < g.Count()
    requires incoming == Union(out, preds[b]) && outgoing == Leaving(g, b, incoming)
    ensures DirtyReached(g, dirtyIn[b := incoming], out[b := outgoing])
  {
    hide AllSlots, DirtyOnEntry;
    forall s | s in incoming ensures DirtyOnEntry(g, b, s) {
      EntersDirty(g, preds, dirtyIn, out, b, s);
    }
  }

  lemma DirtyShape(g: Graph, preds: seq<seq<nat>>, dirtyIn: seq<Slots>, out: seq<Slots>)
    requires g.Valid() && Inverts(g, preds) && DirtyInv(g, preds, dirtyIn, out)
    ensures |dirtyIn| == |out| == g.Count()
    ensures forall b | 0 <= b < g.Count() :: dirtyIn[b] <= AllSlots() && out[b] <= AllSlots()
  {
  }

  lemma NothingDirty(g: Graph, preds: seq<seq<nat>>, dirtyIn: seq<Slots>, out: seq<Slots>)
    requires g.Valid() && Inverts(g, preds) && |dirtyIn| == |out| == g.Count()
    requires forall b | 0 <= b < g.Count() :: dirtyIn[b] == {} && out[b] == {}
    ensures DirtyInv(g, preds, dirtyIn, out)
  {
    hide DirtyOnEntry;
  }

  method SolveDirty(g: Graph, preds: seq<seq<nat>>, dirtyIn: array<Slots>, out: array<Slots>)
    requires g.Valid() && Inverts(g, preds)
    requires dirtyIn.Length == out.Length == g.Count() && dirtyIn != out
    requires forall b | 0 <= b < g.Count() :: dirtyIn[b] == {} && out[b] == {}
    modifies dirtyIn, out
    ensures DirtyInv(g, preds, dirtyIn[..], out[..])
    ensures forall b | 0 <= b < g.Count() :: DirtySolved(g, preds, dirtyIn[..], out[..], b)
  {
    hide AllSlots, DirtyInv, DirtySolved, Room, Graph.Valid, Inverts;
    NothingDirty(g, preds, dirtyIn[..], out[..]);
    var changed := true;
    while changed
      invariant DirtyInv(g, preds, dirtyIn[..], out[..])
      invariant !changed ==> forall b | 0 <= b < g.Count() :: DirtySolved(g, preds, dirtyIn[..], out[..], b)
      decreases Room(dirtyIn[..]) + Room(out[..]), changed
    {
      changed := false;
      ghost var room := Room(dirtyIn[..]) + Room(out[..]);
      for b := 0 to g.Count()
        invariant DirtyInv(g, preds, dirtyIn[..], out[..])
        invariant Room(dirtyIn[..]) + Room(out[..]) <= room
        invariant changed ==> Room(dirtyIn[..]) + Room(out[..]) < room
        invariant !changed ==> forall c | 0 <= c < b :: DirtySolved(g, preds, dirtyIn[..], out[..], c)
      {
        var blockChanged := UpdateDirty(g, preds, dirtyIn, out, b);
        changed := changed || blockChanged;
      }
    }
  }

  /** One visit of the forward loop. */
  method UpdateDirty(g: Graph, preds: seq<seq<nat>>, dirtyIn: array<Slots>, out: array<Slots>, block: nat)
    returns (changed: bool)
    requires g.Valid() && Inverts(g, preds) && block < g.Count()
    requires dirtyIn.Length == out.Length == g.Count() && dirtyIn != out
    requires DirtyInv(g, preds, dirtyIn[..], out[..])
    modifies dirtyIn, out
    ensures DirtyInv(g, preds, dirtyIn[..], out[..])
    ensures !changed ==> dirtyIn[..] == old(dirtyIn[..]) && out[..] == old(out[..])
    ensures !changed ==> DirtySolved(g, preds, dirtyIn[..], out[..], block)
    ensures changed ==> Room(dirtyIn[..]) + Room(out[..]) < old(Room(dirtyIn[..]) + Room(out[..]))
  {
    hide AllSlots, Room, DirtyInv;
    DirtyShape(g, preds, dirtyIn[..], out[..]);
    var incoming: Slots := {};
    for k := 0 to |preds[block]|
      invariant incoming == Union(out[..], preds[block][..k])
    {
      assert preds[block][..k + 1][..k] == preds[block][..k];
      incoming := incoming + out[preds[block][k]];
    }
    assert preds[block][..|preds[block]|] == preds[block];
    var outgoing := incoming + g.defs[block] + g.post[block];
    changed := incoming != dirtyIn[block] || outgoing != out[block];
    DirtyUpdate(g, preds, dirtyIn[..], out[..], block);
    if changed {
      ghost var before, beforeOut := dirtyIn[..], out[..];
      RoomUpdate(before, block, incoming);
      RoomUpdate(beforeOut, block, outgoing);
      dirtyIn[block] := incoming;
      out[block] := outgoing;
      assert dirtyIn[..] == before[block := incoming] && out[..] == beforeOut[block := outgoing];
    }
  }

  /** A slot dirtied earlier on a path is found at its end. */
  lemma {:induction false} DirtyPathIsFound(g: Graph, preds: seq<seq<nat>>, dirtyIn: seq<Slots>, out: seq<Slots>,
          p: seq<nat>, s: nat)
    requires g.Valid() && Inverts(g, preds) && |dirtyIn| == |out| == g.Count()
    requires forall b | 0 <= b < g.Count() :: DirtySolved(g, preds, dirtyIn, out, b)
    requires g.Path(p) && DirtiedBefore(g, p, s)
    ensures s in dirtyIn[p[|p| - 1]]
    decreases |p|
  {
    var q, b := p[|p| - 2], p[|p| - 1];
    assert g.Edge(q, b) && q in preds[b];
    if s !in g.defs[q] + g.post[q] {
      var shorter := p[..|p| - 1];
      assert g.Path(shorter) && DirtiedBefore(g, shorter, s);
      DirtyPathIsFound(g, preds, dirtyIn, out, shorter, s);
    }
    assert DirtySolved(g, preds, dirtyIn, out, q) && DirtySolved(g, preds, dirtyIn, out, b);
    UnionIs(out, preds[b], s);
  }

  /** May-dirty is exact: a slot is in mayDirtyBefore[b] if and only if, on some recorded path
      ending at b, b writes it or an earlier block writes it or has it written after its call. */
  lemma DirtyIsExact(g: Graph, preds: seq<seq<nat>>, dirtyIn: seq<Slots>, out: seq<Slots>, b: nat, s: nat)
    requires g.Valid() && Inverts(g, preds) && DirtyInv(g, preds, dirtyIn, out) && b < g.Count()
    requires forall c | 0 <= c < g.Count() :: DirtySolved(g, preds, dirtyIn, out, c)
    ensures s in dirtyIn[b] + g.defs[b] <==> MayBeDirty(g, b, s)
  {
    hide AllSlots;
    if s in g.defs[b] {
      assert g.Path([b]);
    }
    if MayBeDirty(g, b, s) && s !in g.defs[b] {
      var p :| g.Path(p) && p[|p| - 1] == b && DirtiedBefore(g, p, s);
      DirtyPathIsFound(g, preds, dirtyIn, out, p, s);
    }
  }

  /** What is written for certain before a call may be dirty before it, in every block. */
  lemma {:induction false} CertainIsDirty(g: Graph, preds: seq<seq<nat>>, certainIn: seq<Slots>, certainOut: seq<Slots>,
          since: seq<map<nat, nat>>, now: nat, dirtyIn: seq<Slots>, out: seq<Slots>, b: nat, s: nat)
    requires g.Valid() && Inverts(g, preds) && CertainInv(g, preds, certainIn, certainOut, since, now)
    requires |dirtyIn| == |out| == g.Count()
    requires forall c | 0 <= c < g.Count() :: DirtySolved(g, preds, dirtyIn, out, c)
    requires b < g.Count() && s in certainOut[b]
    ensures s in dirtyIn[b] + g.defs[b]
    decreases since[b][s]
  {
    hide AllSlots;
    assert Justified(g, preds, since, now, b, s);
    if s !in g.defs[b] {
      var q := preds[b][0];
      assert q in preds[b];
      CertainIsDirty(g, preds, certainIn, certainOut, since, now, dirtyIn, out, q, s);
      assert DirtySolved(g, preds, dirtyIn, out, q) && DirtySolved(g, preds, dirtyIn, out, b);
      UnionIs(out, preds[b], s);
    }
  }
}
