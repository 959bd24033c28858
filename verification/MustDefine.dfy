/** The must-define analysis (src/backend/llvm/call_liveness.cpp:151-173 and the same loop in
    src/backend/llvm/abi_liveness.cpp:157-178), proved exact against backward walks. */
module MustDefine {
  import opened CallLiveness
  import opened Wrappers

  /** `predecessors`, built by appending every block to the lists of its successors. */
  ghost predicate Inverts(g: Graph, preds: seq<seq<nat>>) {
    |preds| == g.Count()
    && (forall b, k | 0 <= b < g.Count() && 0 <= k < |preds[b]| :: preds[b][k] < g.Count())
    && forall b, p: nat | 0 <= b < g.Count() :: p in preds[b] <==> g.Edge(p, b)
  }

  method Predecessors(g: Graph) returns (preds: seq<seq<nat>>)
    requires g.Valid()
    ensures Inverts(g, preds)
  {
    preds := seq(g.Count(), _ => []);
    for b := 0 to g.Count()
      invariant |preds| == g.Count()
      invariant forall t, p: nat | 0 <= t < g.Count() :: p in preds[t] <==> p < b && g.Edge(p, t)
    {
      preds := AppendTo(g, preds, b);
    }
    forall t, k | 0 <= t < g.Count() && 0 <= k < |preds[t]| ensures preds[t][k] < g.Count() {
      assert preds[t][k] in preds[t];
    }
  }

  method AppendTo(g: Graph, preds: seq<seq<nat>>, b: nat) returns (after: seq<seq<nat>>)
    requires g.Valid() && |preds| == g.Count() && b < g.Count()
    ensures |after| == g.Count()
    ensures forall t, p: nat | 0 <= t < g.Count() :: p in after[t] <==> (p in preds[t] || (p == b && t in g.succs[b]))
  {
    after := preds;
    for k := 0 to |g.succs[b]|
      invariant |after| == g.Count()
      invariant forall t, p: nat | 0 <= t < g.Count() ::
        p in after[t] <==> (p in preds[t] || (p == b && t in g.succs[b][..k]))
    {
      var target := g.succs[b][k];
      assert g.succs[b][..k + 1] == g.succs[b][..k] + [target];
      after := after[target := after[target] + [b]];
    }
    assert g.succs[b][..|g.succs[b]|] == g.succs[b];
  }

  function Intersection(sets: seq<Slots>, members: seq<nat>): Slots
    requires forall k | 0 <= k < |members| :: members[k] < |sets|
  {
    if members == [] then AllSlots() else Intersection(sets, members[..|members| - 1]) * sets[members[|members| - 1]]
  }

  lemma {:induction false} IntersectionIs(sets: seq<Slots>, members: seq<nat>, s: nat)
    requires forall k | 0 <= k < |members| :: members[k] < |sets|
    ensures s in Intersection(sets, members) <==> s in AllSlots() && forall m | m in members :: s in sets[m]
  {
    hide AllSlots;
    if members != [] {
      var last := |members| - 1;
      IntersectionIs(sets, members[..last], s);
      assert members == members[..last] + [members[last]];
    }
  }

  /** What a block is entered with for certain. */
  function Certain(g: Graph, preds: seq<seq<nat>>, out: seq<Slots>, b: nat): Slots
    requires Inverts(g, preds) && |out| == g.Count() && b < g.Count()
  {
    if b == 0 || preds[b] == [] then {} else Intersection(out, preds[b])
  }

  /** A backward walk from `p[0]` none of whose blocks writes the slot. */
  ghost predicate Unwritten(g: Graph, p: seq<nat>, s: nat)
    requires g.Valid()
  {
    p != [] && (forall k | 0 <= k < |p| :: p[k] < g.Count() && s !in g.defs[p[k]])
    && forall k | 0 < k < |p| :: g.Edge(p[k], p[k - 1])
  }

  /** The walk reaches where nothing is certain, or is long enough to go round a cycle. */
  ghost predicate Escapes(g: Graph, p: seq<nat>)
    requires p != []
  {
    p[|p| - 1] == 0 || (forall b | 0 <= b < g.Count() :: p[|p| - 1] !in g.succs[b]) || |p| > g.Count()
  }

  ghost predicate MayBeUnwritten(g: Graph, b: nat, s: nat)
    requires g.Valid()
  {
    exists p :: Unwritten(g, p, s) && p[0] == b && Escapes(g, p)
  }

  /** A certain slot of a block that does not write it was certain before in all predecessors. */
  ghost predicate Justified(g: Graph, preds: seq<seq<nat>>, since: seq<map<nat, nat>>, now: nat, b: nat, s: nat)
    requires g.Valid() && Inverts(g, preds) && |since| == g.Count() && b < g.Count() && s in since[b]
  {
    since[b][s] < now
    && (s in g.defs[b]
        || (b != 0 && preds[b] != [] && forall p | p in preds[b] :: s in since[p] && since[p][s] < since[b][s]))
  }

  ghost predicate CertainInv(g: Graph, preds: seq<seq<nat>>, certainIn: seq<Slots>, out: seq<Slots>,
          since: seq<map<nat, nat>>, now: nat)
    requires g.Valid() && Inverts(g, preds)
  {
    && |certainIn| == |out| == |since| == g.Count()
    && (forall b | 0 <= b < g.Count() :: certainIn[b] <= Certain(g, preds, out, b) && certainIn[b] <= AllSlots())
    && (forall b | 0 <= b < g.Count() :: out[b] <= Certain(g, preds, out, b) + g.defs[b] && out[b] <= AllSlots())
    && (forall b | 0 <= b < g.Count() :: since[b].Keys == out[b])
    && (forall b, s | 0 <= b < g.Count() && s in since[b] :: Justified(g, preds, since, now, b, s))
  }

  ghost predicate CertainSolved(g: Graph, preds: seq<seq<nat>>, certainIn: seq<Slots>, out: seq<Slots>, b: nat)
    requires g.Valid() && Inverts(g, preds) && |certainIn| == |out| == g.Count() && b < g.Count()
  {
    certainIn[b] == Certain(g, preds, out, b) && out[b] == certainIn[b] + g.defs[b]
  }

  lemma {:induction false} IntersectionGrows(sets: seq<Slots>, sets': seq<Slots>, members: seq<nat>)
    requires |sets| == |sets'| && forall k | 0 <= k < |members| :: members[k] < |sets|
    requires forall b | 0 <= b < |sets| :: sets[b] <= sets'[b]
    ensures Intersection(sets, members) <= Intersection(sets', members) <= AllSlots()
  {
    hide AllSlots;
    if members != [] { IntersectionGrows(sets, sets', members[..|members| - 1]); }
  }

  /** Stamps for the slots a visit adds. */
  ghost function Stamped(since: map<nat, nat>, out: Slots, now: nat): map<nat, nat> {
    map s | s in out :: if s in since then since[s] else now
  }

  lemma CertainUpdate(g: Graph, preds: seq<seq<nat>>, certainIn: seq<Slots>, out: seq<Slots>, since: seq<map<nat, nat>>,
          now: nat, b: nat)
    requires g.Valid() && Inverts(g, preds) && CertainInv(g, preds, certainIn, out, since, now) && b < g.Count()
    ensures var incoming := Certain(g, preds, out, b); var outgoing := incoming + g.defs[b];
      certainIn[b] <= incoming <= AllSlots() && out[b] <= outgoing <= AllSlots()
      && CertainInv(g, preds, certainIn[b := incoming], out[b := outgoing],
                    since[b := Stamped(since[b], outgoing, now)], now + 1)
  {
    hide AllSlots;
    var incoming := Certain(g, preds, out, b);
    var outgoing := incoming + g.defs[b];
    var out', since' := out[b := outgoing], since[b := Stamped(since[b], outgoing, now)];
    CertainInside(g, preds, out, b);
    forall c | 0 <= c < g.Count() ensures Certain(g, preds, out, c) <= Certain(g, preds, out', c) <= AllSlots() {
      CertainInside(g, preds, out', c);
      if c != 0 && preds[c] != [] { IntersectionGrows(out, out', preds[c]); }
    }
    forall c, s | 0 <= c < g.Count() && s in since'[c] ensures Justified(g, preds, since', now + 1, c, s) {
      StaysJustified(g, preds, certainIn, out, since, now, b, c, s);
    }
  }

  lemma StaysJustified(g: Graph, preds: seq<seq<nat>>, certainIn: seq<Slots>, out: seq<Slots>,
          since: seq<map<nat, nat>>, now: nat, b: nat, c: nat, s: nat)
    requires g.Valid() && Inverts(g, preds) && CertainInv(g, preds, certainIn, out, since, now)
    requires b < g.Count() && c < g.Count()
    requires s in since[b := Stamped(since[b], Certain(g, preds, out, b) + g.defs[b], now)][c]
    ensures Justified(g, preds, since[b := Stamped(since[b], Certain(g, preds, out, b) + g.defs[b], now)], now + 1, c,
      s)
  {
    hide AllSlots;
    var outgoing := Certain(g, preds, out, b) + g.defs[b];
    var since' := since[b := Stamped(since[b], outgoing, now)];
    assert out[b] <= outgoing;
    if s in since[c] {
      assert Justified(g, preds, since, now, c, s);
    } else if s !in g.defs[c] {
      IntersectionIs(out, preds[c], s);
      forall p | p in preds[c] ensures s in since'[p] && since'[p][s] < now {
        assert Justified(g, preds, since, now, p, s);
      }
    }
  }

  lemma CertainInside(g: Graph, preds: seq<seq<nat>>, out: seq<Slots>, b: nat)
    requires g.Valid() && Inverts(g, preds) && |out| == g.Count() && b < g.Count()
    requires forall c | 0 <= c < g.Count() :: out[c] <= AllSlots()
    ensures Certain(g, preds, out, b) <= AllSlots()
  {
    if b != 0 && preds[b] != [] { IntersectionGrows(out, out, preds[b]); }
  }

  method SolveCertain(g: Graph, preds: seq<seq<nat>>, certainIn: array<Slots>, out: array<Slots>)
    returns (ghost since: seq<map<nat, nat>>, ghost now: nat)
    requires g.Valid() && Inverts(g, preds)
    requires certainIn.Length == out.Length == g.Count() && certainIn != out
    requires forall b | 0 <= b < g.Count() :: certainIn[b] == {} && out[b] == {}
    modifies certainIn, out
    ensures CertainInv(g, preds, certainIn[..], out[..], since, now)
    ensures forall b | 0 <= b < g.Count() :: CertainSolved(g, preds, certainIn[..], out[..], b)
  {
    hide AllSlots, CertainInv, CertainSolved, Room, Graph.Valid, Inverts;
    since, now := seq(g.Count(), _ => map[]), 0;
    NothingCertain(g, preds, certainIn[..], out[..], since);
    var changed := true;
    while changed
      invariant CertainInv(g, preds, certainIn[..], out[..], since, now)
      invariant !changed ==> forall b | 0 <= b < g.Count() :: CertainSolved(g, preds, certainIn[..], out[..], b)
      decreases Room(certainIn[..]) + Room(out[..]), changed
    {
      changed := false;
      ghost var room := Room(certainIn[..]) + Room(out[..]);
      for b := 0 to g.Count()
        invariant CertainInv(g, preds, certainIn[..], out[..], since, now)
        invariant Room(certainIn[..]) + Room(out[..]) <= room
        invariant changed ==> Room(certainIn[..]) + Room(out[..]) < room
        invariant !changed ==> forall c | 0 <= c < b :: CertainSolved(g, preds, certainIn[..], out[..], c)
      {
        var blockChanged;
        blockChanged, since, now := UpdateCertain(g, preds, certainIn, out, b, since, now);
        changed := changed || blockChanged;
      }
    }
  }

  method UpdateCertain(g: Graph, preds: seq<seq<nat>>, certainIn: array<Slots>, out: array<Slots>, block: nat,
          ghost since: seq<map<nat, nat>>, ghost now: nat)
    returns (changed: bool, ghost since': seq<map<nat, nat>>, ghost now': nat)
    requires g.Valid() && Inverts(g, preds) && block < g.Count()
    requires certainIn.Length == out.Length == g.Count() && certainIn != out
    requires CertainInv(g, preds, certainIn[..], out[..], since, now)
    modifies certainIn, out
    ensures CertainInv(g, preds, certainIn[..], out[..], since', now')
    ensures !changed ==> certainIn[..] == old(certainIn[..]) && out[..] == old(out[..])
    ensures !changed ==> CertainSolved(g, preds, certainIn[..], out[..], block)
    ensures changed ==> Room(certainIn[..]) + Room(out[..]) < old(Room(certainIn[..]) + Room(out[..]))
  {
    hide AllSlots, Room, CertainInv;
    CertainShape(g, preds, certainIn[..], out[..], since, now);
    var incoming: Slots := {};
    if block != 0 && preds[block] != [] {
      incoming := AllSlots();
      for k := 0 to |preds[block]|
        invariant incoming == Intersection(out[..], preds[block][..k])
      {
        assert preds[block][..k + 1][..k] == preds[block][..k];
        incoming := incoming * out[preds[block][k]];
      }
      assert preds[block][..|preds[block]|] == preds[block];
    }
    var outgoing := incoming + g.defs[block];
    changed := incoming != certainIn[block] || outgoing != out[block];
    since', now' := since[block := Stamped(since[block], outgoing, now)], now + 1;
    CertainUpdate(g, preds, certainIn[..], out[..], since, now, block);
    ghost var before, beforeOut := certainIn[..], out[..];
    if changed {
      RoomUpdate(before, block, incoming);
      RoomUpdate(beforeOut, block, outgoing);
      certainIn[block] := incoming;
      out[block] := outgoing;
    }
    assert certainIn[..] == before[block := incoming] && out[..] == beforeOut[block := outgoing];
  }

  lemma CertainShape(g: Graph, preds: seq<seq<nat>>, certainIn: seq<Slots>, out: seq<Slots>, since: seq<map<nat, nat>>,
          now: nat)
    requires g.Valid() && Inverts(g, preds) && CertainInv(g, preds, certainIn, out, since, now)
    ensures |certainIn| == |out| == |since| == g.Count()
    ensures forall b | 0 <= b < g.Count() :: certainIn[b] <= AllSlots() && out[b] <= AllSlots()
  {
  }

  lemma NothingCertain(g: Graph, preds: seq<seq<nat>>, certainIn: seq<Slots>, out: seq<Slots>,
          since: seq<map<nat, nat>>)
    requires g.Valid() && Inverts(g, preds) && |certainIn| == |out| == |since| == g.Count()
    requires forall b | 0 <= b < g.Count() :: certainIn[b] == {} && out[b] == {} && since[b] == map[]
    ensures CertainInv(g, preds, certainIn, out, since, 0)
  {
  }

  lemma StampFalls(g: Graph, preds: seq<seq<nat>>, since: seq<map<nat, nat>>, now: nat, b: nat, q: nat, s: nat)
    requires g.Valid() && Inverts(g, preds) && |since| == g.Count() && b < g.Count() && q < g.Count()
    requires s in since[b] && s !in g.defs[b] && Justified(g, preds, since, now, b, s) && g.Edge(q, b)
    ensures s in since[q] && since[q][s] < since[b][s]
  {
    assert q in preds[b];
  }

  /** Along a backward walk that never writes a certain slot the stamps fall. */
  lemma {:induction false} StampsFall(g: Graph, preds: seq<seq<nat>>, since: seq<map<nat, nat>>, now: nat, p: seq<nat>,
          s: nat, i: nat, j: nat)
    requires g.Valid() && Inverts(g, preds) && |since| == g.Count() && Unwritten(g, p, s) && i <= j < |p|
    requires forall b, x | 0 <= b < g.Count() && x in since[b] :: Justified(g, preds, since, now, b, x)
    requires s in since[p[i]]
    ensures s in since[p[j]] && (i < j ==> since[p[j]][s] < since[p[i]][s])
    decreases j
  {
    hide Inverts, Graph.Valid, Justified;
    if i < j {
      StampsFall(g, preds, since, now, p, s, i, j - 1);
      StampFalls(g, preds, since, now, p[j - 1], p[j], s);
    }
  }

  /** A backward walk that never writes a certain slot visits each block once, and stays certain. */
  lemma WalkStaysCertain(g: Graph, preds: seq<seq<nat>>, since: seq<map<nat, nat>>, now: nat, p: seq<nat>, s: nat)
    requires g.Valid() && Inverts(g, preds) && |since| == g.Count() && Unwritten(g, p, s)
    requires forall b, x | 0 <= b < g.Count() && x in since[b] :: Justified(g, preds, since, now, b, x)
    requires s in since[p[0]]
    ensures s in since[p[|p| - 1]] && |p| <= g.Count()
  {
    hide Inverts, Graph.Valid, Justified;
    forall i, j | 0 <= i < j < |p| ensures p[i] != p[j] {
      StampsFall(g, preds, since, now, p, s, 0, i);
      StampsFall(g, preds, since, now, p, s, i, j);
    }
    DistinctBounded(p, g.Count());
    StampsFall(g, preds, since, now, p, s, 0, |p| - 1);
  }

  /** A certain slot is written on every backward walk before the walk can escape. */
  lemma CertainIsSound(g: Graph, preds: seq<seq<nat>>, certainIn: seq<Slots>, out: seq<Slots>,
          since: seq<map<nat, nat>>, now: nat, b: nat, s: nat)
    requires g.Valid() && Inverts(g, preds) && CertainInv(g, preds, certainIn, out, since, now)
    requires b < g.Count() && s in out[b]
    ensures !MayBeUnwritten(g, b, s)
  {
    hide AllSlots;
    forall p | Unwritten(g, p, s) && p[0] == b ensures !Escapes(g, p) {
      WalkStaysCertain(g, preds, since, now, p, s);
      HasPredecessor(g, preds, since, now, p[|p| - 1], s);
    }
  }

  lemma HasPredecessor(g: Graph, preds: seq<seq<nat>>, since: seq<map<nat, nat>>, now: nat, b: nat, s: nat)
    requires g.Valid() && Inverts(g, preds) && |since| == g.Count() && b < g.Count()
    requires s in since[b] && Justified(g, preds, since, now, b, s) && s !in g.defs[b]
    ensures b != 0 && exists q :: 0 <= q < g.Count() && b in g.succs[q]
  {
    var q := preds[b][0];
    assert q in preds[b] && g.Edge(q, b);
  }

  lemma {:induction false} UncertainWalk(g: Graph, preds: seq<seq<nat>>, certainIn: seq<Slots>, out: seq<Slots>, b: nat,
          s: nat, n: nat)
    returns (p: seq<nat>)
    requires g.Valid() && Inverts(g, preds) && |certainIn| == |out| == g.Count() && b < g.Count()
    requires forall c | 0 <= c < g.Count() :: CertainSolved(g, preds, certainIn, out, c)
    requires s in AllSlots() && s !in out[b]
    ensures Unwritten(g, p, s) && p[0] == b
    ensures p[|p| - 1] == 0 || preds[p[|p| - 1]] == [] || |p| == n + 1
    decreases n
  {
    hide AllSlots;
    assert CertainSolved(g, preds, certainIn, out, b);
    p := [b];
    if n > 0 && b != 0 && preds[b] != [] {
      IntersectionIs(out, preds[b], s);
      var q :| q in preds[b] && s !in out[q];
      assert g.Edge(q, b);
      var rest := UncertainWalk(g, preds, certainIn, out, q, s, n - 1);
      p := [b] + rest;
      assert forall k | 0 < k < |p| :: p[k] == rest[k - 1];
    }
  }

  lemma NoPredecessors(g: Graph, preds: seq<seq<nat>>, t: nat)
    requires g.Valid() && Inverts(g, preds) && t < g.Count()
    ensures preds[t] == [] ==> forall q | 0 <= q < g.Count() :: t !in g.succs[q]
  {
    forall q | 0 <= q < g.Count() && t in g.succs[q] ensures q in preds[t] { assert g.Edge(q, t); }
  }

  /** Must-define is exact for the least solution: a slot is in definedBefore[b] if and only if
      no backward walk from b that avoids every definition of it reaches the entry, reaches a
      block without predecessors, or goes round a cycle. */
  lemma CertainIsExact(g: Graph, preds: seq<seq<nat>>, certainIn: seq<Slots>, out: seq<Slots>,
          since: seq<map<nat, nat>>, now: nat, b: nat, s: nat)
    requires g.Valid() && Inverts(g, preds) && CertainInv(g, preds, certainIn, out, since, now)
    requires forall c | 0 <= c < g.Count() :: CertainSolved(g, preds, certainIn, out, c)
    requires b < g.Count() && s in AllSlots()
    ensures s in out[b] <==> !MayBeUnwritten(g, b, s)
  {
    hide AllSlots;
    if s in out[b] {
      CertainIsSound(g, preds, certainIn, out, since, now, b, s);
    } else {
      var p := UncertainWalk(g, preds, certainIn, out, b, s, g.Count());
      NoPredecessors(g, preds, p[|p| - 1]);
      assert Escapes(g, p);
    }
  }

  function Reversed(p: seq<nat>): (r: seq<nat>)
    ensures |r| == |p| && forall k | 0 <= k < |p| :: r[k] == p[|p| - 1 - k]
  {
    seq(|p|, k requires 0 <= k < |p| => p[|p| - 1 - k])
  }

  /** A slot in definedBefore[b] is written on every recorded path from block 0 through b. */
  lemma CertainOnEveryPath(g: Graph, preds: seq<seq<nat>>, certainIn: seq<Slots>, out: seq<Slots>,
          since: seq<map<nat, nat>>, now: nat, p: seq<nat>, s: nat)
    requires g.Valid() && Inverts(g, preds) && CertainInv(g, preds, certainIn, out, since, now)
    requires g.Path(p) && p[0] == 0 && s in out[p[|p| - 1]]
    ensures exists k :: 0 <= k < |p| && s in g.defs[p[k]]
  {
    hide CertainInv;
    CertainIsSound(g, preds, certainIn, out, since, now, p[|p| - 1], s);
    if forall k | 0 <= k < |p| :: s !in g.defs[p[k]] {
      PathWalks(g, p, s);
    }
  }

  /** A path from block 0 that never writes the slot, walked backwards. */
  lemma PathWalks(g: Graph, p: seq<nat>, s: nat)
    requires g.Valid() && g.Path(p) && p[0] == 0 && forall k | 0 <= k < |p| :: s !in g.defs[p[k]]
    ensures MayBeUnwritten(g, p[|p| - 1], s)
  {
    var r := Reversed(p);
    forall k | 0 < k < |r| ensures g.Edge(r[k], r[k - 1]) {
      assert g.Edge(p[|p| - k - 1], p[|p| - k]);
    }
    assert Unwritten(g, r, s) && Escapes(g, r);
  }
}
