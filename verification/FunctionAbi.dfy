/** The state masks of `dolllvm_analyze_function_abi` (src/backend/llvm/abi_liveness.cpp:87-211):
    which state a range must be given, and which it gives back. */
module FunctionAbi {
  import opened CallLiveness
  import opened MustDefine
  import opened CallSites

  datatype Abi = Abi(semanticInput: Slots, mayDef: Slots, mustDef: Slots, input: Slots, output: Slots)

  /** Some backward walk that ends just before `b` misses every definition of the slot. */
  ghost predicate EntersUnwritten(g: Graph, b: nat, s: nat)
    requires g.Valid()
  {
    b == 0 || (forall q | 0 <= q < g.Count() :: b !in g.succs[q]) || exists q: nat ::
      g.Edge(q, b) && MayBeUnwritten(g, q, s)
  }

  predicate IsExit(g: Graph, b: nat) { b < g.Count() && g.succs[b] == [] }

  ghost predicate HasExit(g: Graph) { exists b :: IsExit(g, b) }

  /** What the masks mean. */
  ghost predicate Describes(f: CallFunction, g: Graph, abi: Abi)
    requires f.Valid() && Summarizes(f, g)
  {
    && (forall s | s in AllSlots() :: s in abi.semanticInput <==>
          exists b :: 0 <= b < g.Count() && s in g.uses[b] && EntersUnwritten(g, b, s))
    && (forall s | s in AllSlots() :: s in abi.mayDef <==> exists b :: 0 <= b < g.Count() && s in g.defs[b])
    && (forall s | s in AllSlots() :: s in abi.mustDef <==>
          (HasExit(g) && forall b | 0 <= b < g.Count() && IsExit(g, b) :: !MayBeUnwritten(g, b, s)))
    && abi.input == abi.semanticInput + (abi.mayDef - abi.mustDef)
    && abi.output == abi.mayDef
  }

  lemma EntersIff(g: Graph, preds: seq<seq<nat>>, certainIn: seq<Slots>, out: seq<Slots>, since: seq<map<nat, nat>>,
          now: nat, b: nat, s: nat)
    requires g.Valid() && Inverts(g, preds) && CertainInv(g, preds, certainIn, out, since, now)
    requires |certainIn| == |out| == g.Count()
    requires forall c | 0 <= c < g.Count() :: CertainSolved(g, preds, certainIn, out, c)
    requires b < g.Count() && s in AllSlots()
    ensures s !in certainIn[b] <==> EntersUnwritten(g, b, s)
  {
    hide AllSlots, CertainInv, MayBeUnwritten;
    assert CertainSolved(g, preds, certainIn, out, b);
    NoPredecessors(g, preds, b);
    if preds[b] != [] {
      assert preds[b][0] in preds[b] && g.Edge(preds[b][0], b);
      IntersectionIs(out, preds[b], s);
    }
    forall q: nat | g.Edge(q, b) ensures s in out[q] <==> !MayBeUnwritten(g, q, s) {
      CertainIsExact(g, preds, certainIn, out, since, now, q, s);
    }
  }

  method AnalyzeFunctionAbi(f: CallFunction) returns (abi: Abi, g: Graph)
    requires f.Valid()
    ensures Summarizes(f, g) && Describes(f, g, abi)
  {
    hide AllSlots, CertainInv, CertainSolved, Inverts, Summarizes, EntersUnwritten, MayBeUnwritten;
    g := BuildGraph(f);
    SummaryShape(f, g);
    GraphShape(g);
    var preds := Predecessors(g);
    var certainIn, certainOut := new Slots[|g.succs|](_ => {}), new Slots[|g.succs|](_ => {});
    ghost var since, now := SolveCertain(g, preds, certainIn, certainOut);
    var semanticInput, mayDef := CollectInputs(f, g, certainIn[..]);
    var mustDef := CollectExits(g, certainOut[..]);
    abi := Abi(semanticInput, mayDef, mustDef, semanticInput + (mayDef - mustDef), mayDef);
    forall b, s | 0 <= b < g.Count() && s in AllSlots()
      ensures s !in certainIn[b] <==> EntersUnwritten(g, b, s)
      ensures s in certainOut[b] <==> !MayBeUnwritten(g, b, s)
    {
      EntersIff(g, preds, certainIn[..], certainOut[..], since, now, b, s);
      CertainIsExact(g, preds, certainIn[..], certainOut[..], since, now, b, s);
    }
  }

  /** The reads no certain definition precedes, and everything written. */
  method CollectInputs(f: CallFunction, g: Graph, certainIn: seq<Slots>) returns (semanticInput: Slots, mayDef: Slots)
    requires f.Valid() && Summarizes(f, g) && |certainIn| == |f.blocks|
    ensures forall s :: s in semanticInput <==> exists b :: 0 <= b < |f.blocks| && s in g.uses[b] && s !in certainIn[b]
    ensures forall s :: s in mayDef <==> exists b :: 0 <= b < |f.blocks| && s in g.defs[b]
  {
    hide AllSlots, Exposed, Writes;
    semanticInput, mayDef := {}, {};
    for b := 0 to |f.blocks|
      invariant forall s :: s in semanticInput <==> exists c :: 0 <= c < b && s in g.uses[c] && s !in certainIn[c]
      invariant forall s :: s in mayDef <==> exists c :: 0 <= c < b && s in g.defs[c]
    {
      var uses, defs := Summarize(f.blocks[b], certainIn[b]);
      assert uses == g.uses[b] - certainIn[b];
      assert defs == g.defs[b];
      semanticInput, mayDef := semanticInput + uses, mayDef + defs;
    }
  }

  /** What every exit has certainly written; nothing when there is no exit. */
  method CollectExits(g: Graph, certainOut: seq<Slots>) returns (mustDef: Slots)
    requires g.Valid() && |certainOut| == g.Count()
    ensures forall s | s in AllSlots() :: s in mustDef <==>
      (HasExit(g) && forall b | 0 <= b < g.Count() && IsExit(g, b) :: s in certainOut[b])
  {
    hide AllSlots, Graph.Valid;
    var hasExit, exitDefs := false, AllSlots();
    for b := 0 to g.Count()
      invariant hasExit <==> exists c :: 0 <= c < b && IsExit(g, c)
      invariant forall s | s in AllSlots() ::
        s in exitDefs <==> forall c | 0 <= c < b && IsExit(g, c) :: s in certainOut[c]
    {
      if g.succs[b] == [] {
        assert IsExit(g, b);
        hasExit, exitDefs := true, exitDefs * certainOut[b];
      }
    }
    mustDef := if hasExit then exitDefs else {};
  }

  /** A slot read on a path from block 0 before anything on the path wrote it is an input. */
  lemma ReadsAreInputs(f: CallFunction, g: Graph, abi: Abi, p: seq<nat>, s: nat)
    requires f.Valid() && Summarizes(f, g) && Describes(f, g, abi) && s in AllSlots()
    requires g.Path(p) && p[0] == 0
    requires s in g.uses[p[|p| - 1]] && forall k | 0 <= k < |p| - 1 :: s !in g.defs[p[k]]
    ensures s in abi.semanticInput && s in abi.input
  {
    hide AllSlots, Summarizes, MayBeUnwritten;
    SummaryShape(f, g);
    if |p| > 1 {
      var before := p[..|p| - 1];
      assert g.Path(before);
      PathWalks(g, before, s);
      assert g.Edge(p[|p| - 2], p[|p| - 1]);
    }
    assert EntersUnwritten(g, p[|p| - 1], s);
  }

  /** Everything a range returns is either written on the way out or was passed in. */
  lemma OutputsAreWrittenOrInputs(f: CallFunction, g: Graph, abi: Abi, p: seq<nat>, s: nat)
    requires f.Valid() && Summarizes(f, g) && Describes(f, g, abi) && s in AllSlots()
    requires g.Path(p) && p[0] == 0 && IsExit(g, p[|p| - 1])
    requires s in abi.output
    ensures s in abi.input || exists k :: 0 <= k < |p| && s in g.defs[p[k]]
  {
    hide AllSlots, Summarizes, MayBeUnwritten;
    SummaryShape(f, g);
    if forall k | 0 <= k < |p| :: s !in g.defs[p[k]] {
      PathWalks(g, p, s);
    }
  }
}
