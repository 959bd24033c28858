/** `dolllvm_analyze_callsite_states` and `dolllvm_analyze_callsite_dirty`
    (src/backend/llvm/call_liveness.cpp): from DolIR blocks to the masks of every call site, with
    the meaning of every mask in terms of recorded paths. */
module CallSites {
  import opened Wrappers
  import opened DolIR
  import opened CallLiveness
  import opened MustDefine
  import opened MayDirty

  /** What the analyses read of a block.  `post` is the state its call may write
      (`postCallDefs`, empty where the caller passes none). */
  datatype CallBlock = CallBlock(
    insts: seq<Inst<nat>>, kind: TermKind, targets: seq<Target>, linked: bool, guestPc: nat, post: Slots)

  datatype CallFunction = CallFunction(guestStart: nat, guestEnd: nat, blocks: seq<CallBlock>) {
    predicate Valid() {
      forall b | 0 <= b < |blocks| :: ValidBlock(blocks[b])
    }
  }

  predicate ValidBlock(block: CallBlock) {
    && |block.targets| == 2 && block.post <= AllSlots()
    && forall n | 0 <= n < |block.insts| ::
       block.insts[n].stateUses <= AllSlots() && block.insts[n].stateDefs <= AllSlots()
  }

  /** `targetCount` */
  function SuccessorSlots(kind: TermKind): (n: nat)
    ensures n <= 2
  {
    match kind
    case CondBranch | Indirect => 2
    case Fallthrough | Branch => 1
    case _ => 0
  }

  /** A call at the end of block `b` returns to the instruction behind it, and that is block `t`. */
  predicate ReturnsTo(f: CallFunction, b: nat, t: nat)
    requires b < |f.blocks|
  {
    var back := (f.blocks[b].guestPc + 4) % 0x1_0000_0000;
    f.blocks[b].linked && t < |f.blocks| && f.guestStart + 4 * t == back && back < f.guestEnd
  }

  /** The block a linked terminator continues at after its call, when it is in the function. */
  function Continuation(f: CallFunction, b: nat): (t: Option<nat>)
    requires b < |f.blocks|
    ensures forall k: nat :: t == Some(k) <==> ReturnsTo(f, b, k)
  {
    var next := (f.blocks[b].guestPc + 4) % 0x1_0000_0000;
    if f.blocks[b].linked && f.guestStart <= next < f.guestEnd && (next - f.guestStart) % 4 == 0
       && (next - f.guestStart) / 4 < |f.blocks|
    then Some((next - f.guestStart) / 4) else None
  }

  /** A target the terminator may go to. */
  predicate GoesTo(block: CallBlock, t: nat)
    requires ValidBlock(block)
  {
    match block.kind
    case Fallthrough | Branch => block.targets[0] == Block(t)
    case CondBranch | Indirect => block.targets[0] == Block(t) || block.targets[1] == Block(t)
    case _ => false
  }

  /** A target inside the function, or the block behind a call. */
  predicate Recorded(f: CallFunction, b: nat, t: nat)
    requires f.Valid() && b < |f.blocks|
  {
    (t < |f.blocks| && GoesTo(f.blocks[b], t)) || ReturnsTo(f, b, t)
  }

  method AddSuccessors(f: CallFunction, b: nat) returns (successors: seq<nat>)
    requires f.Valid() && b < |f.blocks|
    ensures forall t :: t in successors <==> Recorded(f, b, t)
  {
    successors := [];
    var block := f.blocks[b];
    for slot := 0 to SuccessorSlots(block.kind)
      invariant forall t: nat :: t in successors <==>
        (t < |f.blocks| && ((slot > 0 && block.targets[0] == Block(t)) || (slot > 1 && block.targets[1] == Block(t))))
    {
      var target := block.targets[slot];
      if target.Block? && target.index < |f.blocks| {
        successors := successors + [target.index];
      }
    }
    var continuation := Continuation(f, b);
    if continuation.Some? && continuation.value !in successors {
      successors := successors + [continuation.value];
    }
  }

  /** The block reads the slot before writing it. */
  ghost predicate Exposed(block: CallBlock, s: nat) { ExposedBefore(block, |block.insts|, s) }

  ghost predicate ExposedBefore(block: CallBlock, n: nat, s: nat)
    requires n <= |block.insts|
  {
    exists k :: 0 <= k < n && s in block.insts[k].stateUses && !WritesBefore(block, k, s)
  }

  ghost predicate WritesBefore(block: CallBlock, n: nat, s: nat)
    requires n <= |block.insts|
  {
    exists k :: 0 <= k < n && s in block.insts[k].stateDefs
  }

  ghost predicate Writes(block: CallBlock, s: nat) { WritesBefore(block, |block.insts|, s) }

  /** The state read outside `certain` before it is written, and the state written. */
  method Summarize(block: CallBlock, certain: Slots) returns (uses: Slots, defs: Slots)
    requires ValidBlock(block)
    ensures forall s :: s in uses <==> Exposed(block, s) && s !in certain
    ensures forall s :: s in defs <==> Writes(block, s)
    ensures uses <= AllSlots() && defs <= AllSlots()
  {
    hide AllSlots;
    uses, defs := {}, {};
    var written := certain;
    for n := 0 to |block.insts|
      invariant uses <= AllSlots() && defs <= AllSlots()
      invariant forall s :: s in written <==> s in certain || s in defs
      invariant forall s :: s in defs <==> WritesBefore(block, n, s)
      invariant forall s :: s in uses <==> (s !in certain && ExposedBefore(block, n, s))
    {
      var inst := block.insts[n];
      uses := uses + (inst.stateUses - written);
      written := written + inst.stateDefs;
      defs := defs + inst.stateDefs;
    }
  }

  /** The graph records exactly the function's successors, exposed reads and writes. */
  ghost predicate Summarizes(f: CallFunction, g: Graph)
    requires f.Valid()
  {
    && g.Valid() && g.Count() == |f.blocks|
    && (forall b, t: nat | 0 <= b < |f.blocks| :: t in g.succs[b] <==> Recorded(f, b, t))
    && (forall b, s | 0 <= b < |f.blocks| :: s in g.uses[b] <==> Exposed(f.blocks[b], s))
    && (forall b, s | 0 <= b < |f.blocks| :: s in g.defs[b] <==> Writes(f.blocks[b], s))
    && (forall b | 0 <= b < |f.blocks| :: g.post[b] == f.blocks[b].post)
  }

  method BuildGraph(f: CallFunction) returns (g: Graph)
    requires f.Valid()
    ensures Summarizes(f, g)
  {
    hide Exposed, Writes, AllSlots, Recorded;
    var succs: seq<seq<nat>>, uses: seq<Slots>, defs: seq<Slots>, post: seq<Slots> := [], [], [], [];
    for b := 0 to |f.blocks|
      invariant |succs| == |uses| == |defs| == |post| == b
      invariant forall c, t: nat | 0 <= c < b :: t in succs[c] <==> Recorded(f, c, t)
      invariant forall c, s | 0 <= c < b :: s in uses[c] <==> Exposed(f.blocks[c], s)
      invariant forall c, s | 0 <= c < b :: s in defs[c] <==> Writes(f.blocks[c], s)
      invariant forall c | 0 <= c < b :: post[c] == f.blocks[c].post && uses[c] <= AllSlots() && defs[c] <= AllSlots()
    {
      var blockUses, blockDefs := Summarize(f.blocks[b], {});
      var successors := AddSuccessors(f, b);
      succs, uses, defs, post := succs + [successors], uses + [blockUses], defs + [blockDefs],
        post + [f.blocks[b].post];
    }
    g := Graph(succs, uses, defs, post);
    forall b, k | 0 <= b < |f.blocks| && 0 <= k < |succs[b]| ensures succs[b][k] < |f.blocks| {
      assert succs[b][k] in succs[b];
      RecordedInside(f, b, succs[b][k]);
    }
  }

  lemma RecordedInside(f: CallFunction, b: nat, t: nat)
    requires f.Valid() && b < |f.blocks| && Recorded(f, b, t)
    ensures t < |f.blocks|
  {
  }

  // Call sites

  /** Live where a call at the end of `b` returns to: at its continuation block, or on leaving `b`. */
  ghost predicate LiveAfter(f: CallFunction, g: Graph, outputs: Slots, b: nat, s: nat)
    requires f.Valid() && Summarizes(f, g) && b < |f.blocks|
  {
    if exists t: nat :: ReturnsTo(f, b, t) then exists t: nat :: ReturnsTo(f, b, t) && Live(g, outputs, t, s)
    else if g.succs[b] == [] then s in outputs
    else exists t :: t in g.succs[b] && Live(g, outputs, t, s)
  }

  /** The three masks of every block, by the paths that justify them; the certain one lies
      within the may-dirty one. */
  method AnalyzeCallsites(f: CallFunction, outputs: Slots)
    returns (liveAfter: seq<Slots>, definedBefore: seq<Slots>, mayDirtyBefore: seq<Slots>, g: Graph)
    requires f.Valid() && outputs <= AllSlots()
    ensures Summarizes(f, g) && |liveAfter| == |definedBefore| == |mayDirtyBefore| == |f.blocks|
    ensures forall b, s | 0 <= b < |f.blocks| :: s in liveAfter[b] <==> LiveAfter(f, g, outputs, b, s)
    ensures forall b, s | 0 <= b < |f.blocks| && s in AllSlots() :: s in definedBefore[b] <==> !MayBeUnwritten(g, b, s)
    ensures forall b, s | 0 <= b < |f.blocks| :: s in mayDirtyBefore[b] <==> MayBeDirty(g, b, s)
    ensures forall b | 0 <= b < |f.blocks| :: definedBefore[b] <= mayDirtyBefore[b]
  {
    hide AllSlots, LiveInv, LiveSolved, LiveAfter, CertainInv, CertainSolved, DirtyInv, DirtySolved, Summarizes,
      MayBeUnwritten, MayBeDirty, Live;
    g := BuildGraph(f);
    SummaryShape(f, g);
    var preds := Predecessors(g);
    liveAfter := LiveAfterCalls(f, g, outputs);
    definedBefore, mayDirtyBefore := WrittenBefore(g, preds);
  }

  lemma SummaryShape(f: CallFunction, g: Graph)
    requires f.Valid() && Summarizes(f, g)
    ensures g.Valid() && g.Count() == |f.blocks|
  {
  }

  method LiveAfterCalls(f: CallFunction, g: Graph, outputs: Slots) returns (liveAfter: seq<Slots>)
    requires f.Valid() && Summarizes(f, g) && outputs <= AllSlots()
    ensures |liveAfter| == |f.blocks|
    ensures forall b, s | 0 <= b < |f.blocks| :: s in liveAfter[b] <==> LiveAfter(f, g, outputs, b, s)
  {
    hide AllSlots, LiveInv, LiveSolved, LiveAfter, Live, Summarizes;
    SummaryShape(f, g);
    var liveIn, liveOut := new Slots[|g.succs|](_ => {}), new Slots[|g.succs|](_ => {});
    SolveLiveness(g, outputs, liveIn, liveOut);
    liveAfter := [];
    for b := 0 to |f.blocks|
      invariant |liveAfter| == b
      invariant forall c, s | 0 <= c < b :: s in liveAfter[c] <==> LiveAfter(f, g, outputs, c, s)
    {
      var continuation := Continuation(f, b);
      var after := if continuation.Some? then liveIn[continuation.value] else liveOut[b];
      forall s ensures s in after <==> LiveAfter(f, g, outputs, b, s) {
        AfterIsExact(f, g, outputs, liveIn[..], liveOut[..], b, s);
      }
      liveAfter := liveAfter + [after];
    }
  }

  lemma AfterIsExact(f: CallFunction, g: Graph, outputs: Slots, liveIn: seq<Slots>, liveOut: seq<Slots>, b: nat, s: nat)
    requires f.Valid() && Summarizes(f, g) && b < |f.blocks| && LiveInv(g, outputs, liveIn, liveOut)
    requires |liveIn| == |liveOut| == g.Count()
    requires forall c | 0 <= c < g.Count() :: LiveSolved(g, outputs, liveIn, liveOut, c)
    ensures s in (if Continuation(f, b).Some? then liveIn[Continuation(f, b).value] else liveOut[b])
      <==> LiveAfter(f, g, outputs, b, s)
  {
    hide AllSlots, LiveInv, Live;
    forall t | 0 <= t < g.Count() ensures s in liveIn[t] <==> Live(g, outputs, t, s) {
      LivenessIsExact(g, outputs, liveIn, liveOut, t, s);
    }
    assert LiveSolved(g, outputs, liveIn, liveOut, b);
    UnionIs(liveIn, g.succs[b], s);
  }

  lemma GraphShape(g: Graph)
    requires g.Valid()
    ensures |g.defs| == g.Count()
  {
  }

  method DirtyMasks(defs: seq<Slots>, dirtyIn: array<Slots>) returns (masks: seq<Slots>)
    requires |defs| == dirtyIn.Length
    ensures |masks| == |defs| && forall b | 0 <= b < |defs| :: masks[b] == dirtyIn[b] + defs[b]
  {
    masks := [];
    for b := 0 to |defs|
      invariant |masks| == b && forall c | 0 <= c < b :: masks[c] == dirtyIn[c] + defs[c]
    {
      masks := masks + [dirtyIn[b] + defs[b]];
    }
  }

  method WrittenBefore(g: Graph, preds: seq<seq<nat>>) returns (definedBefore: seq<Slots>, mayDirtyBefore: seq<Slots>)
    requires g.Valid() && Inverts(g, preds)
    ensures |definedBefore| == |mayDirtyBefore| == g.Count()
    ensures forall b, s | 0 <= b < g.Count() && s in AllSlots() :: s in definedBefore[b] <==> !MayBeUnwritten(g, b, s)
    ensures forall b, s | 0 <= b < g.Count() :: s in mayDirtyBefore[b] <==> MayBeDirty(g, b, s)
    ensures forall b | 0 <= b < g.Count() :: definedBefore[b] <= mayDirtyBefore[b]
  {
    hide AllSlots, CertainInv, CertainSolved, DirtyInv, DirtySolved, MayBeUnwritten, MayBeDirty, Inverts, Graph.Valid;
    var certainIn, certainOut := new Slots[|g.succs|](_ => {}), new Slots[|g.succs|](_ => {});
    ghost var since, now := SolveCertain(g, preds, certainIn, certainOut);
    var dirtyIn, dirtyOut := new Slots[|g.succs|](_ => {}), new Slots[|g.succs|](_ => {});
    SolveDirty(g, preds, dirtyIn, dirtyOut);
    definedBefore := certainOut[..];
    GraphShape(g);
    mayDirtyBefore := DirtyMasks(g.defs, dirtyIn);
    forall b, s | 0 <= b < g.Count() && s in AllSlots() ensures s in definedBefore[b] <==> !MayBeUnwritten(g, b, s) {
      CertainIsExact(g, preds, certainIn[..], certainOut[..], since, now, b, s);
    }
    forall b, s | 0 <= b < g.Count() ensures s in mayDirtyBefore[b] <==> MayBeDirty(g, b, s) {
      DirtyIsExact(g, preds, dirtyIn[..], dirtyOut[..], b, s);
    }
    forall b, s | 0 <= b < g.Count() && s in definedBefore[b] ensures s in mayDirtyBefore[b] {
      CertainIsDirty(g, preds, certainIn[..], certainOut[..], since, now, dirtyIn[..], dirtyOut[..], b, s);
    }
  }

  /** `dolllvm_analyze_callsite_dirty` computes the same may-dirty masks on its own. */
  method AnalyzeCallsiteDirty(f: CallFunction) returns (mayDirtyBefore: seq<Slots>, g: Graph)
    requires f.Valid()
    ensures Summarizes(f, g) && |mayDirtyBefore| == |f.blocks|
    ensures forall b, s | 0 <= b < |f.blocks| :: s in mayDirtyBefore[b] <==> MayBeDirty(g, b, s)
  {
    hide AllSlots, DirtyInv, DirtySolved, MayBeDirty, Inverts, Summarizes;
    g := BuildGraph(f);
    SummaryShape(f, g);
    var preds := Predecessors(g);
    var dirtyIn, dirtyOut := new Slots[|f.blocks|](_ => {}), new Slots[|f.blocks|](_ => {});
    SolveDirty(g, preds, dirtyIn, dirtyOut);
    mayDirtyBefore := DirtyMasks(g.defs, dirtyIn);
    forall b, s | 0 <= b < |f.blocks| ensures s in mayDirtyBefore[b] <==> MayBeDirty(g, b, s) {
      DirtyIsExact(g, preds, dirtyIn[..], dirtyOut[..], b, s);
    }
  }
}
