/** The two backends agree: from related states, the DolIR blocks of a chunk and its emitted C
    leave related states, whose packed CR and XER are equal, and take the same branches. */
module TwoBackends {
  import opened Wrappers
  import opened DolIR
  import opened SplitMachine
  import opened Numbers
  import opened EmittedC
  import opened SplitRelation
  import opened Lowering
  import opened LowerRegister
  import opened RegisterCorrect
  import opened LowerChunk

  ghost predicate Built(blocks: seq<IrBlock>, chunk: Chunk, insts: seq<PPCInst>) {
    && |blocks| == |insts| == chunk.blockCount
    && forall n | 0 <= n < |insts| :: BlockLowers(blocks[n], chunk, insts, n)
  }

  /** Runs one block that falls through. */
  function StepBlock(blocks: seq<IrBlock>, n: nat, s: SplitState): Option<(DolIR.Target, SplitState)> {
    if n >= |blocks| || blocks[n].terminator.kind != Fallthrough then None
    else
      var m :- Run(blocks[n].code, Start(s));
      Some((blocks[n].terminator.nextBlock, m.st))
  }

  /** Follows `steps` fall-through terminators from block `n`. */
  function RunFrom(blocks: seq<IrBlock>, n: nat, steps: nat, s: SplitState): Option<(DolIR.Target, SplitState)>
    requires n <= |blocks|
    decreases steps
  {
    if steps == 0 then Some((if n < |blocks| then Block(n) else NoBlock, s))
    else
      var next :- StepBlock(blocks, n, s);
      match next.0
      case Block(k) => if k <= |blocks| then RunFrom(blocks, k, steps - 1, next.1) else None
      case NoBlock => if steps == 1 then Some(next) else None
  }

  /** The emitted statements of a run of fall-through instructions. */
  function ExecuteAll(insts: seq<PPCInst>, c: Context): Context {
    if insts == [] then c else ExecuteAll(insts[1..], Execute(insts[0], c))
  }

  /** No mcrxr of the run meets XER bit 28. */
  ghost predicate ComparableRun(insts: seq<PPCInst>, c: Context) {
    insts == [] || (Comparable(insts[0], c) && ComparableRun(insts[1..], Execute(insts[0], c)))
  }

  predicate StraightLine(insts: seq<PPCInst>) {
    forall k | 0 <= k < |insts| :: insts[k].Decoded() && !insts[k].op.Branch? && !FallsBack(insts[k])
  }

  lemma StepsThrough(insts: seq<PPCInst>, blocks: seq<IrBlock>, chunk: Chunk, n: nat, s: SplitState)
    requires Built(blocks, chunk, insts) && n < |insts| && !insts[n].op.Branch? && !FallsBack(insts[n])
    ensures StepBlock(blocks, n, s)
      == Some((if n + 1 < |insts| then Block(n + 1) else NoBlock, Lowered(insts[n], s)))
  {
    hide Run, Lowered, LoweredBranch, NextAddress;
    assert BlockLowers(blocks[n], chunk, insts, n);
  }

  lemma {:induction false} StraightLineAgrees(insts: seq<PPCInst>, blocks: seq<IrBlock>, chunk: Chunk, n: nat, m: nat,
          s: SplitState, c: Context)
    requires Built(blocks, chunk, insts) && n <= m <= |insts|
    requires StraightLine(insts[n..m]) && ComparableRun(insts[n..m], c)
    requires Related(s, c)
    ensures RunFrom(blocks, n, m - n, s).Some?
    ensures var (at, after) := RunFrom(blocks, n, m - n, s).value;
      var c' := ExecuteAll(insts[n..m], c);
      at == (if m < |insts| then Block(m) else NoBlock)
      && Related(after, c') && PackCr(after) == c'.cr && PackXer(after) == c'.xer
    decreases m - n
  {
    hide Related, Execute, Lowered, PackCr, PackXer, Comparable, StepBlock, BlockLowers, FallsBack, NextAddress;
    if n == m {
      RelatedPacks(s, c);
    } else {
      assert insts[n..m][0] == insts[n] && insts[n..m][1..] == insts[n + 1..m];
      StepsThrough(insts, blocks, chunk, n, s);
      InstructionAgrees(insts[n], s, c);
      if n + 1 < |insts| {
        StraightLineAgrees(insts, blocks, chunk, n + 1, m, Lowered(insts[n], s), Execute(insts[n], c));
      } else {
        RelatedPacks(Lowered(insts[n], s), Execute(insts[n], c));
      }
    }
  }

  /** A straight line followed by a branch: the decision is the same in both, the states agree
      exactly when an untaken linking branch keeps LR, and the branch continues at the same
      address exactly when a CTR-decrementing bcctr stays in the same word. */
  lemma BranchEndAgrees(insts: seq<PPCInst>, blocks: seq<IrBlock>, chunk: Chunk, n: nat, s: SplitState, c: Context)
    requires Built(blocks, chunk, insts) && n < |insts|
    requires insts[n].op.Branch? && !FallsBack(insts[n])
    requires Related(s, c)
    ensures Run(blocks[n].code, Start(s)).Some?
    ensures var (i, m) := (insts[n], Run(blocks[n].code, Start(s)).value);
      var k := i.op.branch;
      && LoweredTakes(k, i, s) == Taken(k, i, c)
      && (Related(m.st, AfterBranch(k, i, c)) <==> (i.lk && !Taken(k, i, c) ==> c.lr == NextAddress(i)))
      && (Continues(blocks[n].terminator, m) == Some(BranchNext(k, i, c)) <==>
          (Taken(k, i, c) && k == BCCTR && i.bo & 4 == 0 ==> WordAligned(Sub32(c.ctr, 1)) == WordAligned(c.ctr)))
  {
    hide Related, LoweredBranch, Taken, LoweredTakes, AfterBranch, WordAligned, Sub32, NextAddress, LoweredTarget,
      BranchTarget, Continues, LeadsTo;
    var i := insts[n];
    assert BlockLowers(blocks[n], chunk, insts, n);
    BranchAgreesIff(i.op.branch, i, s, c);
    TargetAgreesIff(i.op.branch, i, s, c);
    var identity := (s: SplitState) => s;
    assert ContinuesAt(blocks[n].code, blocks[n].terminator, i.op.branch, i, s => s);
    assert identity(s) == s;
  }

  // Whole runs of a chunk

  /** Where a run stands: at a block of the chunk or, outside, at an address. */
  datatype At<S> = At(block: DolIR.Target, address: bv32, state: S)

  /** The block recorded for the way a terminator goes.  A register target has none recorded: the run
      is entered again at its address. */
  function Follows(chunk: Chunk, t: Terminator, m: Machine): Option<(DolIR.Target, bv32)> {
    match t.kind
    case Fallthrough => Some((t.nextBlock, t.next))
    case Branch => Some((t.takenBlock, t.taken))
    case CondBranch =>
      var p :- Get(m, t.condition);
      if !p.W1? then None else Some(if p.b then (t.takenBlock, t.taken) else (t.nextBlock, t.next))
    case Indirect =>
      var p :- Get(m, t.condition);
      var target :- Get(m, t.targetValue);
      if !p.W1? || !target.W32? then None
      else Some(if p.b then (BlockAt(chunk, target.x), target.x) else (t.nextBlock, t.next))
    case _ => None
  }

  function StepChunk(chunk: Chunk, block: IrBlock, s: SplitState): Option<At<SplitState>> {
    var m :- Run(block.code, Start(s));
    var next :- Follows(chunk, block.terminator, m);
    Some(At(next.0, next.1, m.st))
  }

  /** At most `steps` blocks, until the run leaves the chunk or comes to a fallback. */
  function RunChunk(chunk: Chunk, blocks: seq<IrBlock>, at: At<SplitState>, steps: nat): Option<At<SplitState>>
    decreases steps
  {
    if steps == 0 || at.block.NoBlock? then Some(at)
    else if at.block.index >= |blocks| then None
    else if blocks[at.block.index].terminator.kind == TermKind.Fallback then Some(at)
    else
      var next :- StepChunk(chunk, blocks[at.block.index], at.state);
      RunChunk(chunk, blocks, next, steps - 1)
  }

  /** The emitted statements of one instruction. */
  function StepCode(chunk: Chunk, i: PPCInst, c: Context): At<Context> {
    var next := if i.op.Branch? then BranchNext(i.op.branch, i, c) else NextAddress(i);
    At(BlockAt(chunk, next), next, if i.op.Branch? then AfterBranch(i.op.branch, i, c) else Execute(i, c))
  }

  /** The emitted code of at most as many instructions. */
  function RunCode(chunk: Chunk, insts: seq<PPCInst>, at: At<Context>, steps: nat): At<Context>
    decreases steps
  {
    if steps == 0 || at.block.NoBlock? || at.block.index >= |insts| || FallsBack(insts[at.block.index]) then at
    else RunCode(chunk, insts, StepCode(chunk, insts[at.block.index], at.state), steps - 1)
  }

  /** The instructions of a chunk lie one after the other below the end of the address space. */
  predicate Placed(chunk: Chunk, insts: seq<PPCInst>) {
    && |insts| == chunk.blockCount && chunk.start + 4 * chunk.blockCount < WORD
    && forall n | 0 <= n < |insts| :: Number(insts[n].address) == chunk.start + 4 * n
  }

  /** What the two meanings of an instruction agree on. */
  predicate Alike(i: PPCInst, c: Context) {
    if !i.op.Branch? then Comparable(i, c)
    else
      var k := i.op.branch;
      (i.lk && !Taken(k, i, c) ==> c.lr == NextAddress(i))
      && (Taken(k, i, c) && k == BCCTR && i.bo & 4 == 0 ==> WordAligned(Sub32(c.ctr, 1)) == WordAligned(c.ctr))
  }

  /** Every instruction that the emitted code comes to is one of those. */
  predicate AlikeThroughout(chunk: Chunk, insts: seq<PPCInst>, at: At<Context>, steps: nat)
    decreases steps
  {
    steps == 0 || at.block.NoBlock? || at.block.index >= |insts| || FallsBack(insts[at.block.index])
    || (Alike(insts[at.block.index], at.state)
        && AlikeThroughout(chunk, insts, StepCode(chunk, insts[at.block.index], at.state), steps - 1))
  }

  ghost predicate Together(at: Option<At<SplitState>>, other: At<Context>) {
    at.Some? && at.value.block == other.block && at.value.address == other.address
    && Related(at.value.state, other.state)
  }

  /** After any number of steps up to `steps`. */
  ghost predicate StayTogether(chunk: Chunk, insts: seq<PPCInst>, blocks: seq<IrBlock>, at: At<SplitState>,
          other: At<Context>, steps: nat)
  {
    forall j: nat | j <= steps :: Together(RunChunk(chunk, blocks, at, j), RunCode(chunk, insts, other, j))
  }

  /** The recorded blocks are those of the addresses. */
  lemma FollowsAddress(chunk: Chunk, t: Terminator, m: Machine, k: BranchOp, i: PPCInst)
    requires LeadsTo(t, chunk, k, i) && Continues(t, m).Some?
    ensures Follows(chunk, t, m) == Some((BlockAt(chunk, Continues(t, m).value), Continues(t, m).value))
  {
    hide BlockAt, NextAddress, Number, Get;
  }

  lemma StepGoesTo(chunk: Chunk, insts: seq<PPCInst>, blocks: seq<IrBlock>, n: nat, s: SplitState)
    requires Built(blocks, chunk, insts) && Placed(chunk, insts) && n < |insts| && !FallsBack(insts[n])
    ensures StepChunk(chunk, blocks[n], s).Some? && Run(blocks[n].code, Start(s)).Some?
    ensures var (at, m) := (StepChunk(chunk, blocks[n], s).value, Run(blocks[n].code, Start(s)).value);
      Continues(blocks[n].terminator, m) == Some(at.address) && at.state == m.st
      && at.block == BlockAt(chunk, at.address)
  {
    hide Run, Lowered, LoweredBranch, LoweredTakes, LoweredTarget, NextAddress, BlockAt, Number, Continues, Follows,
      LeadsTo;
    assert BlockLowers(blocks[n], chunk, insts, n);
    var t, m := blocks[n].terminator, Run(blocks[n].code, Start(s)).value;
    if insts[n].op.Branch? {
      var identity := (s: SplitState) => s;
      assert identity(s) == s;
      FollowsAddress(chunk, t, m, insts[n].op.branch, insts[n]);
    } else {
      FallsThrough(chunk, insts, n, t, m);
    }
  }

  lemma FallsThrough(chunk: Chunk, insts: seq<PPCInst>, n: nat, t: Terminator, m: Machine)
    requires Placed(chunk, insts) && n < |insts| && t == FallthroughTo(insts[n], n, |insts|)
    ensures Continues(t, m) == Some(NextAddress(insts[n]))
    ensures Follows(chunk, t, m) == Some((BlockAt(chunk, NextAddress(insts[n])), NextAddress(insts[n])))
  {
    hide NextAddress, BlockFor, Number;
    NextNumber(insts[n]);
    BlockOf(chunk, n + 1);
  }

  /** The next instruction lies four bytes on. */
  lemma NextNumber(i: PPCInst)
    ensures Number(NextAddress(i)) == (Number(i.address) + 4) % WORD
  {
    hide Number, Add32;
    AddNumber(i.address, 4);
    FourIs();
  }

  lemma FourIs()
    ensures Number(4) == 4
  {
    hide Number;
    Small();
    Next(0);
    Next(1);
    Next(2);
    Next(3);
  }

  lemma BlockOf(chunk: Chunk, n: nat)
    ensures BlockFor(chunk, chunk.start + 4 * n) == if n < chunk.blockCount then Block(n) else NoBlock
  {
  }

  lemma StepAgreesIff(chunk: Chunk, insts: seq<PPCInst>, blocks: seq<IrBlock>, n: nat, s: SplitState, c: Context)
    requires Built(blocks, chunk, insts) && Placed(chunk, insts) && n < |insts|
    requires insts[n].Decoded() && !FallsBack(insts[n]) && Related(s, c)
    ensures Together(StepChunk(chunk, blocks[n], s), StepCode(chunk, insts[n], c)) <==> Alike(insts[n], c)
  {
    hide Run, Related, Lowered, LoweredBranch, LoweredTakes, LoweredTarget, NextAddress, BlockAt, Number, StepChunk,
      Continues,
      LeadsTo, Execute, AfterBranch, BranchNext, Taken, Comparable, WordAligned, Sub32;
    StepGoesTo(chunk, insts, blocks, n, s);
    assert BlockLowers(blocks[n], chunk, insts, n);
    if insts[n].op.Branch? {
      BranchEndAgrees(insts, blocks, chunk, n, s, c);
    } else {
      FallsThrough(chunk, insts, n, blocks[n].terminator, Run(blocks[n].code, Start(s)).value);
      InstructionAgreesIff(insts[n], s, c);
    }
  }

  lemma FallsBackIff(chunk: Chunk, insts: seq<PPCInst>, blocks: seq<IrBlock>, n: nat)
    requires Built(blocks, chunk, insts) && n < |insts|
    ensures blocks[n].terminator.kind == TermKind.Fallback <==> FallsBack(insts[n])
  {
    hide Run, Lowered, LoweredBranch;
    assert BlockLowers(blocks[n], chunk, insts, n);
  }

  lemma InstructionAgreesIff(i: PPCInst, s: SplitState, c: Context)
    requires Related(s, c) && i.Decoded() && !i.op.Branch?
    ensures Related(Lowered(i, s), Execute(i, c)) <==> Comparable(i, c)
  {
    hide Related, LoweredMcrxr, MoveXerToCr, Bit;
    if i.op == MCRXR { McrxrAgreesIff(i, s, c); } else { InstructionAgrees(i, s, c); }
  }

  /** Two runs of a chunk, through any of its branches and for any number of instructions, stay
      together if and only if every instruction they come to has one meaning. */
  lemma {:induction false} ChunkRunAgreesIff(chunk: Chunk, insts: seq<PPCInst>, blocks: seq<IrBlock>,
          at: At<SplitState>, other: At<Context>, steps: nat)
    requires Built(blocks, chunk, insts) && Placed(chunk, insts) && Together(Some(at), other)
    requires forall n | 0 <= n < |insts| :: insts[n].Decoded()
    requires at.block.Block? ==> at.block.index < |insts|
    ensures AlikeThroughout(chunk, insts, other, steps)
      <==> StayTogether(chunk, insts, blocks, at, other, steps)
    decreases steps
  {
    hide Run, Related, StepChunk, StepCode, Alike, FallsBack, BlockLowers, Number;
    var n := other.block;
    if steps == 0 || n.NoBlock? {
      assert RunChunk(chunk, blocks, at, 0) == Some(at);
    } else {
      FallsBackIff(chunk, insts, blocks, n.index);
      if !FallsBack(insts[n.index]) {
        var next, next' := StepChunk(chunk, blocks[n.index], at.state), StepCode(chunk, insts[n.index], other.state);
        StepAgreesIff(chunk, insts, blocks, n.index, at.state, other.state);
        if Together(next, next') {
          StepStays(chunk, insts[n.index], other.state);
          ChunkRunAgreesIff(chunk, insts, blocks, next.value, next', steps - 1);
        }
        OneStepOn(chunk, insts, blocks, at, other, steps);
      }
    }
  }

  lemma StepStays(chunk: Chunk, i: PPCInst, c: Context)
    ensures var at := StepCode(chunk, i, c); at.block.Block? ==> at.block.index < chunk.blockCount
  {
    hide Execute, AfterBranch, BranchNext, Number, NextAddress, BlockFor;
  }

  /** The first step and the runs from there. */
  lemma OneStepOn(chunk: Chunk, insts: seq<PPCInst>, blocks: seq<IrBlock>, at: At<SplitState>, other: At<Context>,
          steps: nat)
    requires |blocks| == |insts| && steps > 0 && at.block.Block? && at.block == other.block
    requires Together(Some(at), other)
    requires at.block.index < |insts| && !FallsBack(insts[at.block.index])
    requires blocks[at.block.index].terminator.kind != TermKind.Fallback
    ensures var n := at.block.index;
      var (next, next') := (StepChunk(chunk, blocks[n], at.state), StepCode(chunk, insts[n], other.state));
      StayTogether(chunk, insts, blocks, at, other, steps)
      <==> Together(next, next') && StayTogether(chunk, insts, blocks, next.value, next', steps - 1)
  {
    hide Related, StepChunk, StepCode, FallsBack;
    var n := at.block.index;
    var next, next' := StepChunk(chunk, blocks[n], at.state), StepCode(chunk, insts[n], other.state);
    if StayTogether(chunk, insts, blocks, at, other, steps) {
      assert Together(RunChunk(chunk, blocks, at, 1), RunCode(chunk, insts, other, 1));
      assert next == RunChunk(chunk, blocks, at, 1);
      forall j: nat | j <= steps - 1
        ensures Together(RunChunk(chunk, blocks, next.value, j), RunCode(chunk, insts, next', j))
      {
        assert Together(RunChunk(chunk, blocks, at, j + 1), RunCode(chunk, insts, other, j + 1));
      }
    }
    if Together(next, next') && StayTogether(chunk, insts, blocks, next.value, next', steps - 1) {
      forall j: nat | j <= steps ensures Together(RunChunk(chunk, blocks, at, j), RunCode(chunk, insts, other, j)) {
        assert j > 0 ==> Together(RunChunk(chunk, blocks, next.value, j - 1), RunCode(chunk, insts, next', j - 1));
      }
    }
  }
}
