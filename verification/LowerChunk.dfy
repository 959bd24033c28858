/** `lower_control` and `dolir_build_chunk` (src/ir/dolir_builder.c): one DolIR block per
    instruction, and the theorem that the blocks do what the emitted C does. */
module LowerChunk {
  import opened Wrappers
  import opened DolIR
  import opened SplitMachine
  import opened Numbers
  import opened EmittedC
  import opened SplitRelation
  import opened Lowering
  import opened LowerInteger
  import opened LowerRegister
  import opened BitFacts
  import opened LoweringCorrect
  import opened RegisterCorrect

  /** The one instruction whose two meanings differ: the emitted mcrxr moves XER bit 28. */
  predicate Comparable(i: PPCInst, c: Context) { i.op == MCRXR ==> !Bit(c.xer, 28) }

  /** What the lowered code of a fall-through instruction does to the split state. */
  function Lowered(i: PPCInst, st: SplitState): SplitState {
    match i.op
    case WithImmediate(k) => LoweredImmediate(k, i, st)
    case CarryingImmediate(k) => LoweredCarryImmediate(k, i, st)
    case Comparison(k) => LoweredCompare(k, i, st)
    case Addition(k) => LoweredAdd(k, i, st)
    case Subtraction(k) => LoweredSubtract(k, i, st)
    case Extended(k) => LoweredExtended(k, i, st)
    case Multiplication(k) => LoweredProduct(k, i, st)
    case Division(k) => LoweredQuotient(k, i, st)
    case LogicalOperation(k) => LoweredLogical(k, i, st)
    case UnaryOperation(k) => LoweredUnary(k, i, st)
    case Rotation(k) => LoweredRotate(k, i, st)
    case LogicalShift(k) => LoweredShift(k, i, st)
    case AlgebraicShift(k) => LoweredAlgebraic(k, i, st)
    case CrBits(k) => LoweredCrLogical(k, i, st)
    case MCRF => st.(crf := st.crf[i.crfD := And32(st.crf[i.crfS], 0xF)])
    case MCRXR => LoweredMcrxr(i, st)
    case MFCR => WithGpr(st, i.rD, PackedFields(st.crf, 8))
    case MTCRF => MovedFields(st, i.rS, i.crm, 8)
    case MFSPR(spr) => WithGpr(st, i.rD, SprWord(spr, st))
    case MTSPR(spr) => WithSpr(st, spr, st.gpr[i.rS])
    case Branch(_) => st
  }

  /** `lower_integer` */
  method LowerIntegerOp(b: Builder, i: PPCInst) returns (lowered: bool)
    requires b.Valid()
    modifies b
    ensures lowered == IntegerOp(i.op)
    ensures lowered ==> b.Extended() && forall s {:trigger b.st(s)} :: b.st(s) == Lowered(i, old(b.st)(s))
    ensures !lowered ==> b.code == old(b.code) && b.next == old(b.next) && b.st == old(b.st)
  {
    hide Run, LoweredImmediate, LoweredCarryImmediate, LoweredCompare, LoweredAdd, LoweredSubtract, LoweredExtended,
      LoweredProduct, LoweredQuotient, LoweredLogical, LoweredUnary, LoweredRotate, LoweredShift, LoweredAlgebraic,
      LoweredCrLogical, LoweredMcrxr, PackedFields, MovedFields, SprWord, WithSpr, WithGpr, And32;
    lowered := true;
    match i.op {
      case WithImmediate(k) => LowerImmediate(b, k, i);
      case CarryingImmediate(k) => LowerCarryImmediate(b, k, i);
      case Comparison(k) => LowerCompare(b, k, i);
      case Addition(k) => LowerAdd(b, k, i);
      case Subtraction(k) => LowerSubtract(b, k, i);
      case Extended(k) => LowerExtended(b, k, i);
      case Multiplication(k) => LowerProduct(b, k, i);
      case Division(k) => LowerQuotient(b, k, i);
      case LogicalOperation(k) => LowerLogical(b, k, i);
      case UnaryOperation(k) => LowerUnary(b, k, i);
      case Rotation(k) => LowerRotate(b, k, i);
      case LogicalShift(k) => LowerShift(b, k, i);
      case AlgebraicShift(k) => LowerAlgebraic(b, k, i);
      case _ => lowered := false;
    }
  }

  predicate IntegerOp(op: Opcode) {
    !(op.CrBits? || op.MCRF? || op.MCRXR? || op.MFCR? || op.MTCRF? || op.MFSPR? || op.MTSPR? || op.Branch?)
  }

  /** The CR and SPR cases of `lower_state` */
  method LowerStateOp(b: Builder, i: PPCInst)
    requires b.Valid() && !IntegerOp(i.op) && !i.op.Branch?
    modifies b
    ensures b.Extended() && forall s {:trigger b.st(s)} :: b.st(s) == Lowered(i, old(b.st)(s))
  {
    hide Run, LoweredImmediate, LoweredCarryImmediate, LoweredCompare, LoweredAdd, LoweredSubtract, LoweredExtended,
      LoweredProduct, LoweredQuotient, LoweredLogical, LoweredUnary, LoweredRotate, LoweredShift, LoweredAlgebraic,
      LoweredCrLogical, LoweredMcrxr, PackedFields, MovedFields, SprWord, WithSpr, WithGpr, And32;
    match i.op {
      case CrBits(k) => LowerCrLogical(b, k, i);
      case MCRF => LowerMcrf(b, i);
      case MCRXR => LowerMcrxr(b, i);
      case MFCR => LowerMfcr(b, i);
      case MTCRF => LowerMtcrf(b, i);
      case MFSPR(spr) => LowerFromSpr(b, spr, i);
      case MTSPR(spr) => LowerToSpr(b, spr, i);
    }
  }

  /** The two compilations of one fall-through instruction agree. */
  lemma InstructionAgrees(i: PPCInst, st: SplitState, c: Context)
    requires Related(st, c) && i.Decoded() && Comparable(i, c)
    ensures Related(Lowered(i, st), Execute(i, c))
  {
    hide Related, LoweredImmediate, LoweredCarryImmediate, LoweredCompare, LoweredAdd, LoweredSubtract, LoweredExtended,
      LoweredProduct, LoweredQuotient, LoweredLogical, LoweredUnary, LoweredRotate, LoweredShift, LoweredAlgebraic,
      LoweredCrLogical, LoweredMcrxr, PackedFields, MovedFields, SprWord, WithSpr, WithGpr, And32, Context.SetGpr;
    hide Immediate, CarryImmediate, Compare, Sum, Difference, ExtendedSum, Product, Quotients, Logic, Unary, Rotate,
      Shift, Algebraic, CrLogic, CopyField, MoveXerToCr, MoveToCr, FromSpr, ToSpr, Bit, Context.SetField;
    match i.op {
      case WithImmediate(k) => ImmediateAgrees(k, i, st, c);
      case CarryingImmediate(k) => CarryImmediateAgrees(k, i, st, c);
      case Comparison(k) => CompareGroupAgrees(k, i, st, c);
      case Addition(k) => AddAgrees(k, i, st, c);
      case Subtraction(k) => SubtractAgrees(k, i, st, c);
      case Extended(k) => ExtendedAgrees(k, i, st, c);
      case Multiplication(k) => ProductAgrees(k, i, st, c);
      case Division(k) => QuotientAgrees(k, i, st, c);
      case LogicalOperation(k) => LogicalAgrees(k, i, st, c);
      case UnaryOperation(k) => UnaryAgrees(k, i, st, c);
      case Rotation(k) => RotateAgrees(k, i, st, c);
      case LogicalShift(k) => ShiftAgrees(k, i, st, c);
      case AlgebraicShift(k) => AlgebraicAgrees(k, i, st, c);
      case CrBits(k) => CrLogicalAgrees(k, i, st, c);
      case MCRF => MoveFieldAgrees(i, st, c);
      case MCRXR => McrxrAgreesIff(i, st, c);
      case MFCR => MfcrAgrees(i, st, c);
      case MTCRF => MtcrfAgrees(i, st, c);
      case MFSPR(spr) => FromSprAgrees(spr, i, st, c);
      case MTSPR(spr) => ToSprAgrees(spr, i, st, c);
      case Branch(_) =>
    }
  }

  // Branches

  datatype Terminator = Terminator(
    kind: TermKind, linked: bool, guestPc: bv32, condition: nat, targetValue: nat,
    taken: bv32, next: bv32, takenBlock: DolIR.Target, nextBlock: DolIR.Target)

  /** The guest address the terminator continues at. */
  function Continues(t: Terminator, m: Machine): Option<bv32> {
    match t.kind
    case Fallthrough => Some(t.next)
    case Branch => Some(t.taken)
    case CondBranch =>
      var p :- Get(m, t.condition);
      if !p.W1? then None else if p.b then Some(t.taken) else Some(t.next)
    case Indirect =>
      var p :- Get(m, t.condition);
      var target :- Get(m, t.targetValue);
      if !p.W1? || !target.W32? then None else if p.b then Some(target.x) else Some(t.next)
    case _ => None
  }

  function Linked(i: PPCInst, st: SplitState): SplitState { if i.lk then st.(lr := NextAddress(i)) else st }

  /** The lowered code writes the link register whether or not the branch is taken. */
  function LoweredBranch(k: BranchOp, i: PPCInst, st: SplitState): SplitState {
    if k == B then Linked(i, st) else Linked(i, Counted(st, i.bo))
  }

  function LoweredTarget(k: BranchOp, i: PPCInst, st: SplitState): bv32 {
    match k
    case B | BC => i.branchTarget
    case BCLR => Total32(And, st.lr, 0xFFFF_FFFC)
    case BCCTR => Total32(And, Counted(st, i.bo).ctr, 0xFFFF_FFFC)
  }

  predicate LoweredTakes(k: BranchOp, i: PPCInst, st: SplitState) { k == B || LoweredTaken(i, st) }

  method LinkIfNeeded(b: Builder, i: PPCInst)
    requires b.Valid()
    modifies b
    ensures b.Extended()
    ensures forall s {:trigger b.st(s)} :: b.st(s) == Linked(i, old(b.st)(s))
  {
    hide Run, Builder.Has32, NextAddress;
    if i.lk {
      var address := b.C32(NextAddress(i));
      WriteLink(b, address);
    }
  }

  /** `read_slot(LR or CTR) & ~3u` */
  method AlignedTarget(b: Builder, k: BranchOp) returns (v: V32)
    requires b.Valid() && (k == BCLR || k == BCCTR)
    modifies b
    ensures b.Extended() && b.st == old(b.st) && b.Has32(v)
    ensures forall s {:trigger v.x(s)} ::
      v.x(s) == Total32(And, if k == BCLR then b.st(s).lr else b.st(s).ctr, 0xFFFF_FFFC)
  {
    hide Run, Builder.Has32, Total32;
    var target := b.Read32(if k == BCLR then LR else CTR);
    v := CombineWith(b, And, target, 0xFFFF_FFFC);
  }

  /** The code `lower_control` appends, with the condition and target values it leaves. */
  method LowerBranchCode(b: Builder, k: BranchOp, i: PPCInst) returns (condition: V1, target: V32)
    requires b.Valid() && k != B
    modifies b
    ensures b.Extended() && b.Has1(condition) && ((k == BCLR || k == BCCTR) ==> b.Has32(target))
    ensures forall s {:trigger b.st(s)} :: b.st(s) == LoweredBranch(k, i, old(b.st)(s))
    ensures forall s {:trigger condition.b(s)} :: condition.b(s) == LoweredTaken(i, old(b.st)(s))
    ensures (k == BCLR || k == BCCTR) ==>
      forall s {:trigger target.x(s)} :: target.x(s) == LoweredTarget(k, i, old(b.st)(s))
  {
    hide Run, Builder.Has1, Builder.Has32, Total32, Sub32, CounterHolds, CrHolds, NextAddress;
    if k == BC {
      LinkIfNeeded(b, i);
      condition := LowerBranchCondition(b, i);
      target := V32(NO_VALUE, (s: SplitState) => 0);
    } else {
      condition := LowerBranchCondition(b, i);
      target := AlignedTarget(b, k);
      LinkIfNeeded(b, i);
    }
  }

  /** The guest addresses a function covers, one instruction a block. */
  datatype Chunk = Chunk(start: nat, blockCount: nat)

  /** `block_for_address` */
  function BlockFor(chunk: Chunk, address: nat): (t: DolIR.Target)
    ensures forall n: nat :: t == Block(n) <==> n < chunk.blockCount && address == chunk.start + 4 * n
  {
    var offset := address - chunk.start;
    assert offset % 4 == 0 ==> offset == 4 * (offset / 4);
    if offset < 0 || offset >= 4 * chunk.blockCount || offset % 4 != 0 then NoBlock else Block(offset / 4)
  }

  function BlockAt(chunk: Chunk, address: bv32): DolIR.Target { BlockFor(chunk, Number(address)) }

  /** Whether terminator `t` after running `code` continues where the lowered branch goes. */
  ghost predicate ContinuesAt(code: Code, t: Terminator, k: BranchOp, i: PPCInst, before: SplitState -> SplitState) {
    forall s {:trigger before(s)} :: Run(code, Start(s)).Some?
      && Continues(t, Run(code, Start(s)).value)
         == Some(if LoweredTakes(k, i, before(s)) then LoweredTarget(k, i, before(s)) else NextAddress(i))
  }

  /** `direct_target`: the blocks recorded for the targets known when the chunk is built. */
  predicate LeadsTo(t: Terminator, chunk: Chunk, k: BranchOp, i: PPCInst) {
    && t.kind == BranchKind(k) && t.taken == i.branchTarget && t.next == NextAddress(i)
    && t.takenBlock == (if k.B? || k.BC? then BlockAt(chunk, i.branchTarget) else NoBlock)
    && t.nextBlock == (if k.B? then NoBlock else BlockAt(chunk, NextAddress(i)))
  }

  /** `lower_control` */
  method LowerControl(b: Builder, chunk: Chunk, i: PPCInst) returns (t: Terminator)
    requires b.Valid() && i.op.Branch?
    modifies b
    ensures b.Extended()
    ensures forall s {:trigger b.st(s)} :: b.st(s) == LoweredBranch(i.op.branch, i, old(b.st)(s))
    ensures ContinuesAt(b.code, t, i.op.branch, i, old(b.st))
    ensures t.linked == i.lk && t.guestPc == i.address && LeadsTo(t, chunk, i.op.branch, i)
  {
    hide Run, Total32, LoweredTaken, NextAddress, BlockAt, Counted, Get;
    var k := i.op.branch;
    if k == B {
      LinkIfNeeded(b, i);
      t := Terminator(TermKind.Branch, i.lk, i.address, NO_VALUE, NO_VALUE, i.branchTarget, NextAddress(i),
                      BlockAt(chunk, i.branchTarget), NoBlock);
    } else {
      var condition, target := LowerBranchCode(b, k, i);
      t := Terminator(BranchKind(k), i.lk, i.address, condition.id, target.id, i.branchTarget, NextAddress(i),
                      if k == BC then BlockAt(chunk, i.branchTarget) else NoBlock,
                      BlockAt(chunk, NextAddress(i)));
      forall s: SplitState
        ensures Continues(t, Run(b.code, Start(s)).value)
          == Some(if LoweredTaken(i, old(b.st)(s)) then LoweredTarget(k, i, old(b.st)(s)) else NextAddress(i))
      {
        assert Get(Run(b.code, Start(s)).value, condition.id) == Some(W1(condition.b(s)));
        assert k != BC ==> Get(Run(b.code, Start(s)).value, target.id) == Some(W32(target.x(s)));
      }
    }
  }

  function BranchKind(k: BranchOp): TermKind {
    match k
    case B => TermKind.Branch
    case BC => CondBranch
    case BCLR | BCCTR => Indirect
  }

  // The two meanings of a branch

  lemma CountedAgrees(bo: bv32, st: SplitState, c: Context)
    requires Related(st, c)
    ensures Related(Counted(st, bo), CountedDown(bo, c)) && Counted(st, bo).ctr == CountedDown(bo, c).ctr
  {
    hide Nibble, OtherXer, Bit, Sub32;
  }

  lemma CounterAgrees(bo: bv32, ctr: bv32)
    ensures CounterHolds(bo, ctr) == CtrOk(bo, ctr)
  {
  }

  lemma FieldBitAgrees(cr: bv32, bit: Reg)
    ensures FieldBitSet(Nibble(cr, bit / 4), bit) == !Clear(cr, BitMask(bit))
  {
    hide FieldAt, FieldShift, BitMask, PlaceInField, Shl32, And32, Clear;
    BitPlaces(bit);
    FieldShiftDistinct(bit / 4, bit / 4);
    ClearInField(cr, FieldShift(bit / 4), PlaceInField(bit));
  }

  lemma ClearInField(cr: bv32, s: bv32, k: bv32)
    requires s & 3 == 0 && s <= 28 && k <= 3
    ensures (And32(FieldAt(cr, s), Shl32(1, k)) != 0) == !Clear(cr, Shl32(1, s + k))
  {
  }

  lemma TakenAgrees(k: BranchOp, i: PPCInst, st: SplitState, c: Context)
    requires Related(st, c)
    ensures LoweredTakes(k, i, st) == Taken(k, i, c)
  {
    hide Related, CounterHolds, CtrOk, FieldBitSet, Clear, Counted, CountedDown, BitMask;
    CountedAgrees(i.bo, st, c);
    CounterAgrees(i.bo, Counted(st, i.bo).ctr);
    FieldOf(st, c, i.bi / 4);
    FieldBitAgrees(c.cr, i.bi);
  }

  /** Branch decisions agree; the states agree exactly when an untaken linking branch would
      have rewritten the link register with the value it already has. */
  lemma BranchAgreesIff(k: BranchOp, i: PPCInst, st: SplitState, c: Context)
    requires Related(st, c)
    ensures LoweredTakes(k, i, st) == Taken(k, i, c)
    ensures Related(LoweredBranch(k, i, st), AfterBranch(k, i, c))
      <==> (i.lk && !Taken(k, i, c) ==> c.lr == NextAddress(i))
  {
    hide Related, Counted, CountedDown, Taken, LoweredTaken, NextAddress;
    TakenAgrees(k, i, st, c);
    CountedAgrees(i.bo, st, c);
    var before := if k == B then st else Counted(st, i.bo);
    var after := if k == B then c else CountedDown(i.bo, c);
    SameLink(i.bo, c);
    LinkAgreesIff(before, after, NextAddress(i));
    TakenUnconditional(i, c);
  }

  lemma TakenUnconditional(i: PPCInst, c: Context)
    ensures Taken(B, i, c)
  {
  }

  lemma SameLink(bo: bv32, c: Context)
    ensures CountedDown(bo, c).lr == c.lr
  {
  }

  lemma LinkAgreesIff(st: SplitState, c: Context, x: bv32)
    requires Related(st, c)
    ensures Related(st.(lr := x), c.(lr := x)) && (Related(st.(lr := x), c) <==> c.lr == x)
  {
    hide Nibble, OtherXer, Bit;
  }

  /** The lowering reads the bcctr target after counting CTR down, the emitted C before. */
  lemma TargetAgreesIff(k: BranchOp, i: PPCInst, st: SplitState, c: Context)
    requires Related(st, c)
    ensures LoweredTarget(k, i, st) == BranchTarget(k, i, c)
      <==> (k == BCCTR && i.bo & 4 == 0 ==> WordAligned(Sub32(c.ctr, 1)) == WordAligned(c.ctr))
  {
    hide Related, Total32, And32, Sub32;
    LinkAndCount(st, c);
    AndWord(st.lr, 0xFFFF_FFFC);
    AndWord(Counted(st, i.bo).ctr, 0xFFFF_FFFC);
  }

  // A whole chunk

  datatype IrBlock = IrBlock(code: Code, terminator: Terminator)

  /** What the builder leaves to the fallback interpreter: data words and OE forms.  Additions and
      subtractions are refused by their OE bit, the other OE forms by opcodes the lowering does not
      know. */
  predicate FallsBack(i: PPCInst) { i.embedded || i.oe }

  /** `normal_fallthrough` */
  function FallthroughTo(i: PPCInst, n: nat, count: nat): Terminator {
    Terminator(Fallthrough, false, i.address, NO_VALUE, NO_VALUE, 0, NextAddress(i), NoBlock,
               if n + 1 < count then Block(n + 1) else NoBlock)
  }

  /** What every run of block `n` does, whatever state it is entered with. */
  ghost predicate BlockLowers(block: IrBlock, chunk: Chunk, insts: seq<PPCInst>, n: nat)
    requires n < |insts|
  {
    var i, t := insts[n], block.terminator;
    if i.embedded || i.oe then block.code == [] && t.kind == TermKind.Fallback && t.guestPc == i.address
    else
      && (forall s {:trigger Run(block.code, Start(s))} :: Run(block.code, Start(s)).Some?
           && Run(block.code, Start(s)).value.st
              == if i.op.Branch? then LoweredBranch(i.op.branch, i, s) else Lowered(i, s))
      && (if i.op.Branch? then
            t.linked == i.lk && ContinuesAt(block.code, t, i.op.branch, i, s => s) && LeadsTo(t, chunk, i.op.branch, i)
          else t == FallthroughTo(i, n, |insts|))
  }

  method BuildBlock(chunk: Chunk, insts: seq<PPCInst>, n: nat, first: nat) returns (block: IrBlock, next: nat)
    requires n < |insts|
    ensures BlockLowers(block, chunk, insts, n) && first <= next
  {
    hide Lowered, LoweredBranch, NextAddress, BlockAt, LeadsTo;
    var i := insts[n];
    if FallsBack(i) {
      block := IrBlock([], FallthroughTo(i, n, |insts|).(kind := TermKind.Fallback));
      next := first;
      return;
    }
    var b := new Builder(first);
    if i.op.Branch? {
      var t := LowerControl(b, chunk, i);
      block := IrBlock(b.code, t);
    } else {
      var lowered := LowerIntegerOp(b, i);
      if !lowered { LowerStateOp(b, i); }
      block := IrBlock(b.code, FallthroughTo(i, n, |insts|));
    }
    next := b.next;
  }

  /** `dolir_build_chunk` */
  method BuildChunk(start: nat, insts: seq<PPCInst>) returns (blocks: seq<IrBlock>)
    ensures |blocks| == |insts|
    ensures forall n | 0 <= n < |insts| :: BlockLowers(blocks[n], Chunk(start, |insts|), insts, n)
  {
    blocks := [];
    var next := 1;
    var chunk := Chunk(start, |insts|);
    for n := 0 to |insts|
      invariant |blocks| == n
      invariant forall k | 0 <= k < n :: BlockLowers(blocks[k], chunk, insts, k)
    {
      var block;
      block, next := BuildBlock(chunk, insts, n, next);
      blocks := blocks + [block];
    }
  }
}
