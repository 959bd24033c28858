/** `lower_integer` and the CR and SPR part of `lower_state` (src/ir/dolir_builder.c).  Each
    method appends the code of one group of opcodes; the `Lowered` functions say what that
    code does to the split state, in the builder's own word operations. */
module LowerInteger {
  import opened DolIR
  import opened SplitMachine
  import opened EmittedC
  import opened Lowering

  /** The DolIR operation an immediate logical opcode is lowered to. */
  function ImmediateLogic(k: ImmediateOp): Op {
    match k
    case ORI | ORIS => Op.Or
    case XORI | XORIS => Xor
    case _ => And
  }

  function LoweredImmediate(k: ImmediateOp, i: PPCInst, st: SplitState): SplitState {
    var rA, imm := st.gpr[i.rA], ImmediateWord(k, i);
    match k
    case MULLI => WithGpr(st, i.rD, Low32(Total64(Mul, SignExtend(rA), SignExtend(i.simm))))
    case ADDI | ADDIS =>
      if i.rA == 0 then WithGpr(st, i.rD, Total32(Add, 0, imm)) else WithGpr(st, i.rD, Total32(Add, rA, imm))
    case _ => Written(st, i.rA, ImmediateLogic(k) == And, Total32(ImmediateLogic(k), st.gpr[i.rS], imm))
  }

  method LowerMultiplyImmediate(b: Builder, k: ImmediateOp, i: PPCInst)
    requires b.Valid()
    modifies b
    ensures b.Extended()
    ensures forall s {:trigger b.st(s)} ::
      b.st(s) == WithGpr(old(b.st)(s), i.rD,
                         Low32(Total64(Mul, SignExtend(old(b.st)(s).gpr[i.rA]), SignExtend(i.simm))))
  {
    hide Run, Builder.Has32, Builder.Has64, Total64, Low32, SignExtend;
    var a := b.Gpr(i.rA);
    var wideA := b.WidenSigned(a);
    var c := b.C64(SignExtend(i.simm));
    var product := b.Binary64(Mul, wideA, c);
    var result := b.LowWord(product);
    b.SetGpr(i.rD, result);
  }

  method LowerAddImmediate(b: Builder, k: ImmediateOp, i: PPCInst)
    requires b.Valid()
    modifies b
    ensures b.Extended()
    ensures forall s {:trigger b.st(s)} ::
      b.st(s) == if i.rA == 0 then WithGpr(old(b.st)(s), i.rD, Total32(Add, 0, ImmediateWord(k, i)))
                 else WithGpr(old(b.st)(s), i.rD, Total32(Add, old(b.st)(s).gpr[i.rA], ImmediateWord(k, i)))
  {
    hide Run, Builder.Has32, Total32, ImmediateWord;
    var a;
    if i.rA != 0 { a := b.Gpr(i.rA); } else { a := b.C32(0); }
    var c := b.C32(ImmediateWord(k, i));
    var sum := b.Binary32(Add, a, c);
    b.SetGpr(i.rD, sum);
  }

  method LowerLogicImmediate(b: Builder, k: ImmediateOp, i: PPCInst)
    requires b.Valid()
    modifies b
    ensures b.Extended()
    ensures forall s {:trigger b.st(s)} ::
      b.st(s) == Written(old(b.st)(s), i.rA, ImmediateLogic(k) == And,
                         Total32(ImmediateLogic(k), old(b.st)(s).gpr[i.rS], ImmediateWord(k, i)))
  {
    hide Run, Builder.Has32, Total32, ImmediateWord, Written;
    var a := b.Gpr(i.rS);
    var imm := b.C32(ImmediateWord(k, i));
    var result := b.Binary32(ImmediateLogic(k), a, imm);
    b.WriteResult(i.rA, result, ImmediateLogic(k) == And);
  }

  method LowerImmediate(b: Builder, k: ImmediateOp, i: PPCInst)
    requires b.Valid()
    modifies b
    ensures b.Extended()
    ensures forall s {:trigger b.st(s)} :: b.st(s) == LoweredImmediate(k, i, old(b.st)(s))
  {
    hide Run, Builder.Has32, Total32, Total64, Low32, SignExtend, ImmediateWord, Written, WithGpr, ImmediateLogic;
    if k == MULLI {
      LowerMultiplyImmediate(b, k, i);
    } else if k == ADDI || k == ADDIS {
      LowerAddImmediate(b, k, i);
    } else {
      LowerLogicImmediate(b, k, i);
    }
  }

  function LoweredCarryImmediate(k: CarryImmediateOp, i: PPCInst, st: SplitState): SplitState {
    if k == SUBFIC then CarryResult(st, i.rD, AddCarry64(Not32(st.gpr[i.rA]), i.simm, 1), false)
    else CarryResult(st, i.rD, Sum64(st.gpr[i.rA], i.simm), k == ADDIC_DOT)
  }

  method LowerCarryImmediate(b: Builder, k: CarryImmediateOp, i: PPCInst)
    requires b.Valid()
    modifies b
    ensures b.Extended()
    ensures forall s {:trigger b.st(s)} :: b.st(s) == LoweredCarryImmediate(k, i, old(b.st)(s))
  {
    hide Run, Builder.Has1, Builder.Has32, Builder.Has64;
    hide AddCarry64, Sum64, Not32, CarryResult;
    if k == SUBFIC {
      var a := b.Gpr(i.rA);
      var notA := b.NotWord(a);
      var c := b.C32(i.simm);
      var one := b.C32(1);
      var wide := b.AddWideWithCarry(notA, c, one);
      b.WriteCarryResult(i.rD, wide, false);
    } else {
      var a := b.Gpr(i.rA);
      var c := b.C32(i.simm);
      var wide := b.AddWide(a, c);
      b.WriteCarryResult(i.rD, wide, k == ADDIC_DOT);
    }
  }

  function WithField(st: SplitState, field: Field, bits: bv32): SplitState { st.(crf := st.crf[field := bits]) }

  function LoweredCompare(k: CompareOp, i: PPCInst, st: SplitState): SplitState {
    var a := st.gpr[i.rA];
    match k
    case CMPI => WithField(st, i.crfD, FieldBits(a, i.simm, true, st.so))
    case CMPLI => WithField(st, i.crfD, FieldBits(a, i.uimm, false, st.so))
    case _ => WithField(st, i.crfD, FieldBits(a, st.gpr[i.rB], k == CMP, st.so))
  }

  method LowerCompare(b: Builder, k: CompareOp, i: PPCInst)
    requires b.Valid()
    modifies b
    ensures b.Extended()
    ensures forall s {:trigger b.st(s)} :: b.st(s) == LoweredCompare(k, i, old(b.st)(s))
  {
    hide Run, Builder.Has1, Builder.Has32, Builder.Has64, FieldBits;
    var a := b.Gpr(i.rA);
    var c;
    if k == CMPI {
      c := b.C32(i.simm);
    } else if k == CMPLI {
      c := b.C32(i.uimm);
    } else {
      c := b.Gpr(i.rB);
    }
    b.SetCrField(i.crfD, a, c, k == CMPI || k == CMP);
  }

  function LoweredAdd(k: AddOp, i: PPCInst, st: SplitState): SplitState {
    var a, c := st.gpr[i.rA], st.gpr[i.rB];
    match k
    case ADD => Written(st, i.rD, i.rc, Total32(Add, a, c))
    case ADDC => CarryResult(st, i.rD, Sum64(a, c), i.rc)
    case _ => CarryResult(st, i.rD, AddCarry64(a, c, Flag(st.ca)), i.rc)
  }

  method LowerAdd(b: Builder, k: AddOp, i: PPCInst)
    requires b.Valid()
    modifies b
    ensures b.Extended()
    ensures forall s {:trigger b.st(s)} :: b.st(s) == LoweredAdd(k, i, old(b.st)(s))
  {
    hide Run, Builder.Has1, Builder.Has32, Builder.Has64;
    hide AddCarry64, Sum64, CarryResult, Written, Total32, Flag;
    var a := b.Gpr(i.rA);
    var c := b.Gpr(i.rB);
    if k == ADD {
      var result := b.Binary32(Add, a, c);
      b.WriteResult(i.rD, result, i.rc);
    } else if k == ADDC {
      var wide := b.AddWide(a, c);
      b.WriteCarryFirst(i.rD, wide, i.rc);
    } else {
      var wide := b.AddWide(a, c);
      var ca := b.XerCa();
      wide := b.AddCarryWord(wide, a, c, ca);
      b.WriteCarryFirst(i.rD, wide, i.rc);
    }
  }

  function LoweredSubtract(k: SubtractOp, i: PPCInst, st: SplitState): SplitState {
    var a, c := st.gpr[i.rA], st.gpr[i.rB];
    match k
    case SUBF => Written(st, i.rD, i.rc, Total32(Sub, c, a))
    case SUBFC => CarryResult(st, i.rD, AddCarry64(Not32(a), c, 1), i.rc)
    case _ => CarryResult(st, i.rD, AddCarry64(Not32(a), c, Flag(st.ca)), i.rc)
  }

  method LowerPlainSubtract(b: Builder, k: SubtractOp, i: PPCInst)
    requires b.Valid()
    modifies b
    ensures b.Extended()
    ensures forall s {:trigger b.st(s)} ::
      b.st(s) == Written(old(b.st)(s), i.rD, i.rc, Total32(Sub, old(b.st)(s).gpr[i.rB], old(b.st)(s).gpr[i.rA]))
  {
    hide Run, Builder.Has32, Written, Total32;
    var a := b.Gpr(i.rA);
    var c := b.Gpr(i.rB);
    var result := b.Binary32(Sub, c, a);
    b.WriteResult(i.rD, result, i.rc);
  }

  method LowerCarrySubtract(b: Builder, k: SubtractOp, i: PPCInst)
    requires b.Valid() && (k == SUBFC || k == SUBFE)
    modifies b
    ensures b.Extended()
    ensures forall s {:trigger b.st(s)} :: b.st(s) == LoweredSubtract(k, i, old(b.st)(s))
  {
    hide Run, Builder.Has32, Builder.Has64, AddCarry64, Sum64, CarryResult, Flag, Not32, Written, Total32;
    var a := b.Gpr(i.rA);
    var c := b.Gpr(i.rB);
    var notA := b.NotWord(a);
    var wide := b.AddWide(notA, c);
    var carryIn;
    if k == SUBFC { carryIn := b.C32(1); } else { carryIn := b.XerCa(); }
    wide := b.AddCarryWord(wide, notA, c, carryIn);
    b.WriteCarryFirst(i.rD, wide, i.rc);
  }

  method LowerSubtract(b: Builder, k: SubtractOp, i: PPCInst)
    requires b.Valid()
    modifies b
    ensures b.Extended()
    ensures forall s {:trigger b.st(s)} :: b.st(s) == LoweredSubtract(k, i, old(b.st)(s))
  {
    hide Run, AddCarry64, CarryResult, Flag, Not32, Written, Total32;
    if k == SUBF { LowerPlainSubtract(b, k, i); } else { LowerCarrySubtract(b, k, i); }
  }

  function ComplementIf(complement: bool, x: bv32): bv32 { if complement then Not32(x) else x }

  function AllOnesIf(p: bool): bv32 { if p then 0xFFFF_FFFF else 0 }

  function LoweredExtended(k: ExtendedOp, i: PPCInst, st: SplitState): SplitState {
    var a := st.gpr[i.rA];
    if k == NEG then Written(st, i.rD, i.rc, Total32(Sub, 0, a))
    else
      CarryResult(st, i.rD, AddCarry64(ComplementIf(k == SUBFME || k == SUBFZE, a),
                                       AllOnesIf(k == ADDME || k == SUBFME), Flag(st.ca)), i.rc)
  }

  method LowerNegate(b: Builder, k: ExtendedOp, i: PPCInst)
    requires b.Valid()
    modifies b
    ensures b.Extended()
    ensures forall s {:trigger b.st(s)} ::
      b.st(s) == Written(old(b.st)(s), i.rD, i.rc, Total32(Sub, 0, old(b.st)(s).gpr[i.rA]))
  {
    hide Run, Builder.Has32, Written, Total32;
    var zero := b.C32(0);
    var a := b.Gpr(i.rA);
    var result := b.Binary32(Sub, zero, a);
    b.WriteResult(i.rD, result, i.rc);
  }

  /** The operands of the additions with an implicit operand. */
  method ExtendedOperands(b: Builder, k: ExtendedOp, i: PPCInst) returns (a: V32, c: V32)
    requires b.Valid()
    modifies b
    ensures b.Extended() && b.st == old(b.st) && b.Has32(a) && b.Has32(c)
    ensures forall s {:trigger a.x(s)} :: a.x(s) == ComplementIf(k == SUBFME || k == SUBFZE, b.st(s).gpr[i.rA])
    ensures forall s {:trigger c.x(s)} :: c.x(s) == AllOnesIf(k == ADDME || k == SUBFME)
  {
    hide Run, Builder.Has32, Not32;
    a := b.Gpr(i.rA);
    if k == SUBFME || k == SUBFZE { a := b.NotWord(a); }
    if k == ADDME || k == SUBFME { c := b.C32(0xFFFF_FFFF); } else { c := b.C32(0); }
  }

  method LowerExtended(b: Builder, k: ExtendedOp, i: PPCInst)
    requires b.Valid()
    modifies b
    ensures b.Extended()
    ensures forall s {:trigger b.st(s)} :: b.st(s) == LoweredExtended(k, i, old(b.st)(s))
  {
    hide Run, Builder.Has32, Builder.Has64, AddCarry64, CarryResult, Written, Total32, Flag, ComplementIf, AllOnesIf;
    if k == NEG {
      LowerNegate(b, k, i);
    } else {
      var a, c := ExtendedOperands(b, k, i);
      var ca := b.XerCa();
      var wide := b.AddWideWithCarry(a, c, ca);
      b.WriteCarryResult(i.rD, wide, i.rc);
    }
  }

  function Widened(k: MultiplyOp, x: bv32): bv64 { if k == MULHWU then Zext64(x) else SignExtend(x) }

  function ProductPart(k: MultiplyOp, product: bv64): bv32 {
    if k == MULLW then Low32(product) else Low32(LShr64(product, 32))
  }

  function LoweredProduct(k: MultiplyOp, i: PPCInst, st: SplitState): SplitState {
    var product := Total64(Mul, Widened(k, st.gpr[i.rA]), Widened(k, st.gpr[i.rB]));
    Written(st, i.rD, i.rc, ProductPart(k, product))
  }

  method WidenFactor(b: Builder, k: MultiplyOp, r: Reg) returns (v: V64)
    requires b.Valid()
    modifies b
    ensures b.Extended() && b.st == old(b.st) && b.Has64(v)
    ensures forall s {:trigger v.y(s)} :: v.y(s) == Widened(k, b.st(s).gpr[r])
  {
    hide Run, Builder.Has32, Builder.Has64, Zext64, SignExtend;
    var a := b.Gpr(r);
    if k == MULHWU { v := b.Widen(a); } else { v := b.WidenSigned(a); }
  }

  method ProductResult(b: Builder, k: MultiplyOp, product: V64) returns (v: V32)
    requires b.Valid() && b.Has64(product)
    modifies b
    ensures b.Extended() && b.st == old(b.st) && b.Has32(v)
    ensures forall s {:trigger v.x(s)} :: v.x(s) == ProductPart(k, product.y(s))
  {
    hide Run, Builder.Has32, Builder.Has64, Low32, LShr64;
    var part := product;
    if k != MULLW { part := b.HighWord(part); }
    v := b.LowWord(part);
  }

  method LowerProduct(b: Builder, k: MultiplyOp, i: PPCInst)
    requires b.Valid()
    modifies b
    ensures b.Extended()
    ensures forall s {:trigger b.st(s)} :: b.st(s) == LoweredProduct(k, i, old(b.st)(s))
  {
    hide Run, Builder.Has32, Builder.Has64, Total64, Written, Widened, ProductPart;
    var a := WidenFactor(b, k, i.rA);
    var c := WidenFactor(b, k, i.rB);
    var product := b.Binary64(Mul, a, c);
    var result := ProductResult(b, k, product);
    b.WriteResult(i.rD, result, i.rc);
  }

  /** The operands a divide instruction has no defined quotient for. */
  predicate InvalidDivision(k: DivideOp, a: bv32, c: bv32) { c == 0 || (k == DIVW && DivisionOverflows(a, c)) }

  function DivisionOp(k: DivideOp): Op { if k == DIVW then SDiv else UDiv }

  function SafeQuotient(k: DivideOp, a: bv32, c: bv32, invalid: bool): bv32 {
    Divided32(DivisionOp(k), a, Choose(invalid, 1, c))
  }

  function InvalidQuotient(k: DivideOp, a: bv32): bv32 {
    if k == DIVW then Choose(SignedLess(a, 0), 0xFFFF_FFFF, 0) else 0
  }

  function QuotientWord(k: DivideOp, a: bv32, c: bv32): bv32 {
    var invalid := InvalidDivision(k, a, c);
    Choose(invalid, InvalidQuotient(k, a), SafeQuotient(k, a, c, invalid))
  }

  function LoweredQuotient(k: DivideOp, i: PPCInst, st: SplitState): SplitState {
    Written(st, i.rD, i.rc, QuotientWord(k, st.gpr[i.rA], st.gpr[i.rB]))
  }

  lemma SafeDivisor(k: DivideOp, a: bv32, c: bv32)
    ensures Choose(InvalidDivision(k, a, c), 1, c) != 0
    ensures k == DIVW ==> !DivisionOverflows(a, Choose(InvalidDivision(k, a, c), 1, c))
  {
  }

  /** `a == bits` */
  method EqualsWord(b: Builder, a: V32, bits: bv32) returns (v: V1)
    requires b.Valid() && b.Has32(a)
    modifies b
    ensures b.Extended() && b.st == old(b.st) && b.Has1(v)
    ensures forall s {:trigger v.b(s)} :: v.b(s) == (a.x(s) == bits)
  {
    hide Run, Builder.Has1, Builder.Has32;
    var c := b.C32(bits);
    v := b.Compare32(ICmpEq, a, c);
  }

  method DivisionInvalid(b: Builder, k: DivideOp, a: V32, c: V32) returns (v: V1)
    requires b.Valid() && b.Has32(a) && b.Has32(c)
    modifies b
    ensures b.Extended() && b.st == old(b.st) && b.Has1(v)
    ensures forall s {:trigger v.b(s)} :: v.b(s) == InvalidDivision(k, a.x(s), c.x(s))
  {
    hide Run, Builder.Has1, Builder.Has32;
    v := EqualsWord(b, c, 0);
    if k == DIVW {
      var min := EqualsWord(b, a, 0x8000_0000);
      var negOne := EqualsWord(b, c, 0xFFFF_FFFF);
      var overflow := b.And1(min, negOne);
      v := b.Or1(v, overflow);
    }
  }

  method DivideSafely(b: Builder, k: DivideOp, a: V32, c: V32, invalid: V1) returns (v: V32)
    requires b.Valid() && b.Has32(a) && b.Has32(c) && b.Has1(invalid)
    requires forall s {:trigger invalid.b(s)} :: invalid.b(s) == InvalidDivision(k, a.x(s), c.x(s))
    modifies b
    ensures b.Extended() && b.st == old(b.st) && b.Has32(v)
    ensures forall s {:trigger v.x(s)} :: v.x(s) == SafeQuotient(k, a.x(s), c.x(s), invalid.b(s))
  {
    hide Run, Builder.Has1, Builder.Has32, Choose, Divided32, DivisionOverflows, InvalidDivision;
    var one := b.C32(1);
    var divisor := b.Select32(invalid, one, c);
    forall s: SplitState
      ensures divisor.x(s) != 0 && (k == DIVW ==> !DivisionOverflows(a.x(s), divisor.x(s)))
    {
      SafeDivisor(k, a.x(s), c.x(s));
    }
    v := b.Divide32(DivisionOp(k), a, divisor);
  }

  method QuotientIfInvalid(b: Builder, k: DivideOp, a: V32) returns (v: V32)
    requires b.Valid() && b.Has32(a)
    modifies b
    ensures b.Extended() && b.st == old(b.st) && b.Has32(v)
    ensures forall s {:trigger v.x(s)} :: v.x(s) == InvalidQuotient(k, a.x(s))
  {
    hide Run, Builder.Has1, Builder.Has32, Choose, SignedLess;
    v := b.C32(0);
    if k == DIVW {
      var negative := b.Compare32(ICmpSlt, a, v);
      v := b.SelectBit(negative, 0xFFFF_FFFF);
    }
  }

  method LowerQuotient(b: Builder, k: DivideOp, i: PPCInst)
    requires b.Valid()
    modifies b
    ensures b.Extended()
    ensures forall s {:trigger b.st(s)} :: b.st(s) == LoweredQuotient(k, i, old(b.st)(s))
  {
    hide Run, Builder.Has1, Builder.Has32, Choose, SafeQuotient, InvalidQuotient, InvalidDivision, Written;
    var a := b.Gpr(i.rA);
    var c := b.Gpr(i.rB);
    var invalid := DivisionInvalid(b, k, a, c);
    var divided := DivideSafely(b, k, a, c, invalid);
    var otherwise := QuotientIfInvalid(b, k, a);
    var result := b.Select32(invalid, otherwise, divided);
    b.WriteResult(i.rD, result, i.rc);
  }

  predicate ComplementsRight(k: LogicalOp) { k == ANDC || k == ORC }

  predicate ComplementsResult(k: LogicalOp) { k == NAND || k == NOR || k == EQV }

  function LogicOp(k: LogicalOp): Op {
    match k
    case AND | ANDC | NAND => And
    case OR | ORC | NOR => Op.Or
    case XOR | EQV => Xor
  }

  function LoweredLogical(k: LogicalOp, i: PPCInst, st: SplitState): SplitState {
    var r := Total32(LogicOp(k), st.gpr[i.rS], ComplementIf(ComplementsRight(k), st.gpr[i.rB]));
    Written(st, i.rA, i.rc, ComplementIf(ComplementsResult(k), r))
  }

  method NotIf(b: Builder, complement: bool, a: V32) returns (v: V32)
    requires b.Valid() && b.Has32(a)
    modifies b
    ensures b.Extended() && b.st == old(b.st) && b.Has32(v)
    ensures forall s {:trigger v.x(s)} :: v.x(s) == ComplementIf(complement, a.x(s))
  {
    hide Run, Builder.Has32, Not32;
    v := a;
    if complement { v := b.NotWord(a); }
  }

  method LowerLogical(b: Builder, k: LogicalOp, i: PPCInst)
    requires b.Valid()
    modifies b
    ensures b.Extended()
    ensures forall s {:trigger b.st(s)} :: b.st(s) == LoweredLogical(k, i, old(b.st)(s))
  {
    hide Run, Builder.Has1, Builder.Has32, Builder.Has64, ComplementIf, Total32, Written, ComplementsRight,
      ComplementsResult;
    var a := b.Gpr(i.rS);
    var c := b.Gpr(i.rB);
    c := NotIf(b, ComplementsRight(k), c);
    var result := b.Binary32(LogicOp(k), a, c);
    result := NotIf(b, ComplementsResult(k), result);
    b.WriteResult(i.rA, result, i.rc);
  }

  function LoweredUnary(k: UnaryOp, i: PPCInst, st: SplitState): SplitState {
    var x := st.gpr[i.rS];
    match k
    case EXTSB => Written(st, i.rA, i.rc, ExtendByte(Low8(x)))
    case EXTSH => Written(st, i.rA, i.rc, ExtendHalf(Low16(x)))
    case _ => Written(st, i.rA, i.rc, Clz32(x))
  }

  method LowerUnary(b: Builder, k: UnaryOp, i: PPCInst)
    requires b.Valid()
    modifies b
    ensures b.Extended()
    ensures forall s {:trigger b.st(s)} :: b.st(s) == LoweredUnary(k, i, old(b.st)(s))
  {
    hide Run, Builder.Has1, Builder.Has32, Builder.Has64, Written, ExtendByte, ExtendHalf, Low8, Low16, Clz32;
    var a := b.Gpr(i.rS);
    var result;
    if k == EXTSB {
      result := b.SignExtendByte(a);
    } else if k == EXTSH {
      result := b.SignExtendHalf(a);
    } else {
      result := b.CountZeros(a);
    }
    b.WriteResult(i.rA, result, i.rc);
  }

  function Rotated(k: RotateOp, i: PPCInst, st: SplitState): bv32 {
    Total32(Rotl, st.gpr[i.rS], if k == RLWNM then st.gpr[i.rB] else i.sh)
  }

  function LoweredRotate(k: RotateOp, i: PPCInst, st: SplitState): SplitState {
    var mask := PpcMask(i.mb, i.me);
    var masked := Total32(And, Rotated(k, i, st), mask);
    if k == RLWIMI then
      Written(st, i.rA, i.rc, Total32(Op.Or, Total32(And, st.gpr[i.rA], Not32(mask)), masked))
    else Written(st, i.rA, i.rc, masked)
  }

  method RotateWord(b: Builder, k: RotateOp, i: PPCInst) returns (v: V32)
    requires b.Valid()
    modifies b
    ensures b.Extended() && b.st == old(b.st) && b.Has32(v)
    ensures forall s {:trigger v.x(s)} :: v.x(s) == Rotated(k, i, b.st(s))
  {
    hide Run, Builder.Has32, Total32;
    var shift;
    if k == RLWNM { shift := b.Gpr(i.rB); } else { shift := b.C32(i.sh); }
    var value := b.Gpr(i.rS);
    v := b.Binary32(Rotl, value, shift);
  }

  /** The bits of `rA` outside the mask, joined with the inserted ones. */
  method KeepOutside(b: Builder, r: Reg, mask: bv32, inserted: V32) returns (v: V32)
    requires b.Valid() && b.Has32(inserted)
    modifies b
    ensures b.Extended() && b.st == old(b.st) && b.Has32(v)
    ensures forall s {:trigger v.x(s)} ::
      v.x(s) == Total32(Op.Or, Total32(And, b.st(s).gpr[r], Not32(mask)), inserted.x(s))
  {
    hide Run, Builder.Has32, Total32, Not32;
    var original := b.Gpr(r);
    var outside := b.C32(Not32(mask));
    var kept := b.Binary32(And, original, outside);
    v := b.Binary32(Op.Or, kept, inserted);
  }

  method LowerRotate(b: Builder, k: RotateOp, i: PPCInst)
    requires b.Valid()
    modifies b
    ensures b.Extended()
    ensures forall s {:trigger b.st(s)} :: b.st(s) == LoweredRotate(k, i, old(b.st)(s))
  {
    hide Run, Builder.Has32, Written, Total32, PpcMask, Not32, Rotated;
    var result := RotateWord(b, k, i);
    var mask := PpcMask(i.mb, i.me);
    result := MaskWord(b, result, mask);
    if k == RLWIMI { result := KeepOutside(b, i.rA, mask, result); }
    b.WriteResult(i.rA, result, i.rc);
  }

  function ShiftKind(k: ShiftOp): Op { if k == SLW then Shl else LShr }

  function ShiftWord(k: ShiftOp, x: bv32, n: bv32): bv32 {
    var sh := Total32(And, n, 0x3F);
    Choose(Less32(31, sh), 0, Shifted32(ShiftKind(k), x, Total32(And, sh, 31)))
  }

  function LoweredShift(k: ShiftOp, i: PPCInst, st: SplitState): SplitState {
    Written(st, i.rA, i.rc, ShiftWord(k, st.gpr[i.rS], st.gpr[i.rB]))
  }

  lemma MaskedShiftInRange(n: bv32)
    ensures ShiftInRange(Total32(And, n, 31))
  {
  }

  /** `value & bits` */
  method MaskWord(b: Builder, a: V32, bits: bv32) returns (v: V32)
    requires b.Valid() && b.Has32(a)
    modifies b
    ensures b.Extended() && b.st == old(b.st) && b.Has32(v)
    ensures forall s {:trigger v.x(s)} :: v.x(s) == Total32(And, a.x(s), bits)
  {
    hide Run, Builder.Has32, Total32;
    var c := b.C32(bits);
    v := b.Binary32(And, a, c);
  }

  /** `31 < sh` */
  method TooBig(b: Builder, sh: V32) returns (v: V1)
    requires b.Valid() && b.Has32(sh)
    modifies b
    ensures b.Extended() && b.st == old(b.st) && b.Has1(v)
    ensures forall s {:trigger v.b(s)} :: v.b(s) == Less32(31, sh.x(s))
  {
    hide Run, Builder.Has1, Builder.Has32, Less32;
    var limit := b.C32(31);
    v := b.Compare32(ICmpUlt, limit, sh);
  }

  /** A shift by the low five bits of `sh`. */
  method ShiftLow(b: Builder, op: Op, value: V32, sh: V32) returns (v: V32)
    requires b.Valid() && b.Has32(value) && b.Has32(sh)
    requires op == Shl || op == LShr
    modifies b
    ensures b.Extended() && b.st == old(b.st) && b.Has32(v)
    ensures forall s {:trigger v.x(s)} :: v.x(s) == Shifted32(op, value.x(s), Total32(And, sh.x(s), 31))
  {
    hide Run, Builder.Has32, Total32, Shifted32, ShiftInRange;
    var safe := MaskWord(b, sh, 31);
    forall s: SplitState ensures ShiftInRange(safe.x(s)) { MaskedShiftInRange(sh.x(s)); }
    v := b.Shift32(op, value, safe);
  }

  /** The shifted value, or zero when the amount is too big. */
  method ShiftOrZero(b: Builder, op: Op, value: V32, sh: V32, tooBig: V1) returns (v: V32)
    requires b.Valid() && b.Has32(value) && b.Has32(sh) && b.Has1(tooBig)
    requires op == Shl || op == LShr
    modifies b
    ensures b.Extended() && b.st == old(b.st) && b.Has32(v)
    ensures forall s {:trigger v.x(s)} ::
      v.x(s) == Choose(tooBig.b(s), 0, Shifted32(op, value.x(s), Total32(And, sh.x(s), 31)))
  {
    hide Run, Builder.Has1, Builder.Has32, Total32, Shifted32, Choose;
    var shifted := ShiftLow(b, op, value, sh);
    var zero := b.C32(0);
    v := b.Select32(tooBig, zero, shifted);
  }

  method LowerShift(b: Builder, k: ShiftOp, i: PPCInst)
    requires b.Valid()
    modifies b
    ensures b.Extended()
    ensures forall s {:trigger b.st(s)} :: b.st(s) == LoweredShift(k, i, old(b.st)(s))
  {
    hide Run, Builder.Has1, Builder.Has32, Written, Total32, Less32, Shifted32, Choose;
    var amount := b.Gpr(i.rB);
    var sh := MaskWord(b, amount, 0x3F);
    var tooBig := TooBig(b, sh);
    var value := b.Gpr(i.rS);
    var result := ShiftOrZero(b, ShiftKind(k), value, sh, tooBig);
    b.WriteResult(i.rA, result, i.rc);
  }

  function AlgebraicWord(x: bv32, sh: bv32): bv32 {
    Choose(Less32(31, sh), Choose(SignedLess(x, 0), 0xFFFF_FFFF, 0), Shifted32(AShr, x, Total32(And, sh, 31)))
  }

  /** Whether `x` has a one bit below bit `k` (counted from the right). */
  predicate LostBelow(x: bv32, k: bv32) {
    Total32(And, x, Total32(Sub, Shifted32(Shl, 1, k), 1)) != 0
  }

  predicate AlgebraicCa(x: bv32, sh: bv32) {
    if Less32(31, sh) then SignedLess(x, 0) else SignedLess(x, 0) && LostBelow(x, Total32(And, sh, 31))
  }

  function WrittenWithCarry(st: SplitState, r: Reg, record: bool, x: bv32, ca: bool): SplitState {
    RecordIf(WithGpr(st, r, x).(ca := ca), record, x)
  }

  function AlgebraicAmountOf(k: AlgebraicOp, i: PPCInst, st: SplitState): bv32 {
    if k == SRAWI then i.sh else Total32(And, st.gpr[i.rB], 0x3F)
  }

  function LoweredAlgebraic(k: AlgebraicOp, i: PPCInst, st: SplitState): SplitState {
    var x, sh := st.gpr[i.rS], AlgebraicAmountOf(k, i, st);
    WrittenWithCarry(st, i.rA, i.rc, AlgebraicWord(x, sh), AlgebraicCa(x, sh))
  }

  /** The bits an algebraic shift loses, as a flag. */
  method LostBits(b: Builder, value: V32, safe: V32) returns (v: V1)
    requires b.Valid() && b.Has32(value) && b.Has32(safe)
    requires forall s {:trigger safe.x(s)} :: ShiftInRange(safe.x(s))
    modifies b
    ensures b.Extended() && b.st == old(b.st) && b.Has1(v)
    ensures forall s {:trigger v.b(s)} :: v.b(s) == LostBelow(value.x(s), safe.x(s))
  {
    hide Run, Builder.Has1, Builder.Has32, Total32, Shifted32, ShiftInRange;
    var one := b.C32(1);
    var power := b.Shift32(Shl, one, safe);
    one := b.C32(1);
    var lowMask := b.Binary32(Sub, power, one);
    var low := b.Binary32(And, value, lowMask);
    var zero := b.C32(0);
    v := b.Compare32(ICmpNe, low, zero);
  }

  /** The shift amount of an algebraic shift and its low five bits. */
  method AlgebraicAmount(b: Builder, k: AlgebraicOp, i: PPCInst) returns (sh: V32, safe: V32)
    requires b.Valid()
    modifies b
    ensures b.Extended() && b.st == old(b.st) && b.Has32(sh) && b.Has32(safe)
    ensures forall s {:trigger sh.x(s)} :: sh.x(s) == AlgebraicAmountOf(k, i, b.st(s))
    ensures forall s {:trigger safe.x(s)} :: safe.x(s) == Total32(And, sh.x(s), 31) && ShiftInRange(safe.x(s))
  {
    hide Run, Builder.Has32, Total32, ShiftInRange;
    if k == SRAWI {
      sh := b.C32(i.sh);
    } else {
      var amount := b.Gpr(i.rB);
      sh := MaskWord(b, amount, 0x3F);
    }
    safe := MaskWord(b, sh, 31);
    forall s: SplitState ensures ShiftInRange(safe.x(s)) { MaskedShiftInRange(sh.x(s)); }
  }

  method AlgebraicResultWord(b: Builder, value: V32, safe: V32, sign: V1, tooBig: V1) returns (v: V32)
    requires b.Valid() && b.Has32(value) && b.Has32(safe) && b.Has1(sign) && b.Has1(tooBig)
    requires forall s {:trigger safe.x(s)} :: ShiftInRange(safe.x(s))
    modifies b
    ensures b.Extended() && b.st == old(b.st) && b.Has32(v)
    ensures forall s {:trigger v.x(s)} ::
      v.x(s) == Choose(tooBig.b(s), Choose(sign.b(s), 0xFFFF_FFFF, 0), Shifted32(AShr, value.x(s), safe.x(s)))
  {
    hide Run, Builder.Has1, Builder.Has32, Shifted32, Choose, ShiftInRange;
    var shifted := b.Shift32(AShr, value, safe);
    var fill := b.SelectBit(sign, 0xFFFF_FFFF);
    v := b.Select32(tooBig, fill, shifted);
  }

  method AlgebraicCarryFlag(b: Builder, value: V32, safe: V32, sign: V1, tooBig: V1) returns (v: V1)
    requires b.Valid() && b.Has32(value) && b.Has32(safe) && b.Has1(sign) && b.Has1(tooBig)
    requires forall s {:trigger safe.x(s)} :: ShiftInRange(safe.x(s))
    modifies b
    ensures b.Extended() && b.st == old(b.st) && b.Has1(v)
    ensures forall s {:trigger v.b(s)} ::
      v.b(s) == if tooBig.b(s) then sign.b(s) else sign.b(s) && LostBelow(value.x(s), safe.x(s))
  {
    hide Run, Builder.Has1, Builder.Has32, LostBelow, ShiftInRange;
    var lost := LostBits(b, value, safe);
    v := b.And1(sign, lost);
    v := b.Select1(tooBig, sign, v);
  }

  method LowerAlgebraic(b: Builder, k: AlgebraicOp, i: PPCInst)
    requires b.Valid()
    modifies b
    ensures b.Extended()
    ensures forall s {:trigger b.st(s)} :: b.st(s) == LoweredAlgebraic(k, i, old(b.st)(s))
  {
    hide Run, Builder.Has1, Builder.Has32, Builder.Has64, WrittenWithCarry, LostBelow, AlgebraicAmountOf;
    hide Total32, Less32, Shifted32, Choose, ShiftInRange, SignedLess;
    var value := b.Gpr(i.rS);
    var sh, safe := AlgebraicAmount(b, k, i);
    var zero := b.C32(0);
    var sign := b.Compare32(ICmpSlt, value, zero);
    var tooBig := TooBig(b, sh);
    var result := AlgebraicResultWord(b, value, safe, sign, tooBig);
    var ca := AlgebraicCarryFlag(b, value, safe, sign, tooBig);
    WriteAlgebraic(b, i, result, ca);
  }

  method WriteAlgebraic(b: Builder, i: PPCInst, result: V32, ca: V1)
    requires b.Valid() && b.Has32(result) && b.Has1(ca)
    modifies b
    ensures b.Extended()
    ensures forall s {:trigger b.st(s)} ::
      b.st(s) == WrittenWithCarry(old(b.st)(s), i.rA, i.rc, result.x(s), ca.b(s))
  {
    hide Run, Builder.Has1, Builder.Has32, RecordIf;
    b.SetGpr(i.rA, result);
    b.SetCarry(ca);
    b.RecordIfNeeded(i.rc, result);
  }
}
