/** The lowered code and the emitted C leave related states, group by group. */
module LoweringCorrect {
  import opened DolIR
  import opened SplitMachine
  import opened EmittedC
  import opened SplitRelation
  import opened Lowering
  import opened LowerInteger
  import opened LowerRegister
  import opened BitFacts

  lemma CompareAgrees(st: SplitState, c: Context, field: Field, a: bv32, b: bv32, signed: bool)
    requires Related(st, c)
    ensures Related(st.(crf := st.crf[field := FieldBits(a, b, signed, st.so)]),
                    if signed then CompareS32(c, field, a, b) else CompareU32(c, field, a, b))
  {
    if signed { SignedFieldBits(a, b, st.so, c.xer); } else { UnsignedFieldBits(a, b, st.so, c.xer); }
    SetFieldRelated(st, c, field, FieldBits(a, b, signed, st.so));
    hide Related, FieldBits, InsertField, FieldShift, SignedLess, Less32, OtherXer, Bit, Nibble;
  }

  lemma RecordAgrees(st: SplitState, c: Context, r: Reg)
    requires Related(st, c)
    ensures Related(Record(st, st.gpr[r]), RecordCr0(c, r))
  {
    CompareAgrees(st, c, 0, st.gpr[r], 0, true);
    RecordIsCompare(c, r);
    hide FieldBits, OtherXer, Bit, Nibble, RecordCr0, CompareS32;
  }

  lemma RecordIsCompare(c: Context, r: Reg)
    ensures RecordCr0(c, r) == CompareS32(c, 0, c.Gpr(r), 0)
  {
    hide SignedLess;
  }

  lemma ResultAgrees(st: SplitState, c: Context, r: Reg, record: bool, x: bv32)
    requires Related(st, c)
    ensures Related(Written(st, r, record, x), if record then RecordCr0(c.SetGpr(r, x), r) else c.SetGpr(r, x))
  {
    SetGprRelated(st, c, r, x);
    RecordAgrees(WithGpr(st, r, x), c.SetGpr(r, x), r);
    hide Related, Record, RecordCr0;
  }

  lemma WriteDAgrees(i: PPCInst, st: SplitState, c: Context, x: bv32)
    requires Related(st, c)
    ensures Related(Written(st, i.rD, i.rc, x), WriteD(i, c, x))
  {
    ResultAgrees(st, c, i.rD, i.rc, x);
    hide Related, Written, RecordCr0;
  }

  lemma WriteAAgrees(i: PPCInst, st: SplitState, c: Context, x: bv32)
    requires Related(st, c)
    ensures Related(Written(st, i.rA, i.rc, x), WriteA(i, c, x))
  {
    ResultAgrees(st, c, i.rA, i.rc, x);
    hide Related, Written, RecordCr0;
  }

  /** The two halves of an instruction that produces a carry. */
  lemma CarryAgrees(st: SplitState, c: Context, r: Reg, x: bv32, ca: bool)
    requires Related(st, c)
    ensures Related(WithGpr(st, r, x).(ca := ca), c.SetGpr(r, x).SetCarry(Flag(ca)))
  {
    SetGprRelated(st, c, r, x);
    SetCarryRelated(WithGpr(st, r, x), c.SetGpr(r, x), Flag(ca));
    hide Related, WithCarry;
  }

  lemma CarryRecordAgrees(st: SplitState, c: Context, r: Reg, x: bv32, ca: bool, record: bool)
    requires Related(st, c)
    ensures var next := c.SetGpr(r, x).SetCarry(Flag(ca));
      Related(RecordIf(WithGpr(st, r, x).(ca := ca), record, x), if record then RecordCr0(next, r) else next)
  {
    CarryAgrees(st, c, r, x, ca);
    RecordAgrees(WithGpr(st, r, x).(ca := ca), c.SetGpr(r, x).SetCarry(Flag(ca)), r);
    hide Related, Record, RecordCr0, Flag, WithCarry;
  }

  lemma CarryResultAgrees(st: SplitState, c: Context, r: Reg, wide: bv64, record: bool)
    requires Related(st, c)
    ensures Related(CarryResult(st, r, wide, record),
                    if record then RecordCr0(CarryingAdd(c, r, wide), r) else CarryingAdd(c, r, wide))
  {
    CarryRecordAgrees(st, c, r, Low32(wide), CarryOf(wide), record);
    CarryOutOf(wide);
    hide Related, Record, RecordCr0, Low32, CarryOf, CarryOut, Flag, WithCarry, RecordIf;
  }

  lemma CarryDAgrees(i: PPCInst, st: SplitState, c: Context, wide: bv64)
    requires Related(st, c)
    ensures Related(CarryResult(st, i.rD, wide, i.rc), CarryD(i, c, wide))
  {
    CarryResultAgrees(st, c, i.rD, wide, i.rc);
    hide Related, CarryResult, CarryingAdd, RecordCr0;
  }

  /** The carry of a 33-bit sum, tested as the C of addme and subfme does. */
  lemma HighCarryDAgrees(i: PPCInst, st: SplitState, c: Context, wide: bv64)
    requires Related(st, c) && (LShr64(wide, 32) != 0) == CarryOf(wide)
    ensures Related(CarryResult(st, i.rD, wide, i.rc), HighCarryD(i, c, wide))
  {
    CarryRecordAgrees(st, c, i.rD, Low32(wide), CarryOf(wide), i.rc);
    hide Related, CarryOf, RecordCr0, Low32, Flag, WithCarry, LShr64, RecordIf;
  }

  lemma CarryAAgrees(i: PPCInst, st: SplitState, c: Context, x: bv32, ca: bool)
    requires Related(st, c)
    ensures Related(WrittenWithCarry(st, i.rA, i.rc, x, ca), CarryA(i, c, x, ca))
  {
    CarryRecordAgrees(st, c, i.rA, x, ca, i.rc);
    hide Related, RecordIf, Flag, WithCarry, RecordCr0;
  }

  lemma SameGpr(st: SplitState, c: Context)
    requires Related(st, c)
    ensures st.gpr == c.gpr
  {
  }

  lemma CarryWord(st: SplitState, c: Context)
    requires Related(st, c)
    ensures c.Carry() == Flag(st.ca)
  {
    FlagOfBit(c.xer, 29);
    hide Nibble, OtherXer, Flag;
  }


  // Instructions with an immediate operand

  lemma MultiplyImmediateAgrees(k: ImmediateOp, i: PPCInst, st: SplitState, c: Context)
    requires Related(st, c) && k == MULLI
    ensures Related(LoweredImmediate(k, i, st), Immediate(k, i, c))
  {
    hide Add32, Sub32, And32, Or32, Xor32, Not32, Shl32, LShr32, Add64, Mul64, LShr64, Zext64, SignExtend, Low32,
      RotateLeft32;
    hide Related, Total64, Mul64, SignExtend, Low32, WithGpr, Context.SetGpr;
    SameGpr(st, c);
    var a := SignExtend(st.gpr[i.rA]);
    MulWord(a, SignExtend(i.simm));
    SetsGpr(st, c, i.rD, Low32(Mul64(a, SignExtend(i.simm))));
  }

  lemma SetsGpr(st: SplitState, c: Context, r: Reg, x: bv32)
    requires Related(st, c)
    ensures Related(WithGpr(st, r, x), c.SetGpr(r, x))
  {
    SetGprRelated(st, c, r, x);
    hide Related;
  }

  lemma AddImmediateAgrees(k: ImmediateOp, i: PPCInst, st: SplitState, c: Context)
    requires Related(st, c) && (k == ADDI || k == ADDIS)
    ensures Related(LoweredImmediate(k, i, st), Immediate(k, i, c))
  {
    hide Add32, Sub32, And32, Or32, Xor32, Not32, Shl32, LShr32, Add64, Mul64, LShr64, Zext64, SignExtend, Low32,
      RotateLeft32;
    hide Related, Total32, Add32, ImmediateWord, WithGpr, Context.SetGpr;
    SameGpr(st, c);
    var imm := ImmediateWord(k, i);
    if i.rA == 0 {
      AddWord(0, imm);
      ZeroPlus(imm);
      SetsGpr(st, c, i.rD, imm);
    } else {
      AddWord(st.gpr[i.rA], imm);
      SetsGpr(st, c, i.rD, Add32(st.gpr[i.rA], imm));
    }
  }

  lemma OrImmediateAgrees(k: ImmediateOp, i: PPCInst, st: SplitState, c: Context)
    requires Related(st, c) && (k == ORI || k == ORIS)
    ensures Related(LoweredImmediate(k, i, st), Immediate(k, i, c))
  {
    hide Add32, Sub32, And32, Or32, Xor32, Not32, Shl32, LShr32, Add64, Mul64, LShr64, Zext64, SignExtend, Low32,
      RotateLeft32;
    hide Related, Total32, Total64, Or32, ImmediateWord, Written, WithGpr, Context.SetGpr, RecordCr0, OriNop;
    SameGpr(st, c);
    var x := Or32(st.gpr[i.rS], ImmediateWord(k, i));
    OrWord(st.gpr[i.rS], ImmediateWord(k, i));
    ResultAgrees(st, c, i.rA, false, x);
    if OriNop(k, i) { NopChangesNothing(k, i, c); }
  }

  lemma NopChangesNothing(k: ImmediateOp, i: PPCInst, c: Context)
    requires OriNop(k, i)
    ensures c.SetGpr(i.rA, Or32(c.gpr[i.rS], ImmediateWord(k, i))) == c
  {
    assert Or32(c.gpr[0], 0) == c.gpr[0];
    assert c.gpr[0 := c.gpr[0]] == c.gpr;
  }

  lemma XorImmediateAgrees(k: ImmediateOp, i: PPCInst, st: SplitState, c: Context)
    requires Related(st, c) && (k == XORI || k == XORIS)
    ensures Related(LoweredImmediate(k, i, st), Immediate(k, i, c))
  {
    hide Add32, Sub32, And32, Or32, Xor32, Not32, Shl32, LShr32, Add64, Mul64, LShr64, Zext64, SignExtend, Low32,
      RotateLeft32;
    hide Related, Total32, Total64, Xor32, ImmediateWord, Written, WithGpr, Context.SetGpr, RecordCr0, OriNop;
    SameGpr(st, c);
    XorWord(st.gpr[i.rS], ImmediateWord(k, i));
    ResultAgrees(st, c, i.rA, false, Xor32(st.gpr[i.rS], ImmediateWord(k, i)));
  }

  lemma AndImmediateAgrees(k: ImmediateOp, i: PPCInst, st: SplitState, c: Context)
    requires Related(st, c) && (k == ANDI || k == ANDIS)
    ensures Related(LoweredImmediate(k, i, st), Immediate(k, i, c))
  {
    hide Add32, Sub32, And32, Or32, Xor32, Not32, Shl32, LShr32, Add64, Mul64, LShr64, Zext64, SignExtend, Low32,
      RotateLeft32;
    hide Related, Total32, Total64, And32, ImmediateWord, Written, WithGpr, Context.SetGpr, RecordCr0, OriNop;
    SameGpr(st, c);
    AndWord(st.gpr[i.rS], ImmediateWord(k, i));
    ResultAgrees(st, c, i.rA, true, And32(st.gpr[i.rS], ImmediateWord(k, i)));
  }

  lemma ImmediateAgrees(k: ImmediateOp, i: PPCInst, st: SplitState, c: Context)
    requires Related(st, c)
    ensures Related(LoweredImmediate(k, i, st), Immediate(k, i, c))
  {
    hide *;
    if k == MULLI {
      MultiplyImmediateAgrees(k, i, st, c);
    } else if k == ADDI || k == ADDIS {
      AddImmediateAgrees(k, i, st, c);
    } else if k == ORI || k == ORIS {
      OrImmediateAgrees(k, i, st, c);
    } else if k == XORI || k == XORIS {
      XorImmediateAgrees(k, i, st, c);
    } else {
      AndImmediateAgrees(k, i, st, c);
    }
  }

  lemma SubtractFromImmediateAgrees(k: CarryImmediateOp, i: PPCInst, st: SplitState, c: Context)
    requires Related(st, c) && k == SUBFIC
    ensures Related(LoweredCarryImmediate(k, i, st), CarryImmediate(k, i, c))
  {
    hide Add32, Sub32, And32, Or32, Xor32, Not32, Shl32, LShr32, Add64, Mul64, LShr64, Zext64, SignExtend, Low32,
      RotateLeft32;
    hide Related, CarryResult, CarryingAdd, Add64, Zext64, Not32, RecordCr0;
    SameGpr(st, c);
    var notA := Not32(st.gpr[i.rA]);
    ZeroExtendedConstants();
    CommuteSum(Zext64(notA), Zext64(i.simm));
    CarryResultAgrees(st, c, i.rD, AddCarry64(notA, i.simm, 1), false);
  }

  lemma AddCarryingImmediateAgrees(k: CarryImmediateOp, i: PPCInst, st: SplitState, c: Context)
    requires Related(st, c) && (k == ADDIC || k == ADDIC_DOT)
    ensures Related(LoweredCarryImmediate(k, i, st), CarryImmediate(k, i, c))
  {
    hide Add32, Sub32, And32, Or32, Xor32, Not32, Shl32, LShr32, Add64, Mul64, LShr64, Zext64, SignExtend, Low32,
      RotateLeft32;
    hide Related, CarryResult, CarryingAdd, Add64, Zext64, Not32, RecordCr0;
    SameGpr(st, c);
    CarryResultAgrees(st, c, i.rD, Sum64(st.gpr[i.rA], i.simm), k == ADDIC_DOT);
  }

  lemma CarryImmediateAgrees(k: CarryImmediateOp, i: PPCInst, st: SplitState, c: Context)
    requires Related(st, c)
    ensures Related(LoweredCarryImmediate(k, i, st), CarryImmediate(k, i, c))
  {
    hide *;
    if k == SUBFIC { SubtractFromImmediateAgrees(k, i, st, c); } else { AddCarryingImmediateAgrees(k, i, st, c); }
  }

  lemma CompareGroupAgrees(k: CompareOp, i: PPCInst, st: SplitState, c: Context)
    requires Related(st, c)
    ensures Related(LoweredCompare(k, i, st), Compare(k, i, c))
  {
    hide Add32, Sub32, And32, Or32, Xor32, Not32, Shl32, LShr32, Add64, Mul64, LShr64, Zext64, SignExtend, Low32,
      RotateLeft32;
    hide Related, FieldBits, CompareS32, CompareU32;
    SameGpr(st, c);
    var a := st.gpr[i.rA];
    if k == CMPI {
      CompareAgrees(st, c, i.crfD, a, i.simm, true);
    } else if k == CMPLI {
      CompareAgrees(st, c, i.crfD, a, i.uimm, false);
    } else {
      CompareAgrees(st, c, i.crfD, a, st.gpr[i.rB], k == CMP);
    }
  }

  // Additions and subtractions

  lemma AddAgrees(k: AddOp, i: PPCInst, st: SplitState, c: Context)
    requires Related(st, c)
    ensures Related(LoweredAdd(k, i, st), Sum(k, i, c))
  {
    hide Add32, Sub32, And32, Or32, Xor32, Not32, Shl32, LShr32, Add64, Mul64, LShr64, Zext64, SignExtend, Low32,
      RotateLeft32;
    hide Related, Written, WriteD, CarryResult, CarryD, Add64, Zext64, Add32, Total32, Flag, Context.Carry;
    SameGpr(st, c);
    CarryWord(st, c);
    var a, b := st.gpr[i.rA], st.gpr[i.rB];
    if k == ADD {
      AddWord(a, b);
      WriteDAgrees(i, st, c, Add32(a, b));
    } else if k == ADDC {
      CarryDAgrees(i, st, c, Sum64(a, b));
    } else {
      CarryDAgrees(i, st, c, AddCarry64(a, b, Flag(st.ca)));
    }
  }

  lemma SubtractAgrees(k: SubtractOp, i: PPCInst, st: SplitState, c: Context)
    requires Related(st, c)
    ensures Related(LoweredSubtract(k, i, st), Difference(k, i, c))
  {
    hide Add32, Sub32, And32, Or32, Xor32, Not32, Shl32, LShr32, Add64, Mul64, LShr64, Zext64, SignExtend, Low32,
      RotateLeft32;
    hide Related, Written, WriteD, CarryResult, CarryD, Add64, Zext64, Add32, Sub32, Not32, Total32, Flag,
      Context.Carry;
    SameGpr(st, c);
    CarryWord(st, c);
    var a, b := st.gpr[i.rA], st.gpr[i.rB];
    if k == SUBF {
      SubWord(b, a);
      ComplementedSum(a, b);
      WriteDAgrees(i, st, c, Sub32(b, a));
    } else if k == SUBFC {
      ZeroExtendedConstants();
      CommuteSum(Zext64(Not32(a)), Zext64(b));
      CarryDAgrees(i, st, c, AddCarry64(Not32(a), b, 1));
    } else {
      CarryDAgrees(i, st, c, AddCarry64(Not32(a), b, Flag(st.ca)));
    }
  }

  lemma ComplementedSum(a: bv32, b: bv32)
    ensures Add32(Add32(Not32(a), b), 1) == Sub32(b, a)
    ensures Add32(Not32(a), 1) == Sub32(0, a)
  {
    SubtractByComplement(a, b);
    NegateByComplement(a);
    hide Add32, Sub32;
  }

  lemma NegateAgrees(k: ExtendedOp, i: PPCInst, st: SplitState, c: Context)
    requires Related(st, c) && k == NEG
    ensures Related(LoweredExtended(k, i, st), ExtendedSum(k, i, c))
  {
    hide Add32, Sub32, And32, Or32, Xor32, Not32, Shl32, LShr32, Add64, Mul64, LShr64, Zext64, SignExtend, Low32,
      RotateLeft32;
    hide Related, Written, WriteD, Add32, Sub32, Not32, Total32, Zext64, Context.Carry;
    SameGpr(st, c);
    var a := st.gpr[i.rA];
    SubWord(0, a);
    ComplementedSum(a, a);
    WriteDAgrees(i, st, c, Sub32(0, a));
  }

  /** The 33-bit sums of addme, addze, subfme and subfze. */
  lemma ExtendedWide(a: bv32, carry: bv32)
    requires carry == 0 || carry == 1
    ensures AddCarry64(a, AllOnesIf(true), carry) == Add64(Add64(Zext64(a), 0xFFFF_FFFF), Zext64(carry))
    ensures AddCarry64(a, AllOnesIf(false), carry) == Add64(Zext64(a), Zext64(carry))
    ensures var wide := AddCarry64(a, AllOnesIf(true), carry); (LShr64(wide, 32) != 0) == CarryOf(wide)
  {
    WideCarry(a, 0xFFFF_FFFF, carry);
    ZeroExtendedConstants();
    AddNothing(Zext64(a));
    hide Add64, Zext64, LShr64, CarryOf;
  }

  lemma ExtendedCarryAgrees(k: ExtendedOp, i: PPCInst, st: SplitState, c: Context)
    requires Related(st, c) && (k == ADDME || k == ADDZE || k == SUBFME || k == SUBFZE)
    ensures Related(LoweredExtended(k, i, st), ExtendedSum(k, i, c))
  {
    hide Add32, Sub32, And32, Or32, Xor32, Not32, Shl32, LShr32, Add64, Mul64, LShr64, Zext64, SignExtend, Low32,
      RotateLeft32;
    hide Related, CarryResult, HighCarryD, CarryD, Add64, Zext64, Not32, Flag, Context.Carry, AddCarry64, AllOnesIf;
    hide ComplementIf, LShr64, CarryOf, Written, WriteD;
    SameGpr(st, c);
    CarryWord(st, c);
    FlagIsBit(st.ca);
    var a, ca := st.gpr[i.rA], Flag(st.ca);
    Complement(a);
    var input := ComplementIf(k == SUBFME || k == SUBFZE, a);
    ExtendedWide(input, ca);
    if k == ADDME || k == SUBFME {
      HighCarryDAgrees(i, st, c, AddCarry64(input, AllOnesIf(true), ca));
    } else {
      CarryDAgrees(i, st, c, AddCarry64(input, AllOnesIf(false), ca));
    }
  }

  lemma FlagIsBit(b: bool)
    ensures Flag(b) == 0 || Flag(b) == 1
  {
  }

  lemma ExtendedAgrees(k: ExtendedOp, i: PPCInst, st: SplitState, c: Context)
    requires Related(st, c)
    ensures Related(LoweredExtended(k, i, st), ExtendedSum(k, i, c))
  {
    hide *;
    if k == NEG { NegateAgrees(k, i, st, c); } else { ExtendedCarryAgrees(k, i, st, c); }
  }

  // Multiplication and division

  lemma ProductAgrees(k: MultiplyOp, i: PPCInst, st: SplitState, c: Context)
    requires Related(st, c)
    ensures Related(LoweredProduct(k, i, st), Product(k, i, c))
  {
    assert st.gpr == c.gpr;
    hide Related, Written, WriteD, Total64, Mul64, SignExtend, Zext64, Low32, LShr64, SignedHigh, Widened, ProductPart;
    var a, b := st.gpr[i.rA], st.gpr[i.rB];
    Factors(k, a, b);
    var product := Mul64(Widened(k, a), Widened(k, b));
    Part(k, product);
    HighOfSigned(product);
    WriteDAgrees(i, st, c, ProductPart(k, product));
  }

  lemma Factors(k: MultiplyOp, a: bv32, b: bv32)
    ensures k == MULHWU ==> Widened(k, a) == Zext64(a) && Widened(k, b) == Zext64(b)
    ensures k != MULHWU ==> Widened(k, a) == SignExtend(a) && Widened(k, b) == SignExtend(b)
    ensures Total64(Mul, Widened(k, a), Widened(k, b)) == Mul64(Widened(k, a), Widened(k, b))
  {
    MulWord(Widened(k, a), Widened(k, b));
    hide Total64, Mul64, SignExtend, Zext64;
  }

  lemma Part(k: MultiplyOp, product: bv64)
    ensures k == MULLW ==> ProductPart(k, product) == Low32(product)
    ensures k != MULLW ==> ProductPart(k, product) == Low32(LShr64(product, 32))
  {
    hide Low32, LShr64;
  }

  lemma QuotientAgrees(k: DivideOp, i: PPCInst, st: SplitState, c: Context)
    requires Related(st, c)
    ensures Related(LoweredQuotient(k, i, st), Quotients(k, i, c))
  {
    hide Add32, Sub32, And32, Or32, Xor32, Not32, Shl32, LShr32, Add64, Mul64, LShr64, Zext64, SignExtend, Low32,
      RotateLeft32;
    hide Related, Written, WriteD, QuotientWord, Quotient, UnsignedQuotient;
    SameGpr(st, c);
    var a, b := st.gpr[i.rA], st.gpr[i.rB];
    QuotientWords(a, b);
    WriteDAgrees(i, st, c, QuotientWord(k, a, b));
  }

  lemma QuotientWords(a: bv32, b: bv32)
    ensures QuotientWord(DIVW, a, b) == Quotient(a, b) && QuotientWord(DIVWU, a, b) == UnsignedQuotient(a, b)
  {
    hide SignedDivide, UDiv32, SignedLess;
  }

  // Logic, shifts and rotations

  lemma ConjunctionAgrees(k: LogicalOp, i: PPCInst, st: SplitState, c: Context)
    requires Related(st, c) && (k == AND || k == ANDC || k == NAND)
    ensures Related(LoweredLogical(k, i, st), Logic(k, i, c))
  {
    hide Add32, Sub32, And32, Or32, Xor32, Not32, Shl32, LShr32, Add64, Mul64, LShr64, Zext64, SignExtend, Low32,
      RotateLeft32;
    hide Related, Written, WriteA, Total32, And32, Or32, Xor32, Not32, ComplementIf;
    SameGpr(st, c);
    var a, b := st.gpr[i.rS], ComplementIf(ComplementsRight(k), st.gpr[i.rB]);
    Complement(st.gpr[i.rB]);
    AndWord(a, b);
    Complement(And32(a, b));
    WriteAAgrees(i, st, c, ComplementIf(ComplementsResult(k), And32(a, b)));
  }

  lemma DisjunctionAgrees(k: LogicalOp, i: PPCInst, st: SplitState, c: Context)
    requires Related(st, c) && (k == OR || k == ORC || k == NOR)
    ensures Related(LoweredLogical(k, i, st), Logic(k, i, c))
  {
    hide Add32, Sub32, And32, Or32, Xor32, Not32, Shl32, LShr32, Add64, Mul64, LShr64, Zext64, SignExtend, Low32,
      RotateLeft32;
    hide Related, Written, WriteA, Total32, And32, Or32, Xor32, Not32, ComplementIf;
    SameGpr(st, c);
    var a, b := st.gpr[i.rS], ComplementIf(ComplementsRight(k), st.gpr[i.rB]);
    Complement(st.gpr[i.rB]);
    OrWord(a, b);
    Complement(Or32(a, b));
    WriteAAgrees(i, st, c, ComplementIf(ComplementsResult(k), Or32(a, b)));
  }

  lemma ExclusiveAgrees(k: LogicalOp, i: PPCInst, st: SplitState, c: Context)
    requires Related(st, c) && (k == XOR || k == EQV)
    ensures Related(LoweredLogical(k, i, st), Logic(k, i, c))
  {
    hide Add32, Sub32, And32, Or32, Xor32, Not32, Shl32, LShr32, Add64, Mul64, LShr64, Zext64, SignExtend, Low32,
      RotateLeft32;
    hide Related, Written, WriteA, Total32, And32, Or32, Xor32, Not32, ComplementIf;
    SameGpr(st, c);
    var a, b := st.gpr[i.rS], st.gpr[i.rB];
    Complement(b);
    XorWord(a, b);
    Complement(Xor32(a, b));
    WriteAAgrees(i, st, c, ComplementIf(ComplementsResult(k), Xor32(a, b)));
  }

  lemma LogicalAgrees(k: LogicalOp, i: PPCInst, st: SplitState, c: Context)
    requires Related(st, c)
    ensures Related(LoweredLogical(k, i, st), Logic(k, i, c))
  {
    hide *;
    if k == AND || k == ANDC || k == NAND {
      ConjunctionAgrees(k, i, st, c);
    } else if k == XOR || k == EQV {
      ExclusiveAgrees(k, i, st, c);
    } else {
      DisjunctionAgrees(k, i, st, c);
    }
  }

  lemma UnaryAgrees(k: UnaryOp, i: PPCInst, st: SplitState, c: Context)
    requires Related(st, c)
    ensures Related(LoweredUnary(k, i, st), Unary(k, i, c))
  {
    hide Add32, Sub32, And32, Or32, Xor32, Not32, Shl32, LShr32, Add64, Mul64, LShr64, Zext64, SignExtend, Low32,
      RotateLeft32;
    hide Related, Written, WriteA, ExtendByte, ExtendHalf, Low8, Low16, CountLeadingZeros, Clz32;
    SameGpr(st, c);
    var x := st.gpr[i.rS];
    if k == EXTSB {
      WriteAAgrees(i, st, c, SignedByte(x));
    } else if k == EXTSH {
      WriteAAgrees(i, st, c, SignedHalf(x));
    } else {
      CountsAgree(x);
      WriteAAgrees(i, st, c, Clz32(x));
    }
  }

  lemma RotateAgrees(k: RotateOp, i: PPCInst, st: SplitState, c: Context)
    requires Related(st, c)
    ensures Related(LoweredRotate(k, i, st), Rotate(k, i, c))
  {
    hide Add32, Sub32, And32, Or32, Xor32, Not32, Shl32, LShr32, Add64, Mul64, LShr64, Zext64, SignExtend, Low32,
      RotateLeft32;
    hide Related, Written, WriteA, Total32, And32, Or32, Not32, RotateLeft32, PpcMask, Rotated;
    SameGpr(st, c);
    var mask := PpcMask(i.mb, i.me);
    var rotated := RotateLeft32(st.gpr[i.rS], if k == RLWNM then st.gpr[i.rB] else i.sh);
    RotatedWord(k, i, st);
    AndWord(rotated, mask);
    if k == RLWIMI {
      var kept := And32(st.gpr[i.rA], Not32(mask));
      AndWord(st.gpr[i.rA], Not32(mask));
      OrWord(kept, And32(rotated, mask));
      WriteAAgrees(i, st, c, Or32(kept, And32(rotated, mask)));
    } else {
      WriteAAgrees(i, st, c, And32(rotated, mask));
    }
  }

  lemma RotatedWord(k: RotateOp, i: PPCInst, st: SplitState)
    ensures Rotated(k, i, st) == RotateLeft32(st.gpr[i.rS], if k == RLWNM then st.gpr[i.rB] else i.sh)
  {
    RotlWord(st.gpr[i.rS], if k == RLWNM then st.gpr[i.rB] else i.sh);
    hide Total32, RotateLeft32;
  }

  lemma ShiftAgrees(k: ShiftOp, i: PPCInst, st: SplitState, c: Context)
    requires Related(st, c)
    ensures Related(LoweredShift(k, i, st), Shift(k, i, c))
  {
    hide Add32, Sub32, And32, Or32, Xor32, Not32, Shl32, LShr32, Add64, Mul64, LShr64, Zext64, SignExtend, Low32,
      RotateLeft32;
    hide Related, Written, WriteA, ShiftWord, ShiftLeft, ShiftRight, And32;
    SameGpr(st, c);
    var x, n := st.gpr[i.rS], st.gpr[i.rB];
    ShiftWords(k, x, n);
    WriteAAgrees(i, st, c, ShiftWord(k, x, n));
  }

  lemma AlgebraicAgrees(k: AlgebraicOp, i: PPCInst, st: SplitState, c: Context)
    requires Related(st, c) && i.Decoded()
    ensures Related(LoweredAlgebraic(k, i, st), Algebraic(k, i, c))
  {
    hide Add32, Sub32, And32, Or32, Xor32, Not32, Shl32, LShr32, Add64, Mul64, LShr64, Zext64, SignExtend, Low32,
      RotateLeft32;
    hide Related, WrittenWithCarry, CarryA, Total32, And32, AlgebraicWord, AlgebraicCa, AlgebraicResult, AlgebraicCarry;
    SameGpr(st, c);
    AmountFits(i.sh);
    var x, n := st.gpr[i.rS], st.gpr[i.rB];
    AndWord(n, 0x3F);
    MaskedAmount(n);
    var sh := AlgebraicAmountOf(k, i, st);
    AlgebraicWords(x, sh);
    CarryAAgrees(i, st, c, AlgebraicWord(x, sh), AlgebraicCa(x, sh));
  }

  lemma AlgebraicWords(x: bv32, sh: bv32)
    requires sh & 0x3F == sh
    ensures AlgebraicWord(x, sh) == AlgebraicResult(x, sh) && AlgebraicCa(x, sh) == AlgebraicCarry(x, sh)
  {
    AlgebraicValue(x, sh);
    AlgebraicFlag(x, sh);
    hide AlgebraicWord, AlgebraicCa, AlgebraicResult, AlgebraicCarry;
  }

  lemma AmountFits(sh: bv32)
    requires sh & 0x1F == sh
    ensures sh & 0x3F == sh
  {
  }
}
