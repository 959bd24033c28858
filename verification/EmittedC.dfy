/** What the C backend's output does to the packed CPU state, instruction by instruction
    (src/backend/emitter.c).  Every definition below is the meaning of one emitted text. */
module EmittedC {
  import opened SplitMachine

  type Reg = n: nat | n < 32
  type Field = n: nat | n < 8

  // Opcodes, grouped by the shape of their emitted text.
  datatype ImmediateOp = MULLI | ADDI | ADDIS | ORI | ORIS | XORI | XORIS | ANDI | ANDIS
  datatype CarryImmediateOp = SUBFIC | ADDIC | ADDIC_DOT
  datatype CompareOp = CMPI | CMPLI | CMP | CMPL
  datatype AddOp = ADD | ADDC | ADDE
  datatype SubtractOp = SUBF | SUBFC | SUBFE
  datatype ExtendedOp = NEG | ADDME | ADDZE | SUBFME | SUBFZE
  datatype MultiplyOp = MULLW | MULHW | MULHWU
  datatype DivideOp = DIVW | DIVWU
  datatype LogicalOp = AND | ANDC | OR | ORC | XOR | NAND | NOR | EQV
  datatype UnaryOp = EXTSB | EXTSH | CNTLZW
  datatype RotateOp = RLWINM | RLWNM | RLWIMI
  datatype ShiftOp = SLW | SRW
  datatype AlgebraicOp = SRAW | SRAWI
  datatype CrBitOp = CRAND | CRANDC | CREQV | CRNAND | CRNOR | CROR | CRORC | CRXOR
  datatype Spr = SPR_XER | SPR_LR | SPR_CTR
  datatype BranchOp = B | BC | BCLR | BCCTR

  datatype Opcode =
    | WithImmediate(imm: ImmediateOp) | CarryingImmediate(carryImm: CarryImmediateOp) | Comparison(cmp: CompareOp)
    | Addition(add: AddOp) | Subtraction(sub: SubtractOp) | Extended(ext: ExtendedOp)
    | Multiplication(mul: MultiplyOp) | Division(div: DivideOp)
    | LogicalOperation(logic: LogicalOp) | UnaryOperation(unary: UnaryOp)
    | Rotation(rot: RotateOp) | LogicalShift(shift: ShiftOp) | AlgebraicShift(sra: AlgebraicOp)
    | CrBits(crBit: CrBitOp) | MCRF | MCRXR | MFCR | MTCRF | MFSPR(from: Spr) | MTSPR(to: Spr)
    | Branch(branch: BranchOp)

  /** The decoder's instruction record, for the opcodes modelled here.  `simm` is already
      sign-extended to 32 bits and `uimm` zero-extended, as every use of them is.
      `rD`, `rA` and `rB` of a CR logical instruction are CR bit numbers. */
  datatype PPCInst = PPCInst(
    op: Opcode, address: bv32, rD: Reg, rA: Reg, rS: Reg, rB: Reg,
    crfD: Field, crfS: Field, crm: bv32, bo: bv32, bi: Reg,
    mb: Reg, me: Reg, sh: bv32, simm: bv32, uimm: bv32,
    branchTarget: bv32, lk: bool, rc: bool, oe: bool, embedded: bool)
  {
    /** What the decoder guarantees about the fields it fills. */
    predicate Decoded() { sh & 0x1F == sh && uimm & 0xFFFF == uimm && bo & 0x1F == bo && crm & 0xFF == crm }
  }

  datatype Context = Context(gpr: GprFile, cr: bv32, xer: bv32, lr: bv32, ctr: bv32) {
    function Gpr(r: Reg): bv32 { gpr[r] }

    function SetGpr(r: Reg, x: bv32): Context { this.(gpr := gpr[r := x]) }

    function Carry(): bv32 { (xer >> 29) & 1 }

    function SetCarry(bit: bv32): Context { this.(xer := WithCarry(xer, bit)) }

    function SetField(field: Field, bits: bv32): Context { this.(cr := InsertField(cr, FieldShift(field), bits)) }
  }

  /** `(xer & ~0x20000000u) | (bit << 29)`, also written with `bit ? 0x20000000u : 0u`. */
  function WithCarry(xer: bv32, bit: bv32): bv32 { (xer & !0x2000_0000) | (bit << 29) }

  /** `(cr & ~(0xFu << shift)) | (bits << shift)` */
  function InsertField(cr: bv32, shift: bv32, bits: bv32): bv32
    requires shift <= 28
  {
    (cr & !(0xF << shift)) | (bits << shift)
  }

  /** `(cr >> shift) & 0xFu` */
  function FieldAt(cr: bv32, shift: bv32): bv32
    requires shift <= 28
  {
    (cr >> shift) & 0xF
  }

  function FieldShift(field: Field): (shift: bv32)
    ensures shift <= 28
  {
    match field
    case 0 => 28
    case 1 => 24
    case 2 => 20
    case 3 => 16
    case 4 => 12
    case 5 => 8
    case 6 => 4
    case _ => 0
  }

  /** The mask with bits mb through me (numbered from the left, wrapping) set. */
  function PpcMask(bit: Reg, me: Reg): bv32
    decreases (me + 32 - bit) % 32
  {
    Or32(BitMask(bit), if bit == me then 0 else PpcMask((bit + 1) % 32, me))
  }

  /** `0x80000000u >> bit` */
  function BitMask(bit: Reg): bv32 { 0x8000_0000 >> bit }

  /** `31u - bit` */
  function BitShift(bit: Reg): (shift: bv32)
    ensures shift < 32
  {
    (31 - bit) as bv32
  }

  /** `(word >> (31u - bit)) & 1u` */
  function BitOf(word: bv32, bit: Reg): bv32 { (word >> BitShift(bit)) & 1 }

  /** Whether the mtcrf field mask selects a field: `crm & (0x80u >> field)`. */
  predicate CrmSelects(crm: bv32, field: Field) { crm & (0x80 >> field) != 0 }

  function SignBits(x: bv32): bv32 {
    (if SignedLess(x, 0) then 8 else 0) | (if SignedLess(0, x) then 4 else 0) | (if x == 0 then 2 else 0)
  }

  function CompareBits(less: bool, greater: bool, equal: bool, c: Context): bv32 {
    (if less then 8 else 0) | (if greater then 4 else 0) | (if equal then 2 else 0) | ((c.xer >> 31) & 1)
  }

  /** `emit_set_cr0_from_gpr` */
  function RecordCr0(c: Context, r: Reg): Context {
    var bits := SignBits(c.Gpr(r)) | ((c.xer >> 31) & 1);
    c.(cr := (c.cr & 0x0FFF_FFFF) | (bits << 28))
  }

  function RecordCr0If(c: Context, i: PPCInst, r: Reg): Context {
    if i.rc then RecordCr0(c, r) else c
  }

  function CompareS32(c: Context, field: Field, a: bv32, b: bv32): Context {
    c.SetField(field, CompareBits(SignedLess(a, b), SignedLess(b, a), a == b, c))
  }

  function CompareU32(c: Context, field: Field, a: bv32, b: bv32): Context {
    c.SetField(field, CompareBits(Less32(a, b), Less32(b, a), a == b, c))
  }

  /** Result and carry of a 64-bit addition: `(u32)wide` and `(u32)(wide >> 32) & 1u`. */
  function CarryOut(wide: bv64): bv32 { Low32(wide >> 32) & 1 }

  /** `(u64)a + (u64)b` */
  function WideSum(a: bv32, b: bv32): bv64 { Add64(Zext64(a), Zext64(b)) }

  function CarryingAdd(c: Context, r: Reg, wide: bv64): Context {
    c.SetGpr(r, Low32(wide)).SetCarry(CarryOut(wide))
  }

  /** `while (n < 32 && ((v & (0x80000000u >> n)) == 0)) n++;` */
  function CountLeadingZeros(v: bv32, n: nat): bv32
    requires n <= 32
    decreases 32 - n
  {
    if n < 32 && Clear(v, BitMask(n)) then Add32(1, CountLeadingZeros(v, n + 1)) else 0
  }

  /** The signed 64-bit product shifted right arithmetically, low word. */
  function SignedHigh(product: bv64): bv32 {
    Low32(if product & 0x8000_0000_0000_0000 == 0 then product >> 32 else !(!product >> 32))
  }

  /** divw: the overflowing quotients are all ones or zero by the sign of the dividend. */
  function Quotient(a: bv32, b: bv32): bv32 {
    if b == 0 || (a == 0x8000_0000 && b == 0xFFFF_FFFF) then (if SignedLess(a, 0) then 0xFFFF_FFFF else 0)
    else SignedDivide(a, b)
  }

  function UnsignedQuotient(a: bv32, b: bv32): bv32 { if b == 0 then 0 else UDiv32(a, b) }

  /** `(u32)(s32)(s8)x` */
  function SignedByte(x: bv32): bv32 { ExtendByte(Low8(x)) }

  /** `(u32)(s32)(s16)x` */
  function SignedHalf(x: bv32): bv32 { ExtendHalf(Low16(x)) }

  function ShiftLeft(x: bv32, sh: bv32): bv32 { if sh > 31 then 0 else x << sh }

  function ShiftRight(x: bv32, sh: bv32): bv32 { if sh > 31 then 0 else x >> sh }

  function AlgebraicResult(x: bv32, sh: bv32): bv32 {
    if sh == 0 then x
    else if sh > 31 then (if x & 0x8000_0000 != 0 then 0xFFFF_FFFF else 0)
    else ArithmeticShift(x, sh)
  }

  /** Carry of an algebraic right shift: a negative value lost a one bit. */
  predicate AlgebraicCarry(x: bv32, sh: bv32) {
    if sh == 0 then false
    else if sh > 31 then x & 0x8000_0000 != 0
    else x & 0x8000_0000 != 0 && x << (32 - sh) != 0
  }

  function CrLogical(k: CrBitOp, a: bv32, b: bv32): bv32 {
    match k
    case CRAND => And32(a, b)
    case CRANDC => And32(a, Not32(b))
    case CREQV => Not32(Xor32(a, b))
    case CRNAND => Not32(And32(a, b))
    case CRNOR => Not32(Or32(a, b))
    case CROR => Or32(a, b)
    case CRORC => Or32(a, Not32(b))
    case CRXOR => Xor32(a, b)
  }

  function SelectedMask(crm: bv32, field: Field): bv32 {
    if CrmSelects(crm, field) then Shl32(0xF, FieldShift(field)) else 0
  }

  /** Union of the field masks selected by the mtcrf field mask, from `field` on. */
  function CrmMask(crm: bv32, field: nat): bv32
    requires field <= 8
    decreases 8 - field
  {
    if field == 8 then 0
    else Or32(SelectedMask(crm, field), CrmMask(crm, field + 1))
  }

  /** The constant an immediate instruction's text contains. */
  function ImmediateWord(k: ImmediateOp, i: PPCInst): bv32 {
    match k
    case ORIS | XORIS | ANDIS => Shl32(i.uimm, 16)
    case ADDIS => Shl32(i.simm, 16)
    case ADDI => i.simm
    case _ => i.uimm
  }

  function WriteD(i: PPCInst, c: Context, x: bv32): Context { RecordCr0If(c.SetGpr(i.rD, x), i, i.rD) }

  function WriteA(i: PPCInst, c: Context, x: bv32): Context { RecordCr0If(c.SetGpr(i.rA, x), i, i.rA) }

  function CarryD(i: PPCInst, c: Context, wide: bv64): Context {
    RecordCr0If(CarryingAdd(c, i.rD, wide), i, i.rD)
  }

  /** addme and subfme: the carry is any bit above the low word. */
  function HighCarryD(i: PPCInst, c: Context, wide: bv64): Context {
    RecordCr0If(c.SetGpr(i.rD, Low32(wide)).SetCarry(Flag(LShr64(wide, 32) != 0)), i, i.rD)
  }

  function CarryA(i: PPCInst, c: Context, x: bv32, ca: bool): Context {
    RecordCr0If(c.SetGpr(i.rA, x).SetCarry(Flag(ca)), i, i.rA)
  }

  /** The encoding the emitter turns into a comment. */
  predicate OriNop(k: ImmediateOp, i: PPCInst) { k == ORI && i.rS == 0 && i.rA == 0 && i.uimm == 0 }

  function Immediate(k: ImmediateOp, i: PPCInst, c: Context): Context {
    var rA, rS, imm := c.Gpr(i.rA), c.Gpr(i.rS), ImmediateWord(k, i);
    match k
    case MULLI => c.SetGpr(i.rD, Low32(Mul64(SignExtend(rA), SignExtend(i.simm))))
    case ADDI | ADDIS =>
      if i.rA == 0 then c.SetGpr(i.rD, imm) else c.SetGpr(i.rD, Add32(rA, imm))
    case ORI | ORIS =>
      if OriNop(k, i) then c else c.SetGpr(i.rA, Or32(rS, imm))
    case XORI | XORIS => c.SetGpr(i.rA, Xor32(rS, imm))
    case ANDI | ANDIS => RecordCr0(c.SetGpr(i.rA, And32(rS, imm)), i.rA)
  }

  function CarryImmediate(k: CarryImmediateOp, i: PPCInst, c: Context): Context {
    var rA := c.Gpr(i.rA);
    match k
    case SUBFIC => CarryingAdd(c, i.rD, Add64(WideSum(i.simm, Not32(rA)), 1))
    case ADDIC => CarryingAdd(c, i.rD, WideSum(rA, i.simm))
    case ADDIC_DOT => RecordCr0(CarryingAdd(c, i.rD, WideSum(rA, i.simm)), i.rD)
  }

  function Compare(k: CompareOp, i: PPCInst, c: Context): Context {
    match k
    case CMPI => CompareS32(c, i.crfD, c.Gpr(i.rA), i.simm)
    case CMPLI => CompareU32(c, i.crfD, c.Gpr(i.rA), i.uimm)
    case CMP => CompareS32(c, i.crfD, c.Gpr(i.rA), c.Gpr(i.rB))
    case CMPL => CompareU32(c, i.crfD, c.Gpr(i.rA), c.Gpr(i.rB))
  }

  function Sum(k: AddOp, i: PPCInst, c: Context): Context {
    var rA, rB := c.Gpr(i.rA), c.Gpr(i.rB);
    match k
    case ADD => WriteD(i, c, Add32(rA, rB))
    case ADDC => CarryD(i, c, WideSum(rA, rB))
    case ADDE => CarryD(i, c, Add64(WideSum(rA, rB), Zext64(c.Carry())))
  }

  function Difference(k: SubtractOp, i: PPCInst, c: Context): Context {
    var notA, rB := Not32(c.Gpr(i.rA)), c.Gpr(i.rB);
    match k
    case SUBF => WriteD(i, c, Add32(Add32(notA, rB), 1))
    case SUBFC => CarryD(i, c, Add64(WideSum(rB, notA), 1))
    case SUBFE => CarryD(i, c, Add64(WideSum(notA, rB), Zext64(c.Carry())))
  }

  function ExtendedSum(k: ExtendedOp, i: PPCInst, c: Context): Context {
    var rA, carry := c.Gpr(i.rA), Zext64(c.Carry());
    match k
    case NEG => WriteD(i, c, Add32(Not32(rA), 1))
    case ADDME => HighCarryD(i, c, Add64(Add64(Zext64(rA), 0xFFFF_FFFF), carry))
    case SUBFME => HighCarryD(i, c, Add64(Add64(Zext64(Not32(rA)), 0xFFFF_FFFF), carry))
    case ADDZE => CarryD(i, c, Add64(Zext64(rA), carry))
    case SUBFZE => CarryD(i, c, Add64(Zext64(Not32(rA)), carry))
  }

  function Product(k: MultiplyOp, i: PPCInst, c: Context): Context {
    var rA, rB := c.Gpr(i.rA), c.Gpr(i.rB);
    match k
    case MULLW => WriteD(i, c, Low32(Mul64(SignExtend(rA), SignExtend(rB))))
    case MULHW => WriteD(i, c, SignedHigh(Mul64(SignExtend(rA), SignExtend(rB))))
    case MULHWU => WriteD(i, c, Low32(LShr64(Mul64(Zext64(rA), Zext64(rB)), 32)))
  }

  function Quotients(k: DivideOp, i: PPCInst, c: Context): Context {
    var rA, rB := c.Gpr(i.rA), c.Gpr(i.rB);
    if k == DIVW then WriteD(i, c, Quotient(rA, rB)) else WriteD(i, c, UnsignedQuotient(rA, rB))
  }

  function Logic(k: LogicalOp, i: PPCInst, c: Context): Context {
    var rS, rB := c.Gpr(i.rS), c.Gpr(i.rB);
    match k
    case AND => WriteA(i, c, And32(rS, rB))
    case ANDC => WriteA(i, c, And32(rS, Not32(rB)))
    case OR => WriteA(i, c, Or32(rS, rB))
    case ORC => WriteA(i, c, Or32(rS, Not32(rB)))
    case XOR => WriteA(i, c, Xor32(rS, rB))
    case NAND => WriteA(i, c, Not32(And32(rS, rB)))
    case NOR => WriteA(i, c, Not32(Or32(rS, rB)))
    case EQV => WriteA(i, c, Not32(Xor32(rS, rB)))
  }

  function Unary(k: UnaryOp, i: PPCInst, c: Context): Context {
    var rS := c.Gpr(i.rS);
    match k
    case EXTSB => WriteA(i, c, SignedByte(rS))
    case EXTSH => WriteA(i, c, SignedHalf(rS))
    case CNTLZW => WriteA(i, c, CountLeadingZeros(rS, 0))
  }

  function Rotate(k: RotateOp, i: PPCInst, c: Context): Context {
    var rS, mask := c.Gpr(i.rS), PpcMask(i.mb, i.me);
    match k
    case RLWINM => WriteA(i, c, And32(RotateLeft32(rS, i.sh), mask))
    case RLWNM => WriteA(i, c, And32(RotateLeft32(rS, c.Gpr(i.rB)), mask))
    case RLWIMI => WriteA(i, c, Or32(And32(c.Gpr(i.rA), Not32(mask)), And32(RotateLeft32(rS, i.sh), mask)))
  }

  function Shift(k: ShiftOp, i: PPCInst, c: Context): Context {
    var rS, sh := c.Gpr(i.rS), And32(c.Gpr(i.rB), 0x3F);
    if k == SLW then WriteA(i, c, ShiftLeft(rS, sh)) else WriteA(i, c, ShiftRight(rS, sh))
  }

  function Algebraic(k: AlgebraicOp, i: PPCInst, c: Context): Context {
    var rS, sh := c.Gpr(i.rS), And32(c.Gpr(i.rB), 0x3F);
    if k == SRAWI then CarryA(i, c, AlgebraicResult(rS, i.sh), AlgebraicCarry(rS, i.sh))
    else CarryA(i, c, AlgebraicResult(rS, sh), AlgebraicCarry(rS, sh))
  }

  /** `(cr & ~mask) | (value ? mask : 0u)` */
  function SetMasked(cr: bv32, mask: bv32, on: bv32): bv32 { (cr & !mask) | (if on != 0 then mask else 0) }

  function CrLogic(k: CrBitOp, i: PPCInst, c: Context): Context {
    var value := And32(CrLogical(k, BitOf(c.cr, i.rA), BitOf(c.cr, i.rB)), 1);
    c.(cr := SetMasked(c.cr, BitMask(i.rD), value))
  }

  function CopyField(i: PPCInst, c: Context): Context { c.SetField(i.crfD, FieldAt(c.cr, FieldShift(i.crfS))) }

  /** `xer & ~0xE0000000u` */
  function WithoutFlags(xer: bv32): bv32 { xer & !0xE000_0000 }

  function MoveXerToCr(i: PPCInst, c: Context): Context {
    var d := c.SetField(i.crfD, FieldAt(c.xer, 28));
    d.(xer := WithoutFlags(d.xer))
  }

  function MoveToCr(i: PPCInst, c: Context): Context {
    var mask := CrmMask(i.crm, 0);
    if mask != 0 then c.(cr := Or32(And32(c.cr, Not32(mask)), And32(c.Gpr(i.rS), mask))) else c
  }

  function FromSpr(spr: Spr, i: PPCInst, c: Context): Context {
    match spr
    case SPR_XER => c.SetGpr(i.rD, c.xer)
    case SPR_LR => c.SetGpr(i.rD, c.lr)
    case SPR_CTR => c.SetGpr(i.rD, c.ctr)
  }

  function ToSpr(spr: Spr, i: PPCInst, c: Context): Context {
    match spr
    case SPR_XER => c.(xer := c.Gpr(i.rS))
    case SPR_LR => c.(lr := c.Gpr(i.rS))
    case SPR_CTR => c.(ctr := c.Gpr(i.rS))
  }

  /** The emitted statements of one fall-through instruction. */
  function Execute(i: PPCInst, c: Context): Context {
    match i.op
    case WithImmediate(k) => Immediate(k, i, c)
    case CarryingImmediate(k) => CarryImmediate(k, i, c)
    case Comparison(k) => Compare(k, i, c)
    case Addition(k) => Sum(k, i, c)
    case Subtraction(k) => Difference(k, i, c)
    case Extended(k) => ExtendedSum(k, i, c)
    case Multiplication(k) => Product(k, i, c)
    case Division(k) => Quotients(k, i, c)
    case LogicalOperation(k) => Logic(k, i, c)
    case UnaryOperation(k) => Unary(k, i, c)
    case Rotation(k) => Rotate(k, i, c)
    case LogicalShift(k) => Shift(k, i, c)
    case AlgebraicShift(k) => Algebraic(k, i, c)
    case CrBits(k) => CrLogic(k, i, c)
    case MCRF => CopyField(i, c)
    case MCRXR => MoveXerToCr(i, c)
    case MFCR => c.SetGpr(i.rD, c.cr)
    case MTCRF => MoveToCr(i, c)
    case MFSPR(spr) => FromSpr(spr, i, c)
    case MTSPR(spr) => ToSpr(spr, i, c)
    case Branch(_) => c
  }

  // Branches

  /** `if (!(bo & 4)) ctx->ctr--` */
  function CountedDown(bo: bv32, c: Context): Context {
    if bo & 0x04 == 0 then c.(ctr := Sub32(c.ctr, 1)) else c
  }

  predicate CtrOk(bo: bv32, ctr: bv32) { bo & 0x04 != 0 || ((ctr != 0) != ((bo >> 1) & 1 != 0)) }

  predicate CrOk(bo: bv32, cr: bv32, bi: Reg) {
    bo & 0x10 != 0 || (!Clear(cr, BitMask(bi)) == ((bo >> 3) & 1 != 0))
  }

  /** `emit_branch_condition`: whether the branch is taken, CTR counted down first. */
  predicate Taken(k: BranchOp, i: PPCInst, c: Context) {
    k == B || (CtrOk(i.bo, CountedDown(i.bo, c).ctr) && CrOk(i.bo, c.cr, i.bi))
  }

  /** `x & ~3u` */
  function WordAligned(x: bv32): bv32 { And32(x, 0xFFFF_FFFC) }

  /** `address + 4` */
  function NextAddress(i: PPCInst): bv32 { Add32(i.address, 4) }

  /** The state a branch leaves: only a taken branch writes the link register. */
  function AfterBranch(k: BranchOp, i: PPCInst, c: Context): Context {
    var d := if k == B then c else CountedDown(i.bo, c);
    if Taken(k, i, c) && i.lk then d.(lr := NextAddress(i)) else d
  }

  /** Where a taken branch goes; the dynamic targets are read before CTR is counted down. */
  function BranchTarget(k: BranchOp, i: PPCInst, c: Context): bv32 {
    match k
    case B | BC => i.branchTarget
    case BCLR => WordAligned(c.lr)
    case BCCTR => WordAligned(c.ctr)
  }

  function BranchNext(k: BranchOp, i: PPCInst, c: Context): bv32 {
    if Taken(k, i, c) then BranchTarget(k, i, c) else NextAddress(i)
  }
}
