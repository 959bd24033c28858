/** Bit-exact meaning of straight-line DolIR on the split CR and XER state, following the
    LLVM operation each DolIR operation is emitted as (src/backend/llvm/instructions.cpp).
    An operation LLVM leaves undefined (over-wide shift, division by zero, signed division
    overflow) or an ill-typed one has no result: evaluation returns `None`. */
module SplitMachine {
  import opened Wrappers
  import opened DolIR

  datatype Word = W1(b: bool) | W8(x8: bv8) | W16(x16: bv16) | W32(x: bv32) | W64(y: bv64)

  type Code = seq<Inst<bv64>>

  /** The architectural state DolIR keeps: CR as eight 4-bit fields, XER as three flags
      and the remaining bits. */
  datatype SplitState = SplitState(
    gpr: GprFile, lr: bv32, ctr: bv32, crf: CrFile,
    xer: bv32, ca: bool, ov: bool, so: bool)

  type GprFile = r: seq<bv32> | |r| == 32 witness seq(32, _ => 0)
  type CrFile = r: seq<bv32> | |r| == 8 witness seq(8, _ => 0)

  datatype Machine = Machine(vals: map<nat, Word>, st: SplitState)

  function Low32(y: bv64): bv32 { (y & 0xFFFF_FFFF) as bv32 }

  function SignExtend(x: bv32): bv64 {
    if x & 0x8000_0000 == 0 then x as bv64 else x as bv64 | 0xFFFF_FFFF_0000_0000
  }

  predicate SignedLess(a: bv32, b: bv32) { a ^ 0x8000_0000 < b ^ 0x8000_0000 }

  function ArithmeticShift(x: bv32, k: bv32): bv32
    requires k < 32
  {
    if Clear(x, 0x8000_0000) then LShr32(x, k) else Not32(LShr32(Not32(x), k))
  }

  function Magnitude(x: bv32): bv32 { if x & 0x8000_0000 == 0 then x else -x }

  /** Truncating signed division. */
  function SignedDivide(a: bv32, b: bv32): bv32 {
    var q := UDiv32(Magnitude(a), Magnitude(b));
    if (a ^ b) & 0x8000_0000 == 0 then q else -q
  }

  /** No bit of the mask is set in `x`. */
  predicate Clear(x: bv32, mask: bv32) { x & mask == 0 }

  /** Number of zero bits above the highest set bit, among the top `width` bits of `x`. */
  function LeadingZeros(x: bv32, width: nat): bv32
    decreases width
  {
    if width == 0 || !Clear(x, 0x8000_0000) then 0 else Add32(1, LeadingZeros(Shl32(x, 1), width - 1))
  }

  function Clz32(x: bv32): bv32 { LeadingZeros(x, 32) }

  function Flag(b: bool): bv32 { if b then 1 else 0 }

  // One named function per word operation, so that proofs about instruction sequences can
  // hide what the operations do to the bits.
  function Add32(a: bv32, c: bv32): bv32 { a + c }

  /** Two's complement subtraction; `SubtractionByComplement` says it is `a - c`. */
  function Sub32(a: bv32, c: bv32): bv32 { Add32(Add32(a, !c), 1) }

  lemma SubtractionByComplement(a: bv32, c: bv32)
    ensures a + !c + 1 == a - c
  {
  }

  function Mul32(a: bv32, c: bv32): bv32 { a * c }
  function UDiv32(a: bv32, c: bv32): bv32 { if c == 0 then 0 else a / c }
  function And32(a: bv32, c: bv32): bv32 { a & c }
  function Or32(a: bv32, c: bv32): bv32 { a | c }
  function Xor32(a: bv32, c: bv32): bv32 { a ^ c }
  function Not32(a: bv32): bv32 { !a }
  function Shl32(a: bv32, c: bv32): bv32 { if c < 32 then a << c else 0 }
  function LShr32(a: bv32, c: bv32): bv32 { if c < 32 then a >> c else 0 }
  function AShr32(a: bv32, c: bv32): bv32 { if c < 32 then ArithmeticShift(a, c) else 0 }

  function RotateLeft32(x: bv32, n: bv32): bv32 {
    var k := And32(n, 31);
    if k == 0 then x else Or32(Shl32(x, k), LShr32(x, 32 - k))
  }

  predicate Less32(a: bv32, c: bv32) { a < c }
  function Add64(a: bv64, c: bv64): bv64 { a + c }
  function Mul64(a: bv64, c: bv64): bv64 { a * c }
  function LShr64(a: bv64, c: bv64): bv64 { if c < 64 then a >> c else 0 }
  function Zext64(x: bv32): bv64 { x as bv64 }
  function ExtendByte(x: bv8): bv32 { if x & 0x80 == 0 then x as bv32 else x as bv32 | 0xFFFF_FF00 }
  function ExtendHalf(x: bv16): bv32 { if x & 0x8000 == 0 then x as bv32 else x as bv32 | 0xFFFF_0000 }
  function Low8(x: bv32): bv8 { (x & 0xFF) as bv8 }
  function Low16(x: bv32): bv16 { (x & 0xFFFF) as bv16 }
  predicate Odd32(x: bv32) { x & 1 == 1 }
  predicate Odd64(y: bv64) { y & 1 == 1 }
  predicate ShiftInRange(c: bv32) { c < 32 }

  /** llvm.sdiv overflows on exactly this pair. */
  predicate DivisionOverflows(a: bv32, c: bv32) { a == 0x8000_0000 && c == 0xFFFF_FFFF }

  function EvalUnary(op: Op, ty: Type, a: Word): Option<Word> {
    match a
    case W1(b) => EvalUnary1(op, ty, b)
    case W8(x) => if op == SExt && ty == I32 then Some(W32(ExtendByte(x))) else None
    case W16(x) => if op == SExt && ty == I32 then Some(W32(ExtendHalf(x))) else None
    case W32(x) => EvalUnary32(op, ty, x)
    case W64(y) => EvalUnary64(op, ty, y)
  }

  function EvalUnary1(op: Op, ty: Type, b: bool): Option<Word> {
    if op == Not && ty == I1 then Some(W1(!b))
    else if op == ZExt && ty == I32 then Some(W32(Flag(b)))
    else None
  }

  function EvalUnary32(op: Op, ty: Type, x: bv32): Option<Word> {
    if op == Not && ty == I32 then Some(W32(Not32(x)))
    else if op == Clz && ty == I32 then Some(W32(Clz32(x)))
    else if op == Trunc && ty == I1 then Some(W1(Odd32(x)))
    else if op == Trunc && ty == I8 then Some(W8(Low8(x)))
    else if op == Trunc && ty == I16 then Some(W16(Low16(x)))
    else if op == ZExt && ty == I64 then Some(W64(Zext64(x)))
    else if op == SExt && ty == I64 then Some(W64(SignExtend(x)))
    else None
  }

  function EvalUnary64(op: Op, ty: Type, y: bv64): Option<Word> {
    if op == Trunc && ty == I1 then Some(W1(Odd64(y)))
    else if op == Trunc && ty == I32 then Some(W32(Low32(y)))
    else None
  }

  function Eval32(op: Op, a: bv32, c: bv32): Option<Word> {
    if op == Add then Some(W32(Add32(a, c)))
    else if op == Sub then Some(W32(Sub32(a, c)))
    else if op == Mul then Some(W32(Mul32(a, c)))
    else if op == UDiv then if c == 0 then None else Some(W32(UDiv32(a, c)))
    else if op == SDiv then if c == 0 || DivisionOverflows(a, c) then None else Some(W32(SignedDivide(a, c)))
    else if op == And then Some(W32(And32(a, c)))
    else if op == Op.Or then Some(W32(Or32(a, c)))
    else if op == Xor then Some(W32(Xor32(a, c)))
    else if op == Shl then if ShiftInRange(c) then Some(W32(Shl32(a, c))) else None
    else if op == LShr then if ShiftInRange(c) then Some(W32(LShr32(a, c))) else None
    else if op == AShr then if ShiftInRange(c) then Some(W32(AShr32(a, c))) else None
    else if op == Rotl then Some(W32(RotateLeft32(a, c)))
    else if op == ICmpEq then Some(W1(a == c))
    else if op == ICmpNe then Some(W1(a != c))
    else if op == ICmpUlt then Some(W1(Less32(a, c)))
    else if op == ICmpUle then Some(W1(!Less32(c, a)))
    else if op == ICmpSlt then Some(W1(SignedLess(a, c)))
    else if op == ICmpSle then Some(W1(!SignedLess(c, a)))
    else None
  }

  function Eval64(op: Op, a: bv64, c: bv64): Option<Word> {
    if op == Add then Some(W64(Add64(a, c)))
    else if op == Mul then Some(W64(Mul64(a, c)))
    else if op == LShr then if c < 64 then Some(W64(LShr64(a, c))) else None
    else None
  }

  function EvalBool(op: Op, a: bool, c: bool): Option<Word> {
    if op == And then Some(W1(a && c))
    else if op == Op.Or then Some(W1(a || c))
    else if op == Xor then Some(W1(a != c))
    else None
  }

  function EvalBinary(op: Op, ty: Type, a: Word, c: Word): Option<Word> {
    match (a, c)
    case (W1(p), W1(q)) => if ty == I1 then EvalBool(op, p, q) else None
    case (W32(p), W32(q)) =>
      var r :- Eval32(op, p, q);
      if (ty == I32 && r.W32?) || (ty == I1 && r.W1?) then Some(r) else None
    case (W64(p), W64(q)) => if ty == I64 then Eval64(op, p, q) else None
    case _ => None
  }

  function ReadSlot(st: SplitState, slot: nat): Option<Word> {
    if slot < 32 then Some(W32(st.gpr[slot]))
    else if slot == LR then Some(W32(st.lr))
    else if slot == CTR then Some(W32(st.ctr))
    else if CR0 <= slot < CR0 + 8 then Some(W32(st.crf[slot - CR0]))
    else if slot == XER then Some(W32(st.xer))
    else if slot == XER_CA then Some(W1(st.ca))
    else if slot == XER_OV then Some(W1(st.ov))
    else if slot == XER_SO then Some(W1(st.so))
    else None
  }

  function WriteSlot(st: SplitState, slot: nat, w: Word): Option<SplitState> {
    match w
    case W32(x) =>
      if slot < 32 then Some(st.(gpr := st.gpr[slot := x]))
      else if slot == LR then Some(st.(lr := x))
      else if slot == CTR then Some(st.(ctr := x))
      else if CR0 <= slot < CR0 + 8 then Some(st.(crf := st.crf[slot - CR0 := x]))
      else if slot == XER then Some(st.(xer := x))
      else None
    case W1(b) =>
      if slot == XER_CA then Some(st.(ca := b))
      else if slot == XER_OV then Some(st.(ov := b))
      else if slot == XER_SO then Some(st.(so := b))
      else None
    case _ => None
  }

  function Get(m: Machine, v: nat): Option<Word> {
    if v in m.vals then Some(m.vals[v]) else None
  }

  /** The value an instruction computes; state writes are handled by `Step`. */
  function Eval(inst: Inst<bv64>, m: Machine): Option<Word> {
    if inst.op == Constant then
      match inst.ty
      case I1 => Some(W1(Odd64(inst.imm)))
      case I32 => Some(W32(Low32(inst.imm)))
      case I64 => Some(W64(inst.imm))
      case _ => None
    else if inst.op == StateRead then ReadSlot(m.st, inst.aux)
    else if |inst.operands| == 1 then
      var a :- Get(m, inst.operands[0]);
      EvalUnary(inst.op, inst.ty, a)
    else if |inst.operands| == 2 then
      var a :- Get(m, inst.operands[0]);
      var c :- Get(m, inst.operands[1]);
      EvalBinary(inst.op, inst.ty, a, c)
    else if |inst.operands| == 3 && inst.op == Select then
      var p :- Get(m, inst.operands[0]);
      var a :- Get(m, inst.operands[1]);
      var c :- Get(m, inst.operands[2]);
      if p.W1? then Some(if p.b then a else c) else None
    else None
  }

  function Step(inst: Inst<bv64>, m: Machine): Option<Machine> {
    if inst.op == StateWrite then
      if |inst.operands| != 1 then None else
      var a :- Get(m, inst.operands[0]);
      var st :- WriteSlot(m.st, inst.aux, a);
      Some(m.(st := st))
    else
      var w :- Eval(inst, m);
      Some(m.(vals := m.vals[inst.result := w]))
  }

  function Run(code: Code, m: Machine): Option<Machine> {
    if code == [] then Some(m)
    else
      var before :- Run(code[..|code| - 1], m);
      Step(code[|code| - 1], before)
  }

  lemma RunAppend(code: Code, inst: Inst<bv64>, m: Machine)
    ensures Run(code + [inst], m) == (if Run(code, m).None? then None else Step(inst, Run(code, m).value))
  {
    assert (code + [inst])[..|code|] == code;
  }
}
