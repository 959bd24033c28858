/** The interval analysis of guest addresses (src/ir/dolir_address.c) over an integer reading
    of DolIR, and its soundness. */
module AddressAnalysis {
  import opened DolIR

  type Code = seq<Inst<nat>>

  // Integer words

  function Pow2(k: nat): (p: nat)
    ensures p >= 1
  {
    if k == 0 then 1 else 2 * Pow2(k - 1)
  }

  function Max(width: nat): nat { Pow2(width) - 1 }

  function BitAnd(x: nat, y: nat): nat {
    if x == 0 || y == 0 then 0 else 2 * BitAnd(x / 2, y / 2) + (x % 2) * (y % 2)
  }

  function BitOr(x: nat, y: nat): nat
    decreases x + y
  {
    if x == 0 then y else if y == 0 then x
    else 2 * BitOr(x / 2, y / 2) + if x % 2 == 1 || y % 2 == 1 then 1 else 0
  }

  function BitXor(x: nat, y: nat): nat
    decreases x + y
  {
    if x == 0 then y else if y == 0 then x
    else 2 * BitXor(x / 2, y / 2) + if x % 2 != y % 2 then 1 else 0
  }

  /** The low `width` bits, `truncate_bits`. */
  function Truncate(x: nat, width: nat): nat { x % Pow2(width) }

  function Subtract(x: nat, y: nat, width: nat): nat { (x - y) % Pow2(width) }

  function Complement(x: nat, width: nat): nat { Max(width) - Truncate(x, width) }

  function ShiftLeft(x: nat, k: nat): nat { x * Pow2(k) }

  function ShiftRight(x: nat, k: nat): nat {
    QuotientIsNat(x, Pow2(k));
    x / Pow2(k)
  }

  lemma QuotientIsNat(x: nat, m: nat)
    requires m > 0
    ensures x / m >= 0
  {
  }

  function Rotate(x: nat, y: nat, width: nat): nat
    requires width > 0
  {
    var k := y % width;
    if k == 0 then Truncate(x, width)
    else Truncate(BitOr(Truncate(ShiftLeft(x, k), 64), ShiftRight(x, width - k)), width)
  }

  function LeadingZeros(x: nat, width: nat, count: nat): nat
    requires count <= width
    decreases width - count
  {
    if count < width && ShiftRight(x, width - count - 1) % 2 == 0 then LeadingZeros(x, width, count + 1) else count
  }

  function Truth(b: bool): nat { if b then 1 else 0 }

  // What DolIR computes

  /** `y` is a result of the operation; untracked operations may produce anything, undefined
      ones produce nothing. */
  predicate Unary(op: Op, width: nat, x: nat, y: nat) {
    match op
    case Not => y == Complement(x, width)
    case Trunc => y == Truncate(x, width)
    case ZExt => y == x
    case Clz => y == LeadingZeros(x, width, 0)
    case _ => true
  }

  predicate Binary(op: Op, width: nat, x: nat, z: nat, y: nat)
    requires width > 0
  {
    match op
    case Add => y == Truncate(x + z, width)
    case Sub => y == Subtract(x, z, width)
    case Mul => y == Truncate(x * z, width)
    case UDiv => z != 0 && y == Truncate(x / z, width)
    case And => x < Pow2(width) && z < Pow2(width) && y == BitAnd(x, z)
    case Or => y == Truncate(BitOr(x, z), width)
    case Xor => y == Truncate(BitXor(x, z), width)
    case Shl => z < width && y == Truncate(ShiftLeft(x, z), width)
    case LShr => z < width && y == ShiftRight(x, z)
    case Rotl => y == Rotate(x, z, width)
    case ICmpEq => y == if x == z then 1 else 0
    case ICmpNe => y == if x == z then 0 else 1
    case ICmpUlt => y == if x < z then 1 else 0
    case ICmpUle => y == if z < x then 0 else 1
    case _ => true
  }

  /** One instruction on SSA values `vals` and state slots `st`.  A helper, a load or a store
      returns anything and changes only the slots its effects list. */
  ghost predicate Executes(inst: Inst<nat>, vals: seq<nat>, st: seq<nat>, vals': seq<nat>, st': seq<nat>)
    requires Usable(inst, |vals|) && |st| == |st'| == STATE_COUNT && |vals'| == |vals|
  {
    var width := TypeWidth(inst.ty);
    && (forall slot | 0 <= slot < STATE_COUNT && slot !in inst.stateDefs :: st'[slot] == st[slot])
    && (inst.op == StateWrite ==> st' == st[inst.aux := vals[inst.operands[0]]])
    && (forall v | 0 <= v < |vals| && v != inst.result :: vals'[v] == vals[v])
    && Words(vals') && Words(st') && (width > 0 && inst.result != NO_VALUE ==> vals'[inst.result] < Pow2(width))
    && (inst.result != NO_VALUE ==>
          var y := vals'[inst.result];
          if inst.op == Constant && width > 0 then y == Truncate(inst.imm, width)
          else if inst.op == StateRead then y == st[inst.aux]
          else if |inst.operands| == 1 then width > 0 ==> Unary(inst.op, width, vals[inst.operands[0]], y)
          else if |inst.operands| == 2 then
            width > 0 ==> Binary(inst.op, width, vals[inst.operands[0]], vals[inst.operands[1]], y)
          else if inst.op == Select && |inst.operands| == 3 then
            y == if vals[inst.operands[0]] != 0 then vals[inst.operands[1]] else vals[inst.operands[2]]
          else true)
  }

  predicate Words(xs: seq<nat>) { forall k | 0 <= k < |xs| :: xs[k] < Pow2(64) }

  predicate Usable(inst: Inst<nat>, values: nat) {
    && inst.result < values && inst.aux < STATE_COUNT
    && (forall n | 0 <= n < |inst.operands| :: inst.operands[n] < values)
    && (inst.op == StateWrite || inst.op == GuestLoad || inst.op == GuestStore ==> |inst.operands| >= 1)
    && (inst.op == StateWrite ==> inst.result == NO_VALUE && inst.aux in inst.stateDefs)
  }

  // The abstract domain

  datatype Interval = Unknown | Bounded(lower: nat, upper: nat)

  predicate Contains(a: Interval, x: nat) { a.Bounded? ==> a.lower <= x <= a.upper }

  predicate Exact(a: Interval) { a.Bounded? && a.lower == a.upper }

  /** `range_value` */
  function RangeValue(lower: nat, upper: nat, width: nat): Interval {
    if lower > upper || upper > Max(width) then Unknown else Bounded(lower, upper)
  }

  /** `known_value` */
  function KnownValue(bits: nat, width: nat): Interval {
    var value := Truncate(bits, width);
    RangeValue(value, value, width)
  }

  /** `unary_value` */
  function UnaryValue(op: Op, width: nat, operand: Interval): Interval {
    if width == 0 then Unknown
    else match op
      case Not => if Exact(operand) then KnownValue(Complement(operand.lower, 64), width) else Unknown
      case Trunc | ZExt => if operand.Bounded? then RangeValue(operand.lower, operand.upper, width) else Unknown
      case Clz => if Exact(operand) then KnownValue(LeadingZeros(operand.lower, width, 0), width) else Unknown
      case _ => Unknown
  }

  /** The cases of `binary_value` that keep an interval. */
  function IntervalValue(op: Op, width: nat, left: Interval, right: Interval): Interval
    requires left.Bounded? && right.Bounded?
  {
    var maximum := Max(width);
    match op
    case Add =>
      if left.upper + right.upper <= maximum then
        RangeValue(left.lower + right.lower, left.upper + right.upper, width)
      else Unknown
    case Sub =>
      if left.lower >= right.upper && left.upper >= right.lower then
        RangeValue(left.lower - right.upper, left.upper - right.lower, width)
      else Unknown
    case LShr =>
      if Exact(right) && right.lower < width then
        RangeValue(ShiftRight(left.lower, right.lower), ShiftRight(left.upper, right.lower), width)
      else Unknown
    case Shl =>
      if Exact(right) && right.lower < width && left.upper <= ShiftRight(maximum, right.lower) then
        RangeValue(ShiftLeft(left.lower, right.lower), ShiftLeft(left.upper, right.lower), width)
      else Unknown
    case _ => Unknown
  }

  /** The cases of `binary_value` on two known operands. */
  function ExactValue(op: Op, width: nat, x: nat, z: nat): Interval
    requires width > 0
  {
    match op
    case Add => KnownValue(Truncate(x + z, 64), width)
    case Sub => KnownValue(Subtract(x, z, 64), width)
    case Mul => KnownValue(Truncate(x * z, 64), width)
    case UDiv => if z != 0 then KnownValue(x / z, width) else Unknown
    case And => KnownValue(BitAnd(x, z), width)
    case Or => KnownValue(BitOr(x, z), width)
    case Xor => KnownValue(BitXor(x, z), width)
    case Shl => if z < width then KnownValue(Truncate(ShiftLeft(x, z), 64), width) else Unknown
    case LShr => if z < width then KnownValue(ShiftRight(x, z), width) else Unknown
    case Rotl => KnownValue(Rotate(x, z, width), width)
    case ICmpEq => KnownValue(Truth(x == z), 1)
    case ICmpNe => KnownValue(Truth(x != z), 1)
    case ICmpUlt => KnownValue(Truth(x < z), 1)
    case ICmpUle => KnownValue(Truth(x <= z), 1)
    case _ => Unknown
  }

  /** `binary_value` */
  function BinaryValue(op: Op, width: nat, left: Interval, right: Interval): Interval {
    if width == 0 then Unknown
    else if op == And && Exact(left) && !Exact(right) then RangeValue(0, Truncate(left.lower, width), width)
    else if op == And && Exact(right) && !Exact(left) then RangeValue(0, Truncate(right.lower, width), width)
    else
      var interval := if left.Bounded? && right.Bounded? then IntervalValue(op, width, left, right) else Unknown;
      if left.Bounded? && right.Bounded? && Decides(op, width, left, right) then interval
      else if Exact(left) && Exact(right) then ExactValue(op, width, left.lower, right.lower)
      else Unknown
  }

  /** Whether the interval switch of `binary_value` returns, or falls through to the exact one. */
  predicate Decides(op: Op, width: nat, left: Interval, right: Interval)
    requires left.Bounded? && right.Bounded?
  {
    match op
    case Add => left.upper + right.upper <= Max(width)
    case Sub => left.lower >= right.upper
    case LShr => Exact(right) && right.lower < width
    case Shl => Exact(right) && right.lower < width && left.upper <= ShiftRight(Max(width), right.lower)
    case _ => false
  }

  function SelectValue(width: nat, condition: Interval, yes: Interval, no: Interval): Interval {
    if Exact(condition) then (if condition.lower != 0 then yes else no)
    else if yes.Bounded? && no.Bounded? then
      RangeValue(if yes.lower < no.lower then yes.lower else no.lower,
                 if yes.upper > no.upper then yes.upper else no.upper, width)
    else Unknown
  }

  /** `instruction_value` */
  function InstructionValue(inst: Inst<nat>, values: seq<Interval>, state: seq<Interval>): Interval
    requires Usable(inst, |values|) && |state| == STATE_COUNT
  {
    var width := TypeWidth(inst.ty);
    if inst.op == Constant && width > 0 then KnownValue(inst.imm, width)
    else if inst.op == StateRead then state[inst.aux]
    else if |inst.operands| == 1 then UnaryValue(inst.op, width, values[inst.operands[0]])
    else if |inst.operands| == 2 then BinaryValue(inst.op, width, values[inst.operands[0]], values[inst.operands[1]])
    else if inst.op == Select && |inst.operands| == 3 then
      SelectValue(width, values[inst.operands[0]], values[inst.operands[1]], values[inst.operands[2]])
    else Unknown
  }

  // Arithmetic the analysis relies on

  lemma {:induction false} Pow2Adds(a: nat, b: nat)
    ensures Pow2(a + b) == Pow2(a) * Pow2(b)
  {
    if a > 0 { Pow2Adds(a - 1, b); }
  }

  lemma ModOfMod(x: int, m: nat, k: nat)
    requires m > 0 && k > 0
    ensures (x % (m * k)) % m == x % m
  {
    var q, r := x / (m * k), x % (m * k);
    assert x == m * (k * q) + r;
    ModAddsMultiple(r, m, k * q);
  }

  lemma ModAddsMultiple(r: int, m: nat, t: int)
    requires m > 0
    ensures (m * t + r) % m == r % m
  {
    var q := r / m;
    assert m * t + r == m * (t + q) + r % m;
    ModUnique(m * t + r, m, t + q, r % m);
  }

  lemma AtLeast(m: nat, t: int)
    ensures t >= 1 ==> m * t >= m
    ensures t <= -1 ==> m * t <= 0 - m
  {
  }

  lemma ModUnique(x: int, m: nat, q: int, r: int)
    requires m > 0 && x == m * q + r && 0 <= r < m
    ensures x % m == r
  {
    var t := q - x / m;
    assert m * t == m * q - m * (x / m);
    AtLeast(m, t);
  }

  /** Truncating to 64 bits first does not change the low bits. */
  lemma TruncateTwice(x: int, width: nat)
    requires width <= 64
    ensures (x % Pow2(64)) % Pow2(width) == x % Pow2(width)
  {
    Pow2Adds(width, 64 - width);
    ModOfMod(x, Pow2(width), Pow2(64 - width));
  }

  lemma {:induction false} AndBelow(x: nat, y: nat)
    ensures BitAnd(x, y) <= x && BitAnd(x, y) <= y
  {
    if x != 0 && y != 0 { AndBelow(x / 2, y / 2); }
  }

  lemma DivideMonotone(a: nat, b: nat, m: nat)
    requires a <= b && m > 0
    ensures a / m <= b / m
  {
    var t := b / m - a / m;
    assert m * t == m * (b / m) - m * (a / m);
    AtLeast(m, t);
  }

  lemma MultiplyMonotone(a: nat, b: nat, m: nat)
    requires a <= b
    ensures a * m <= b * m
  {
  }

  lemma ComplementTruncates(x: nat, width: nat)
    requires x < Pow2(64) && width <= 64
    ensures Truncate(Complement(x, 64), width) == Complement(x, width)
  {
    var m, k := Pow2(width), Pow2(64 - width);
    Pow2Adds(width, 64 - width);
    ModUnique(x, Pow2(64), 0, x);
    ComplementParts(x, m, k);
  }

  lemma ComplementParts(x: nat, m: nat, k: nat)
    requires m > 0 && x < m * k
    ensures (m * k - 1 - x) % m == m - 1 - x % m
  {
    var q, r := x / m, x % m;
    assert m * k - 1 - x == m * (k - 1 - q) + (m - 1 - r);
    ModUnique(m * k - 1 - x, m, k - 1 - q, m - 1 - r);
  }

  lemma KnownContains(bits: nat, width: nat)
    ensures KnownValue(bits, width) == Bounded(Truncate(bits, width), Truncate(bits, width))
  {
  }

  lemma TruncateSmall(x: nat, width: nat)
    requires x < Pow2(width)
    ensures Truncate(x, width) == x
  {
    ModUnique(x, Pow2(width), 0, x);
  }

  // Soundness of the abstract operations

  lemma UnarySound(op: Op, width: nat, a: Interval, x: nat, y: nat)
    requires Contains(a, x) && 0 < width <= 64 && x < Pow2(64) && Unary(op, width, x, y)
    ensures Contains(UnaryValue(op, width, a), y)
  {
    hide LeadingZeros, Pow2;
    match op {
      case Not => if Exact(a) { ComplementSound(a.lower, width); }
      case Trunc => if a.Bounded? && a.upper <= Max(width) { TruncateSmall(x, width); }
      case Clz => if Exact(a) { CountSound(a.lower, width); }
      case _ =>
    }
  }

  lemma ComplementSound(x: nat, width: nat)
    requires x < Pow2(64) && width <= 64
    ensures KnownValue(Complement(x, 64), width) == Bounded(Complement(x, width), Complement(x, width))
  {
    ComplementTruncates(x, width);
    KnownContains(Complement(x, 64), width);
    hide Pow2;
  }

  lemma CountSound(x: nat, width: nat)
    ensures var count := LeadingZeros(x, width, 0); KnownValue(count, width) == Bounded(count, count)
  {
    CountFits(x, width, 0);
    TruncateSmall(LeadingZeros(x, width, 0), width);
    KnownContains(LeadingZeros(x, width, 0), width);
    hide Pow2, LeadingZeros;
  }

  lemma {:induction false} CountFits(x: nat, width: nat, count: nat)
    requires count <= width
    ensures count <= LeadingZeros(x, width, count) <= width < Pow2(width)
    decreases width - count
  {
    PowerExceeds(width);
    if count < width && ShiftRight(x, width - count - 1) % 2 == 0 { CountFits(x, width, count + 1); }
  }

  lemma {:induction false} PowerExceeds(k: nat)
    ensures k < Pow2(k)
  {
    if k > 0 { PowerExceeds(k - 1); }
  }

  lemma AddSound(width: nat, a: Interval, b: Interval, x: nat, z: nat)
    requires a.Bounded? && b.Bounded? && Contains(a, x) && Contains(b, z)
    ensures Contains(IntervalValue(Add, width, a, b), Truncate(x + z, width))
  {
    hide Pow2;
    if a.upper + b.upper <= Max(width) { TruncateSmall(x + z, width); }
  }

  lemma SubSound(width: nat, a: Interval, b: Interval, x: nat, z: nat)
    requires a.Bounded? && b.Bounded? && Contains(a, x) && Contains(b, z)
    ensures Contains(IntervalValue(Sub, width, a, b), Subtract(x, z, width))
  {
    hide Pow2;
    if a.lower >= b.upper && a.upper - b.lower <= Max(width) { TruncateSmall(x - z, width); }
  }

  lemma ShiftRightSound(width: nat, a: Interval, b: Interval, x: nat, z: nat)
    requires a.Bounded? && b.Bounded? && Contains(a, x) && Contains(b, z)
    ensures Contains(IntervalValue(LShr, width, a, b), ShiftRight(x, z))
  {
    hide Pow2;
    if Exact(b) {
      DivideMonotone(a.lower, x, Pow2(z));
      DivideMonotone(x, a.upper, Pow2(z));
    }
  }

  lemma ShiftLeftFits(x: nat, k: nat, width: nat)
    requires x <= ShiftRight(Max(width), k)
    ensures ShiftLeft(x, k) <= Max(width)
  {
    var m := Pow2(k);
    MultiplyMonotone(x, Max(width) / m, m);
    assert (Max(width) / m) * m + Max(width) % m == Max(width);
  }

  lemma ShiftLeftSound(width: nat, a: Interval, b: Interval, x: nat, z: nat)
    requires a.Bounded? && b.Bounded? && Contains(a, x) && Contains(b, z)
    ensures Contains(IntervalValue(Shl, width, a, b), Truncate(ShiftLeft(x, z), width))
  {
    hide Pow2;
    if Exact(b) && z < width && a.upper <= ShiftRight(Max(width), z) {
      ShiftLeftFits(x, z, width);
      TruncateSmall(ShiftLeft(x, z), width);
      MultiplyMonotone(a.lower, x, Pow2(z));
      MultiplyMonotone(x, a.upper, Pow2(z));
    }
  }

  lemma IntervalSound(op: Op, width: nat, a: Interval, b: Interval, x: nat, z: nat, y: nat)
    requires a.Bounded? && b.Bounded? && Contains(a, x) && Contains(b, z) && width > 0 && Binary(op, width, x, z, y)
    ensures Contains(IntervalValue(op, width, a, b), y)
  {
    hide Pow2, ShiftLeft, ShiftRight, Truncate, Subtract, Rotate, BitAnd, BitOr, BitXor;
    if op == Add { AddSound(width, a, b, x, z); }
    else if op == Sub { SubSound(width, a, b, x, z); }
    else if op == LShr { ShiftRightSound(width, a, b, x, z); }
    else if op == Shl { ShiftLeftSound(width, a, b, x, z); }
  }

  lemma TruncateIdempotent(x: nat, width: nat)
    ensures Truncate(Truncate(x, width), width) == Truncate(x, width)
  {
    TruncateSmall(Truncate(x, width), width);
  }

  /** A computation on known operands is the 64-bit one, truncated. */
  lemma ExactSound(op: Op, width: nat, x: nat, z: nat, y: nat)
    requires 0 < width <= 64 && Binary(op, width, x, z, y) && y < Pow2(width)
    ensures Contains(ExactValue(op, width, x, z), y)
  {
    hide Pow2, BitAnd, BitOr, BitXor, Rotate, ShiftLeft, ShiftRight;
    TruncateSmall(y, width);
    if op == Add { TruncateTwice(x + z, width); }
    else if op == Sub { TruncateTwice(x - z, width); }
    else if op == Mul { TruncateTwice(x * z, width); }
    else if op == Shl { TruncateTwice(ShiftLeft(x, z), width); }
    else if op == UDiv || op == Or || op == Xor || op == LShr || op == Rotl || op == And {
      KnownSound(op, width, x, z, y);
    } else {
      TruthKnown(x == z);
      TruthKnown(x != z);
      TruthKnown(x < z);
      TruthKnown(x <= z);
    }
  }

  lemma TruthKnown(b: bool)
    ensures KnownValue(Truth(b), 1) == Bounded(Truth(b), Truth(b))
  {
    assert Pow2(1) == 2;
  }

  lemma KnownSound(op: Op, width: nat, x: nat, z: nat, y: nat)
    requires op == UDiv || op == Or || op == Xor || op == LShr || op == Rotl || op == And
    requires 0 < width <= 64 && Binary(op, width, x, z, y) && y < Pow2(width)
    ensures Contains(ExactValue(op, width, x, z), y)
  {
    hide Pow2, BitAnd, BitOr, BitXor, Rotate, ShiftLeft, ShiftRight;
    TruncateSmall(y, width);
    match op {
      case UDiv => KnownContains(x / z, width);
      case Or => TruncateIdempotent(BitOr(x, z), width); KnownContains(BitOr(x, z), width);
      case Xor => TruncateIdempotent(BitXor(x, z), width); KnownContains(BitXor(x, z), width);
      case LShr => KnownContains(ShiftRight(x, z), width);
      case Rotl => KnownContains(Rotate(x, z, width), width);
      case _ => KnownContains(BitAnd(x, z), width);
    }
  }

  lemma MaskSound(width: nat, x: nat, z: nat, mask: nat)
    requires x < Pow2(width) && z < Pow2(width) && (mask == x || mask == z)
    ensures Contains(RangeValue(0, Truncate(mask, width), width), BitAnd(x, z))
  {
    AndBelow(x, z);
    TruncateSmall(mask, width);
  }

  lemma BinarySound(op: Op, width: nat, a: Interval, b: Interval, x: nat, z: nat, y: nat)
    requires Contains(a, x) && Contains(b, z) && 0 < width <= 64 && Binary(op, width, x, z, y) && y < Pow2(width)
    ensures Contains(BinaryValue(op, width, a, b), y)
  {
    hide Pow2, ExactValue, IntervalValue, RangeValue, BitAnd, Truncate;
    if op == And && Exact(a) && !Exact(b) {
      MaskSound(width, x, z, a.lower);
    } else if op == And && Exact(b) && !Exact(a) {
      MaskSound(width, x, z, b.lower);
    } else {
      if a.Bounded? && b.Bounded? { IntervalSound(op, width, a, b, x, z, y); }
      if Exact(a) && Exact(b) { ExactSound(op, width, x, z, y); }
    }
  }
}
