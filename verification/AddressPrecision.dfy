/** What the address analysis does not give up: on known operands its results are exact, on intervals
    they are the narrowest, and over every run what is computed from constants is known, so that a
    constant address is annotated with itself. */
module AddressPrecision {
  import opened DolIR
  import opened AddressAnalysis
  import opened AddressSoundness

  // Single operations

  predicate TracksOne(op: Op) { op == Not || op == Trunc || op == ZExt || op == Clz }

  predicate TracksTwo(op: Op) {
    op == Add || op == Sub || op == Mul || op == UDiv || op == And || op == Op.Or || op == Xor
    || op == Shl || op == LShr || op == Rotl || Compares(op)
  }

  predicate Compares(op: Op) { op == ICmpEq || op == ICmpNe || op == ICmpUlt || op == ICmpUle }

  function Only(x: nat): Interval { Bounded(x, x) }

  /** A tracked operation on a known operand is known. */
  lemma UnaryExact(op: Op, width: nat, x: nat, y: nat)
    requires TracksOne(op) && 0 < width <= 64 && x < Pow2(64) && Unary(op, width, x, y) && y < Pow2(width)
    requires op == Trunc ==> x < Pow2(width)
    ensures UnaryValue(op, width, Only(x)) == Only(y)
  {
    hide LeadingZeros, Pow2;
    match op {
      case Not => ComplementSound(x, width);
      case Trunc => TruncateSmall(x, width);
      case Clz => CountSound(x, width);
      case _ =>
    }
  }

  /** The exact switch gives one value for each defined result. */
  lemma ExactIsKnown(op: Op, width: nat, x: nat, z: nat, y: nat)
    requires TracksTwo(op) && width > 0 && Binary(op, width, x, z, y)
    ensures Exact(ExactValue(op, width, x, z))
  {
    hide Pow2, BitAnd, BitOr, BitXor, Rotate, ShiftLeft, ShiftRight, Truncate, Subtract, KnownValue;
    forall bits: nat, w: nat ensures Exact(KnownValue(bits, w)) { KnownContains(bits, w); }
  }

  /** Where the interval switch decides it gives one value too. */
  lemma DecidedIsKnown(op: Op, width: nat, x: nat, z: nat, y: nat)
    requires Decides(op, width, Only(x), Only(z)) && width > 0 && Binary(op, width, x, z, y)
    requires x < Pow2(width) && z < Pow2(width) && y < Pow2(width)
    ensures Exact(IntervalValue(op, width, Only(x), Only(z)))
  {
    hide Pow2;
    if op == Sub { TruncateSmall(x - z, width); }
    if op == Shl { ShiftLeftFits(x, z, width); }
  }

  lemma KnownStaysKnown(op: Op, width: nat, x: nat, z: nat, y: nat)
    requires TracksTwo(op) && 0 < width <= 64 && Binary(op, width, x, z, y) && y < Pow2(width)
    requires Compares(op) || (x < Pow2(width) && z < Pow2(width))
    ensures Exact(BinaryValue(op, width, Only(x), Only(z)))
  {
    hide Pow2, Binary, IntervalValue, ExactValue, RangeValue, Truncate, TracksTwo;
    if Decides(op, width, Only(x), Only(z)) {
      DecidedIsKnown(op, width, x, z, y);
    } else {
      ExactIsKnown(op, width, x, z, y);
    }
  }

  /** A tracked operation on known operands is known. */
  lemma BinaryExact(op: Op, width: nat, x: nat, z: nat, y: nat)
    requires TracksTwo(op) && 0 < width <= 64 && Binary(op, width, x, z, y) && y < Pow2(width)
    requires Compares(op) || (x < Pow2(width) && z < Pow2(width))
    ensures BinaryValue(op, width, Only(x), Only(z)) == Only(y)
  {
    hide Pow2, Binary, BinaryValue, TracksTwo;
    BinarySound(op, width, Only(x), Only(z), x, z, y);
    KnownStaysKnown(op, width, x, z, y);
  }

  /** Where a tracked operation on known operands has no result nothing is known. */
  lemma UndefinedIsUnknown(op: Op, width: nat, x: nat, z: nat)
    requires width > 0 && ((op == UDiv && z == 0) || ((op == Shl || op == LShr) && z >= width))
    ensures BinaryValue(op, width, Only(x), Only(z)) == Unknown
    ensures forall y: nat :: !Binary(op, width, x, z, y)
  {
    hide Pow2, ShiftLeft, ShiftRight;
  }

  // Intervals

  /** The result of the operation without a wrap. */
  predicate Fits(op: Op, width: nat, x: nat, z: nat) {
    match op
    case Add => x + z < Pow2(width)
    case Sub => x >= z
    case LShr => z < width
    case Shl => z < width && ShiftLeft(x, z) < Pow2(width)
    case _ => false
  }

  predicate Keeps(op: Op) { op == Add || op == Sub || op == LShr || op == Shl }

  predicate ShiftsBy(op: Op) { op == LShr || op == Shl }

  /** No values of the operands wrap, and a shift amount is known. */
  ghost predicate NoneWraps(op: Op, width: nat, a: Interval, b: Interval)
    requires a.Bounded? && b.Bounded?
  {
    (ShiftsBy(op) ==> Exact(b))
    && forall x: nat, z: nat | Contains(a, x) && Contains(b, z) :: Fits(op, width, x, z)
  }

  /** A value of the interval comes out. */
  ghost predicate Attains(op: Op, width: nat, a: Interval, b: Interval, y: nat)
    requires width > 0
  {
    exists x: nat, z: nat :: Contains(a, x) && Contains(b, z) && Binary(op, width, x, z, y)
  }

  predicate Proper(a: Interval, width: nat) { a.Bounded? && a.lower <= a.upper < Pow2(width) }

  /** On intervals the four operations keep an interval exactly where nothing wraps, and then both of its
      ends come out. */
  lemma IntervalIsNarrowest(op: Op, width: nat, a: Interval, b: Interval)
    requires Keeps(op) && 0 < width <= 64 && Proper(a, width) && Proper(b, width) && !(Exact(a) && Exact(b))
    ensures BinaryValue(op, width, a, b).Bounded? <==> NoneWraps(op, width, a, b)
    ensures NoneWraps(op, width, a, b) ==>
      var r := BinaryValue(op, width, a, b);
      r.lower <= r.upper && Attains(op, width, a, b, r.lower) && Attains(op, width, a, b, r.upper)
  {
    hide Pow2;
    if op == Add { AddNarrowest(width, a, b); }
    else if op == Sub { SubNarrowest(width, a, b); }
    else if op == LShr { ShiftRightNarrowest(width, a, b); }
    else { ShiftLeftNarrowest(width, a, b); }
  }

  lemma AddNarrowest(width: nat, a: Interval, b: Interval)
    requires width > 0 && Proper(a, width) && Proper(b, width) && !(Exact(a) && Exact(b))
    ensures var r := BinaryValue(Add, width, a, b);
      (r.Bounded? <==> NoneWraps(Add, width, a, b))
      && (r.Bounded? ==> r.lower <= r.upper && Attains(Add, width, a, b, r.lower) && Attains(Add, width, a, b, r.upper))
  {
    hide Pow2;
    if a.upper + b.upper <= Max(width) {
      TruncateSmall(a.lower + b.lower, width);
      TruncateSmall(a.upper + b.upper, width);
      assert Binary(Add, width, a.lower, b.lower, a.lower + b.lower);
      assert Binary(Add, width, a.upper, b.upper, a.upper + b.upper);
    } else {
      assert !Fits(Add, width, a.upper, b.upper);
    }
  }

  lemma SubNarrowest(width: nat, a: Interval, b: Interval)
    requires width > 0 && Proper(a, width) && Proper(b, width) && !(Exact(a) && Exact(b))
    ensures var r := BinaryValue(Sub, width, a, b);
      (r.Bounded? <==> NoneWraps(Sub, width, a, b))
      && (r.Bounded? ==> r.lower <= r.upper && Attains(Sub, width, a, b, r.lower) && Attains(Sub, width, a, b, r.upper))
  {
    hide Pow2;
    if a.lower >= b.upper {
      TruncateSmall(a.lower - b.upper, width);
      TruncateSmall(a.upper - b.lower, width);
      assert Binary(Sub, width, a.lower, b.upper, a.lower - b.upper);
      assert Binary(Sub, width, a.upper, b.lower, a.upper - b.lower);
    } else {
      assert !Fits(Sub, width, a.lower, b.upper);
    }
  }

  lemma ShiftRightNarrowest(width: nat, a: Interval, b: Interval)
    requires width > 0 && Proper(a, width) && Proper(b, width) && !(Exact(a) && Exact(b))
    ensures var r := BinaryValue(LShr, width, a, b);
      (r.Bounded? <==> NoneWraps(LShr, width, a, b))
      && (r.Bounded? ==>
            r.lower <= r.upper && Attains(LShr, width, a, b, r.lower) && Attains(LShr, width, a, b, r.upper))
  {
    hide Pow2;
    if Exact(b) {
      DivideMonotone(a.lower, a.upper, Pow2(b.lower));
      ShiftRightBelow(a.upper, b.lower);
      assert Fits(LShr, width, a.lower, b.lower) == (b.lower < width);
      if b.lower < width {
        assert Binary(LShr, width, a.lower, b.lower, ShiftRight(a.lower, b.lower));
        assert Binary(LShr, width, a.upper, b.lower, ShiftRight(a.upper, b.lower));
      }
    }
  }

  lemma ShiftRightBelow(x: nat, k: nat)
    ensures ShiftRight(x, k) <= x
  {
    hide Pow2;
    QuotientBelow(x, Pow2(k));
  }

  lemma QuotientBelow(x: nat, m: nat)
    requires m > 0
    ensures x / m <= x
  {
    var q := x / m;
    QuotientIsNat(x, m);
    assert x == q * m + x % m;
    MultiplyMonotone(1, m, q);
  }

  /** A word fits after a shift to the left exactly when it lies under the shifted maximum. */
  lemma ShiftLeftFitsIff(x: nat, k: nat, width: nat)
    ensures ShiftLeft(x, k) <= Max(width) <==> x <= ShiftRight(Max(width), k)
  {
    if x <= ShiftRight(Max(width), k) { ShiftLeftFits(x, k, width); }
    if ShiftLeft(x, k) <= Max(width) {
      DivideMonotone(x * Pow2(k), Max(width), Pow2(k));
      ProductDivides(x, Pow2(k));
    }
  }

  lemma ProductDivides(x: nat, m: nat)
    requires m > 0
    ensures x * m / m == x
  {
    var t := x * m / m - x;
    ModUnique(x * m, m, x, 0);
    assert m * t == m * (x * m / m) - m * x;
    AtLeast(m, t);
  }

  lemma ShiftLeftNarrowest(width: nat, a: Interval, b: Interval)
    requires width > 0 && Proper(a, width) && Proper(b, width) && !(Exact(a) && Exact(b))
    ensures var r := BinaryValue(Shl, width, a, b);
      (r.Bounded? <==> NoneWraps(Shl, width, a, b))
      && (r.Bounded? ==> r.lower <= r.upper && Attains(Shl, width, a, b, r.lower) && Attains(Shl, width, a, b, r.upper))
  {
    hide Pow2, ShiftLeft, ShiftRight, Truncate;
    if Exact(b) {
      var k := b.lower;
      forall x: nat | x <= a.upper ensures ShiftLeft(x, k) <= ShiftLeft(a.upper, k) { ShiftsMonotone(x, a.upper, k); }
      ShiftLeftFitsIff(a.upper, k, width);
      assert Contains(a, a.upper) && Contains(b, k);
      if k < width && a.upper <= ShiftRight(Max(width), k) {
        TruncateSmall(ShiftLeft(a.lower, k), width);
        TruncateSmall(ShiftLeft(a.upper, k), width);
        assert Binary(Shl, width, a.lower, k, ShiftLeft(a.lower, k));
        assert Binary(Shl, width, a.upper, k, ShiftLeft(a.upper, k));
      } else {
        assert !Fits(Shl, width, a.upper, k);
      }
    }
  }

  lemma ShiftsMonotone(x: nat, y: nat, k: nat)
    requires x <= y
    ensures ShiftLeft(x, k) <= ShiftLeft(y, k)
  {
    MultiplyMonotone(x, y, Pow2(k));
  }

  lemma {:induction false} AndWithItself(x: nat)
    ensures BitAnd(x, x) == x
  {
    if x != 0 { AndWithItself(x / 2); }
  }

  lemma NothingMasked(x: nat)
    ensures BitAnd(x, 0) == 0 && BitAnd(0, x) == 0
  {
  }

  /** A known mask of an unknown word gives all that the mask can leave: nothing and the mask come out. */
  lemma MaskIsNarrowest(width: nat, mask: nat)
    requires 0 < width <= 64 && mask < Pow2(width)
    ensures BinaryValue(And, width, Only(mask), Unknown) == Bounded(0, mask)
    ensures BinaryValue(And, width, Unknown, Only(mask)) == Bounded(0, mask)
    ensures forall y | y == 0 || y == mask ::
      Attains(And, width, Only(mask), Unknown, y) && Attains(And, width, Unknown, Only(mask), y)
  {
    hide Pow2, BitAnd;
    TruncateSmall(mask, width);
    AndWithItself(mask);
    NothingMasked(mask);
    assert Binary(And, width, mask, 0, 0) && Binary(And, width, 0, mask, 0);
    assert Binary(And, width, mask, mask, mask);
  }

  /** A choice that is not known gives the narrowest interval around both values, a known one the value. */
  lemma SelectIsNarrowest(width: nat, condition: Interval, yes: Interval, no: Interval)
    requires Proper(yes, width) && Proper(no, width)
    ensures var r := SelectValue(width, condition, yes, no);
      if Exact(condition) then r == (if condition.lower != 0 then yes else no)
      else
        r.Bounded? && (r.lower == yes.lower || r.lower == no.lower) && (r.upper == yes.upper || r.upper == no.upper)
        && r.lower <= yes.lower && r.lower <= no.lower && yes.upper <= r.upper && no.upper <= r.upper
  {
    hide Pow2;
  }

  /** Widening and narrowing keep an interval that fits, and drop one that does not. */
  lemma ConversionKeepsIff(op: Op, width: nat, a: Interval)
    requires (op == Trunc || op == ZExt) && width > 0 && a.Bounded? && a.lower <= a.upper
    ensures UnaryValue(op, width, a) == if a.upper < Pow2(width) then a else Unknown
  {
    hide Pow2;
  }

  // Constants over runs

  /** What a run has computed from constants since it entered a leader. */
  datatype Constants = Constants(values: set<nat>, slots: set<nat>)

  /** A tracked operation on words of its own width. */
  predicate Tracked(inst: Inst<nat>, vals: seq<nat>)
    requires Usable(inst, |vals|)
  {
    var width := TypeWidth(inst.ty);
    width > 0
    && (if |inst.operands| == 1 then
          TracksOne(inst.op) && (inst.op == Trunc ==> vals[inst.operands[0]] < Pow2(width))
        else
          |inst.operands| == 2 && TracksTwo(inst.op)
          && (Compares(inst.op) || (vals[inst.operands[0]] < Pow2(width) && vals[inst.operands[1]] < Pow2(width))))
  }

  /** The result is a constant, the read of a constant slot, a tracked operation on constants, or the choice
      of a constant. */
  predicate Settles(inst: Inst<nat>, vals: seq<nat>, k: Constants)
    requires Usable(inst, |vals|)
  {
    if inst.op == Constant then TypeWidth(inst.ty) > 0
    else if inst.op == StateRead then inst.aux in k.slots
    else if inst.op == Select && |inst.operands| == 3 then
      inst.operands[0] in k.values
      && (if vals[inst.operands[0]] != 0 then inst.operands[1] else inst.operands[2]) in k.values
    else Tracked(inst, vals) && forall n | 0 <= n < |inst.operands| :: inst.operands[n] in k.values
  }

  function After(inst: Inst<nat>, vals: seq<nat>, k: Constants): Constants
    requires Usable(inst, |vals|)
  {
    var values :=
      if inst.result == NO_VALUE then k.values
      else if Settles(inst, vals, k) then k.values + {inst.result}
      else k.values - {inst.result};
    var kept := k.slots - inst.stateDefs;
    Constants(values, if inst.op == StateWrite && inst.operands[0] in k.values then kept + {inst.aux} else kept)
  }

  /** The constants at the end of a run. */
  ghost function ConstantsOf(f: Region, values: nat, run: seq<Point>): Constants
    requires WellFormed(f, values) && Run(f, values, run)
    decreases |run|
  {
    var last := |run| - 1;
    if last == 0 then Constants({}, {})
    else
      var p, before := run[last - 1], ConstantsOf(f, values, run[..last]);
      assert At(f, values, p);
      if p.n < |f[p.b].insts| then After(f[p.b].insts[p.n], p.vals, before)
      else Constants({}, if Leader(f, run[last].b) then {} else before.slots)
  }

  /** Every constant is known to be what it is. */
  ghost predicate AllKnown(f: Region, values: nat, p: Point, k: Constants)
    requires WellFormed(f, values) && At(f, values, p)
  {
    var known := Known(f, values, p.b, p.n);
    && (forall v | v in k.values :: v < values && v != NO_VALUE && known.values[v] == Only(p.vals[v]))
    && (forall slot | slot in k.slots :: slot < STATE_COUNT && known.state[slot] == Only(p.st[slot]))
  }

  lemma SettledIsKnown(inst: Inst<nat>, a: Facts, vals: seq<nat>, st: seq<nat>, vals': seq<nat>, st': seq<nat>,
          k: Constants)
    requires Usable(inst, |vals|) && Shaped(a, |vals|) && |st| == |st'| == STATE_COUNT && |vals'| == |vals|
    requires Words(vals) && inst.result != NO_VALUE && Executes(inst, vals, st, vals', st') && Settles(inst, vals, k)
    requires forall v | v in k.values :: v < |vals| && a.values[v] == Only(vals[v])
    requires forall slot | slot in k.slots :: slot < STATE_COUNT && a.state[slot] == Only(st[slot])
    ensures InstructionValue(inst, a.values, a.state) == Only(vals'[inst.result])
  {
    hide Pow2, UnaryValue, BinaryValue, Unary, Binary, Truncate, KnownValue, TracksOne, TracksTwo, Compares;
    var width, y := TypeWidth(inst.ty), vals'[inst.result];
    if inst.op == Constant {
      KnownContains(inst.imm, width);
    } else if inst.op == StateRead || (inst.op == Select && |inst.operands| == 3) {
    } else if |inst.operands| == 1 {
      UnaryExact(inst.op, width, vals[inst.operands[0]], y);
    } else {
      BinaryExact(inst.op, width, vals[inst.operands[0]], vals[inst.operands[1]], y);
    }
  }

  lemma KeptSlotsKnown(inst: Inst<nat>, a: Facts, vals: seq<nat>, st: seq<nat>, vals': seq<nat>, st': seq<nat>,
          k: Constants)
    requires Usable(inst, |vals|) && Shaped(a, |vals|) && |st| == |st'| == STATE_COUNT && |vals'| == |vals|
    requires Executes(inst, vals, st, vals', st')
    requires forall v | v in k.values :: v < |vals| && v != NO_VALUE && a.values[v] == Only(vals[v])
    requires forall slot | slot in k.slots :: slot < STATE_COUNT && a.state[slot] == Only(st[slot])
    ensures forall slot | slot in After(inst, vals, k).slots ::
      slot < STATE_COUNT && Transfer(inst, a).state[slot] == Only(st'[slot])
  {
    hide InstructionValue, Settles, Unary, Binary, Words, Pow2;
  }

  lemma InstructionKnown(f: Region, values: nat, p: Point, q: Point, k: Constants)
    requires WellFormed(f, values) && At(f, values, p) && At(f, values, q) && AllKnown(f, values, p, k)
    requires p.n < |f[p.b].insts| && q.b == p.b && q.n == p.n + 1
    requires Executes(f[p.b].insts[p.n], p.vals, p.st, q.vals, q.st)
    ensures AllKnown(f, values, q, After(f[p.b].insts[p.n], p.vals, k))
  {
    hide InstructionValue, Settles, Transfer, Known, WellFormed, Unary, Binary, Pow2;
    var inst, known := f[p.b].insts[p.n], Known(f, values, p.b, p.n);
    KnownAfter(f, values, p.b, p.n);
    TransferValues(inst, known);
    KeptSlotsKnown(inst, known, p.vals, p.st, q.vals, q.st, k);
    if inst.result != NO_VALUE && Settles(inst, p.vals, k) {
      SettledIsKnown(inst, known, p.vals, p.st, q.vals, q.st, k);
    }
  }

  lemma BlockKnown(f: Region, values: nat, p: Point, q: Point, k: Constants)
    requires WellFormed(f, values) && At(f, values, p) && At(f, values, q) && Moves(f, values, p, q)
    requires AllKnown(f, values, p, k) && p.n == |f[p.b].insts|
    ensures AllKnown(f, values, q, Constants({}, if Leader(f, q.b) then {} else k.slots))
  {
    hide Known, WellFormed, Leader, Successor;
    if !Leader(f, q.b) {
      FallsToNext(f, values, p.b, q.b);
      KnownAtStart(f, values, q.b);
    }
  }

  /** Along every run all that is computed from constants is known. */
  lemma {:induction false} ConstantsAreKnown(f: Region, values: nat, run: seq<Point>)
    requires WellFormed(f, values) && Run(f, values, run)
    ensures AllKnown(f, values, run[|run| - 1], ConstantsOf(f, values, run))
  {
    hide WellFormed, AllKnown, Executes, Leader, Known, After;
    var last := |run| - 1;
    if last == 0 {
      NothingKnown(f, values, run[0]);
    } else {
      ConstantsAreKnown(f, values, run[..last]);
      var p, q, k := run[last - 1], run[last], ConstantsOf(f, values, run[..last]);
      assert Moves(f, values, p, q);
      if p.n < |f[p.b].insts| { InstructionKnown(f, values, p, q, k); } else { BlockKnown(f, values, p, q, k); }
    }
  }

  lemma NothingKnown(f: Region, values: nat, p: Point)
    requires WellFormed(f, values) && At(f, values, p)
    ensures AllKnown(f, values, p, Constants({}, {}))
  {
  }

  /** A load or store whose address a run computes from constants is annotated with that address and its
      class. */
  lemma ConstantAddressIsAnnotated(f: Region, values: nat, run: seq<Point>)
    requires WellFormed(f, values) && Run(f, values, run)
    requires var p := run[|run| - 1];
      p.n < |f[p.b].insts| && (f[p.b].insts[p.n].op == GuestLoad || f[p.b].insts[p.n].op == GuestStore)
    requires var p := run[|run| - 1];
      f[p.b].insts[p.n].operands[0] in ConstantsOf(f, values, run).values
    ensures var p := run[|run| - 1];
      var (inst, a) := (f[p.b].insts[p.n], p.vals[f[p.b].insts[p.n].operands[0]]);
      AccessOf(inst, Known(f, values, p.b, p.n).values)
        == if a <= ADDRESS_MAX && ClassifyAddress(a) != UnknownDomain then Access(ClassifyAddress(a), a, a)
           else NO_ACCESS
  {
    hide Known, ConstantsOf, ClassifyAddress;
    ConstantsAreKnown(f, values, run);
  }

  // Classes

  /** A class of RAM is where an address resolves. */
  lemma RamClassIff(a: nat)
    requires a <= ADDRESS_MAX
    ensures ClassifyAddress(a) == Mem1 <==> Resolve(a).Mapped? && Resolve(a).memory == MainRam
    ensures ClassifyAddress(a) == Mem2 <==> Resolve(a).Mapped? && Resolve(a).memory == Mem2Ram
  {
  }

  /** The other classes by the high digits of the address. */
  lemma OtherClassIff(a: nat)
    requires a <= ADDRESS_MAX
    ensures ClassifyAddress(a) == Fifo <==> a / 0x1000 == 0xC_C008
    ensures ClassifyAddress(a) == Mmio <==> a / 0x200_0000 == 0x66 && a / 0x1000 != 0xC_C008
    ensures ClassifyAddress(a) == Physical <==> a / 0x8000_0000 == 0
    ensures ClassifyAddress(a) == UnknownDomain <==> a / 0x2000_0000 == 7
  {
  }

  /** No two windows of RAM adjoin: the address behind each is not RAM. */
  lemma WindowEnds()
    ensures Resolve(RAM_BASE + RAM_SIZE) == Resolve(RAM_UNCACHED + RAM_SIZE) == Unmapped
    ensures Resolve(MEM2_BASE + MEM2_SIZE) == Resolve(MEM2_UNCACHED + MEM2_SIZE) == Unmapped
  {
  }

  /** More than one address has a class exactly where all of them resolve to one RAM. */
  lemma RangeClassIff(lower: nat, upper: nat)
    requires lower < upper <= ADDRESS_MAX
    ensures ClassifyRange(lower, upper) != UnknownDomain <==> forall a: nat | lower <= a <= upper :: Resolve(a).Mapped?
    ensures forall a: nat | lower <= a <= upper && ClassifyRange(lower, upper) != UnknownDomain ::
      Resolve(a).Mapped? && Resolve(a).memory == if ClassifyRange(lower, upper) == Mem1 then MainRam else Mem2Ram
  {
    WindowEnds();
    if forall a: nat | lower <= a <= upper :: Resolve(a).Mapped? {
      assert Resolve(lower).Mapped? && Resolve(upper).Mapped?;
    }
  }

  /** An access is made native exactly where each of its addresses resolves with room for the width. */
  lemma NativeAccessIff(lower: nat, upper: nat, width: nat)
    requires lower <= upper <= ADDRESS_MAX
    ensures NativeAccess(Access(ClassifyRange(lower, upper), lower, upper), width)
      <==> width > 0 && forall a: nat | lower <= a <= upper :: Resolve(a).Mapped? && Resolve(a).available >= width
  {
    hide ClassifyRange, Resolve;
    if NativeAccess(Access(ClassifyRange(lower, upper), lower, upper), width) {
      forall a: nat | lower <= a <= upper ensures Resolve(a).Mapped? && Resolve(a).available >= width {
        NativeAccessResolves(lower, upper, width, a);
      }
    }
    if width > 0 && forall a: nat | lower <= a <= upper :: Resolve(a).Mapped? && Resolve(a).available >= width {
      assert Resolve(lower).Mapped? && Resolve(upper).Mapped?;
      RoomIsNative(lower, upper, width);
    }
  }

  lemma RoomIsNative(lower: nat, upper: nat, width: nat)
    requires lower <= upper <= ADDRESS_MAX && width > 0
    requires forall a: nat | lower <= a <= upper :: Resolve(a).Mapped? && Resolve(a).available >= width
    ensures NativeAccess(Access(ClassifyRange(lower, upper), lower, upper), width)
  {
    WindowEnds();
    WindowClass(lower);
    assert Resolve(lower).available >= width && Resolve(upper).available >= width;
  }
}
