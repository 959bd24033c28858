/** Word-level identities between the operations DolIR is built from and the C expressions
    the emitter writes. */
module BitFacts {
  import opened DolIR
  import opened SplitMachine
  import opened EmittedC
  import opened SplitRelation
  import opened Lowering
  import opened LowerInteger
  import opened LowerRegister

  lemma SignedFieldBits(a: bv32, b: bv32, so: bool, xer: bv32)
    requires so == Bit(xer, 31)
    ensures var less, greater, equal := SignedLess(a, b), SignedLess(b, a), a == b;
      FieldBits(a, b, true, so) ==
      (if less then 8 else 0) | (if greater then 4 else 0) | (if equal then 2 else 0) | ((xer >> 31) & 1)
    ensures FieldBits(a, b, true, so) & 0xF == FieldBits(a, b, true, so)
  {
    hide SignedLess;
    FlagOfBit(xer, 31);
  }

  lemma UnsignedFieldBits(a: bv32, b: bv32, so: bool, xer: bv32)
    requires so == Bit(xer, 31)
    ensures var less, greater, equal := Less32(a, b), Less32(b, a), a == b;
      FieldBits(a, b, false, so) ==
      (if less then 8 else 0) | (if greater then 4 else 0) | (if equal then 2 else 0) | ((xer >> 31) & 1)
    ensures FieldBits(a, b, false, so) & 0xF == FieldBits(a, b, false, so)
  {
    hide Less32;
    FlagOfBit(xer, 31);
  }

  lemma CarryOutOf(wide: bv64)
    ensures CarryOut(wide) == Flag(CarryOf(wide))
  {
  }

  /** The carry tests of addme and subfme see a 33-bit sum. */
  lemma WideCarry(a: bv32, c: bv32, carry: bv32)
    requires carry == 0 || carry == 1
    ensures (LShr64(AddCarry64(a, c, carry), 32) != 0) == CarryOf(AddCarry64(a, c, carry))
  {
  }

  // What the builder's operators compute.

  lemma AddWord(a: bv32, c: bv32)
    ensures Total32(Add, a, c) == Add32(a, c)
  {
    hide RotateLeft32, Add32, Sub32, And32, Or32, Xor32;
  }

  lemma SubWord(a: bv32, c: bv32)
    ensures Total32(Sub, a, c) == Sub32(a, c)
  {
    hide RotateLeft32, Add32, Sub32, And32, Or32, Xor32;
  }

  lemma AndWord(a: bv32, c: bv32)
    ensures Total32(And, a, c) == And32(a, c)
  {
    hide RotateLeft32, Add32, Sub32, And32, Or32, Xor32;
  }

  lemma OrWord(a: bv32, c: bv32)
    ensures Total32(Op.Or, a, c) == Or32(a, c)
  {
    hide RotateLeft32, Add32, Sub32, And32, Or32, Xor32;
  }

  lemma XorWord(a: bv32, c: bv32)
    ensures Total32(Xor, a, c) == Xor32(a, c)
  {
    hide RotateLeft32, Add32, Sub32, And32, Or32, Xor32;
  }

  lemma RotlWord(a: bv32, c: bv32)
    ensures Total32(Rotl, a, c) == RotateLeft32(a, c)
  {
    hide RotateLeft32, Add32, Sub32, And32, Or32, Xor32;
  }

  lemma MulWord(a: bv64, c: bv64)
    ensures Total64(Mul, a, c) == Mul64(a, c)
  {
    hide Add64, Mul64;
  }

  lemma Complement(x: bv32)
    ensures ComplementIf(true, x) == Not32(x) && ComplementIf(false, x) == x
  {
    hide Not32;
  }

  lemma SubtractByComplement(a: bv32, c: bv32)
    ensures Add32(Add32(!a, c), 1) == Sub32(c, a)
  {
    AddCommutes(!a, c);
    hide Add32;
  }

  lemma NegateByComplement(a: bv32)
    ensures Add32(!a, 1) == Sub32(0, a)
  {
    ZeroPlus(!a);
    hide Add32;
  }

  lemma AddCommutes(x: bv32, y: bv32)
    ensures Add32(x, y) == Add32(y, x)
  {
  }

  lemma ZeroPlus(x: bv32)
    ensures Add32(0, x) == x
  {
  }

  lemma CommuteSum(x: bv64, y: bv64)
    ensures Add64(x, y) == Add64(y, x)
  {
  }

  lemma ZeroExtendedConstants()
    ensures Zext64(1) == 1 && Zext64(0xFFFF_FFFF) == 0xFFFF_FFFF && Zext64(0) == 0
  {
  }

  lemma AddNothing(x: bv64)
    ensures Add64(x, 0) == x
  {
  }

  lemma HighOfSigned(product: bv64)
    ensures SignedHigh(product) == Low32(LShr64(product, 32))
  {
  }

  lemma SmallAmount(sh: bv32)
    requires sh & 0x3F == sh
    ensures !Less32(31, sh) ==> sh & 31 == sh && And32(sh, 31) == sh && sh < 32
  {
  }

  lemma ShiftWords(k: ShiftOp, x: bv32, n: bv32)
    ensures var sh := And32(n, 0x3F); k == SLW ==> ShiftWord(k, x, n) == ShiftLeft(x, sh)
    ensures var sh := And32(n, 0x3F); k == SRW ==> ShiftWord(k, x, n) == ShiftRight(x, sh)
  {
    hide Less32, Shl32, LShr32, AShr32, And32, ShiftLeft, ShiftRight, Total32;
    var sh := And32(n, 0x3F);
    MaskedAmount(n);
    SmallAmount(sh);
    SmallShift(x, sh);
    AndWord(n, 0x3F);
    AndWord(sh, 31);
  }

  lemma MaskedAmount(n: bv32)
    ensures And32(n, 0x3F) & 0x3F == And32(n, 0x3F)
  {
  }

  lemma SmallShift(x: bv32, sh: bv32)
    ensures ShiftLeft(x, sh) == if Less32(31, sh) then 0 else Shl32(x, sh)
    ensures ShiftRight(x, sh) == if Less32(31, sh) then 0 else LShr32(x, sh)
  {
  }

  lemma SignIsTopBit(x: bv32)
    ensures SignedLess(x, 0) == (x & 0x8000_0000 != 0)
  {
  }

  lemma AlgebraicValue(x: bv32, sh: bv32)
    requires sh & 0x3F == sh
    ensures AlgebraicWord(x, sh) == AlgebraicResult(x, sh)
  {
    SignIsTopBit(x);
    SmallAmount(sh);
    hide SignedLess, ArithmeticShift;
    NoShift(x);
  }

  lemma NoShift(x: bv32)
    ensures ArithmeticShift(x, 0) == x
  {
  }

  lemma AlgebraicFlag(x: bv32, sh: bv32)
    requires sh & 0x3F == sh
    ensures AlgebraicCa(x, sh) == AlgebraicCarry(x, sh)
  {
    SignIsTopBit(x);
    SmallAmount(sh);
    hide SignedLess, LostBelow;
    if !Less32(31, sh) { LostBits(x, sh); }
  }

  lemma LostBits(x: bv32, sh: bv32)
    requires sh & 31 == sh
    ensures sh != 0 ==> (LostBelow(x, sh) == (x << (32 - sh) != 0))
    ensures sh == 0 ==> !LostBelow(x, sh)
  {
  }

  lemma CountsAgree(v: bv32)
    ensures CountLeadingZeros(v, 0) == Clz32(v)
  {
    CountFrom(v, v, 0);
  }

  /** The C loop tests bit `n` with a moving mask, the DolIR count shifts the word up. */
  lemma {:induction false} CountFrom(v: bv32, shifted: bv32, n: nat)
    requires n <= 32 && shifted == ShiftedUp(v, n)
    ensures CountLeadingZeros(v, n) == LeadingZeros(shifted, 32 - n)
    decreases 32 - n
  {
    assert BitMask(0) == 0x8000_0000;
    hide BitMask, Shl32, Add32, Clear;
    if n < 32 {
      MovingMask(v, n, n);
      CountFrom(v, Shl32(shifted, 1), n + 1);
    }
  }

  function ShiftedUp(v: bv32, n: nat): bv32 { if n == 0 then v else Shl32(ShiftedUp(v, n - 1), 1) }

  lemma {:induction false} MovingMask(v: bv32, n: Reg, k: nat)
    requires k <= n
    ensures Clear(v, BitMask(n)) == Clear(ShiftedUp(v, k), BitMask(n - k))
  {
    hide BitMask, Clear, Shl32, LShr32;
    if k > 0 {
      MovingMask(v, n, k - 1);
      NextMask(n - k);
      MoveBoth(ShiftedUp(v, k - 1), BitMask(n - k));
    }
  }

  lemma MoveBoth(x: bv32, m: bv32)
    requires And32(m, 1) == 0
    ensures Clear(x, LShr32(m, 1)) == Clear(Shl32(x, 1), m)
  {
  }

  lemma NextMask(n: Reg)
    requires n < 31
    ensures BitMask(n + 1) == LShr32(BitMask(n), 1) && And32(BitMask(n), 1) == 0
  {
    match n {
      case 0 => case 1 => case 2 => case 3 => case 4 => case 5 => case 6 => case 7 =>
      case 8 => case 9 => case 10 => case 11 => case 12 => case 13 => case 14 => case 15 =>
      case 16 => case 17 => case 18 => case 19 => case 20 => case 21 => case 22 => case 23 =>
      case 24 => case 25 => case 26 => case 27 => case 28 => case 29 => case _ =>
    }
  }

  // CR bits

  lemma BitPlaces(bit: Reg)
    ensures BitShift(bit) == FieldShift(bit / 4) + PlaceInField(bit)
    ensures BitMask(bit) == Shl32(1, BitShift(bit))
  {
    match bit {
      case 0 => case 1 => case 2 => case 3 => case 4 => case 5 => case 6 => case 7 =>
      case 8 => case 9 => case 10 => case 11 => case 12 => case 13 => case 14 => case 15 =>
      case 16 => case 17 => case 18 => case 19 => case 20 => case 21 => case 22 => case 23 =>
      case 24 => case 25 => case 26 => case 27 => case 28 => case 29 => case 30 => case _ =>
    }
  }

  lemma BitInNibble(cr: bv32, s: bv32, k: bv32)
    requires s & 3 == 0 && s <= 28 && k <= 3
    ensures FieldBitAt(FieldAt(cr, s), k) == (cr >> (s + k)) & 1
  {
  }

  function FieldBitAt(field: bv32, k: bv32): bv32 { And32(LShr32(field, k), 1) }

  lemma FieldBitIs(cr: bv32, bit: Reg)
    ensures FieldBit(Nibble(cr, bit / 4), bit) == BitOf(cr, bit)
  {
    BitPlaces(bit);
    FieldShiftDistinct(bit / 4, 0);
    BitInNibble(cr, FieldShift(bit / 4), PlaceInField(bit));
    hide FieldAt, LShr32, And32, BitMask, FieldShift, PlaceInField;
  }

  predicate IsBit(x: bv32) { x == 0 || x == 1 }

  lemma BitOfIsBit(cr: bv32, bit: Reg)
    ensures IsBit(BitOf(cr, bit))
  {
    ShiftedIsBit(cr, BitShift(bit));
    hide BitShift;
  }

  lemma ShiftedIsBit(cr: bv32, k: bv32)
    requires k < 32
    ensures IsBit((cr >> k) & 1)
  {
  }

  lemma AndBits(a: bv32, c: bv32)
    requires IsBit(a) && IsBit(c)
    ensures IsBit(Total32(And, a, c)) && Total32(And, a, c) == And32(And32(a, c), 1)
  {
    hide RotateLeft32, Add32, Sub32;
  }

  lemma OrBits(a: bv32, c: bv32)
    requires IsBit(a) && IsBit(c)
    ensures IsBit(Total32(Op.Or, a, c)) && Total32(Op.Or, a, c) == And32(Or32(a, c), 1)
  {
    OrWord(a, c);
    hide Total32;
    assert (a == 0 && Or32(a, c) == c) || (a == 1 && Or32(a, c) == 1);
  }

  lemma XorBits(a: bv32, c: bv32)
    requires IsBit(a) && IsBit(c)
    ensures IsBit(Total32(Xor, a, c)) && Total32(Xor, a, c) == And32(Xor32(a, c), 1)
  {
    hide RotateLeft32, Add32, Sub32;
  }

  /** Flipping a bit and complementing the word it is in have the same low bit. */
  lemma FlipBit(x: bv32)
    ensures IsBit(Xor32(And32(x, 1), 1)) && Xor32(And32(x, 1), 1) == And32(Not32(x), 1)
  {
  }

  lemma FlipRight(a: bv32, c: bv32)
    requires IsBit(c)
    ensures IsBit(Xor32(c, 1))
    ensures And32(And32(a, Xor32(c, 1)), 1) == And32(And32(a, Not32(c)), 1)
    ensures And32(Or32(a, Xor32(c, 1)), 1) == And32(Or32(a, Not32(c)), 1)
  {
  }

  lemma CrBitsAgree(op: CrBitOp, a: bv32, c: bv32)
    requires IsBit(a) && IsBit(c)
    ensures CrBitResult(op, a, c) == And32(CrLogical(op, a, c), 1) && IsBit(CrBitResult(op, a, c))
  {
    hide Total32, IsBit, And32, Or32, Xor32, Not32;
    match op {
      case CRAND => AndBits(a, c);
      case CRANDC => FlipRight(a, c); AndBits(a, Xor32(c, 1));
      case CRNAND => AndBits(a, c); FlipBit(And32(a, c));
      case CROR => OrBits(a, c);
      case CRORC => FlipRight(a, c); OrBits(a, Xor32(c, 1));
      case CRNOR => OrBits(a, c); FlipBit(Or32(a, c));
      case CRXOR => XorBits(a, c);
      case CREQV => XorBits(a, c); FlipBit(Xor32(a, c));
    }
  }

  /** Setting one CR bit in its nibble is setting it in the packed word. */
  lemma InsertBit(cr: bv32, s: bv32, k: bv32, bit: bv32)
    requires s & 3 == 0 && s <= 28 && k <= 3 && IsBit(bit)
    ensures FieldAt(SetMasked(cr, Shl32(1, s + k), bit), s) == InsertedBit(FieldAt(cr, s), k, bit)
  {
  }

  lemma InsertBitElsewhere(cr: bv32, s: bv32, k: bv32, t: bv32, bit: bv32)
    requires s & 3 == 0 && s <= 28 && t & 3 == 0 && t <= 28 && k <= 3 && s != t
    ensures FieldAt(SetMasked(cr, Shl32(1, s + k), bit), t) == FieldAt(cr, t)
  {
  }

  function InsertedBit(field: bv32, k: bv32, bit: bv32): bv32 {
    And32(InsertMasked(field, Shl32(bit, k), Shl32(1, k)), 0xF)
  }
}
