/** What the instructions compute, told bit by bit and apart from both compilations: bits are numbered
    from the left, as the architecture numbers them. */
module Meaning {
  import opened Wrappers
  import opened SplitMachine
  import opened EmittedC
  import opened Numbers
  import opened BitFacts

  /** Bit `k` from the left. */
  predicate On(x: bv32, k: Reg) { !Clear(x, BitMask(k)) }

  /** Bit `mb` through bit `me`, round the end of the word when they are the other way about. */
  predicate Between(mb: Reg, k: Reg, me: Reg) { if mb <= me then mb <= k <= me else mb <= k || k <= me }

  // Single bits

  predicate OneBit(m: bv32) { m != 0 && m & (m - 1) == 0 }

  lemma {:induction false} MaskIsBit(k: Reg)
    ensures OneBit(BitMask(k)) && (k < 31 ==> BitMask(k) & 1 == 0)
  {
    if k == 0 {
      FirstMask();
    } else {
      MaskIsBit(k - 1);
      NextMask(k - 1);
      HalfBit(BitMask(k - 1));
    }
    if k < 31 { NextMask(k); }
  }

  lemma FirstMask()
    ensures BitMask(0) == 0x8000_0000 && BitMask(31) == 1
  {
  }

  lemma HalfBit(m: bv32)
    requires OneBit(m) && And32(m, 1) == 0
    ensures OneBit(LShr32(m, 1)) && LShr32(m, 1) < m
  {
  }

  lemma {:induction false} MasksFall(j: Reg, k: Reg)
    requires j < k
    ensures BitMask(k) < BitMask(j)
  {
    hide BitMask;
    if j + 1 < k { MasksFall(j, k - 1); }
    MaskIsBit(k - 1);
    NextMask(k - 1);
    HalfBit(BitMask(k - 1));
  }

  lemma BitsApart(m: bv32, n: bv32)
    requires OneBit(m) && OneBit(n)
    ensures Clear(m, n) <==> m != n
  {
  }

  lemma OneBitOn(j: Reg, k: Reg)
    ensures On(BitMask(j), k) <==> j == k
  {
    hide OneBit, BitMask, Clear;
    MaskIsBit(j);
    MaskIsBit(k);
    BitsApart(BitMask(j), BitMask(k));
    if j < k { MasksFall(j, k); }
    if k < j { MasksFall(k, j); }
  }

  lemma NoneOn(k: Reg)
    ensures !On(0, k)
  {
  }

  lemma OrClear(a: bv32, b: bv32, m: bv32)
    ensures Clear(a, m) && Clear(b, m) ==> Clear(Or32(a, b), m)
  {
  }

  lemma OrSet(a: bv32, b: bv32, m: bv32)
    ensures Clear(Or32(a, b), m) ==> Clear(a, m)
    ensures Clear(Or32(a, b), m) ==> Clear(b, m)
  {
  }

  lemma AndClear(a: bv32, b: bv32, m: bv32)
    requires Clear(a, m)
    ensures Clear(And32(a, b), m)
  {
  }

  lemma AndCommutes(a: bv32, b: bv32)
    ensures And32(a, b) == And32(b, a)
  {
  }

  lemma AndSet(a: bv32, b: bv32, m: bv32)
    requires OneBit(m) && !Clear(a, m) && !Clear(b, m)
    ensures !Clear(And32(a, b), m)
  {
  }

  lemma NotClear(a: bv32, m: bv32)
    requires OneBit(m) && !Clear(a, m)
    ensures Clear(Not32(a), m)
  {
  }

  lemma NotSet(a: bv32, m: bv32)
    requires OneBit(m) && Clear(a, m)
    ensures !Clear(Not32(a), m)
  {
  }

  lemma OrOn(a: bv32, b: bv32, k: Reg)
    ensures On(Or32(a, b), k) <==> On(a, k) || On(b, k)
  {
    hide Clear, BitMask, Or32;
    OrClear(a, b, BitMask(k));
    OrSet(a, b, BitMask(k));
  }

  lemma AndOn(a: bv32, b: bv32, k: Reg)
    ensures On(And32(a, b), k) <==> On(a, k) && On(b, k)
  {
    hide Clear, BitMask, And32, OneBit;
    MaskIsBit(k);
    if !On(a, k) {
      AndClear(a, b, BitMask(k));
    } else if !On(b, k) {
      AndClear(b, a, BitMask(k));
      AndCommutes(a, b);
    } else {
      AndSet(a, b, BitMask(k));
    }
  }

  lemma NotOn(a: bv32, k: Reg)
    ensures On(Not32(a), k) <==> !On(a, k)
  {
    hide Clear, BitMask, Not32, OneBit;
    MaskIsBit(k);
    if On(a, k) { NotClear(a, BitMask(k)); } else { NotSet(a, BitMask(k)); }
  }

  // Masks and rotation

  lemma {:induction false} MaskBits(mb: Reg, me: Reg, k: Reg)
    ensures On(PpcMask(mb, me), k) <==> Between(mb, k, me)
    decreases (me + 32 - mb) % 32
  {
    hide On, BitMask, Or32;
    OneBitOn(mb, k);
    if mb == me {
      OrOn(BitMask(mb), 0, k);
      NoneOn(k);
    } else {
      OrOn(BitMask(mb), PpcMask((mb + 1) % 32, me), k);
      MaskBits((mb + 1) % 32, me, k);
    }
  }

  /** One place to the left. */
  function TurnOnce(x: bv32): bv32 { (x << 1) | (x >> 31) }

  function Turn(x: bv32, places: nat): bv32 { if places == 0 then x else TurnOnce(Turn(x, places - 1)) }

  lemma {:induction false} RotateTurns(x: bv32, n: bv32)
    requires n < 32
    ensures RotateLeft32(x, n) == Turn(x, Number(n))
    decreases n
  {
    hide TurnOnce, Shl32, LShr32, Or32, And32, Number, Add32;
    SmallPlaces(n);
    Small();
    if n > 0 {
      Before(n);
      Next(n - 1);
      SmallPlaces(n - 1);
      RotateTurns(x, n - 1);
      if n == 1 { FirstTurn(x); } else { NextTurn(x, n - 1); }
    }
  }

  lemma SmallPlaces(n: bv32)
    requires n < 32
    ensures And32(n, 31) == n
  {
  }

  lemma FirstTurn(x: bv32)
    ensures TurnOnce(x) == Or32(Shl32(x, 1), LShr32(x, 31))
  {
  }

  lemma NextTurn(x: bv32, n: bv32)
    requires 0 < n < 31
    ensures TurnOnce(Or32(Shl32(x, n), LShr32(x, 32 - n))) == Or32(Shl32(x, n + 1), LShr32(x, 31 - n))
  {
    hide TurnOnce, Shl32, LShr32, Or32, And32;
    ShiftMore(x, n);
    ShiftLess(x, n);
    TurnParts(Shl32(x, n), LShr32(x, 32 - n));
  }

  lemma ShiftMore(x: bv32, n: bv32)
    requires 0 < n < 31
    ensures Shl32(x, n + 1) == Shl32(Shl32(x, n), 1)
  {
  }

  lemma ShiftLess(x: bv32, n: bv32)
    requires 0 < n < 31
    ensures LShr32(x, 31 - n) == Or32(Shl32(LShr32(x, 32 - n), 1), LShr32(Shl32(x, n), 31))
    ensures LShr32(LShr32(x, 32 - n), 31) == 0
  {
  }

  lemma TurnParts(p: bv32, q: bv32)
    requires LShr32(q, 31) == 0
    ensures TurnOnce(Or32(p, q)) == Or32(Shl32(p, 1), Or32(Shl32(q, 1), LShr32(p, 31)))
  {
  }

  lemma TurnedClear(x: bv32, m: bv32)
    requires And32(m, 1) == 0 && Clear(x, LShr32(m, 1))
    ensures Clear(TurnOnce(x), m)
  {
  }

  lemma TurnedSet(x: bv32, m: bv32)
    requires And32(m, 1) == 0 && Clear(TurnOnce(x), m)
    ensures Clear(x, LShr32(m, 1))
  {
  }

  lemma TurnedRound(x: bv32)
    ensures Clear(TurnOnce(x), 1) == Clear(x, 0x8000_0000)
  {
  }

  lemma TurnedOn(x: bv32, k: Reg)
    ensures On(TurnOnce(x), k) <==> On(x, (k + 1) % 32)
  {
    hide TurnOnce, Clear, BitMask, LShr32, And32;
    FirstMask();
    if k == 31 {
      TurnedRound(x);
    } else {
      NextMask(k);
      if !On(x, k + 1) { TurnedClear(x, BitMask(k)); }
      if !On(TurnOnce(x), k) { TurnedSet(x, BitMask(k)); }
    }
  }

  lemma {:induction false} TurnsOn(x: bv32, places: nat, k: Reg)
    ensures On(Turn(x, places), k) <==> On(x, (k + places) % 32)
  {
    hide On, TurnOnce;
    if places > 0 {
      TurnedOn(Turn(x, places - 1), k);
      TurnsOn(x, places - 1, (k + 1) % 32);
    }
  }

  function RotateAmount(k: RotateOp, i: PPCInst, c: Context): bv32 { if k == RLWNM then c.gpr[i.rB] else i.sh }

  /** How far a word is turned: the low five bits of the amount. */
  function Places(n: bv32): nat { Number(And32(n, 31)) }

  /** A rotated word has the bits of the word, as many places to the left. */
  lemma RotatedBits(x: bv32, n: bv32, k: Reg)
    ensures On(RotateLeft32(x, n), k) <==> On(x, (k + Places(n)) % 32)
  {
    hide On, Number, Shl32, LShr32, Or32, And32;
    LowFive(n);
    RotateTurns(x, And32(n, 31));
    SmallPlaces(And32(n, 31));
    TurnsOn(x, Places(n), k);
  }

  lemma LowFive(n: bv32)
    ensures And32(n, 31) < 32
  {
  }

  lemma WritesA(i: PPCInst, c: Context, x: bv32)
    ensures WriteA(i, c, x).gpr == c.gpr[i.rA := x]
  {
    hide SignBits;
  }

  /** rlwinm, rlwnm and rlwimi, bit by bit: inside the mask a bit of rS, outside nothing or what rA held. */
  lemma RotateMeans(k: RotateOp, i: PPCInst, c: Context, bit: Reg)
    ensures On(Rotate(k, i, c).gpr[i.rA], bit) <==>
      if Between(i.mb, bit, i.me) then On(c.gpr[i.rS], (bit + Places(RotateAmount(k, i, c))) % 32)
      else k == RLWIMI && On(c.gpr[i.rA], bit)
  {
    hide On, PpcMask, RotateLeft32, Places, And32, Or32, Not32, WriteA;
    var mask, rotated := PpcMask(i.mb, i.me), RotateLeft32(c.gpr[i.rS], RotateAmount(k, i, c));
    var kept := if k == RLWIMI then And32(c.gpr[i.rA], Not32(mask)) else 0;
    WritesA(i, c, if k == RLWIMI then Or32(kept, And32(rotated, mask)) else And32(rotated, mask));
    MaskBits(i.mb, i.me, bit);
    RotatedBits(c.gpr[i.rS], RotateAmount(k, i, c), bit);
    AndOn(rotated, mask, bit);
    AndOn(c.gpr[i.rA], Not32(mask), bit);
    NotOn(mask, bit);
    OrOn(And32(c.gpr[i.rA], Not32(mask)), And32(rotated, mask), bit);
  }

  // Shifts

  lemma ShiftedClear(x: bv32, m: bv32)
    requires And32(m, 1) == 0
    ensures Clear(x, m) ==> Clear(LShr32(x, 1), LShr32(m, 1))
    ensures Clear(LShr32(x, 1), LShr32(m, 1)) ==> Clear(x, m)
  {
  }

  lemma ShiftedTop(x: bv32)
    ensures Clear(LShr32(x, 1), 0x8000_0000)
  {
  }

  lemma ShiftedOneOn(x: bv32, k: Reg)
    ensures On(LShr32(x, 1), k) <==> k > 0 && On(x, k - 1)
  {
    hide Clear, BitMask, LShr32, And32;
    FirstMask();
    if k == 0 {
      ShiftedTop(x);
    } else {
      NextMask(k - 1);
      ShiftedClear(x, BitMask(k - 1));
    }
  }

  lemma ShiftMoreRight(x: bv32, n: bv32)
    requires 0 < n < 32
    ensures LShr32(x, n) == LShr32(LShr32(x, n - 1), 1)
  {
  }

  lemma ShiftNone(x: bv32)
    ensures LShr32(x, 0) == x
  {
  }

  lemma {:induction false} ShiftedRightOn(x: bv32, n: bv32, k: Reg)
    requires n < 32
    ensures On(LShr32(x, n), k) <==> k >= Number(n) && On(x, k - Number(n))
    decreases n
  {
    hide On, LShr32, Number, Add32;
    Small();
    if n == 0 {
      ShiftNone(x);
    } else {
      Before(n);
      Next(n - 1);
      ShiftMoreRight(x, n);
      ShiftedOneOn(LShr32(x, n - 1), k);
      if k > 0 { ShiftedRightOn(x, n - 1, k - 1); }
    }
  }

  lemma ArithmeticParts(x: bv32, n: bv32)
    requires n < 32
    ensures ArithmeticShift(x, n) == if On(x, 0) then Not32(LShr32(Not32(x), n)) else LShr32(x, n)
  {
    hide BitMask, Clear, LShr32, Not32;
    FirstMask();
  }

  /** A signed shift to the right fills with the sign. */
  lemma ArithmeticShiftOn(x: bv32, n: bv32, k: Reg)
    requires n < 32
    ensures On(ArithmeticShift(x, n), k) <==> On(x, if k >= Number(n) then k - Number(n) else 0)
  {
    hide On, LShr32, Number, Not32, ArithmeticShift;
    ArithmeticParts(x, n);
    if On(x, 0) {
      NotOn(LShr32(Not32(x), n), k);
      ShiftedRightOn(Not32(x), n, k);
      if k >= Number(n) { NotOn(x, k - Number(n)); }
    } else {
      ShiftedRightOn(x, n, k);
    }
  }

  lemma ShiftedUpClear(x: bv32, m: bv32)
    requires And32(m, 1) == 0
    ensures Clear(x, LShr32(m, 1)) ==> Clear(Shl32(x, 1), m)
    ensures Clear(Shl32(x, 1), m) ==> Clear(x, LShr32(m, 1))
  {
  }

  lemma ShiftedUpBottom(x: bv32)
    ensures Clear(Shl32(x, 1), 1)
  {
  }

  lemma ShiftedUpOneOn(x: bv32, k: Reg)
    ensures On(Shl32(x, 1), k) <==> k < 31 && On(x, k + 1)
  {
    hide Clear, BitMask, Shl32, LShr32, And32;
    FirstMask();
    if k == 31 {
      ShiftedUpBottom(x);
    } else {
      NextMask(k);
      ShiftedUpClear(x, BitMask(k));
    }
  }

  lemma ShiftMoreLeft(x: bv32, n: bv32)
    requires 0 < n < 32
    ensures Shl32(x, n) == Shl32(Shl32(x, n - 1), 1) && Shl32(x, 0) == x
  {
  }

  lemma {:induction false} ShiftedLeftOn(x: bv32, n: bv32, k: Reg)
    requires n < 32
    ensures On(Shl32(x, n), k) <==> k + Number(n) < 32 && On(x, k + Number(n))
    decreases n
  {
    hide On, Shl32, Number, Add32;
    Small();
    if n == 0 {
      ShiftMoreLeft(x, 1);
    } else {
      Before(n);
      Next(n - 1);
      ShiftMoreLeft(x, n);
      ShiftedUpOneOn(Shl32(x, n - 1), k);
      if k < 31 { ShiftedLeftOn(x, n - 1, k + 1); }
    }
  }

  // Fields of the condition register

  lemma FieldBits(f: Field)
    ensures Shl32(0xF, FieldShift(f))
      == Or32(Or32(BitMask(4 * f), BitMask(4 * f + 1)), Or32(BitMask(4 * f + 2), BitMask(4 * f + 3)))
    ensures 0x80 >> f == BitMask(24 + f)
  {
    match f {
      case 0 => case 1 => case 2 => case 3 => case 4 => case 5 => case 6 => case _ =>
    }
  }

  lemma FieldMaskOn(f: Field, k: Reg)
    ensures On(Shl32(0xF, FieldShift(f)), k) <==> k / 4 == f
  {
    hide On, Shl32, Or32, BitMask, FieldShift;
    FieldBits(f);
    var a, b := Or32(BitMask(4 * f), BitMask(4 * f + 1)), Or32(BitMask(4 * f + 2), BitMask(4 * f + 3));
    OrOn(a, b, k);
    OrOn(BitMask(4 * f), BitMask(4 * f + 1), k);
    OrOn(BitMask(4 * f + 2), BitMask(4 * f + 3), k);
    OneBitOn(4 * f, k);
    OneBitOn(4 * f + 1, k);
    OneBitOn(4 * f + 2, k);
    OneBitOn(4 * f + 3, k);
  }

  lemma SelectsBit(crm: bv32, f: Field)
    ensures CrmSelects(crm, f) <==> On(crm, 24 + f)
  {
    FieldBits(f);
    hide BitMask, Shl32, FieldShift;
  }

  lemma {:induction false} CrmMaskOn(crm: bv32, field: nat, k: Reg)
    requires field <= 8
    ensures On(CrmMask(crm, field), k) <==> k / 4 >= field && On(crm, 24 + k / 4)
    decreases 8 - field
  {
    hide On, Or32, CrmSelects, Shl32, FieldShift;
    if field == 8 {
      NoneOn(k);
    } else {
      OrOn(SelectedMask(crm, field), CrmMask(crm, field + 1), k);
      CrmMaskOn(crm, field + 1, k);
      SelectsBit(crm, field);
      FieldMaskOn(field, k);
      NoneOn(k);
    }
  }

  lemma NothingOn(x: bv32)
    requires x == 0
    ensures forall k: Reg :: !On(x, k)
  {
  }

  /** The bit of the mtcrf mask that stands for the field a bit lies in, the first field by the highest. */
  function SelectBit(bit: Reg): Reg { 24 + bit / 4 }

  /** mtcrf: the fields its mask names are those of rS, the others stay. */
  lemma MtcrfMeans(i: PPCInst, c: Context, bit: Reg)
    ensures On(MoveToCr(i, c).cr, bit) <==> if On(i.crm, SelectBit(bit)) then On(c.gpr[i.rS], bit) else On(c.cr, bit)
  {
    hide On, CrmMask, And32, Or32, Not32;
    var mask, x := CrmMask(i.crm, 0), c.gpr[i.rS];
    CrmMaskOn(i.crm, 0, bit);
    OrOn(And32(c.cr, Not32(mask)), And32(x, mask), bit);
    AndOn(c.cr, Not32(mask), bit);
    AndOn(x, mask, bit);
    NotOn(mask, bit);
    if mask == 0 { NothingOn(mask); }
  }

  // Immediates and extensions

  lemma SixteenIs()
    ensures Number(16) == 16
  {
    hide Number;
    HexDigit(0xF);
    Small();
    Next(0xF);
  }

  /** The upper half forms have the halfword sixteen places up, the others the word as decoded. */
  lemma ImmediateOn(k: ImmediateOp, i: PPCInst, bit: Reg)
    ensures On(ImmediateWord(k, i), bit) <==>
      if k == ORIS || k == XORIS || k == ANDIS then bit < 16 && On(i.uimm, bit + 16)
      else if k == ADDIS then bit < 16 && On(i.simm, bit + 16)
      else On(if k == ADDI then i.simm else i.uimm, bit)
  {
    hide On, Shl32, Number;
    SixteenIs();
    ShiftedLeftOn(i.uimm, 16, bit);
    ShiftedLeftOn(i.simm, 16, bit);
  }

  lemma ByteParts(x: bv32)
    ensures Clear(Shl32(x, 24), 0x8000_0000) == (Low8(x) & 0x80 == 0)
    ensures LShr32(Shl32(x, 24), 24) == Low8(x) as bv32
    ensures Not32(LShr32(Not32(Shl32(x, 24)), 24)) == Low8(x) as bv32 | 0xFFFF_FF00
  {
  }

  lemma HalfSign(x: bv32)
    ensures Clear(Shl32(x, 16), 0x8000_0000) <==> Clear(x, 0x8000)
    ensures Low16(x) & 0x8000 == 0 <==> Clear(x, 0x8000)
  {
  }

  lemma HalfLow(x: bv32)
    ensures LShr32(Shl32(x, 16), 16) == And32(x, 0xFFFF)
  {
  }

  lemma HalfFilled(x: bv32)
    ensures Not32(LShr32(Not32(Shl32(x, 16)), 16)) == Or32(x, 0xFFFF_0000)
  {
  }

  lemma HalfPositive(x: bv32)
    requires Low16(x) & 0x8000 == 0
    ensures SignedHalf(x) == And32(x, 0xFFFF)
  {
  }

  lemma HalfNegative(x: bv32)
    requires Low16(x) & 0x8000 != 0
    ensures SignedHalf(x) == Or32(x, 0xFFFF_0000)
  {
  }

  lemma ByteShifted(x: bv32)
    ensures SignedByte(x) == ArithmeticShift(Shl32(x, 24), 24)
  {
    hide Shl32, LShr32, Not32, Clear, Low8;
    ByteParts(x);
  }

  lemma HalfShifted(x: bv32)
    ensures SignedHalf(x) == ArithmeticShift(Shl32(x, 16), 16)
  {
    hide Shl32, LShr32, Not32, Clear, Low16, And32, Or32, SignedHalf;
    HalfSign(x);
    HalfLow(x);
    HalfFilled(x);
    if Low16(x) & 0x8000 == 0 { HalfPositive(x); } else { HalfNegative(x); }
  }

  lemma TwentyFourIs()
    ensures Number(24) == 24
  {
    hide Number;
    SixteenIs();
    Next(16);
    Next(17);
    Next(18);
    Next(19);
    Next(20);
    Next(21);
    Next(22);
    Next(23);
  }

  /** extsb and extsh: the bits above the byte or halfword are its sign. */
  lemma ExtensionOn(x: bv32, bit: Reg)
    ensures On(SignedByte(x), bit) <==> On(x, if bit < 24 then 24 else bit)
    ensures On(SignedHalf(x), bit) <==> On(x, if bit < 16 then 16 else bit)
  {
    hide On, Number, Shl32, ArithmeticShift, SignedByte, SignedHalf;
    SixteenIs();
    TwentyFourIs();
    ByteShifted(x);
    HalfShifted(x);
    ArithmeticShiftOn(Shl32(x, 24), 24, bit);
    ArithmeticShiftOn(Shl32(x, 16), 16, bit);
    ShiftedLeftOn(x, 24, if bit >= 24 then bit - 24 else 0);
    ShiftedLeftOn(x, 16, if bit >= 16 then bit - 16 else 0);
  }

  // Numbers

  /** add and subf, modulo 2^32. */
  lemma SumMeans(i: PPCInst, c: Context)
    ensures Number(Sum(ADD, i, c).gpr[i.rD]) == (Number(c.gpr[i.rA]) + Number(c.gpr[i.rB])) % WORD
    ensures Number(Difference(SUBF, i, c).gpr[i.rD]) == (Number(c.gpr[i.rB]) - Number(c.gpr[i.rA])) % WORD
  {
    hide Number, Add32, Sub32, WriteD, Not32;
    WritesD(i, c, Add32(c.gpr[i.rA], c.gpr[i.rB]));
    AddNumber(c.gpr[i.rA], c.gpr[i.rB]);
    ByComplement(c.gpr[i.rA], c.gpr[i.rB]);
    SubNumber(c.gpr[i.rB], c.gpr[i.rA]);
    WritesD(i, c, Sub32(c.gpr[i.rB], c.gpr[i.rA]));
  }

  lemma ByComplement(a: bv32, b: bv32)
    ensures Add32(Add32(Not32(a), b), 1) == Sub32(b, a)
  {
    SubtractByComplement(a, b);
  }

  lemma WritesD(i: PPCInst, c: Context, x: bv32)
    ensures WriteD(i, c, x).gpr == c.gpr[i.rD := x]
  {
    hide SignBits;
  }

  /** The four bits a signed and an unsigned comparison writes, as numbers compare. */
  lemma CompareMeans(a: bv32, b: bv32, c: Context)
    ensures CompareBits(SignedLess(a, b), SignedLess(b, a), a == b, c)
      == CompareBits(Signed(a) < Signed(b), Signed(b) < Signed(a), a == b, c)
    ensures CompareBits(Less32(a, b), Less32(b, a), a == b, c)
      == CompareBits(Number(a) < Number(b), Number(b) < Number(a), a == b, c)
  {
    hide CompareBits, SignedLess, Less32, Number, Signed;
    SignedLessNumber(a, b);
    SignedLessNumber(b, a);
    LessNumber(a, b);
    LessNumber(b, a);
  }

  /** divw: the quotient of the absolute values with the sign of the signed numbers. */
  lemma DivwMeans(i: PPCInst, c: Context)
    requires c.gpr[i.rB] != 0 && !DivisionOverflows(c.gpr[i.rA], c.gpr[i.rB])
    ensures var (a, b) := (c.gpr[i.rA], c.gpr[i.rB]);
      var q := Number(UDiv32(Magnitude(a), Magnitude(b)));
      Number(Quotients(DIVW, i, c).gpr[i.rD]) == (if (Signed(a) < 0) == (Signed(b) < 0) then q else 0 - q) % WORD
      && Number(Magnitude(a)) == Absolute(Signed(a)) && Number(Magnitude(b)) == Absolute(Signed(b))
  {
    hide Number, SignedDivide, UDiv32, Magnitude, WriteD, Signed;
    DivideNumber(c.gpr[i.rA], c.gpr[i.rB]);
    WritesD(i, c, SignedDivide(c.gpr[i.rA], c.gpr[i.rB]));
  }
}
