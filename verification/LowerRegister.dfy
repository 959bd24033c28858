/** The condition register and special register part of `lower_state`, and
    `branch_condition` (src/ir/dolir_builder.c). */
module LowerRegister {
  import opened Wrappers
  import opened DolIR
  import opened SplitMachine
  import opened EmittedC
  import opened Lowering

  /** `3 - (bit & 3)`, the place of a CR bit inside its field. */
  function PlaceInField(bit: Reg): (shift: bv32)
    ensures shift <= 3
  {
    match bit % 4
    case 0 => 3
    case 1 => 2
    case 2 => 1
    case _ => 0
  }

  method ReadField(b: Builder, field: Field) returns (v: V32)
    requires b.Valid()
    modifies b
    ensures b.Extended() && b.st == old(b.st) && b.Has32(v)
    ensures forall s {:trigger v.x(s)} :: v.x(s) == b.st(s).crf[field]
  {
    hide Run;
    v := b.Read32(CR0 + field);
  }

  /** A shift by a constant. */
  method ShiftBy(b: Builder, op: Op, a: V32, k: bv32) returns (v: V32)
    requires b.Valid() && b.Has32(a) && ShiftInRange(k)
    requires op == Shl || op == LShr
    modifies b
    ensures b.Extended() && b.st == old(b.st) && b.Has32(v)
    ensures forall s {:trigger v.x(s)} :: v.x(s) == Shifted32(op, a.x(s), k)
  {
    hide Run, Builder.Has32, Shifted32, ShiftInRange;
    var amount := b.C32(k);
    v := b.Shift32(op, a, amount);
  }

  method CombineWith(b: Builder, op: Op, a: V32, bits: bv32) returns (v: V32)
    requires b.Valid() && b.Has32(a) && Total32?(op)
    modifies b
    ensures b.Extended() && b.st == old(b.st) && b.Has32(v)
    ensures forall s {:trigger v.x(s)} :: v.x(s) == Total32(op, a.x(s), bits)
  {
    hide Run, Builder.Has32, Total32, Total32?;
    var c := b.C32(bits);
    v := b.Binary32(op, a, c);
  }

  method NonZero(b: Builder, a: V32) returns (v: V1)
    requires b.Valid() && b.Has32(a)
    modifies b
    ensures b.Extended() && b.st == old(b.st) && b.Has1(v)
    ensures forall s {:trigger v.b(s)} :: v.b(s) == (a.x(s) != 0)
  {
    hide Run, Builder.Has32;
    var zero := b.C32(0);
    v := b.Compare32(ICmpNe, a, zero);
  }

  // CR logical instructions

  function FieldBit(field: bv32, bit: Reg): bv32 { And32(LShr32(field, PlaceInField(bit)), 1) }

  method ReadCrBit(b: Builder, bit: Reg) returns (v: V32)
    requires b.Valid()
    modifies b
    ensures b.Extended() && b.st == old(b.st) && b.Has32(v)
    ensures forall s {:trigger v.x(s)} :: v.x(s) == FieldBit(b.st(s).crf[bit / 4], bit)
  {
    hide Run, Builder.Has32, And32, LShr32;
    v := ReadField(b, bit / 4);
    v := ShiftBy(b, LShr, v, PlaceInField(bit));
    v := CombineWith(b, And, v, 1);
  }

  predicate FlipsRight(op: CrBitOp) { op == CRANDC || op == CRORC }

  predicate FlipsResult(op: CrBitOp) { op == CREQV || op == CRNAND || op == CRNOR }

  function CrOp(op: CrBitOp): Op {
    match op
    case CRAND | CRANDC | CRNAND => And
    case CROR | CRORC | CRNOR => Op.Or
    case CREQV | CRXOR => Xor
  }

  function FlippedIf(flip: bool, x: bv32): bv32 { if flip then Xor32(x, 1) else x }

  function CrBitResult(op: CrBitOp, a: bv32, c: bv32): bv32 {
    FlippedIf(FlipsResult(op), Total32(CrOp(op), a, FlippedIf(FlipsRight(op), c)))
  }

  method FlipIf(b: Builder, flip: bool, a: V32) returns (v: V32)
    requires b.Valid() && b.Has32(a)
    modifies b
    ensures b.Extended() && b.st == old(b.st) && b.Has32(v)
    ensures forall s {:trigger v.x(s)} :: v.x(s) == FlippedIf(flip, a.x(s))
  {
    hide Run, Builder.Has32, Xor32;
    v := a;
    if flip { v := CombineWith(b, Xor, a, 1); }
  }

  method CombineBits(b: Builder, op: CrBitOp, a: V32, c: V32) returns (v: V32)
    requires b.Valid() && b.Has32(a) && b.Has32(c)
    modifies b
    ensures b.Extended() && b.st == old(b.st) && b.Has32(v)
    ensures forall s {:trigger v.x(s)} :: v.x(s) == CrBitResult(op, a.x(s), c.x(s))
  {
    hide Run, Builder.Has32, Total32, FlippedIf, FlipsRight, FlipsResult;
    var right := FlipIf(b, FlipsRight(op), c);
    var bit := b.Binary32(CrOp(op), a, right);
    v := FlipIf(b, FlipsResult(op), bit);
  }

  function InsertMasked(original: bv32, value: bv32, mask: bv32): bv32 {
    Or32(And32(original, Not32(mask)), And32(value, mask))
  }

  /** `insert_masked` */
  method InsertMaskedWord(b: Builder, original: V32, value: V32, mask: bv32) returns (v: V32)
    requires b.Valid() && b.Has32(original) && b.Has32(value)
    modifies b
    ensures b.Extended() && b.st == old(b.st) && b.Has32(v)
    ensures forall s {:trigger v.x(s)} :: v.x(s) == InsertMasked(original.x(s), value.x(s), mask)
  {
    hide Run, Builder.Has32, And32, Or32, Not32;
    var kept := CombineWith(b, And, original, Not32(mask));
    var incoming := CombineWith(b, And, value, mask);
    v := b.Binary32(Op.Or, kept, incoming);
  }

  function PlaceMask(bit: Reg): bv32 { Shl32(1, PlaceInField(bit)) }

  function LoweredCrLogical(k: CrBitOp, i: PPCInst, st: SplitState): SplitState {
    var bit := CrBitResult(k, FieldBit(st.crf[i.rA / 4], i.rA), FieldBit(st.crf[i.rB / 4], i.rB));
    var placed := Shl32(bit, PlaceInField(i.rD));
    st.(crf := st.crf[i.rD / 4 := And32(InsertMasked(st.crf[i.rD / 4], placed, PlaceMask(i.rD)), 0xF)])
  }

  method LowerCrLogical(b: Builder, k: CrBitOp, i: PPCInst)
    requires b.Valid()
    modifies b
    ensures b.Extended()
    ensures forall s {:trigger b.st(s)} :: b.st(s) == LoweredCrLogical(k, i, old(b.st)(s))
  {
    hide Run, Builder.Has32, CrBitResult, FieldBit, InsertMasked, And32, Shl32, PlaceMask;
    var a := ReadCrBit(b, i.rA);
    var c := ReadCrBit(b, i.rB);
    var bit := CombineBits(b, k, a, c);
    var placed := ShiftBy(b, Shl, bit, PlaceInField(i.rD));
    var original := ReadField(b, i.rD / 4);
    var inserted := InsertMaskedWord(b, original, placed, PlaceMask(i.rD));
    b.WriteCrField(i.rD / 4, inserted);
  }

  // CR moves

  /** The word `pack_cr` has built after `n` fields. */
  function PackedFields(crf: CrFile, n: nat): bv32
    requires n <= 8
  {
    if n == 0 then 0 else Or32(PackedFields(crf, n - 1), Shl32(crf[n - 1], FieldShift(n - 1)))
  }

  /** `pack_cr` */
  method PackCrWord(b: Builder) returns (packed: V32)
    requires b.Valid()
    modifies b
    ensures b.Extended() && b.st == old(b.st) && b.Has32(packed)
    ensures forall s {:trigger packed.x(s)} :: packed.x(s) == PackedFields(b.st(s).crf, 8)
  {
    hide Run, Builder.Has32, Or32, Shl32;
    packed := b.C32(0);
    for field := 0 to 8
      invariant b.Extended() && b.st == old(b.st) && b.Has32(packed)
      invariant forall s {:trigger packed.x(s)} :: packed.x(s) == PackedFields(b.st(s).crf, field)
    {
      packed := OrField(b, packed, field);
    }
  }

  method OrField(b: Builder, packed: V32, field: Field) returns (v: V32)
    requires b.Valid() && b.Has32(packed)
    modifies b
    ensures b.Extended() && b.st == old(b.st) && b.Has32(v)
    ensures forall s {:trigger v.x(s)} ::
      v.x(s) == Or32(packed.x(s), Shl32(b.st(s).crf[field], FieldShift(field)))
  {
    hide Run, Builder.Has32, Or32, Shl32;
    v := ReadField(b, field);
    v := ShiftBy(b, Shl, v, FieldShift(field));
    v := b.Binary32(Op.Or, packed, v);
  }

  function MovedField(st: SplitState, r: Reg, field: Field): SplitState {
    st.(crf := st.crf[field := And32(LShr32(st.gpr[r], FieldShift(field)), 0xF)])
  }

  /** The state after mtcrf has considered the first `n` fields. */
  function MovedFields(st: SplitState, r: Reg, crm: bv32, n: nat): SplitState
    requires n <= 8
  {
    if n == 0 then st
    else
      var before := MovedFields(st, r, crm, n - 1);
      if CrmSelects(crm, n - 1) then MovedField(before, r, n - 1) else before
  }

  method MoveField(b: Builder, r: Reg, field: Field)
    requires b.Valid()
    modifies b
    ensures b.Extended()
    ensures forall s {:trigger b.st(s)} :: b.st(s) == MovedField(old(b.st)(s), r, field)
  {
    hide Run, Builder.Has32, And32, LShr32;
    var source := b.Gpr(r);
    var value := ShiftBy(b, LShr, source, FieldShift(field));
    b.WriteCrField(field, value);
  }

  method LowerMtcrf(b: Builder, i: PPCInst)
    requires b.Valid()
    modifies b
    ensures b.Extended()
    ensures forall s {:trigger b.st(s)} :: b.st(s) == MovedFields(old(b.st)(s), i.rS, i.crm, 8)
  {
    hide Run, CrmSelects, MovedField;
    for field := 0 to 8
      invariant b.Extended()
      invariant forall s {:trigger b.st(s)} :: b.st(s) == MovedFields(old(b.st)(s), i.rS, i.crm, field)
    {
      if CrmSelects(i.crm, field) { MoveField(b, i.rS, field); }
    }
  }

  method FlagAt(b: Builder, slot: nat, k: bv32) returns (v: V32)
    requires b.Valid() && XER_CA <= slot <= XER_SO && ShiftInRange(k)
    modifies b
    ensures b.Extended() && b.st == old(b.st) && b.Has32(v)
    ensures forall s {:trigger v.x(s)} :: v.x(s) == Shl32(Flag(ReadSlot(b.st(s), slot).value.b), k)
  {
    hide Run, Builder.Has32, Builder.Has1, Flag, Shl32, ShiftInRange;
    var flag := b.Read1(slot);
    var word := b.FlagWord(flag);
    v := ShiftBy(b, Shl, word, k);
  }

  function XerField(st: SplitState): bv32 {
    Or32(Or32(Shl32(Flag(st.so), 3), Shl32(Flag(st.ov), 2)), Shl32(Flag(st.ca), 1))
  }

  function LoweredMcrxr(i: PPCInst, st: SplitState): SplitState {
    st.(crf := st.crf[i.crfD := And32(XerField(st), 0xF)], ca := false, ov := false, so := false)
  }

  method ReadXerField(b: Builder) returns (v: V32)
    requires b.Valid()
    modifies b
    ensures b.Extended() && b.st == old(b.st) && b.Has32(v)
    ensures forall s {:trigger v.x(s)} :: v.x(s) == XerField(b.st(s))
  {
    hide Run, Builder.Has32, Flag, Shl32, Or32;
    v := FlagAt(b, XER_SO, 3);
    var ov := FlagAt(b, XER_OV, 2);
    v := b.Binary32(Op.Or, v, ov);
    var ca := FlagAt(b, XER_CA, 1);
    v := b.Binary32(Op.Or, v, ca);
  }

  function WithFlag(st: SplitState, slot: nat, bit: bool): SplitState {
    if slot == XER_CA then st.(ca := bit) else if slot == XER_OV then st.(ov := bit) else st.(so := bit)
  }

  method WriteFlag(b: Builder, slot: nat, flag: V1)
    requires b.Valid() && b.Has1(flag) && XER_CA <= slot <= XER_SO
    modifies b
    ensures b.Extended()
    ensures forall s {:trigger b.st(s)} :: b.st(s) == WithFlag(old(b.st)(s), slot, flag.b(s))
  {
    hide Run;
    ghost var before := b.st;
    b.WriteSlot(slot, flag.id, (s: SplitState) => W1(flag.b(s)),
      (s: SplitState) => WithFlag(before(s), slot, flag.b(s)));
  }

  method ClearFlag(b: Builder, slot: nat)
    requires b.Valid() && XER_CA <= slot <= XER_SO
    modifies b
    ensures b.Extended()
    ensures forall s {:trigger b.st(s)} :: b.st(s) == WithFlag(old(b.st)(s), slot, false)
  {
    hide Run, Builder.Has1;
    var no := b.C1(false);
    WriteFlag(b, slot, no);
  }

  method LowerMcrxr(b: Builder, i: PPCInst)
    requires b.Valid()
    modifies b
    ensures b.Extended()
    ensures forall s {:trigger b.st(s)} :: b.st(s) == LoweredMcrxr(i, old(b.st)(s))
  {
    hide Run, Builder.Has32, XerField, And32;
    var field := ReadXerField(b);
    b.WriteCrField(i.crfD, field);
    ClearFlag(b, XER_CA);
    ClearFlag(b, XER_OV);
    ClearFlag(b, XER_SO);
  }

  method LowerMfcr(b: Builder, i: PPCInst)
    requires b.Valid()
    modifies b
    ensures b.Extended()
    ensures forall s {:trigger b.st(s)} ::
      b.st(s) == WithGpr(old(b.st)(s), i.rD, PackedFields(old(b.st)(s).crf, 8))
  {
    hide Run, Builder.Has32, PackedFields;
    var packed := PackCrWord(b);
    b.SetGpr(i.rD, packed);
  }

  method LowerMcrf(b: Builder, i: PPCInst)
    requires b.Valid()
    modifies b
    ensures b.Extended()
    ensures forall s {:trigger b.st(s)} ::
      b.st(s) == old(b.st)(s).(crf := old(b.st)(s).crf[i.crfD := And32(old(b.st)(s).crf[i.crfS], 0xF)])
  {
    hide Run, Builder.Has32, And32;
    var field := ReadField(b, i.crfS);
    b.WriteCrField(i.crfD, field);
  }

  // XER, LR and CTR

  const FLAG_BITS: bv32 := 0x1FFF_FFFF

  function PackedXer(st: SplitState): bv32 {
    Or32(Or32(Or32(And32(st.xer, FLAG_BITS), Shl32(Flag(st.ca), 29)), Shl32(Flag(st.ov), 30)), Shl32(Flag(st.so), 31))
  }

  function PackedXerPrefix(st: SplitState, n: nat): bv32
    requires n <= 3
  {
    if n == 0 then And32(st.xer, FLAG_BITS)
    else if n == 1 then Or32(And32(st.xer, FLAG_BITS), Shl32(Flag(st.ca), 29))
    else if n == 2 then Or32(Or32(And32(st.xer, FLAG_BITS), Shl32(Flag(st.ca), 29)), Shl32(Flag(st.ov), 30))
    else PackedXer(st)
  }

  /** `pack_xer` */
  method PackXerWord(b: Builder) returns (packed: V32)
    requires b.Valid()
    modifies b
    ensures b.Extended() && b.st == old(b.st) && b.Has32(packed)
    ensures forall s {:trigger packed.x(s)} :: packed.x(s) == PackedXer(b.st(s))
  {
    hide Run, Builder.Has32, And32, Or32, Shl32, Flag;
    packed := b.Read32(XER);
    packed := CombineWith(b, And, packed, FLAG_BITS);
    var shifts: seq<bv32> := [29, 30, 31];
    for index := 0 to 3
      invariant b.Extended() && b.st == old(b.st) && b.Has32(packed)
      invariant forall s {:trigger packed.x(s)} :: packed.x(s) == PackedXerPrefix(b.st(s), index)
    {
      var bit := FlagAt(b, XER_CA + index, shifts[index]);
      packed := b.Binary32(Op.Or, packed, bit);
    }
  }

  lemma WritesWord(st: SplitState, x: bv32)
    ensures WriteSlot(st, XER, W32(x)) == Some(st.(xer := x))
    ensures WriteSlot(st, LR, W32(x)) == Some(st.(lr := x))
    ensures WriteSlot(st, CTR, W32(x)) == Some(st.(ctr := x))
  {
  }

  method WriteXerRest(b: Builder, a: V32)
    requires b.Valid() && b.Has32(a)
    modifies b
    ensures b.Extended()
    ensures forall s {:trigger b.st(s)} :: b.st(s) == old(b.st)(s).(xer := a.x(s))
  {
    hide Run, SplitMachine.WriteSlot;
    ghost var before := b.st;
    forall s: SplitState
      ensures SplitMachine.WriteSlot(before(s), XER, W32(a.x(s))) == Some(before(s).(xer := a.x(s)))
    {
      WritesWord(before(s), a.x(s));
    }
    b.WriteSlot(XER, a.id, (s: SplitState) => W32(a.x(s)), (s: SplitState) => before(s).(xer := a.x(s)));
  }

  predicate BitAt(x: bv32, k: bv32) { Odd32(LShr32(x, k)) }

  method UnpackFlag(b: Builder, packed: V32, slot: nat, k: bv32)
    requires b.Valid() && b.Has32(packed) && XER_CA <= slot <= XER_SO && ShiftInRange(k)
    modifies b
    ensures b.Extended()
    ensures forall s {:trigger b.st(s)} :: b.st(s) == WithFlag(old(b.st)(s), slot, BitAt(packed.x(s), k))
  {
    hide Run, Builder.Has32, Builder.Has1, LShr32, Odd32, WithFlag, ShiftInRange;
    var word := ShiftBy(b, LShr, packed, k);
    var flag := b.LowBit32(word);
    WriteFlag(b, slot, flag);
  }

  function UnpackedXer(st: SplitState, x: bv32): SplitState {
    st.(xer := And32(x, FLAG_BITS), ca := BitAt(x, 29), ov := BitAt(x, 30), so := BitAt(x, 31))
  }

  /** `unpack_xer` */
  method UnpackXer(b: Builder, packed: V32)
    requires b.Valid() && b.Has32(packed)
    modifies b
    ensures b.Extended()
    ensures forall s {:trigger b.st(s)} :: b.st(s) == UnpackedXer(old(b.st)(s), packed.x(s))
  {
    hide Run, Builder.Has32, And32, BitAt;
    var rest := CombineWith(b, And, packed, FLAG_BITS);
    WriteXerRest(b, rest);
    UnpackFlag(b, packed, XER_CA, 29);
    UnpackFlag(b, packed, XER_OV, 30);
    UnpackFlag(b, packed, XER_SO, 31);
  }

  method WriteLink(b: Builder, a: V32)
    requires b.Valid() && b.Has32(a)
    modifies b
    ensures b.Extended()
    ensures forall s {:trigger b.st(s)} :: b.st(s) == old(b.st)(s).(lr := a.x(s))
  {
    hide Run, SplitMachine.WriteSlot;
    ghost var before := b.st;
    forall s: SplitState ensures SplitMachine.WriteSlot(before(s), LR, W32(a.x(s))) == Some(before(s).(lr := a.x(s))) {
      WritesWord(before(s), a.x(s));
    }
    b.WriteSlot(LR, a.id, (s: SplitState) => W32(a.x(s)), (s: SplitState) => before(s).(lr := a.x(s)));
  }

  method WriteCount(b: Builder, a: V32)
    requires b.Valid() && b.Has32(a)
    modifies b
    ensures b.Extended()
    ensures forall s {:trigger b.st(s)} :: b.st(s) == old(b.st)(s).(ctr := a.x(s))
  {
    hide Run, SplitMachine.WriteSlot;
    ghost var before := b.st;
    forall s: SplitState
      ensures SplitMachine.WriteSlot(before(s), CTR, W32(a.x(s))) == Some(before(s).(ctr := a.x(s)))
    {
      WritesWord(before(s), a.x(s));
    }
    b.WriteSlot(CTR, a.id, (s: SplitState) => W32(a.x(s)), (s: SplitState) => before(s).(ctr := a.x(s)));
  }

  function SprWord(spr: Spr, st: SplitState): bv32 {
    if spr == SPR_XER then PackedXer(st) else if spr == SPR_LR then st.lr else st.ctr
  }

  method ReadSpr(b: Builder, spr: Spr) returns (v: V32)
    requires b.Valid()
    modifies b
    ensures b.Extended() && b.st == old(b.st) && b.Has32(v)
    ensures forall s {:trigger v.x(s)} :: v.x(s) == SprWord(spr, b.st(s))
  {
    hide Run, Builder.Has32, PackedXer;
    if spr == SPR_XER {
      v := PackXerWord(b);
    } else if spr == SPR_LR {
      v := b.Read32(LR);
    } else {
      v := b.Read32(CTR);
    }
  }

  function WithSpr(st: SplitState, spr: Spr, x: bv32): SplitState {
    match spr
    case SPR_XER => UnpackedXer(st, x)
    case SPR_LR => st.(lr := x)
    case _ => st.(ctr := x)
  }

  method WriteSpr(b: Builder, spr: Spr, value: V32)
    requires b.Valid() && b.Has32(value)
    modifies b
    ensures b.Extended()
    ensures forall s {:trigger b.st(s)} :: b.st(s) == WithSpr(old(b.st)(s), spr, value.x(s))
  {
    hide Run, Builder.Has32, UnpackedXer;
    if spr == SPR_XER {
      UnpackXer(b, value);
    } else if spr == SPR_LR {
      WriteLink(b, value);
    } else {
      WriteCount(b, value);
    }
  }

  method LowerFromSpr(b: Builder, spr: Spr, i: PPCInst)
    requires b.Valid()
    modifies b
    ensures b.Extended()
    ensures forall s {:trigger b.st(s)} ::
      b.st(s) == WithGpr(old(b.st)(s), i.rD, SprWord(spr, old(b.st)(s)))
  {
    hide Run, Builder.Has32, SprWord;
    var value := ReadSpr(b, spr);
    b.SetGpr(i.rD, value);
  }

  method LowerToSpr(b: Builder, spr: Spr, i: PPCInst)
    requires b.Valid()
    modifies b
    ensures b.Extended()
    ensures forall s {:trigger b.st(s)} :: b.st(s) == WithSpr(old(b.st)(s), spr, old(b.st)(s).gpr[i.rS])
  {
    hide Run, Builder.Has32, WithSpr;
    var value := b.Gpr(i.rS);
    WriteSpr(b, spr, value);
  }

  // Branch conditions

  function Counted(st: SplitState, bo: bv32): SplitState {
    if bo & 4 == 0 then st.(ctr := Sub32(st.ctr, 1)) else st
  }

  /** Whether the CTR part of the condition holds, CTR already decremented. */
  predicate CounterHolds(bo: bv32, ctr: bv32) {
    bo & 4 != 0 || (if (bo >> 1) & 1 != 0 then ctr == 0 else ctr != 0)
  }

  predicate FieldBitSet(field: bv32, bit: Reg) { And32(field, PlaceMask(bit)) != 0 }

  predicate CrHolds(bo: bv32, field: bv32, bit: Reg) {
    bo & 0x10 != 0 || (FieldBitSet(field, bit) == ((bo >> 3) & 1 != 0))
  }

  method CounterCondition(b: Builder, bo: bv32) returns (v: V1)
    requires b.Valid()
    modifies b
    ensures b.Extended() && b.Has1(v)
    ensures forall s {:trigger b.st(s)} :: b.st(s) == Counted(old(b.st)(s), bo)
    ensures forall s {:trigger v.b(s)} :: v.b(s) == CounterHolds(bo, b.st(s).ctr)
  {
    hide Run, Builder.Has1, Builder.Has32, Sub32;
    v := b.C1(true);
    if bo & 4 == 0 {
      var old_ := b.Read32(CTR);
      var ctr := CombineWith(b, Sub, old_, 1);
      WriteCount(b, ctr);
      v := NonZero(b, ctr);
      if (bo >> 1) & 1 != 0 { v := b.Not1(v); }
    }
  }

  method FieldCondition(b: Builder, bo: bv32, bit: Reg) returns (v: V1)
    requires b.Valid()
    modifies b
    ensures b.Extended() && b.st == old(b.st) && b.Has1(v)
    ensures forall s {:trigger v.b(s)} :: v.b(s) == CrHolds(bo, b.st(s).crf[bit / 4], bit)
  {
    hide Run, Builder.Has1, Builder.Has32, And32, PlaceMask;
    v := b.C1(true);
    if bo & 0x10 == 0 {
      var field := ReadField(b, bit / 4);
      var masked := CombineWith(b, And, field, PlaceMask(bit));
      v := NonZero(b, masked);
      if (bo >> 3) & 1 == 0 { v := b.Not1(v); }
    }
  }

  predicate LoweredTaken(i: PPCInst, st: SplitState) {
    CounterHolds(i.bo, Counted(st, i.bo).ctr) && CrHolds(i.bo, st.crf[i.bi / 4], i.bi)
  }

  /** `branch_condition` */
  method LowerBranchCondition(b: Builder, i: PPCInst) returns (v: V1)
    requires b.Valid()
    modifies b
    ensures b.Extended() && b.Has1(v)
    ensures forall s {:trigger b.st(s)} :: b.st(s) == Counted(old(b.st)(s), i.bo)
    ensures forall s {:trigger v.b(s)} :: v.b(s) == LoweredTaken(i, old(b.st)(s))
  {
    hide Run, Builder.Has1, CounterHolds, CrHolds;
    var ctrOk := CounterCondition(b, i.bo);
    var crOk := FieldCondition(b, i.bo, i.bi);
    v := b.And1(ctrOk, crOk);
  }
}
