/** The lowered condition register and special register instructions agree with the emitted
    C on the packed CR and XER. */
module RegisterCorrect {
  import opened DolIR
  import opened SplitMachine
  import opened EmittedC
  import opened SplitRelation
  import opened Lowering
  import opened LowerRegister
  import opened BitFacts
  import opened LoweringCorrect

  /** Replacing the packed CR is related to replacing all eight fields. */
  lemma CrRelated(st: SplitState, c: Context, crf: CrFile, cr: bv32)
    requires Related(st, c) && forall f: Field :: crf[f] == Nibble(cr, f)
    ensures Related(st.(crf := crf), c.(cr := cr))
  {
    hide Nibble, Bit, OtherXer;
  }

  lemma FieldOf(st: SplitState, c: Context, f: Field)
    requires Related(st, c)
    ensures st.crf[f] == Nibble(c.cr, f)
  {
    hide Nibble, XerRelated;
  }

  // CR logical instructions

  lemma InsertedNibble(cr: bv32, bit: Reg, on: bv32, f: Field)
    requires IsBit(on)
    ensures Nibble(SetMasked(cr, BitMask(bit), on), f) ==
            if f == bit / 4 then InsertedBit(Nibble(cr, f), PlaceInField(bit), on) else Nibble(cr, f)
  {
    hide FieldAt, FieldShift, InsertedBit, BitShift, BitMask, PlaceInField, IsBit, SetMasked, Shl32;
    BitPlaces(bit);
    FieldShiftDistinct(f, bit / 4);
    FieldShiftDistinct(bit / 4, f);
    if f == bit / 4 {
      InsertBit(cr, FieldShift(f), PlaceInField(bit), on);
    } else {
      InsertBitElsewhere(cr, FieldShift(bit / 4), PlaceInField(bit), FieldShift(f), on);
    }
  }

  lemma CrLogicalAgrees(k: CrBitOp, i: PPCInst, st: SplitState, c: Context)
    requires Related(st, c)
    ensures Related(LoweredCrLogical(k, i, st), CrLogic(k, i, c))
  {
    hide Related, CrBitResult, CrLogical, FieldBit, BitOf, And32, IsBit, Nibble, InsertedBit, BitMask, PlaceInField,
      InsertMasked, Shl32, SetMasked;
    FieldOf(st, c, i.rA / 4);
    FieldOf(st, c, i.rB / 4);
    FieldBitIs(c.cr, i.rA);
    FieldBitIs(c.cr, i.rB);
    BitOfIsBit(c.cr, i.rA);
    BitOfIsBit(c.cr, i.rB);
    CrBitsAgree(k, BitOf(c.cr, i.rA), BitOf(c.cr, i.rB));
    var on := CrBitResult(k, BitOf(c.cr, i.rA), BitOf(c.cr, i.rB));
    CrBitWritten(i, st, c, on);
    LoweredBit(k, i, st, on);
  }

  lemma LoweredBit(k: CrBitOp, i: PPCInst, st: SplitState, on: bv32)
    requires on == CrBitResult(k, FieldBit(st.crf[i.rA / 4], i.rA), FieldBit(st.crf[i.rB / 4], i.rB))
    ensures LoweredCrLogical(k, i, st) ==
            st.(crf := st.crf[i.rD / 4 := InsertedBit(st.crf[i.rD / 4], PlaceInField(i.rD), on)])
  {
    hide CrBitResult, FieldBit, InsertMasked, And32, Shl32, PlaceInField;
  }

  lemma CrBitWritten(i: PPCInst, st: SplitState, c: Context, on: bv32)
    requires Related(st, c) && IsBit(on)
    ensures Related(st.(crf := st.crf[i.rD / 4 := InsertedBit(st.crf[i.rD / 4], PlaceInField(i.rD), on)]),
                    c.(cr := SetMasked(c.cr, BitMask(i.rD), on)))
  {
    hide Related, IsBit, Nibble, InsertedBit, BitMask, PlaceInField, SetMasked;
    var crf := st.crf[i.rD / 4 := InsertedBit(st.crf[i.rD / 4], PlaceInField(i.rD), on)];
    forall f: Field ensures crf[f] == Nibble(SetMasked(c.cr, BitMask(i.rD), on), f) {
      FieldOf(st, c, f);
      InsertedNibble(c.cr, i.rD, on, f);
    }
    CrRelated(st, c, crf, SetMasked(c.cr, BitMask(i.rD), on));
  }

  // Moves between CR fields and registers

  lemma NibbleIsSmall(cr: bv32, f: Field)
    ensures Nibble(cr, f) & 0xF == Nibble(cr, f) && And32(Nibble(cr, f), 0xF) == Nibble(cr, f)
  {
    SmallNibble(cr, FieldShift(f));
    hide FieldAt, FieldShift;
  }

  lemma SmallNibble(cr: bv32, s: bv32)
    requires s <= 28
    ensures FieldAt(cr, s) & 0xF == FieldAt(cr, s) && And32(FieldAt(cr, s), 0xF) == FieldAt(cr, s)
  {
  }

  lemma MoveFieldAgrees(i: PPCInst, st: SplitState, c: Context)
    requires Related(st, c)
    ensures Related(st.(crf := st.crf[i.crfD := And32(st.crf[i.crfS], 0xF)]), CopyField(i, c))
  {
    hide Related, And32, FieldAt, FieldShift, InsertField;
    FieldOf(st, c, i.crfS);
    NibbleIsSmall(c.cr, i.crfS);
    SetFieldRelated(st, c, i.crfD, Nibble(c.cr, i.crfS));
    MovedNibble(i, c);
  }

  lemma MovedNibble(i: PPCInst, c: Context)
    ensures CopyField(i, c) == c.SetField(i.crfD, Nibble(c.cr, i.crfS))
  {
    hide FieldShift, InsertField;
  }

  lemma PackedFieldsJoin(crf: CrFile)
    ensures PackedFields(crf, 8) == JoinFields(crf[0], crf[1], crf[2], crf[3], crf[4], crf[5], crf[6], crf[7])
  {
    PackedSteps(crf);
    OrChain(crf[0], crf[1], crf[2], crf[3], crf[4], crf[5], crf[6], crf[7]);
    hide PackedFields, Or32, Shl32, JoinFields;
  }

  lemma PackedSteps(crf: CrFile)
    ensures PackedFields(crf, 8) == Or32(Or32(Or32(Or32(Or32(Or32(Or32(Or32(0,
      Shl32(crf[0], 28)), Shl32(crf[1], 24)), Shl32(crf[2], 20)), Shl32(crf[3], 16)),
      Shl32(crf[4], 12)), Shl32(crf[5], 8)), Shl32(crf[6], 4)), Shl32(crf[7], 0))
  {
    hide Or32, Shl32;
    assert PackedFields(crf, 1) == Or32(0, Shl32(crf[0], FieldShift(0)));
    assert PackedFields(crf, 2) == Or32(PackedFields(crf, 1), Shl32(crf[1], FieldShift(1)));
    assert PackedFields(crf, 3) == Or32(PackedFields(crf, 2), Shl32(crf[2], FieldShift(2)));
    assert PackedFields(crf, 4) == Or32(PackedFields(crf, 3), Shl32(crf[3], FieldShift(3)));
    assert PackedFields(crf, 5) == Or32(PackedFields(crf, 4), Shl32(crf[4], FieldShift(4)));
    assert PackedFields(crf, 6) == Or32(PackedFields(crf, 5), Shl32(crf[5], FieldShift(5)));
    assert PackedFields(crf, 7) == Or32(PackedFields(crf, 6), Shl32(crf[6], FieldShift(6)));
  }

  lemma OrChain(a: bv32, b: bv32, c: bv32, d: bv32, e: bv32, f: bv32, g: bv32, h: bv32)
    ensures Or32(Or32(Or32(Or32(Or32(Or32(Or32(Or32(0, Shl32(a, 28)), Shl32(b, 24)), Shl32(c, 20)), Shl32(d, 16)),
      Shl32(e, 12)), Shl32(f, 8)), Shl32(g, 4)), Shl32(h, 0)) == JoinFields(a, b, c, d, e, f, g, h)
  {
  }

  lemma PackAgrees(i: PPCInst, st: SplitState, c: Context)
    requires Related(st, c)
    ensures PackedFields(st.crf, 8) == c.cr
  {
    PackedFieldsJoin(st.crf);
    FieldsRebuild(c.cr);
    hide PackedFields, JoinFields, Nibble, XerRelated;
  }

  lemma MfcrAgrees(i: PPCInst, st: SplitState, c: Context)
    requires Related(st, c)
    ensures Related(WithGpr(st, i.rD, PackedFields(st.crf, 8)), c.SetGpr(i.rD, c.cr))
  {
    PackAgrees(i, st, c);
    SetsGpr(st, c, i.rD, c.cr);
    hide Related, PackedFields, WithGpr, Context.SetGpr;
  }

  // mtcrf

  lemma {:induction false} MovedFieldsAre(st: SplitState, r: Reg, crm: bv32, n: nat)
    requires n <= 8
    ensures var after := MovedFields(st, r, crm, n);
      after == st.(crf := after.crf) && forall f: Field ::
        after.crf[f] == if f < n && CrmSelects(crm, f) then Nibble(st.gpr[r], f) else st.crf[f]
  {
    hide CrmSelects, And32, LShr32, Nibble;
    if n > 0 {
      MovedFieldsAre(st, r, crm, n - 1);
      MovedNibbleIs(st.gpr[r], n - 1);
    }
  }

  lemma MovedNibbleIs(x: bv32, f: Field)
    ensures And32(LShr32(x, FieldShift(f)), 0xF) == Nibble(x, f)
  {
  }

  /** The nibbles of the mask mtcrf is emitted with are all ones or zero. */
  lemma {:induction false} CrmMaskNibbles(crm: bv32, n: nat, f: Field)
    requires n <= 8
    ensures Nibble(CrmMask(crm, n), f) == if n <= f && CrmSelects(crm, f) then 0xF else 0
    decreases 8 - n
  {
    hide CrmSelects, FieldAt, FieldShift, SelectedMask, Or32;
    if n == 8 {
      EmptyNibble(FieldShift(f));
    } else {
      CrmMaskNibbles(crm, n + 1, f);
      SelectedNibble(crm, n, f);
      JoinNibbles(SelectedMask(crm, n), CrmMask(crm, n + 1), FieldShift(f));
    }
  }

  lemma EmptyNibble(t: bv32)
    requires t <= 28
    ensures FieldAt(0, t) == 0
  {
  }

  lemma JoinNibbles(a: bv32, b: bv32, t: bv32)
    requires t <= 28
    ensures FieldAt(a, t) == 0 ==> FieldAt(Or32(a, b), t) == FieldAt(b, t)
    ensures FieldAt(a, t) == 0xF ==> FieldAt(Or32(a, b), t) == 0xF
  {
  }

  lemma SelectedNibble(crm: bv32, n: Field, f: Field)
    ensures FieldAt(SelectedMask(crm, n), FieldShift(f)) == if n == f && CrmSelects(crm, n) then 0xF else 0
  {
    hide CrmSelects, FieldAt, FieldShift, Shl32;
    FieldShiftDistinct(f, n);
    FieldShiftDistinct(n, f);
    EmptyNibble(FieldShift(f));
    FullNibble(FieldShift(n), FieldShift(f));
  }

  lemma FullNibble(s: bv32, t: bv32)
    requires s & 3 == 0 && s <= 28 && t & 3 == 0 && t <= 28
    ensures FieldAt(Shl32(0xF, s), t) == if s == t then 0xF else 0
  {
  }

  function Merged(cr: bv32, x: bv32, mask: bv32): bv32 { (cr & !mask) | (x & mask) }

  lemma MergedNibble(cr: bv32, x: bv32, mask: bv32, t: bv32)
    requires t <= 28
    ensures FieldAt(mask, t) == 0 ==> FieldAt(Merged(cr, x, mask), t) == FieldAt(cr, t)
    ensures FieldAt(mask, t) == 0xF ==> FieldAt(Merged(cr, x, mask), t) == FieldAt(x, t)
  {
  }

  lemma NothingMerged(cr: bv32, x: bv32)
    ensures Merged(cr, x, 0) == cr
  {
  }

  lemma MoveToCrIs(i: PPCInst, c: Context)
    ensures MoveToCr(i, c) == c.(cr := Merged(c.cr, c.Gpr(i.rS), CrmMask(i.crm, 0)))
  {
    NothingMerged(c.cr, c.Gpr(i.rS));
    hide CrmMask;
  }

  lemma MtcrfAgrees(i: PPCInst, st: SplitState, c: Context)
    requires Related(st, c)
    ensures Related(MovedFields(st, i.rS, i.crm, 8), MoveToCr(i, c))
  {
    hide Related, MovedFields, CrmMask, Merged, FieldAt, FieldShift, CrmSelects, MoveToCr;
    var crf := MovedFields(st, i.rS, i.crm, 8).crf;
    var mask := CrmMask(i.crm, 0);
    MovedFieldsAre(st, i.rS, i.crm, 8);
    MoveToCrIs(i, c);
    SameGpr(st, c);
    forall f: Field ensures crf[f] == Nibble(Merged(c.cr, c.gpr[i.rS], mask), f) {
      FieldOf(st, c, f);
      FieldShiftDistinct(f, f);
      CrmMaskNibbles(i.crm, 0, f);
      MergedNibble(c.cr, c.gpr[i.rS], mask, FieldShift(f));
    }
    CrRelated(st, c, crf, Merged(c.cr, c.gpr[i.rS], mask));
  }

  // mcrxr

  /** The three flag bits of the top XER nibble. */
  function FlagNibble(xer: bv32): bv32 { (xer >> 28) & 0xE }

  lemma XerNibble(st: SplitState, xer: bv32)
    requires XerRelated(st, xer)
    ensures And32(XerField(st), 0xF) == FlagNibble(xer)
  {
    hide Flag, Bit, OtherXer, And32, Or32, Shl32, FlagNibble;
    JoinedFlags(xer);
  }

  lemma JoinedFlags(xer: bv32)
    ensures And32(Or32(Or32(Shl32(Flag(Bit(xer, 31)), 3), Shl32(Flag(Bit(xer, 30)), 2)), Shl32(Flag(Bit(xer, 29)), 1)),
      0xF)
      == FlagNibble(xer)
  {
    var ca, ov, so := Flag(Bit(xer, 29)), Flag(Bit(xer, 30)), Flag(Bit(xer, 31));
    assert ca == (xer >> 29) & 1 && ov == (xer >> 30) & 1 && so == (xer >> 31) & 1 by {
      FlagOfBit(xer, 29);
      FlagOfBit(xer, 30);
      FlagOfBit(xer, 31);
      hide Flag, Bit;
    }
    JoinedBits(ca, ov, so, xer);
    hide *;
  }

  lemma JoinedBits(ca: bv32, ov: bv32, so: bv32, xer: bv32)
    requires ca == (xer >> 29) & 1 && ov == (xer >> 30) & 1 && so == (xer >> 31) & 1
    ensures And32(Or32(Or32(Shl32(so, 3), Shl32(ov, 2)), Shl32(ca, 1)), 0xF) == FlagNibble(xer)
  {
  }

  lemma ClearedXer(xer: bv32)
    ensures OtherXer(WithoutFlags(xer)) == OtherXer(xer)
    ensures !Bit(WithoutFlags(xer), 29) && !Bit(WithoutFlags(xer), 30) && !Bit(WithoutFlags(xer), 31)
  {
  }

  lemma LowXerBit(xer: bv32)
    ensures FlagNibble(xer) == FieldAt(xer, 28) <==> !Bit(xer, 28)
    ensures FieldAt(xer, 28) & 0xF == FieldAt(xer, 28)
  {
  }

  function ClearedFlags(st: SplitState, field: Field, bits: bv32): SplitState {
    st.(crf := st.crf[field := bits], ca := false, ov := false, so := false)
  }

  lemma MovedXer(i: PPCInst, st: SplitState, c: Context)
    requires Related(st, c)
    ensures Related(ClearedFlags(st, i.crfD, FieldAt(c.xer, 28)), MoveXerToCr(i, c))
  {
    hide Bit, OtherXer, FieldAt, InsertField, FieldShift, WithoutFlags;
    LowXerBit(c.xer);
    SetFieldRelated(st, c, i.crfD, FieldAt(c.xer, 28));
    ClearedXer(c.xer);
  }

  lemma XerOf(st: SplitState, c: Context)
    requires Related(st, c)
    ensures XerRelated(st, c.xer)
  {
  }

  lemma LoweredMcrxrIs(i: PPCInst, st: SplitState)
    ensures LoweredMcrxr(i, st) == ClearedFlags(st, i.crfD, And32(XerField(st), 0xF))
  {
    hide XerField, And32;
  }

  /** The lowering rebuilds the field from the three flags it keeps; the emitted C moves all
      four top bits.  They agree exactly when the fourth is clear. */
  lemma McrxrAgreesIff(i: PPCInst, st: SplitState, c: Context)
    requires Related(st, c)
    ensures Related(LoweredMcrxr(i, st), MoveXerToCr(i, c)) <==> !Bit(c.xer, 28)
  {
    hide Related, LoweredMcrxr, MoveXerToCr, And32, XerField, Bit, OtherXer, FieldAt, FlagNibble, XerRelated;
    LoweredMcrxrIs(i, st);
    LowXerBit(c.xer);
    XerOf(st, c);
    XerNibble(st, c.xer);
    MovedXer(i, st, c);
    if Related(LoweredMcrxr(i, st), MoveXerToCr(i, c)) {
      FieldOf(LoweredMcrxr(i, st), MoveXerToCr(i, c), i.crfD);
      FieldOf(ClearedFlags(st, i.crfD, FieldAt(c.xer, 28)), MoveXerToCr(i, c), i.crfD);
    }
  }

  // XER, LR and CTR

  lemma PackedXerIs(st: SplitState, c: Context)
    requires Related(st, c)
    ensures PackedXer(st) == c.xer
  {
    XerOf(st, c);
    FlagsRebuild(c.xer);
    OrFlags(st);
    hide Related, PackedXer, JoinFlags, Bit, OtherXer;
  }

  lemma OrFlags(st: SplitState)
    ensures PackedXer(st) == JoinFlags(OtherXer(st.xer), st.ca, st.ov, st.so)
  {
    OrFlagWords(st.xer, Flag(st.ca), Flag(st.ov), Flag(st.so));
    hide And32, Or32, Shl32, OtherXer, Flag, JoinFlagWords;
  }

  lemma OrFlagWords(x: bv32, ca: bv32, ov: bv32, so: bv32)
    ensures Or32(Or32(Or32(And32(x, FLAG_BITS), Shl32(ca, 29)), Shl32(ov, 30)), Shl32(so, 31))
      == JoinFlagWords(OtherXer(x), ca, ov, so)
  {
  }

  lemma FromSprAgrees(spr: Spr, i: PPCInst, st: SplitState, c: Context)
    requires Related(st, c)
    ensures Related(WithGpr(st, i.rD, SprWord(spr, st)), FromSpr(spr, i, c))
  {
    PackedXerIs(st, c);
    LinkAndCount(st, c);
    hide Related, WithGpr, Context.SetGpr, PackedXer;
    SetsGpr(st, c, i.rD, SprWord(spr, st));
  }

  lemma LinkAndCount(st: SplitState, c: Context)
    requires Related(st, c)
    ensures st.lr == c.lr && st.ctr == c.ctr
  {
  }

  lemma UnpackedIs(x: bv32, st: SplitState)
    ensures XerRelated(UnpackedXer(st, x), x)
  {
    UnpackedWord(x);
    UnpackedBits(x);
    hide OtherXer, Bit, BitAt, And32;
  }

  lemma UnpackedWord(x: bv32)
    ensures OtherXer(And32(x, FLAG_BITS)) == OtherXer(x)
  {
  }

  lemma UnpackedBits(x: bv32)
    ensures BitAt(x, 29) == Bit(x, 29) && BitAt(x, 30) == Bit(x, 30) && BitAt(x, 31) == Bit(x, 31)
  {
  }

  lemma ToSprAgrees(spr: Spr, i: PPCInst, st: SplitState, c: Context)
    requires Related(st, c)
    ensures Related(WithSpr(st, spr, st.gpr[i.rS]), ToSpr(spr, i, c))
  {
    SameGpr(st, c);
    if spr == SPR_XER {
      UnpackedIs(st.gpr[i.rS], st);
      XerReplaced(st, c, UnpackedXer(st, st.gpr[i.rS]), st.gpr[i.rS]);
    } else {
      LinkReplaced(st, c, st.gpr[i.rS]);
    }
    hide Related, UnpackedXer;
  }

  lemma XerReplaced(st: SplitState, c: Context, after: SplitState, xer: bv32)
    requires Related(st, c) && XerRelated(after, xer)
    requires after == st.(xer := after.xer, ca := after.ca, ov := after.ov, so := after.so)
    ensures Related(after, c.(xer := xer))
  {
    hide Nibble, XerRelated;
  }

  lemma LinkReplaced(st: SplitState, c: Context, x: bv32)
    requires Related(st, c)
    ensures Related(st.(lr := x), c.(lr := x)) && Related(st.(ctr := x), c.(ctr := x))
  {
    hide Nibble, OtherXer, Bit;
  }
}
