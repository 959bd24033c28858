/** How the split DolIR state represents the packed state of the emitted C, and the bit
    facts about CR fields and XER flags the lowering relies on.

    Lemmas that only combine bit facts hide the bit-level definitions, so that the solver
    treats packed words as opaque there. */
module SplitRelation {
  import opened SplitMachine
  import opened EmittedC

  const XER_FLAGS: bv32 := 0xE000_0000

  function Nibble(cr: bv32, field: Field): bv32 { FieldAt(cr, FieldShift(field)) }

  predicate Bit(x: bv32, k: Reg) { (x >> k) & 1 == 1 }

  ghost predicate Related(st: SplitState, c: Context) {
    && st.gpr == c.gpr && st.lr == c.lr && st.ctr == c.ctr
    && (forall f: Field :: st.crf[f] == Nibble(c.cr, f))
    && XerRelated(st, c.xer)
  }

  function OtherXer(x: bv32): bv32 { x & !XER_FLAGS }

  predicate XerRelated(st: SplitState, xer: bv32) {
    && OtherXer(st.xer) == OtherXer(xer)
    && st.ca == Bit(xer, 29) && st.ov == Bit(xer, 30) && st.so == Bit(xer, 31)
  }

  function JoinFields(f0: bv32, f1: bv32, f2: bv32, f3: bv32, f4: bv32, f5: bv32, f6: bv32, f7: bv32): bv32 {
    (f0 << 28) | (f1 << 24) | (f2 << 20) | (f3 << 16) | (f4 << 12) | (f5 << 8) | (f6 << 4) | f7
  }

  function JoinFlags(other: bv32, ca: bool, ov: bool, so: bool): bv32 {
    JoinFlagWords(other, Flag(ca), Flag(ov), Flag(so))
  }

  function JoinFlagWords(other: bv32, ca: bv32, ov: bv32, so: bv32): bv32 {
    other | (ca << 29) | (ov << 30) | (so << 31)
  }

  /** The packed words a split state stands for (the repacking at observation boundaries). */
  function PackCr(st: SplitState): bv32 {
    JoinFields(st.crf[0], st.crf[1], st.crf[2], st.crf[3], st.crf[4], st.crf[5], st.crf[6], st.crf[7])
  }

  function PackXer(st: SplitState): bv32 { JoinFlags(OtherXer(st.xer), st.ca, st.ov, st.so) }

  lemma FieldsRebuild(cr: bv32)
    ensures cr == JoinFields(Nibble(cr, 0), Nibble(cr, 1), Nibble(cr, 2), Nibble(cr, 3),
                             Nibble(cr, 4), Nibble(cr, 5), Nibble(cr, 6), Nibble(cr, 7))
  {
  }

  lemma FlagsRebuild(xer: bv32)
    ensures xer == JoinFlags(OtherXer(xer), Bit(xer, 29), Bit(xer, 30), Bit(xer, 31))
  {
    TopBits(xer);
    FlagOfBit(xer, 29);
    FlagOfBit(xer, 30);
    FlagOfBit(xer, 31);
    hide Bit, Flag, OtherXer, JoinFlagWords;
  }

  lemma FlagOfBit(x: bv32, k: Reg)
    ensures Flag(Bit(x, k)) == (x >> k) & 1
  {
    var b := (x >> k) & 1;
    assert b == 0 || b == 1;
  }

  lemma TopBits(xer: bv32)
    ensures xer == JoinFlagWords(OtherXer(xer), (xer >> 29) & 1, (xer >> 30) & 1, (xer >> 31) & 1)
  {
  }

  /** Related states pack to exactly the emitted C's registers. */
  lemma RelatedPacks(st: SplitState, c: Context)
    requires Related(st, c)
    ensures PackCr(st) == c.cr && PackXer(st) == c.xer
  {
    hide Nibble, Bit, JoinFields, JoinFlags, OtherXer;
    FieldsRebuild(c.cr);
    FlagsRebuild(c.xer);
  }

  lemma FieldOfInsertAt(cr: bv32, bits: bv32, s: bv32, t: bv32)
    requires bits & 0xF == bits
    requires s & 3 == 0 && t & 3 == 0 && s <= 28 && t <= 28
    ensures FieldAt(InsertField(cr, s, bits), t) == if s == t then bits else FieldAt(cr, t)
  {
  }

  lemma FieldShiftDistinct(f: Field, g: Field)
    ensures FieldShift(f) <= 28 && FieldShift(f) & 3 == 0
    ensures f != g ==> FieldShift(f) != FieldShift(g)
  {
  }

  lemma NibbleOfInsert(c: Context, bits: bv32, field: Field, f: Field)
    requires bits & 0xF == bits
    ensures Nibble(c.SetField(field, bits).cr, f) == if f == field then bits else Nibble(c.cr, f)
  {
    hide FieldAt, FieldShift, InsertField;
    FieldShiftDistinct(f, field);
    FieldShiftDistinct(field, f);
    FieldOfInsertAt(c.cr, bits, FieldShift(field), FieldShift(f));
  }

  lemma SetFieldRelated(st: SplitState, c: Context, field: Field, bits: bv32)
    requires Related(st, c) && bits & 0xF == bits
    ensures Related(st.(crf := st.crf[field := bits]), c.SetField(field, bits))
  {
    hide Nibble, Bit, FieldShift, InsertField;
    forall f: Field ensures Nibble(c.SetField(field, bits).cr, f) == st.crf[field := bits][f] {
      NibbleOfInsert(c, bits, field, f);
    }
  }

  lemma SetGprRelated(st: SplitState, c: Context, r: Reg, x: bv32)
    requires Related(st, c)
    ensures Related(st.(gpr := st.gpr[r := x]), c.SetGpr(r, x))
  {
    hide Nibble, Bit, OtherXer;
  }

  lemma CarryBit(xer: bv32, bit: bv32)
    requires bit == 0 || bit == 1
    ensures var x := WithCarry(xer, bit);
      Bit(x, 29) == (bit == 1) && Bit(x, 30) == Bit(xer, 30) && Bit(x, 31) == Bit(xer, 31)
      && OtherXer(x) == OtherXer(xer)
  {
  }

  lemma SetCarryRelated(st: SplitState, c: Context, bit: bv32)
    requires Related(st, c) && (bit == 0 || bit == 1)
    ensures Related(st.(ca := bit == 1), c.SetCarry(bit))
  {
    hide Nibble, Bit, OtherXer, WithCarry;
    CarryBit(c.xer, bit);
  }
}
