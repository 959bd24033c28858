/** Staged native state (src/backend/native_state.c): what committing it changes, what reloading
    gives back, and when the two undo each other. */
module NativeState {
  import opened SplitMachine
  import opened EmittedC
  import opened SplitRelation
  import DolIR

  // The slots DolIR does not name elsewhere
  const FPSCR: nat := 112
  const MSR: nat := 113
  const SRR0: nat := 114
  const SRR1: nat := 115
  const DAR: nat := 116
  const DSISR: nat := 117
  const EAR: nat := 118
  const HID2: nat := 119
  const SR0: nat := 121
  const GQR0: nat := 137
  const EXCEPTION: nat := 145
  const RESERVE_ADDR: nat := 147

  const SPR_GQR0: nat := 912
  const SPR_COUNT: nat := 1024

  type Mask = set<nat>
  type SprIndex = n: nat | n < 8

  /** `spr_slots` and `spr_ids` */
  function SprSlot(index: SprIndex): nat {
    match index
    case 0 => DolIR.LR
    case 1 => DolIR.CTR
    case 2 => SRR0
    case 3 => SRR1
    case 4 => DAR
    case 5 => DSISR
    case 6 => EAR
    case _ => HID2
  }

  function SprId(index: SprIndex): (id: nat)
    ensures id < SPR_COUNT
  {
    match index
    case 0 => 8
    case 1 => 9
    case 2 => 26
    case 3 => 27
    case 4 => 19
    case 5 => 18
    case 6 => 282
    case _ => 920
  }

  /** Each staged register by its number in the architecture. */
  lemma SprNumbers(i: SprIndex)
    ensures SprSlot(i) == DolIR.LR <==> SprId(i) == 8
    ensures SprSlot(i) == DolIR.CTR <==> SprId(i) == 9
    ensures SprSlot(i) == DSISR <==> SprId(i) == 18
    ensures SprSlot(i) == DAR <==> SprId(i) == 19
    ensures SprSlot(i) == SRR0 <==> SprId(i) == 26
    ensures SprSlot(i) == SRR1 <==> SprId(i) == 27
    ensures SprSlot(i) == EAR <==> SprId(i) == 282
    ensures SprSlot(i) == HID2 <==> SprId(i) == 920
    ensures 912 <= GqrId(i) < 920 && GqrId(i) - 912 == GqrSlot(i) - GQR0 == i
  {
  }

  /** The state behind the host's accessors. */
  datatype Arch = Arch(
    gpr: seq<bv32>, ps0: seq<bv64>, ps1: seq<bv64>, cr: bv32, xer: bv32, spr: seq<bv32>, sr: seq<bv32>,
    fpscr: bv32, msr: bv32, exceptions: bv32, reserveAddress: bv32, reserveValid: bv32)
  {
    predicate Valid() { |gpr| == |ps0| == |ps1| == 32 && |spr| == SPR_COUNT && |sr| == 16 }
  }

  function Pick<T>(mask: Mask, slot: nat, staged: T, held: T): T { if slot in mask then staged else held }

  /** The first `upTo` of a file of 32 registers whose slots begin at `base`. */
  ghost predicate Words(before: seq<bv32>, values: seq<bv64>, base: nat, mask: Mask, after: seq<bv32>, upTo: nat) {
    && |before| == |after| && upTo <= |before| && base + |before| <= |values|
    && forall r | 0 <= r < |before| ::
       after[r] == if r < upTo then Pick(mask, base + r, Low32(values[base + r]), before[r]) else before[r]
  }

  ghost predicate Doubles(before: seq<bv64>, values: seq<bv64>, base: nat, mask: Mask, after: seq<bv64>, upTo: nat) {
    && |before| == |after| && upTo <= |before| && base + |before| <= |values|
    && forall r | 0 <= r < |before| ::
       after[r] == if r < upTo then Pick(mask, base + r, values[base + r], before[r]) else before[r]
  }

  lemma OneMoreWord(before: seq<bv32>, values: seq<bv64>, base: nat, mask: Mask, after: seq<bv32>, r: nat)
    requires Words(before, values, base, mask, after, r) && r < |before|
    ensures Words(before, values, base, mask, if base + r in mask then after[r := Low32(values[base + r])] else after,
      r + 1)
  {
    hide Low32;
    var after' := if base + r in mask then after[r := Low32(values[base + r])] else after;
    forall q | 0 <= q < |before|
      ensures after'[q] == if q < r + 1 then Pick(mask, base + q, Low32(values[base + q]), before[q]) else before[q]
    {
      if q != r { assert after'[q] == after[q]; }
    }
  }

  lemma OneMoreDouble(before: seq<bv64>, values: seq<bv64>, base: nat, mask: Mask, after: seq<bv64>, r: nat)
    requires Doubles(before, values, base, mask, after, r) && r < |before|
    ensures Doubles(before, values, base, mask, if base + r in mask then after[r := values[base + r]] else after, r + 1)
  {
    var after' := if base + r in mask then after[r := values[base + r]] else after;
    forall q | 0 <= q < |before|
      ensures after'[q] == if q < r + 1 then Pick(mask, base + q, values[base + q], before[q]) else before[q]
    {
      if q != r { assert after'[q] == after[q]; }
    }
  }

  /** The general registers, both paired-single halves and nothing else. */
  ghost predicate RegistersCommitted(before: Arch, values: seq<bv64>, mask: Mask, after: Arch, upTo: nat)
    requires before.Valid() && |values| == DolIR.STATE_COUNT && upTo <= 32
  {
    && after.Valid() && after == before.(gpr := after.gpr, ps0 := after.ps0, ps1 := after.ps1)
    && Words(before.gpr, values, DolIR.GPR0, mask, after.gpr, upTo)
    && Doubles(before.ps0, values, DolIR.FPR0, mask, after.ps0, upTo)
    && Doubles(before.ps1, values, DolIR.PS1_0, mask, after.ps1, upTo)
  }

  predicate FieldMasked(mask: Mask, f: Field) { DolIR.CR0 + f in mask }

  function StagedField(values: seq<bv64>, f: Field): bv32
    requires |values| == DolIR.STATE_COUNT
  {
    Low32(values[DolIR.CR0 + f]) & 0xF
  }

  /** The condition register field by field. */
  ghost predicate CrCommitted(before: bv32, values: seq<bv64>, mask: Mask, after: bv32)
    requires |values| == DolIR.STATE_COUNT
  {
    forall f: Field :: Nibble(after, f) ==
      if FieldMasked(mask, f) then StagedField(values, f)
        else Nibble(Pick(mask, DolIR.CR, Low32(values[DolIR.CR]), before), f)
  }

  /** XER: its own slot only below the flags, and the flags one by one. */
  ghost predicate XerCommitted(before: bv32, values: seq<bv64>, mask: Mask, after: bv32)
    requires |values| == DolIR.STATE_COUNT
  {
    && OtherXer(after) == Pick(mask, DolIR.XER, OtherXer(Low32(values[DolIR.XER])), OtherXer(before))
    && Bit(after, 29) == Pick(mask, DolIR.XER_CA, Odd32(Low32(values[DolIR.XER_CA])), Bit(before, 29))
    && Bit(after, 30) == Pick(mask, DolIR.XER_OV, Odd32(Low32(values[DolIR.XER_OV])), Bit(before, 30))
    && Bit(after, 31) == Pick(mask, DolIR.XER_SO, Odd32(Low32(values[DolIR.XER_SO])), Bit(before, 31))
  }

  function GqrId(index: SprIndex): nat { SPR_GQR0 + index }

  function GqrSlot(index: SprIndex): nat { GQR0 + index }

  /** Whether a special purpose register has a slot. */
  ghost predicate StagedSpr(id: nat) { exists i: SprIndex :: SprId(i) == id || GqrId(i) == id }

  ghost predicate SprsCommitted(before: seq<bv32>, values: seq<bv64>, mask: Mask, after: seq<bv32>)
    requires |before| == |after| == SPR_COUNT && |values| == DolIR.STATE_COUNT
  {
    && (forall i: SprIndex :: after[SprId(i)] == Pick(mask, SprSlot(i), Low32(values[SprSlot(i)]), before[SprId(i)]))
    && (forall i: SprIndex :: after[GqrId(i)] == Pick(mask, GqrSlot(i), Low32(values[GqrSlot(i)]), before[GqrId(i)]))
    && (forall id: nat | id < SPR_COUNT && !StagedSpr(id) :: after[id] == before[id])
  }

  /** Commit changes exactly the masked state. */
  ghost predicate Committed(before: Arch, values: seq<bv64>, mask: Mask, after: Arch)
    requires before.Valid() && |values| == DolIR.STATE_COUNT
  {
    && after.Valid()
    && Words(before.gpr, values, DolIR.GPR0, mask, after.gpr, 32)
    && Doubles(before.ps0, values, DolIR.FPR0, mask, after.ps0, 32)
    && Doubles(before.ps1, values, DolIR.PS1_0, mask, after.ps1, 32)
    && CrCommitted(before.cr, values, mask, after.cr)
    && XerCommitted(before.xer, values, mask, after.xer)
    && SprsCommitted(before.spr, values, mask, after.spr)
    && Words(before.sr, values, SR0, mask, after.sr, 16)
    && after.fpscr == Pick(mask, FPSCR, Low32(values[FPSCR]), before.fpscr)
    && after.msr == Pick(mask, MSR, Low32(values[MSR]), before.msr)
    && after.exceptions == Pick(mask, EXCEPTION, Low32(values[EXCEPTION]), before.exceptions)
    && after.reserveAddress == Pick(mask, RESERVE_ADDR, Low32(values[RESERVE_ADDR]), before.reserveAddress)
    && after.reserveValid == Pick(mask, DolIR.RESERVE_VALID, Low32(values[DolIR.RESERVE_VALID]), before.reserveValid)
  }

  /** `(x & ~(1u << shift)) | ((v & 1u) << shift)` */
  function WithFlag(x: bv32, shift: bv32, v: bv32): bv32
    requires shift < 32
  {
    (x & !(1 << shift)) | ((v & 1) << shift)
  }

  // Bit facts

  lemma FieldInserted(cr: bv32, f: Field, g: Field, v: bv32)
    ensures Nibble(InsertField(cr, FieldShift(f), v & 0xF), g) == if f == g then v & 0xF else Nibble(cr, g)
  {
    hide FieldAt, InsertField, FieldShift;
    FieldShiftDistinct(f, g);
    FieldShiftDistinct(g, f);
    LowNibble(v);
    FieldOfInsertAt(cr, v & 0xF, FieldShift(f), FieldShift(g));
  }

  lemma LowNibble(v: bv32)
    ensures (v & 0xF) & 0xF == v & 0xF
  {
  }

  /** `(xer & 0xe0000000u) | (v & 0x1fffffffu)` */
  function WithLow(xer: bv32, v: bv32): bv32 { (xer & 0xE000_0000) | (v & 0x1FFF_FFFF) }

  lemma LowInserted(xer: bv32, v: bv32)
    ensures var x := WithLow(xer, v);
      OtherXer(x) == OtherXer(v) && Bit(x, 29) == Bit(xer, 29) && Bit(x, 30) == Bit(xer, 30)
        && Bit(x, 31) == Bit(xer, 31)
  {
  }

  lemma CarryInserted(x: bv32, v: bv32)
    ensures var y := WithFlag(x, 29, v);
      OtherXer(y) == OtherXer(x) && Bit(y, 29) == Odd32(v) && Bit(y, 30) == Bit(x, 30) && Bit(y, 31) == Bit(x, 31)
  {
  }

  lemma OverflowInserted(x: bv32, v: bv32)
    ensures var y := WithFlag(x, 30, v);
      OtherXer(y) == OtherXer(x) && Bit(y, 29) == Bit(x, 29) && Bit(y, 30) == Odd32(v) && Bit(y, 31) == Bit(x, 31)
  {
  }

  lemma SummaryInserted(x: bv32, v: bv32)
    ensures var y := WithFlag(x, 31, v);
      OtherXer(y) == OtherXer(x) && Bit(y, 29) == Bit(x, 29) && Bit(y, 30) == Bit(x, 30) && Bit(y, 31) == Odd32(v)
  {
  }

  function LowIf(on: bool, xer: bv32, v: bv32): bv32 { if on then WithLow(xer, v) else xer }

  function FlagIf(on: bool, x: bv32, shift: bv32, v: bv32): bv32
    requires shift < 32
  {
    if on then WithFlag(x, shift, v) else x
  }

  lemma LowMerged(on: bool, xer: bv32, v: bv32)
    ensures var x := LowIf(on, xer, v);
      OtherXer(x) == (if on then OtherXer(v) else OtherXer(xer))
      && Bit(x, 29) == Bit(xer, 29) && Bit(x, 30) == Bit(xer, 30) && Bit(x, 31) == Bit(xer, 31)
  {
    hide WithLow, OtherXer, Bit;
    LowInserted(xer, v);
  }

  lemma CarryMerged(on: bool, x: bv32, v: bv32)
    ensures var y := FlagIf(on, x, 29, v);
      OtherXer(y) == OtherXer(x) && Bit(y, 29) == (if on then Odd32(v) else Bit(x, 29)) && Bit(y, 30) == Bit(x, 30)
        && Bit(y, 31) == Bit(x, 31)
  {
    hide WithFlag, OtherXer, Bit, Odd32;
    CarryInserted(x, v);
  }

  lemma OverflowMerged(on: bool, x: bv32, v: bv32)
    ensures var y := FlagIf(on, x, 30, v);
      OtherXer(y) == OtherXer(x) && Bit(y, 29) == Bit(x, 29) && Bit(y, 30) == (if on then Odd32(v) else Bit(x, 30))
        && Bit(y, 31) == Bit(x, 31)
  {
    hide WithFlag, OtherXer, Bit, Odd32;
    OverflowInserted(x, v);
  }

  lemma SummaryMerged(on: bool, x: bv32, v: bv32)
    ensures var y := FlagIf(on, x, 31, v);
      OtherXer(y) == OtherXer(x) && Bit(y, 29) == Bit(x, 29) && Bit(y, 30) == Bit(x, 30)
        && Bit(y, 31) == (if on then Odd32(v) else Bit(x, 31))
  {
    hide WithFlag, OtherXer, Bit, Odd32;
    SummaryInserted(x, v);
  }

  /** The four staged parts of XER, each if it is masked. */
  function MergeXer(xer: bv32, low: bool, lowValue: bv32, ca: bool, caValue: bv32, ov: bool, ovValue: bv32, so: bool,
          soValue: bv32): bv32
  {
    FlagIf(so, FlagIf(ov, FlagIf(ca, LowIf(low, xer, lowValue), 29, caValue), 30, ovValue), 31, soValue)
  }

  lemma MergeXerIs(xer: bv32, low: bool, lowValue: bv32, ca: bool, caValue: bv32, ov: bool, ovValue: bv32, so: bool,
          soValue: bv32)
    ensures var x := MergeXer(xer, low, lowValue, ca, caValue, ov, ovValue, so, soValue);
      && OtherXer(x) == (if low then OtherXer(lowValue) else OtherXer(xer))
      && Bit(x, 29) == (if ca then Odd32(caValue) else Bit(xer, 29))
      && Bit(x, 30) == (if ov then Odd32(ovValue) else Bit(xer, 30))
      && Bit(x, 31) == (if so then Odd32(soValue) else Bit(xer, 31))
  {
    hide OtherXer, Bit, Odd32, LowIf, FlagIf;
    var x0 := LowIf(low, xer, lowValue);
    var x1 := FlagIf(ca, x0, 29, caValue);
    var x2 := FlagIf(ov, x1, 30, ovValue);
    LowMerged(low, xer, lowValue);
    CarryMerged(ca, x0, caValue);
    OverflowMerged(ov, x1, ovValue);
    SummaryMerged(so, x2, soValue);
  }

  lemma XerMerges(xer: bv32, values: seq<bv64>, mask: Mask)
    requires |values| == DolIR.STATE_COUNT
    ensures XerCommitted(xer, values, mask,
      MergeXer(xer, DolIR.XER in mask, Low32(values[DolIR.XER]), DolIR.XER_CA in mask, Low32(values[DolIR.XER_CA]),
               DolIR.XER_OV in mask, Low32(values[DolIR.XER_OV]), DolIR.XER_SO in mask, Low32(values[DolIR.XER_SO])))
  {
    hide OtherXer, Bit, Odd32, Low32, MergeXer;
    MergeXerIs(xer, DolIR.XER in mask, Low32(values[DolIR.XER]), DolIR.XER_CA in mask, Low32(values[DolIR.XER_CA]),
               DolIR.XER_OV in mask, Low32(values[DolIR.XER_OV]), DolIR.XER_SO in mask, Low32(values[DolIR.XER_SO]));
  }

  lemma NothingMerges(xer: bv32, values: seq<bv64>, mask: Mask)
    requires |values| == DolIR.STATE_COUNT
    requires DolIR.XER !in mask && DolIR.XER_CA !in mask && DolIR.XER_OV !in mask && DolIR.XER_SO !in mask
    ensures XerCommitted(xer, values, mask, xer)
  {
    hide OtherXer, Bit, Odd32, Low32;
  }

  // Commit

  lemma NoRegisters(arch: Arch, values: seq<bv64>, mask: Mask)
    requires arch.Valid() && |values| == DolIR.STATE_COUNT
    ensures RegistersCommitted(arch, values, mask, arch, 0)
  {
  }

  /** The host's state, changed only through its accessors. */
  class Host {
    var arch: Arch

    ghost predicate Valid()
      reads this
    {
      arch.Valid()
    }

    method CommitRegisters(values: seq<bv64>, mask: Mask)
      requires Valid() && |values| == DolIR.STATE_COUNT
      modifies this
      ensures RegistersCommitted(old(arch), values, mask, arch, 32)
    {
      hide Low32, Words, Doubles;
      NoRegisters(arch, values, mask);
      for reg := 0 to 32
        invariant RegistersCommitted(old(arch), values, mask, arch, reg)
      {
        OneMoreWord(old(arch.gpr), values, DolIR.GPR0, mask, arch.gpr, reg);
        OneMoreDouble(old(arch.ps0), values, DolIR.FPR0, mask, arch.ps0, reg);
        OneMoreDouble(old(arch.ps1), values, DolIR.PS1_0, mask, arch.ps1, reg);
        if DolIR.GPR0 + reg in mask { arch := arch.(gpr := arch.gpr[reg := Low32(values[DolIR.GPR0 + reg])]); }
        if DolIR.FPR0 + reg in mask { arch := arch.(ps0 := arch.ps0[reg := values[DolIR.FPR0 + reg]]); }
        if DolIR.PS1_0 + reg in mask { arch := arch.(ps1 := arch.ps1[reg := values[DolIR.PS1_0 + reg]]); }
      }
    }

    method CommitCr(values: seq<bv64>, mask: Mask)
      requires |values| == DolIR.STATE_COUNT
      modifies this
      ensures arch == old(arch).(cr := arch.cr) && CrCommitted(old(arch.cr), values, mask, arch.cr)
    {
      hide Nibble, Low32, InsertField, FieldShift;
      var dirty := DolIR.CR in mask;
      for field := 0 to 8
        invariant dirty <==> (DolIR.CR in mask || exists f: Field :: f < field && FieldMasked(mask, f))
      {
        dirty := dirty || FieldMasked(mask, field);
      }
      if !dirty {
        assert forall f: Field :: f < 8 ==> !FieldMasked(mask, f);
        return;
      }
      var cr := if DolIR.CR in mask then Low32(values[DolIR.CR]) else arch.cr;
      ghost var base := cr;
      for field := 0 to 8
        invariant forall f: Field ::
          Nibble(cr, f) == if f < field && FieldMasked(mask, f) then StagedField(values, f) else Nibble(base, f)
      {
        if FieldMasked(mask, field) {
          forall g: Field
            ensures Nibble(InsertField(cr, FieldShift(field), StagedField(values, field)), g)
                 == if field == g then StagedField(values, field) else Nibble(cr, g)
          {
            FieldInserted(cr, field, g, Low32(values[DolIR.CR0 + field]));
          }
          cr := InsertField(cr, FieldShift(field), StagedField(values, field));
        }
      }
      arch := arch.(cr := cr);
    }

    method CommitXer(values: seq<bv64>, mask: Mask)
      requires |values| == DolIR.STATE_COUNT
      modifies this
      ensures arch == old(arch).(xer := arch.xer) && XerCommitted(old(arch.xer), values, mask, arch.xer)
    {
      hide OtherXer, Bit, Odd32, Low32, MergeXer, XerCommitted;
      var low, ca, ov, so := DolIR.XER in mask, DolIR.XER_CA in mask, DolIR.XER_OV in mask, DolIR.XER_SO in mask;
      if !low && !ca && !ov && !so {
        NothingMerges(arch.xer, values, mask);
        return;
      }
      var lowValue, caValue := Low32(values[DolIR.XER]), Low32(values[DolIR.XER_CA]);
      var ovValue, soValue := Low32(values[DolIR.XER_OV]), Low32(values[DolIR.XER_SO]);
      XerMerges(arch.xer, values, mask);
      arch := arch.(xer := MergeXer(arch.xer, low, lowValue, ca, caValue, ov, ovValue, so, soValue));
    }

    method CommitSprs(values: seq<bv64>, mask: Mask)
      requires Valid() && |values| == DolIR.STATE_COUNT
      modifies this
      ensures Valid() && arch == old(arch).(spr := arch.spr, sr := arch.sr)
      ensures SprsCommitted(old(arch.spr), values, mask, arch.spr)
      ensures Words(old(arch.sr), values, SR0, mask, arch.sr, 16)
    {
      hide Low32, Words, SprId, SprSlot;
      ghost var before := arch;
      for index := 0 to 8
        invariant Valid() && arch == before.(spr := arch.spr)
          && SprsPartly(before.spr, values, mask, arch.spr, index, 0)
      {
        OneMoreSpr(before.spr, values, mask, arch.spr, index);
        if SprSlot(index) in mask { arch := arch.(spr := arch.spr[SprId(index) := Low32(values[SprSlot(index)])]); }
      }
      NoWords(before.sr, values, mask);
      for index := 0 to 16
        invariant Valid() && arch == before.(spr := arch.spr, sr := arch.sr)
        invariant SprsPartly(before.spr, values, mask, arch.spr, 8, 0)
          && Words(before.sr, values, SR0, mask, arch.sr, index)
      {
        OneMoreWord(before.sr, values, SR0, mask, arch.sr, index);
        if SR0 + index in mask { arch := arch.(sr := arch.sr[index := Low32(values[SR0 + index])]); }
      }
      for index := 0 to 8
        invariant Valid() && arch == before.(spr := arch.spr, sr := arch.sr)
        invariant SprsPartly(before.spr, values, mask, arch.spr, 8, index)
          && Words(before.sr, values, SR0, mask, arch.sr, 16)
      {
        OneMoreGqr(before.spr, values, mask, arch.spr, index);
        if GqrSlot(index) in mask { arch := arch.(spr := arch.spr[GqrId(index) := Low32(values[GqrSlot(index)])]); }
      }
    }

    method CommitModes(values: seq<bv64>, mask: Mask)
      requires |values| == DolIR.STATE_COUNT
      modifies this
      ensures arch == old(arch).(fpscr := arch.fpscr, msr := arch.msr, exceptions := arch.exceptions)
      ensures arch.fpscr == Pick(mask, FPSCR, Low32(values[FPSCR]), old(arch.fpscr))
      ensures arch.msr == Pick(mask, MSR, Low32(values[MSR]), old(arch.msr))
      ensures arch.exceptions == Pick(mask, EXCEPTION, Low32(values[EXCEPTION]), old(arch.exceptions))
    {
      hide Low32;
      var fpscr, msr, exceptions := arch.fpscr, arch.msr, arch.exceptions;
      if FPSCR in mask { fpscr := Low32(values[FPSCR]); }
      if MSR in mask { msr := Low32(values[MSR]); }
      if EXCEPTION in mask { exceptions := Low32(values[EXCEPTION]); }
      arch := arch.(fpscr := fpscr, msr := msr, exceptions := exceptions);
    }

    method CommitReservation(values: seq<bv64>, mask: Mask)
      requires |values| == DolIR.STATE_COUNT
      modifies this
      ensures arch == old(arch).(reserveAddress := arch.reserveAddress, reserveValid := arch.reserveValid)
      ensures arch.reserveAddress == Pick(mask, RESERVE_ADDR, Low32(values[RESERVE_ADDR]), old(arch.reserveAddress))
      ensures arch.reserveValid
        == Pick(mask, DolIR.RESERVE_VALID, Low32(values[DolIR.RESERVE_VALID]), old(arch.reserveValid))
    {
      hide Low32;
      if RESERVE_ADDR in mask { arch := arch.(reserveAddress := Low32(values[RESERVE_ADDR])); }
      if DolIR.RESERVE_VALID in mask { arch := arch.(reserveValid := Low32(values[DolIR.RESERVE_VALID])); }
    }

    /** `moderngekko_commit_state` */
    method Commit(values: seq<bv64>, mask: Mask)
      requires Valid() && |values| == DolIR.STATE_COUNT
      modifies this
      ensures Valid() && Committed(old(arch), values, mask, arch)
    {
      hide Low32, Words, Doubles, CrCommitted, XerCommitted, SprsCommitted;
      CommitRegisters(values, mask);
      CommitCr(values, mask);
      CommitXer(values, mask);
      CommitSprs(values, mask);
      CommitModes(values, mask);
      CommitReservation(values, mask);
    }
  }

  lemma NoWords(before: seq<bv32>, values: seq<bv64>, mask: Mask)
    requires |before| == 16 && |values| == DolIR.STATE_COUNT
    ensures Words(before, values, SR0, mask, before, 0)
  {
  }

  /** The first `sprs` of the named registers and the first `gqrs` of the GQRs. */
  ghost predicate SprsPartly(before: seq<bv32>, values: seq<bv64>, mask: Mask, after: seq<bv32>, sprs: nat, gqrs: nat)
    requires |before| == |after| == SPR_COUNT && |values| == DolIR.STATE_COUNT
  {
    && (forall i: SprIndex ::
       after[SprId(i)]
       == if i < sprs then Pick(mask, SprSlot(i), Low32(values[SprSlot(i)]), before[SprId(i)]) else before[SprId(i)])
    && (forall i: SprIndex ::
       after[GqrId(i)]
       == if i < gqrs then Pick(mask, GqrSlot(i), Low32(values[GqrSlot(i)]), before[GqrId(i)]) else before[GqrId(i)])
    && (forall id: nat | id < SPR_COUNT && !StagedSpr(id) :: after[id] == before[id])
  }

  lemma SprIdsDistinct(i: SprIndex, j: SprIndex)
    ensures (SprId(i) == SprId(j) ==> i == j) && SprId(i) != GqrId(j) && SprSlot(i) < DolIR.STATE_COUNT
  {
  }

  lemma OneMoreSpr(before: seq<bv32>, values: seq<bv64>, mask: Mask, after: seq<bv32>, n: SprIndex)
    requires |before| == |after| == SPR_COUNT && |values| == DolIR.STATE_COUNT
    requires SprsPartly(before, values, mask, after, n, 0)
    ensures SprSlot(n) < DolIR.STATE_COUNT
    ensures SprsPartly(before, values, mask,
      if SprSlot(n) in mask then after[SprId(n) := Low32(values[SprSlot(n)])] else after, n + 1, 0)
  {
    hide Low32, SprId, SprSlot;
    forall i: SprIndex, j: SprIndex
      ensures (SprId(i) == SprId(j) ==> i == j) && SprId(i) != GqrId(j) && SprSlot(i) < DolIR.STATE_COUNT
    {
      SprIdsDistinct(i, j);
    }
    assert StagedSpr(SprId(n));
  }

  lemma OneMoreGqr(before: seq<bv32>, values: seq<bv64>, mask: Mask, after: seq<bv32>, n: SprIndex)
    requires |before| == |after| == SPR_COUNT && |values| == DolIR.STATE_COUNT
    requires SprsPartly(before, values, mask, after, 8, n)
    ensures SprsPartly(before, values, mask,
      if GqrSlot(n) in mask then after[GqrId(n) := Low32(values[GqrSlot(n)])] else after, 8, n + 1)
  {
    hide Low32, SprId, SprSlot;
    forall i: SprIndex, j: SprIndex
      ensures SprId(i) != GqrId(j) && SprSlot(i) < DolIR.STATE_COUNT
    {
      SprIdsDistinct(i, j);
    }
    assert StagedSpr(GqrId(n));
  }
}
