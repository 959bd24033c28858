/** Reloading staged native state (src/backend/native_state.c:37-44, 142-218), and that commit and
    reload undo each other. */
module NativeReload {
  import opened SplitMachine
  import opened EmittedC
  import opened SplitRelation
  import opened NativeState
  import DolIR

  /** Where the architecture holds a slot. */
  datatype Place =
    | Gpr(r: Reg) | Ps0(r: Reg) | Ps1(r: Reg) | CrWord | CrField(f: Field) | XerWord | Ca | Ov | So
    | Spr(i: SprIndex) | Sr(s: nat) | Gqr(i: SprIndex) | Fpscr | Msr | Exceptions | ReserveAddress | ReserveValid
    | Nowhere

  function SprPlace(slot: nat): Place {
    if slot == DolIR.LR then Spr(0)
    else if slot == DolIR.CTR then Spr(1)
    else if SRR0 <= slot <= HID2 then Spr(slot - SRR0 + 2)
    else Nowhere
  }

  function XerPlace(slot: nat): Place {
    if slot == DolIR.XER then XerWord
    else if slot == DolIR.XER_CA then Ca
    else if slot == DolIR.XER_OV then Ov
    else So
  }

  function PlaceOf(slot: nat): Place {
    if slot < DolIR.FPR0 then Gpr(slot)
    else if slot < DolIR.PS1_0 then Ps0(slot - DolIR.FPR0)
    else if slot < 96 then Ps1(slot - DolIR.PS1_0)
    else if slot < DolIR.CR then SprPlace(slot)
    else if slot == DolIR.CR then CrWord
    else if slot < DolIR.XER then CrField(slot - DolIR.CR0)
    else if slot < FPSCR then XerPlace(slot)
    else if slot < SRR0 then (if slot == FPSCR then Fpscr else Msr)
    else if slot <= HID2 then SprPlace(slot)
    else if SR0 <= slot < SR0 + 16 then Sr(slot - SR0)
    else if GQR0 <= slot < GQR0 + 8 then Gqr(slot - GQR0)
    else if slot == EXCEPTION then Exceptions
    else if slot == RESERVE_ADDR then ReserveAddress
    else if slot == DolIR.RESERVE_VALID then ReserveValid
    else Nowhere
  }

  function Wide(x: bv32): bv64 { x as bv64 }

  function FlagWord(b: bool): bv64 { if b then 1 else 0 }

  /** What a reload reads. */
  function Held(a: Arch, place: Place): bv64
    requires a.Valid()
  {
    match place
    case Gpr(r) => Wide(a.gpr[r])
    case Ps0(r) => a.ps0[r]
    case Ps1(r) => a.ps1[r]
    case CrWord => Wide(a.cr)
    case CrField(f) => Wide(Nibble(a.cr, f))
    case XerWord => Wide(a.xer)
    case Ca => FlagWord(Bit(a.xer, 29))
    case Ov => FlagWord(Bit(a.xer, 30))
    case So => FlagWord(Bit(a.xer, 31))
    case Spr(i) => Wide(a.spr[SprId(i)])
    case Sr(s) => if s < 16 then Wide(a.sr[s]) else 0
    case Gqr(i) => Wide(a.spr[GqrId(i)])
    case Fpscr => Wide(a.fpscr)
    case Msr => Wide(a.msr)
    case Exceptions => Wide(a.exceptions)
    case ReserveAddress => Wide(a.reserveAddress)
    case ReserveValid => FlagWord(a.reserveValid != 0)
    case Nowhere => 0
  }

  /** The slots of `done` that are masked hold what the architecture holds, all others what they held. */
  ghost predicate Reloaded(a: Arch, mask: Mask, before: seq<bv64>, after: seq<bv64>, done: set<nat>)
    requires a.Valid()
  {
    && |before| == |after| == DolIR.STATE_COUNT
    && forall slot | 0 <= slot < DolIR.STATE_COUNT ::
         after[slot] == if slot in done && slot in mask then Held(a, PlaceOf(slot)) else before[slot]
  }

  lemma ReloadMore(a: Arch, mask: Mask, before: seq<bv64>, after: seq<bv64>, done: set<nat>, slot: nat)
    requires a.Valid() && Reloaded(a, mask, before, after, done) && slot < DolIR.STATE_COUNT
    ensures Reloaded(a, mask, before, if slot in mask then after[slot := Held(a, PlaceOf(slot))] else after,
      done + {slot})
  {
    hide Held, PlaceOf;
  }

  predicate AtLeast(base: nat, s: nat) { base <= s }

  ghost function Span(base: nat, count: nat): set<nat> { set s: nat | s < base + count && AtLeast(base, s) }

  lemma SpanMore(base: nat, count: nat)
    ensures Span(base, count + 1) == Span(base, count) + {base + count}
  {
  }

  /** Read one slot if it is masked. */
  method ReloadSlot(a: Arch, mask: Mask, values: array<bv64>, slot: nat, held: bv64, ghost before: seq<bv64>,
          ghost done: set<nat>)
    requires a.Valid() && values.Length == DolIR.STATE_COUNT && slot < DolIR.STATE_COUNT
      && held == Held(a, PlaceOf(slot))
    requires Reloaded(a, mask, before, values[..], done)
    modifies values
    ensures Reloaded(a, mask, before, values[..], done + {slot})
  {
    hide Held, PlaceOf, Reloaded;
    ReloadMore(a, mask, before, values[..], done, slot);
    ghost var now := values[..];
    if slot in mask {
      values[slot] := held;
      assert values[..] == now[slot := held];
    }
  }

  /** The slots the host has accessors for. */
  ghost function Accessible(): set<nat> { set s: nat | s < DolIR.STATE_COUNT && PlaceOf(s) != Nowhere }

  /** The same slots, as the reload visits them. */
  ghost function Visited(): set<nat> {
    Span(DolIR.GPR0, 32) + Span(DolIR.FPR0, 32) + Span(DolIR.PS1_0, 32)
    + {DolIR.CR} + Span(DolIR.CR0, 8) + {DolIR.XER, DolIR.XER_CA, DolIR.XER_OV, DolIR.XER_SO}
    + {DolIR.LR, DolIR.CTR, SRR0, SRR1, DAR, DSISR, EAR, HID2} + Span(SR0, 16) + Span(GQR0, 8)
    + {FPSCR, MSR, EXCEPTION, RESERVE_ADDR, DolIR.RESERVE_VALID}
  }

  lemma Registers(r: Reg)
    ensures PlaceOf(DolIR.GPR0 + r) == Gpr(r) && PlaceOf(DolIR.FPR0 + r) == Ps0(r) && PlaceOf(DolIR.PS1_0 + r) == Ps1(r)
  {
  }

  method ReloadRegisters(a: Arch, mask: Mask, values: array<bv64>, ghost before: seq<bv64>)
    requires a.Valid() && values.Length == DolIR.STATE_COUNT && Reloaded(a, mask, before, values[..], {})
    modifies values
    ensures Reloaded(a, mask, before, values[..], Span(DolIR.GPR0, 32) + Span(DolIR.FPR0, 32) + Span(DolIR.PS1_0, 32))
  {
    hide PlaceOf, Reloaded, Span;
    NoSpans();
    for reg := 0 to 32
      invariant Reloaded(a, mask, before, values[..],
        Span(DolIR.GPR0, reg) + Span(DolIR.FPR0, reg) + Span(DolIR.PS1_0, reg))
    {
      Registers(reg);
      ghost var done := Span(DolIR.GPR0, reg) + Span(DolIR.FPR0, reg) + Span(DolIR.PS1_0, reg);
      ReloadSlot(a, mask, values, DolIR.GPR0 + reg, Wide(a.gpr[reg]), before, done);
      ReloadSlot(a, mask, values, DolIR.FPR0 + reg, a.ps0[reg], before, done + {DolIR.GPR0 + reg});
      ReloadSlot(a, mask, values, DolIR.PS1_0 + reg, a.ps1[reg], before,
        done + {DolIR.GPR0 + reg} + {DolIR.FPR0 + reg});
      SpansMore(reg);
    }
  }

  lemma NoSpans()
    ensures Span(DolIR.GPR0, 0) + Span(DolIR.FPR0, 0) + Span(DolIR.PS1_0, 0) == {}
  {
  }

  lemma SpansMore(reg: nat)
    ensures Span(DolIR.GPR0, reg + 1) + Span(DolIR.FPR0, reg + 1) + Span(DolIR.PS1_0, reg + 1)
         == Span(DolIR.GPR0, reg) + Span(DolIR.FPR0, reg) + Span(DolIR.PS1_0, reg) + {DolIR.GPR0 + reg}
           + {DolIR.FPR0 + reg} + {DolIR.PS1_0 + reg}
  {
    hide Span;
    SpanMore(DolIR.GPR0, reg);
    SpanMore(DolIR.FPR0, reg);
    SpanMore(DolIR.PS1_0, reg);
  }

  /** The condition register and its fields. */
  method ReloadCr(a: Arch, mask: Mask, values: array<bv64>, ghost before: seq<bv64>, ghost done: set<nat>)
    requires a.Valid() && values.Length == DolIR.STATE_COUNT && Reloaded(a, mask, before, values[..], done)
    modifies values
    ensures Reloaded(a, mask, before, values[..], done + {DolIR.CR} + Span(DolIR.CR0, 8))
  {
    hide Reloaded, Span, Nibble;
    ReloadSlot(a, mask, values, DolIR.CR, Wide(a.cr), before, done);
    EmptySpan(done + {DolIR.CR}, DolIR.CR0);
    for field := 0 to 8
      invariant Reloaded(a, mask, before, values[..], done + {DolIR.CR} + Span(DolIR.CR0, field))
    {
      ReloadSlot(a, mask, values, DolIR.CR0 + field, Wide(Nibble(a.cr, field)), before,
        done + {DolIR.CR} + Span(DolIR.CR0, field));
      SpanMoreOf(done + {DolIR.CR}, DolIR.CR0, field);
    }
  }

  lemma EmptySpan(done: set<nat>, base: nat)
    ensures done + Span(base, 0) == done
  {
  }

  lemma SpanMoreOf(done: set<nat>, base: nat, count: nat)
    ensures done + Span(base, count + 1) == done + Span(base, count) + {base + count}
  {
    hide Span;
    SpanMore(base, count);
  }

  method ReloadXer(a: Arch, mask: Mask, values: array<bv64>, ghost before: seq<bv64>, ghost done: set<nat>)
    requires a.Valid() && values.Length == DolIR.STATE_COUNT && Reloaded(a, mask, before, values[..], done)
    modifies values
    ensures Reloaded(a, mask, before, values[..], done + {DolIR.XER, DolIR.XER_CA, DolIR.XER_OV, DolIR.XER_SO})
  {
    hide Reloaded, Bit;
    ReloadSlot(a, mask, values, DolIR.XER, Wide(a.xer), before, done);
    ReloadSlot(a, mask, values, DolIR.XER_CA, FlagWord(Bit(a.xer, 29)), before, done + {DolIR.XER});
    ReloadSlot(a, mask, values, DolIR.XER_OV, FlagWord(Bit(a.xer, 30)), before, done + {DolIR.XER} + {DolIR.XER_CA});
    ReloadSlot(a, mask, values, DolIR.XER_SO, FlagWord(Bit(a.xer, 31)), before,
      done + {DolIR.XER} + {DolIR.XER_CA} + {DolIR.XER_OV});
    assert done + {DolIR.XER} + {DolIR.XER_CA} + {DolIR.XER_OV} + {DolIR.XER_SO}
        == done + {DolIR.XER, DolIR.XER_CA, DolIR.XER_OV, DolIR.XER_SO};
  }

  ghost function SprSlots(count: nat): set<nat> { set i: SprIndex | i < count :: SprSlot(i) }

  lemma SprSlotsMore(done: set<nat>, n: SprIndex)
    ensures done + SprSlots(n + 1) == done + SprSlots(n) + {SprSlot(n)}
    ensures SprSlot(n) < DolIR.STATE_COUNT && PlaceOf(SprSlot(n)) == Spr(n)
  {
    assert forall s :: s in SprSlots(n + 1) <==> s in SprSlots(n) || s == SprSlot(n);
  }

  lemma AllSprSlots()
    ensures SprSlots(8) == {DolIR.LR, DolIR.CTR, SRR0, SRR1, DAR, DSISR, EAR, HID2}
  {
    assert SprSlots(8)
      == {SprSlot(0), SprSlot(1), SprSlot(2), SprSlot(3), SprSlot(4), SprSlot(5), SprSlot(6), SprSlot(7)};
  }

  lemma NoSprSlots(done: set<nat>)
    ensures done + SprSlots(0) == done
  {
  }

  method ReloadSprs(a: Arch, mask: Mask, values: array<bv64>, ghost before: seq<bv64>, ghost done: set<nat>)
    requires a.Valid() && values.Length == DolIR.STATE_COUNT && Reloaded(a, mask, before, values[..], done)
    modifies values
    ensures Reloaded(a, mask, before, values[..], done + SprSlots(8) + Span(SR0, 16) + Span(GQR0, 8))
  {
    hide Reloaded, Span, SprSlots, SprSlot, SprId;
    NoSprSlots(done);
    for index := 0 to 8
      invariant Reloaded(a, mask, before, values[..], done + SprSlots(index))
    {
      SprSlotsMore(done, index);
      ReloadSlot(a, mask, values, SprSlot(index), Wide(a.spr[SprId(index)]), before, done + SprSlots(index));
    }
    ghost var sprs := done + SprSlots(8);
    EmptySpan(sprs, SR0);
    for index := 0 to 16
      invariant Reloaded(a, mask, before, values[..], sprs + Span(SR0, index))
    {
      ReloadSlot(a, mask, values, SR0 + index, Wide(a.sr[index]), before, sprs + Span(SR0, index));
      SpanMoreOf(sprs, SR0, index);
    }
    ghost var srs := sprs + Span(SR0, 16);
    EmptySpan(srs, GQR0);
    for index := 0 to 8
      invariant Reloaded(a, mask, before, values[..], srs + Span(GQR0, index))
    {
      ReloadSlot(a, mask, values, GQR0 + index, Wide(a.spr[GqrId(index)]), before, srs + Span(GQR0, index));
      SpanMoreOf(srs, GQR0, index);
    }
  }

  method ReloadOthers(a: Arch, mask: Mask, values: array<bv64>, ghost before: seq<bv64>, ghost done: set<nat>)
    requires a.Valid() && values.Length == DolIR.STATE_COUNT && Reloaded(a, mask, before, values[..], done)
    modifies values
    ensures Reloaded(a, mask, before, values[..], done + {FPSCR, MSR, EXCEPTION, RESERVE_ADDR, DolIR.RESERVE_VALID})
  {
    hide Reloaded;
    ReloadSlot(a, mask, values, FPSCR, Wide(a.fpscr), before, done);
    ReloadSlot(a, mask, values, MSR, Wide(a.msr), before, done + {FPSCR});
    ReloadSlot(a, mask, values, EXCEPTION, Wide(a.exceptions), before, done + {FPSCR} + {MSR});
    ReloadSlot(a, mask, values, RESERVE_ADDR, Wide(a.reserveAddress), before, done + {FPSCR} + {MSR} + {EXCEPTION});
    ReloadSlot(a, mask, values, DolIR.RESERVE_VALID, FlagWord(a.reserveValid != 0), before,
      done + {FPSCR} + {MSR} + {EXCEPTION} + {RESERVE_ADDR});
    assert done + {FPSCR} + {MSR} + {EXCEPTION} + {RESERVE_ADDR} + {DolIR.RESERVE_VALID}
        == done + {FPSCR, MSR, EXCEPTION, RESERVE_ADDR, DolIR.RESERVE_VALID};
  }

  /** `moderngekko_reload_state` */
  method Reload(host: Host, mask: Mask, values: array<bv64>)
    requires host.Valid() && values.Length == DolIR.STATE_COUNT
    modifies values
    ensures Reloaded(host.arch, mask, old(values[..]), values[..], Accessible())
  {
    hide Reloaded, Span, SprSlots;
    ghost var before := values[..];
    var a := host.arch;
    NothingReloaded(a, mask, before);
    ReloadRegisters(a, mask, values, before);
    ghost var done := Span(DolIR.GPR0, 32) + Span(DolIR.FPR0, 32) + Span(DolIR.PS1_0, 32);
    ReloadCr(a, mask, values, before, done);
    done := done + {DolIR.CR} + Span(DolIR.CR0, 8);
    ReloadXer(a, mask, values, before, done);
    done := done + {DolIR.XER, DolIR.XER_CA, DolIR.XER_OV, DolIR.XER_SO};
    ReloadSprs(a, mask, values, before, done);
    done := done + SprSlots(8) + Span(SR0, 16) + Span(GQR0, 8);
    ReloadOthers(a, mask, values, before, done);
    AllSprSlots();
    assert done + {FPSCR, MSR, EXCEPTION, RESERVE_ADDR, DolIR.RESERVE_VALID} == Visited();
    VisitsAccessible();
  }

  lemma VisitsAccessible()
    ensures Visited() == Accessible()
  {
    hide Visited, PlaceOf;
    forall s: nat ensures s in Visited() <==> s in Accessible() {
      VisitedAre(s);
      PlacedAre(s);
    }
  }

  predicate HasAccessor(s: nat) {
    s < 96 || 97 <= s <= HID2 || SR0 <= s <= EXCEPTION || s == RESERVE_ADDR || s == DolIR.RESERVE_VALID
  }

  lemma VisitedAre(s: nat)
    ensures s in Visited() <==> HasAccessor(s)
  {
    hide Span;
    SpanIs(DolIR.GPR0, 32, s);
    SpanIs(DolIR.FPR0, 32, s);
    SpanIs(DolIR.PS1_0, 32, s);
    SpanIs(DolIR.CR0, 8, s);
    SpanIs(SR0, 16, s);
    SpanIs(GQR0, 8, s);
  }

  lemma SpanIs(base: nat, count: nat, s: nat)
    ensures s in Span(base, count) <==> base <= s < base + count
  {
  }

  lemma PlacedAre(s: nat)
    ensures PlaceOf(s) != Nowhere <==> HasAccessor(s)
  {
  }

  lemma NothingReloaded(a: Arch, mask: Mask, before: seq<bv64>)
    requires a.Valid() && |before| == DolIR.STATE_COUNT
    ensures Reloaded(a, mask, before, before, {})
  {
  }

  // Round trips

  /** A staged value at the width of its slot. */
  function Fit(place: Place, v: bv64): bv64 {
    match place
    case Ps0(_) | Ps1(_) => v
    case CrField(_) => Wide(Low32(v) & 0xF)
    case Ca | Ov | So => FlagWord(Odd32(Low32(v)))
    case ReserveValid => FlagWord(Low32(v) != 0)
    case Nowhere => 0
    case _ => Wide(Low32(v))
  }

  /** What commit leaves in the place of a masked slot other than CR and XER themselves. */
  lemma CommitFits(before: Arch, values: seq<bv64>, mask: Mask, after: Arch, slot: nat)
    requires before.Valid() && after.Valid() && |values| == DolIR.STATE_COUNT && Committed(before, values, mask, after)
    requires slot in mask && slot < DolIR.STATE_COUNT && slot != DolIR.CR && slot != DolIR.XER
      && PlaceOf(slot) != Nowhere
    ensures Held(after, PlaceOf(slot)) == Fit(PlaceOf(slot), values[slot])
  {
    hide Held, Fit, PlaceOf, Committed;
    var place := PlaceOf(slot);
    if place.Gpr? || place.Ps0? || place.Ps1? {
      RegisterFits(before, values, mask, after, slot);
    } else if place.CrField? {
      FieldFits(before, values, mask, after, slot);
    } else if place.Ca? || place.Ov? || place.So? {
      FlagFits(before, values, mask, after, slot);
    } else if place.Spr? || place.Gqr? || place.Sr? {
      SprFits(before, values, mask, after, slot);
    } else if place.Fpscr? || place.Msr? || place.Exceptions? {
      ModeFits(before, values, mask, after, slot);
    } else {
      WordPlaces(slot);
      ReservationFits(before, values, mask, after, slot);
    }
  }

  lemma WordPlaces(slot: nat)
    ensures PlaceOf(slot) == CrWord ==> slot == DolIR.CR
    ensures PlaceOf(slot) == XerWord ==> slot == DolIR.XER
  {
  }

  lemma ModePlaces(slot: nat)
    ensures PlaceOf(slot) == Fpscr ==> slot == FPSCR
    ensures PlaceOf(slot) == Msr ==> slot == MSR
    ensures PlaceOf(slot) == Exceptions ==> slot == EXCEPTION
    ensures PlaceOf(slot) == ReserveAddress ==> slot == RESERVE_ADDR
    ensures PlaceOf(slot) == ReserveValid ==> slot == DolIR.RESERVE_VALID
  {
  }

  lemma FlagPlaces(slot: nat)
    ensures PlaceOf(slot) == Ca ==> slot == DolIR.XER_CA
    ensures PlaceOf(slot) == Ov ==> slot == DolIR.XER_OV
    ensures slot < DolIR.STATE_COUNT && PlaceOf(slot) == So ==> slot == DolIR.XER_SO
  {
  }

  lemma RegisterFits(before: Arch, values: seq<bv64>, mask: Mask, after: Arch, slot: nat)
    requires before.Valid() && after.Valid() && |values| == DolIR.STATE_COUNT && Committed(before, values, mask, after)
    requires slot in mask && slot < DolIR.STATE_COUNT
      && (PlaceOf(slot).Gpr? || PlaceOf(slot).Ps0? || PlaceOf(slot).Ps1?)
    ensures Held(after, PlaceOf(slot)) == Fit(PlaceOf(slot), values[slot])
  {
    hide Low32, Wide, CrCommitted, XerCommitted, SprsCommitted;
    assert slot < 96;
  }

  lemma FieldFits(before: Arch, values: seq<bv64>, mask: Mask, after: Arch, slot: nat)
    requires before.Valid() && after.Valid() && |values| == DolIR.STATE_COUNT && Committed(before, values, mask, after)
    requires slot in mask && slot < DolIR.STATE_COUNT && PlaceOf(slot).CrField?
    ensures Held(after, PlaceOf(slot)) == Fit(PlaceOf(slot), values[slot])
  {
    hide Low32, Wide, Nibble, XerCommitted, SprsCommitted, Words, Doubles;
    assert slot == DolIR.CR0 + PlaceOf(slot).f && FieldMasked(mask, PlaceOf(slot).f);
  }

  lemma FlagFits(before: Arch, values: seq<bv64>, mask: Mask, after: Arch, slot: nat)
    requires before.Valid() && after.Valid() && |values| == DolIR.STATE_COUNT && Committed(before, values, mask, after)
    requires slot in mask && slot < DolIR.STATE_COUNT && (PlaceOf(slot).Ca? || PlaceOf(slot).Ov? || PlaceOf(slot).So?)
    ensures Held(after, PlaceOf(slot)) == Fit(PlaceOf(slot), values[slot])
  {
    hide Low32, Wide, Bit, Odd32, OtherXer, FlagWord, Nibble, CrCommitted, SprsCommitted, Words, Doubles, PlaceOf;
    FlagPlaces(slot);
  }

  lemma SprFits(before: Arch, values: seq<bv64>, mask: Mask, after: Arch, slot: nat)
    requires before.Valid() && after.Valid() && |values| == DolIR.STATE_COUNT && Committed(before, values, mask, after)
    requires slot in mask && slot < DolIR.STATE_COUNT && (PlaceOf(slot).Spr? || PlaceOf(slot).Gqr? || PlaceOf(slot).Sr?)
    ensures Held(after, PlaceOf(slot)) == Fit(PlaceOf(slot), values[slot])
  {
    hide Low32, Wide, SprId, SprSlot, FlagWord, Nibble, Bit, CrCommitted, XerCommitted, Doubles, PlaceOf, StagedSpr;
    SprPlaces(slot);
  }

  lemma SprPlaces(slot: nat)
    ensures PlaceOf(slot).Spr? ==> slot == SprSlot(PlaceOf(slot).i)
    ensures PlaceOf(slot).Gqr? ==> slot == GqrSlot(PlaceOf(slot).i)
    ensures PlaceOf(slot).Sr? ==> slot == SR0 + PlaceOf(slot).s && PlaceOf(slot).s < 16
  {
    if PlaceOf(slot).Spr? { SprSlotOf(slot, PlaceOf(slot).i); }
  }

  lemma SprSlotOf(slot: nat, i: SprIndex)
    requires PlaceOf(slot) == Spr(i)
    ensures slot == SprSlot(i)
  {
  }

  lemma ModeFits(before: Arch, values: seq<bv64>, mask: Mask, after: Arch, slot: nat)
    requires before.Valid() && after.Valid() && |values| == DolIR.STATE_COUNT && Committed(before, values, mask, after)
    requires slot in mask && slot < DolIR.STATE_COUNT
      && (PlaceOf(slot).Fpscr? || PlaceOf(slot).Msr? || PlaceOf(slot).Exceptions?)
    ensures Held(after, PlaceOf(slot)) == Fit(PlaceOf(slot), values[slot])
  {
    hide Low32, Wide, FlagWord, Nibble, Bit, CrCommitted, XerCommitted, SprsCommitted, Words, Doubles, PlaceOf;
    ModePlaces(slot);
  }

  lemma ReservationFits(before: Arch, values: seq<bv64>, mask: Mask, after: Arch, slot: nat)
    requires before.Valid() && after.Valid() && |values| == DolIR.STATE_COUNT && Committed(before, values, mask, after)
    requires slot in mask && slot < DolIR.STATE_COUNT && (PlaceOf(slot).ReserveAddress? || PlaceOf(slot).ReserveValid?)
    ensures Held(after, PlaceOf(slot)) == Fit(PlaceOf(slot), values[slot])
  {
    hide Low32, Wide, FlagWord, Nibble, Bit, CrCommitted, XerCommitted, SprsCommitted, Words, Doubles, PlaceOf;
    ModePlaces(slot);
  }

  /** Reloading what was committed gives the staged values back, each at its slot's width. */
  lemma CommitThenReload(before: Arch, values: seq<bv64>, mask: Mask, after: Arch, stale: seq<bv64>, again: seq<bv64>,
          slot: nat)
    requires before.Valid() && after.Valid() && |values| == |again| == DolIR.STATE_COUNT && slot < DolIR.STATE_COUNT
    requires Committed(before, values, mask, after) && Reloaded(after, mask, stale, again, Accessible())
    requires slot in mask && PlaceOf(slot) != Nowhere && slot != DolIR.CR && slot != DolIR.XER
    ensures again[slot] == Fit(PlaceOf(slot), values[slot])
  {
    hide Held, Fit, PlaceOf, Committed;
    CommitFits(before, values, mask, after, slot);
  }

  lemma FieldsDecide(x: bv32, y: bv32)
    ensures x == y <==> forall f: Field :: Nibble(x, f) == Nibble(y, f)
  {
    FieldsRebuild(x);
    FieldsRebuild(y);
    hide Nibble, JoinFields;
    if forall f: Field :: Nibble(x, f) == Nibble(y, f) {
      assert Nibble(x, 0) == Nibble(y, 0) && Nibble(x, 1) == Nibble(y, 1) && Nibble(x, 2) == Nibble(y, 2)
        && Nibble(x, 3) == Nibble(y, 3);
      assert Nibble(x, 4) == Nibble(y, 4) && Nibble(x, 5) == Nibble(y, 5) && Nibble(x, 6) == Nibble(y, 6)
        && Nibble(x, 7) == Nibble(y, 7);
    }
  }

  lemma WideDecides(x: bv32, y: bv32)
    ensures Wide(x) == Wide(y) <==> x == y
    ensures Low32(Wide(x)) == x
  {
  }

  /** CR comes back as staged exactly when the staged CR fields, which win, agree with it; always
      when no field is masked. */
  lemma CrRoundTrip(before: Arch, values: seq<bv64>, mask: Mask, after: Arch, stale: seq<bv64>, again: seq<bv64>)
    requires before.Valid() && after.Valid() && |values| == |again| == DolIR.STATE_COUNT
    requires Committed(before, values, mask, after) && Reloaded(after, mask, stale, again, Accessible())
      && DolIR.CR in mask
    ensures again[DolIR.CR] == Wide(Low32(values[DolIR.CR]))
      <==> forall f: Field | FieldMasked(mask, f) :: StagedField(values, f) == Nibble(Low32(values[DolIR.CR]), f)
  {
    hide Low32, Nibble, Wide, FieldMasked, StagedField, Words, Doubles, SprsCommitted, XerCommitted, Reloaded;
    ReloadedAt(after, mask, stale, again, DolIR.CR);
    WideDecides(after.cr, Low32(values[DolIR.CR]));
    FieldsDecide(after.cr, Low32(values[DolIR.CR]));
  }

  lemma ReloadedAt(a: Arch, mask: Mask, stale: seq<bv64>, again: seq<bv64>, slot: nat)
    requires a.Valid() && Reloaded(a, mask, stale, again, Accessible()) && slot in mask && slot < DolIR.STATE_COUNT
    requires slot == DolIR.CR || slot == DolIR.XER
    ensures |again| == DolIR.STATE_COUNT && again[slot] == Wide(if slot == DolIR.CR then a.cr else a.xer)
  {
    hide Wide, Nibble, Bit, FlagWord;
    assert slot in Accessible();
  }

  lemma XerDecides(x: bv32, y: bv32)
    ensures x == y
      <==> (OtherXer(x) == OtherXer(y) && Bit(x, 29) == Bit(y, 29) && Bit(x, 30) == Bit(y, 30)
            && Bit(x, 31) == Bit(y, 31))
  {
    FlagsRebuild(x);
    FlagsRebuild(y);
    hide OtherXer, Bit, JoinFlags;
  }

  /** XER comes back as staged in its low 29 bits, and wholly exactly when its flags are those the
      commit left. */
  lemma XerRoundTrip(before: Arch, values: seq<bv64>, mask: Mask, after: Arch, stale: seq<bv64>, again: seq<bv64>)
    requires before.Valid() && after.Valid() && |values| == |again| == DolIR.STATE_COUNT
    requires Committed(before, values, mask, after) && Reloaded(after, mask, stale, again, Accessible())
      && DolIR.XER in mask
    ensures OtherXer(Low32(again[DolIR.XER])) == OtherXer(Low32(values[DolIR.XER]))
    ensures var staged := Low32(values[DolIR.XER]);
      again[DolIR.XER] == Wide(staged)
      <==> (Bit(staged, 29) == Pick(mask, DolIR.XER_CA, Odd32(Low32(values[DolIR.XER_CA])), Bit(before.xer, 29))
            && Bit(staged, 30) == Pick(mask, DolIR.XER_OV, Odd32(Low32(values[DolIR.XER_OV])), Bit(before.xer, 30))
            && Bit(staged, 31) == Pick(mask, DolIR.XER_SO, Odd32(Low32(values[DolIR.XER_SO])), Bit(before.xer, 31)))
  {
    hide Low32, OtherXer, Bit, Odd32, Wide, Words, Doubles, SprsCommitted, CrCommitted, Reloaded;
    ReloadedAt(after, mask, stale, again, DolIR.XER);
    var staged := Low32(values[DolIR.XER]);
    WideDecides(after.xer, staged);
    XerDecides(after.xer, staged);
  }

  /** Committing what was just reloaded changes nothing, if the host's reservation flag is 0 or 1. */
  lemma ReloadThenCommit(a: Arch, mask: Mask, stale: seq<bv64>, values: seq<bv64>, after: Arch)
    requires a.Valid() && |values| == DolIR.STATE_COUNT && Reloaded(a, mask, stale, values, Accessible())
    requires Committed(a, values, mask, after) && a.reserveValid <= 1
    ensures after == a
  {
    hide Low32, Wide, FlagWord, Nibble, Bit, OtherXer, Odd32, PlaceOf, Reloaded, SprId, Words, Doubles, SprsCommitted,
      CrCommitted, XerCommitted;
    FilesStay(a, mask, stale, values, after);
    CrStays(a, mask, stale, values, after);
    XerStays(a, mask, stale, values, after);
    SprsStay(a, mask, stale, values, after);
    OthersStay(a, mask, stale, values, after);
  }

  lemma Reads(a: Arch, mask: Mask, stale: seq<bv64>, values: seq<bv64>, slot: nat)
    requires a.Valid() && |values| == DolIR.STATE_COUNT && Reloaded(a, mask, stale, values, Accessible())
    requires slot in mask && slot < DolIR.STATE_COUNT && PlaceOf(slot) != Nowhere
    ensures values[slot] == Held(a, PlaceOf(slot))
  {
    hide Held, PlaceOf;
  }

  lemma FilesStay(a: Arch, mask: Mask, stale: seq<bv64>, values: seq<bv64>, after: Arch)
    requires a.Valid() && |values| == DolIR.STATE_COUNT && Reloaded(a, mask, stale, values, Accessible())
    requires Committed(a, values, mask, after)
    ensures after.gpr == a.gpr && after.ps0 == a.ps0 && after.ps1 == a.ps1
  {
    hide Low32, Wide, PlaceOf, Reloaded, SprsCommitted, CrCommitted, XerCommitted;
    forall r: Reg ensures after.gpr[r] == a.gpr[r] && after.ps0[r] == a.ps0[r] && after.ps1[r] == a.ps1[r] {
      Registers(r);
      WideDecides(a.gpr[r], a.gpr[r]);
      if DolIR.GPR0 + r in mask { Reads(a, mask, stale, values, DolIR.GPR0 + r); }
      if DolIR.FPR0 + r in mask { Reads(a, mask, stale, values, DolIR.FPR0 + r); }
      if DolIR.PS1_0 + r in mask { Reads(a, mask, stale, values, DolIR.PS1_0 + r); }
    }
  }

  lemma CrStays(a: Arch, mask: Mask, stale: seq<bv64>, values: seq<bv64>, after: Arch)
    requires a.Valid() && |values| == DolIR.STATE_COUNT && Reloaded(a, mask, stale, values, Accessible())
    requires Committed(a, values, mask, after)
    ensures after.cr == a.cr
  {
    hide Low32, Wide, Nibble, PlaceOf, Reloaded, SprsCommitted, XerCommitted, Words, Doubles;
    FieldsDecide(after.cr, a.cr);
    WideDecides(a.cr, a.cr);
    CrPlace();
    if DolIR.CR in mask { Reads(a, mask, stale, values, DolIR.CR); }
    forall f: Field ensures Nibble(after.cr, f) == Nibble(a.cr, f) {
      FieldPlace(f);
      if FieldMasked(mask, f) {
        Reads(a, mask, stale, values, DolIR.CR0 + f);
        WideDecides(Nibble(a.cr, f), Nibble(a.cr, f));
        NibbleIsLow(a.cr, f);
      }
    }
  }

  lemma CrPlace()
    ensures PlaceOf(DolIR.CR) == CrWord
  {
  }

  lemma FieldPlace(f: Field)
    ensures PlaceOf(DolIR.CR0 + f) == CrField(f)
  {
  }

  lemma NibbleIsLow(cr: bv32, f: Field)
    ensures Nibble(cr, f) & 0xF == Nibble(cr, f)
  {
    hide FieldShift;
  }

  lemma XerStays(a: Arch, mask: Mask, stale: seq<bv64>, values: seq<bv64>, after: Arch)
    requires a.Valid() && |values| == DolIR.STATE_COUNT && Reloaded(a, mask, stale, values, Accessible())
    requires Committed(a, values, mask, after)
    ensures after.xer == a.xer
  {
    hide Low32, Wide, FlagWord, Bit, OtherXer, Odd32, PlaceOf, Reloaded, SprsCommitted, CrCommitted, Words, Doubles;
    XerDecides(after.xer, a.xer);
    WideDecides(a.xer, a.xer);
    XerPlaces();
    if DolIR.XER in mask { Reads(a, mask, stale, values, DolIR.XER); }
    if DolIR.XER_CA in mask { Reads(a, mask, stale, values, DolIR.XER_CA); FlagReads(Bit(a.xer, 29)); }
    if DolIR.XER_OV in mask { Reads(a, mask, stale, values, DolIR.XER_OV); FlagReads(Bit(a.xer, 30)); }
    if DolIR.XER_SO in mask { Reads(a, mask, stale, values, DolIR.XER_SO); FlagReads(Bit(a.xer, 31)); }
  }

  lemma XerPlaces()
    ensures PlaceOf(DolIR.XER) == XerWord && PlaceOf(DolIR.XER_CA) == Ca && PlaceOf(DolIR.XER_OV) == Ov
      && PlaceOf(DolIR.XER_SO) == So
  {
  }

  lemma FlagReads(b: bool)
    ensures Odd32(Low32(FlagWord(b))) == b
  {
  }

  lemma SprsStay(a: Arch, mask: Mask, stale: seq<bv64>, values: seq<bv64>, after: Arch)
    requires a.Valid() && |values| == DolIR.STATE_COUNT && Reloaded(a, mask, stale, values, Accessible())
    requires Committed(a, values, mask, after)
    ensures after.spr == a.spr && after.sr == a.sr
  {
    hide Low32, Wide, SprId, SprSlot, PlaceOf, Reloaded, CrCommitted, XerCommitted, Doubles, Words, SprsCommitted;
    forall i: SprIndex ensures after.spr[SprId(i)] == a.spr[SprId(i)] && after.spr[GqrId(i)] == a.spr[GqrId(i)] {
      NamedSprStays(a, mask, stale, values, after, i);
      GqrStays(a, mask, stale, values, after, i);
    }
    forall id: nat | id < SPR_COUNT ensures after.spr[id] == a.spr[id] {
      if StagedSpr(id) {
        var i: SprIndex :| SprId(i) == id || GqrId(i) == id;
      } else {
        UnstagedStays(a, values, mask, after, id);
      }
    }
    forall s: nat | s < 16 ensures after.sr[s] == a.sr[s] {
      SrStays(a, mask, stale, values, after, s);
    }
  }

  lemma UnstagedStays(a: Arch, values: seq<bv64>, mask: Mask, after: Arch, id: nat)
    requires a.Valid() && after.Valid() && |values| == DolIR.STATE_COUNT
      && SprsCommitted(a.spr, values, mask, after.spr)
    requires id < SPR_COUNT && !StagedSpr(id)
    ensures after.spr[id] == a.spr[id]
  {
    hide StagedSpr, SprSlot, SprId, Low32;
  }

  lemma NamedSprStays(a: Arch, mask: Mask, stale: seq<bv64>, values: seq<bv64>, after: Arch, i: SprIndex)
    requires a.Valid() && after.Valid() && |values| == DolIR.STATE_COUNT
      && Reloaded(a, mask, stale, values, Accessible())
    requires SprsCommitted(a.spr, values, mask, after.spr)
    ensures after.spr[SprId(i)] == a.spr[SprId(i)]
  {
    hide Low32, Wide, SprId, SprSlot, PlaceOf, Reloaded, StagedSpr;
    SprSlotsMore({}, i);
    WideDecides(a.spr[SprId(i)], a.spr[SprId(i)]);
    if SprSlot(i) in mask { Reads(a, mask, stale, values, SprSlot(i)); }
  }

  lemma GqrStays(a: Arch, mask: Mask, stale: seq<bv64>, values: seq<bv64>, after: Arch, i: SprIndex)
    requires a.Valid() && after.Valid() && |values| == DolIR.STATE_COUNT
      && Reloaded(a, mask, stale, values, Accessible())
    requires SprsCommitted(a.spr, values, mask, after.spr)
    ensures after.spr[GqrId(i)] == a.spr[GqrId(i)]
  {
    hide Low32, Wide, SprId, SprSlot, PlaceOf, Reloaded, StagedSpr;
    GqrPlace(i);
    WideDecides(a.spr[GqrId(i)], a.spr[GqrId(i)]);
    if GqrSlot(i) in mask { Reads(a, mask, stale, values, GqrSlot(i)); }
  }

  lemma SrStays(a: Arch, mask: Mask, stale: seq<bv64>, values: seq<bv64>, after: Arch, s: nat)
    requires a.Valid() && after.Valid() && |values| == DolIR.STATE_COUNT
      && Reloaded(a, mask, stale, values, Accessible())
    requires Words(a.sr, values, SR0, mask, after.sr, 16) && s < 16
    ensures after.sr[s] == a.sr[s]
  {
    hide Low32, Wide, PlaceOf, Reloaded;
    SrPlace(s);
    WideDecides(a.sr[s], a.sr[s]);
    if SR0 + s in mask { Reads(a, mask, stale, values, SR0 + s); }
  }

  lemma GqrPlace(i: SprIndex)
    ensures PlaceOf(GqrSlot(i)) == Gqr(i)
  {
  }

  lemma SrPlace(s: nat)
    requires s < 16
    ensures PlaceOf(SR0 + s) == Sr(s)
  {
  }

  lemma OthersStay(a: Arch, mask: Mask, stale: seq<bv64>, values: seq<bv64>, after: Arch)
    requires a.Valid() && |values| == DolIR.STATE_COUNT && Reloaded(a, mask, stale, values, Accessible())
    requires Committed(a, values, mask, after) && a.reserveValid <= 1
    ensures after.fpscr == a.fpscr && after.msr == a.msr && after.exceptions == a.exceptions
    ensures after.reserveAddress == a.reserveAddress && after.reserveValid == a.reserveValid
  {
    hide Low32, Wide, FlagWord, Nibble, Bit, PlaceOf, Reloaded, SprsCommitted, CrCommitted, XerCommitted, Words,
      Doubles;
    OtherPlaces();
    WideDecides(a.fpscr, a.fpscr);
    WideDecides(a.msr, a.msr);
    WideDecides(a.exceptions, a.exceptions);
    if FPSCR in mask { Reads(a, mask, stale, values, FPSCR); }
    if MSR in mask { Reads(a, mask, stale, values, MSR); }
    if EXCEPTION in mask { Reads(a, mask, stale, values, EXCEPTION); }
    ReservationStays(a, mask, stale, values, after);
  }

  lemma ReservationStays(a: Arch, mask: Mask, stale: seq<bv64>, values: seq<bv64>, after: Arch)
    requires a.Valid() && |values| == DolIR.STATE_COUNT && Reloaded(a, mask, stale, values, Accessible())
    requires Committed(a, values, mask, after) && a.reserveValid <= 1
    ensures after.reserveAddress == a.reserveAddress && after.reserveValid == a.reserveValid
  {
    hide Low32, Wide, FlagWord, Nibble, Bit, PlaceOf, Reloaded, SprsCommitted, CrCommitted, XerCommitted, Words,
      Doubles;
    OtherPlaces();
    WideDecides(a.reserveAddress, a.reserveAddress);
    FlagKept(a.reserveValid);
    if RESERVE_ADDR in mask { Reads(a, mask, stale, values, RESERVE_ADDR); }
    if DolIR.RESERVE_VALID in mask { Reads(a, mask, stale, values, DolIR.RESERVE_VALID); }
  }

  lemma OtherPlaces()
    ensures PlaceOf(FPSCR) == Fpscr && PlaceOf(MSR) == Msr && PlaceOf(EXCEPTION) == Exceptions
    ensures PlaceOf(RESERVE_ADDR) == ReserveAddress && PlaceOf(DolIR.RESERVE_VALID) == ReserveValid
  {
  }

  lemma FlagKept(x: bv32)
    requires x <= 1
    ensures Low32(FlagWord(x != 0)) == x
  {
  }
}
