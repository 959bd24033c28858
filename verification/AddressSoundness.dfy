/** `dolir_analyze_addresses` and the classification of address ranges (src/ir/dolir_address.c),
    `nativeMemoryAccess` (src/backend/llvm/abi_liveness.cpp) and `resolve_addr` (src/cpu/cpu.c):
    what the analysis calls bounded is bounded in every run, and the accesses it proves stay
    in RAM. */
module AddressSoundness {
  import opened DolIR
  import opened AddressAnalysis

  datatype IrBlock = IrBlock(insts: AddressAnalysis.Code, kind: TermKind, first: Target, second: Target)

  type Region = seq<IrBlock>

  /** `terminator_target_count` */
  function TargetCount(kind: TermKind): nat {
    match kind
    case CondBranch | Indirect => 2
    case Branch => 1
    case _ => 0
  }

  /** A non-fall-through terminator records block `t` as a target. */
  predicate Targets(block: IrBlock, t: nat) {
    match block.kind
    case CondBranch | Indirect => block.first == Block(t) || block.second == Block(t)
    case Branch => block.first == Block(t)
    case _ => false
  }

  ghost predicate Leader(f: Region, i: nat)
    requires i < |f|
  {
    i == 0 || f[i].kind == Fallback || (i > 0 && f[i - 1].kind != Fallthrough)
    || exists b: nat :: b < |f| && Targets(f[b], i)
  }

  /** The values an instruction list has defined before `n`. */
  predicate DefinedBefore(insts: AddressAnalysis.Code, n: nat, v: nat)
    requires n <= |insts|
  {
    v != NO_VALUE && exists k | 0 <= k < n :: insts[k].result == v
  }

  ghost predicate TargetsInside(f: Region, b: nat)
    requires b < |f|
  {
    forall t: nat | Targets(f[b], t) :: t < |f|
  }

  /** What the builder guarantees: operands are defined earlier in the same block, and only
      the next block is fallen through to. */
  ghost predicate WellFormed(f: Region, values: nat) {
    && f != [] && values >= 1
    && (forall b, n | 0 <= b < |f| && 0 <= n < |f[b].insts| :: Usable(f[b].insts[n], values))
    && (forall b, n, k | 0 <= b < |f| && 0 <= n < |f[b].insts| && 0 <= k < |f[b].insts[n].operands| ::
          DefinedBefore(f[b].insts, n, f[b].insts[n].operands[k]))
    && (forall b | 0 <= b < |f| && f[b].kind == Fallthrough ::
          f[b].first == if b + 1 < |f| then Block(b + 1) else NoBlock)
    && (forall b | 0 <= b < |f| :: TargetsInside(f, b))
  }

  // The analysis

  datatype Facts = Facts(values: seq<Interval>, state: seq<Interval>)

  predicate Shaped(a: Facts, values: nat) { |a.values| == values && |a.state| == STATE_COUNT }

  function Unbounded(n: nat): seq<Interval> { seq(n, _ => Unknown) }

  function Transfer(inst: Inst<nat>, a: Facts): (a': Facts)
    requires Usable(inst, |a.values|) && |a.state| == STATE_COUNT
    ensures Shaped(a', |a.values|)
  {
    var result := InstructionValue(inst, a.values, a.state);
    var values := if inst.result != NO_VALUE then a.values[inst.result := result] else a.values;
    Facts(values, seq(STATE_COUNT, slot requires 0 <= slot < STATE_COUNT =>
      if inst.op == StateWrite && inst.aux == slot then values[inst.operands[0]]
      else if slot in inst.stateDefs then Unknown else a.state[slot]))
  }

  /** What the single pass over the blocks knows before instruction `n` of block `b`. */
  ghost function Known(f: Region, values: nat, b: nat, n: nat): (a: Facts)
    requires WellFormed(f, values) && b < |f| && n <= |f[b].insts|
    ensures Shaped(a, values)
    decreases b, n
  {
    if n > 0 then Transfer(f[b].insts[n - 1], Known(f, values, b, n - 1))
    else if b == 0 then Facts(Unbounded(values), Unbounded(STATE_COUNT))
    else
      var before := Known(f, values, b - 1, |f[b - 1].insts|);
      if Leader(f, b) then before.(state := Unbounded(STATE_COUNT)) else before
  }

  lemma KnownAtStart(f: Region, values: nat, b: nat)
    requires WellFormed(f, values) && b < |f|
    ensures b > 0 ==> Known(f, values, b, 0).values == Known(f, values, b - 1, |f[b - 1].insts|).values
    ensures b == 0 ==> Known(f, values, b, 0).values == Unbounded(values)
    ensures Leader(f, b) ==> Known(f, values, b, 0).state == Unbounded(STATE_COUNT)
    ensures b > 0 && !Leader(f, b) ==> Known(f, values, b, 0).state == Known(f, values, b - 1, |f[b - 1].insts|).state
  {
    hide WellFormed, Transfer;
  }

  lemma KnownAfter(f: Region, values: nat, b: nat, n: nat)
    requires WellFormed(f, values) && b < |f| && n < |f[b].insts|
    ensures Usable(f[b].insts[n], values)
    ensures Known(f, values, b, n + 1) == Transfer(f[b].insts[n], Known(f, values, b, n))
  {
    hide Transfer, Leader;
  }

  lemma EntryLeads(f: Region)
    requires f != []
    ensures Leader(f, 0)
  {
  }

  // Address ranges

  datatype Domain = UnknownDomain | GuestData | Mem1 | Mem2 | Physical | Mmio | Fifo

  const RAM_BASE: nat := 0x8000_0000
  const RAM_UNCACHED: nat := 0xC000_0000
  const RAM_SIZE: nat := 0x180_0000
  const MEM2_BASE: nat := 0x9000_0000
  const MEM2_UNCACHED: nat := 0xD000_0000
  const MEM2_SIZE: nat := 0x400_0000
  const UNCACHED_BIT: nat := 0x4000_0000

  /** `address & ~0x40000000u` */
  function Normalized(address: nat): (a: nat)
    ensures a <= address
  {
    if (address / UNCACHED_BIT) % 2 == 1 then address - UNCACHED_BIT else address
  }

  /** `classify_address` */
  function ClassifyAddress(address: nat): Domain {
    if 0xCC00_8000 <= address < 0xCC00_9000 then Fifo
    else if 0xCC00_0000 <= address < 0xCE00_0000 then Mmio
    else if RAM_BASE <= Normalized(address) < RAM_BASE + RAM_SIZE then Mem1
    else if MEM2_BASE <= Normalized(address) < MEM2_BASE + MEM2_SIZE then Mem2
    else if address < RAM_BASE then Physical
    else if address < 0xE000_0000 then GuestData
    else UnknownDomain
  }

  /** `range_in_window` */
  predicate InWindow(lower: nat, upper: nat, base: nat, size: nat) {
    size != 0 && lower >= base && upper >= lower && lower - base < size && upper - base < size
  }

  /** `classify_range` */
  function ClassifyRange(lower: nat, upper: nat): Domain {
    if lower == upper then ClassifyAddress(lower)
    else if InWindow(lower, upper, RAM_BASE, RAM_SIZE) then Mem1
    else if InWindow(lower, upper, MEM2_BASE, MEM2_SIZE) then Mem2
    else if InWindow(lower, upper, RAM_UNCACHED, RAM_SIZE) then Mem1
    else if InWindow(lower, upper, MEM2_UNCACHED, MEM2_SIZE) then Mem2
    else UnknownDomain
  }

  /** The address fields of an instruction. */
  datatype Access = Access(domain: Domain, lower: nat, upper: nat)

  const NO_ACCESS: Access := Access(UnknownDomain, 0, 0)
  const ADDRESS_MAX: nat := 0xFFFF_FFFF

  function AccessOf(inst: Inst<nat>, values: seq<Interval>): Access
    requires Usable(inst, |values|)
  {
    if (inst.op == GuestLoad || inst.op == GuestStore) && values[inst.operands[0]].Bounded?
       && values[inst.operands[0]].upper <= ADDRESS_MAX
    then
      var (lower, upper) := (values[inst.operands[0]].lower, values[inst.operands[0]].upper);
      var domain := ClassifyRange(lower, upper);
      if domain != UnknownDomain then Access(domain, lower, upper) else NO_ACCESS
    else NO_ACCESS
  }

  method FindLeaders(f: Region, leaders: array<bool>)
    requires |f| > 0 && leaders.Length == |f| && forall i | 0 <= i < |f| :: !leaders[i]
    requires forall b | 0 <= b < |f| :: TargetsInside(f, b)
    modifies leaders
    ensures forall i | 0 <= i < |f| :: leaders[i] == Leader(f, i)
  {
    leaders[0] := true;
    for k := 0 to |f|
      invariant forall i | 0 <= i < |f| :: leaders[i] <==> MarkedBy(f, k, i)
    {
      MarkBlock(f, k, leaders);
    }
    assert forall i | 0 <= i < |f| :: MarkedBy(f, |f|, i) == Leader(f, i);
  }

  /** Whether the first `k` blocks make block `i` a leader. */
  ghost predicate MarkedBy(f: Region, k: nat, i: nat)
    requires k <= |f| && i < |f|
  {
    i == 0 || (i < k && f[i].kind == Fallback) || (0 < i <= k && f[i - 1].kind != Fallthrough)
    || exists b: nat :: b < k && Targets(f[b], i)
  }

  method MarkBlock(f: Region, index: nat, leaders: array<bool>)
    requires leaders.Length == |f| && index < |f|
    requires TargetsInside(f, index)
    modifies leaders
    ensures forall i | 0 <= i < |f| :: leaders[i] <==>
      (old(leaders[i]) || (i == index && f[i].kind == Fallback) || (i == index + 1 && f[index].kind != Fallthrough)
       || Targets(f[index], i))
  {
    var block := f[index];
    if block.kind == Fallback { leaders[index] := true; }
    if index + 1 < |f| && block.kind != Fallthrough { leaders[index + 1] := true; }
    for slot := 0 to TargetCount(block.kind)
      invariant forall i | 0 <= i < |f| :: leaders[i] <==>
        (old(leaders[i]) || (i == index && f[i].kind == Fallback) || (i == index + 1 && f[index].kind != Fallthrough)
         || (slot >= 1 && block.first == Block(i)) || (slot >= 2 && block.second == Block(i)))
    {
      var target := if slot == 0 then block.first else block.second;
      if target != NoBlock {
        assert Targets(block, target.index);
        leaders[target.index] := true;
      }
    }
  }

  /** The address fields of a block's instructions are those its known values give. */
  ghost predicate Annotated(f: Region, valueCount: nat, b: nat, block: seq<Access>)
    requires WellFormed(f, valueCount) && b < |f|
  {
    |block| <= |f[b].insts|
    && forall n | 0 <= n < |block| :: block[n] == AccessOf(f[b].insts[n], Known(f, valueCount, b, n).values)
  }

  /** `dolir_analyze_addresses` */
  method AnalyzeAddresses(f: Region, valueCount: nat) returns (accesses: seq<seq<Access>>)
    requires WellFormed(f, valueCount)
    ensures |accesses| == |f|
    ensures forall b | 0 <= b < |f| :: |accesses[b]| == |f[b].insts| && Annotated(f, valueCount, b, accesses[b])
  {
    hide Known, WellFormed, Leader, Annotated;
    var leaders := AllLeaders(f, valueCount);
    var values := new Interval[valueCount](_ => Unknown);
    var state := new Interval[STATE_COUNT](_ => Unknown);
    accesses := [];
    for b := 0 to |f|
      invariant |accesses| == b && values != state
      invariant forall k | 0 <= k < b :: |accesses[k]| == |f[k].insts| && Annotated(f, valueCount, k, accesses[k])
      invariant b == 0 ==> values[..] == Unbounded(valueCount)
      invariant b > 0 ==> Facts(values[..], state[..]) == Known(f, valueCount, b - 1, |f[b - 1].insts|)
    {
      var block := EnterBlock(f, valueCount, b, leaders[b], values, state);
      accesses := accesses + [block];
    }
  }

  method AllLeaders(f: Region, valueCount: nat) returns (leaders: seq<bool>)
    requires WellFormed(f, valueCount)
    ensures |leaders| == |f| && forall i | 0 <= i < |f| :: leaders[i] == Leader(f, i)
  {
    var marks := new bool[|f|](_ => false);
    FindLeaders(f, marks);
    leaders := marks[..];
  }

  /** One iteration of the pass: a leader starts from unknown state. */
  method EnterBlock(f: Region, valueCount: nat, b: nat, leader: bool, values: array<Interval>, state: array<Interval>)
    returns (block: seq<Access>)
    requires WellFormed(f, valueCount) && b < |f| && leader == Leader(f, b)
    requires values.Length == valueCount && state.Length == STATE_COUNT && values != state
    requires b == 0 ==> values[..] == Unbounded(valueCount)
    requires b > 0 ==> Facts(values[..], state[..]) == Known(f, valueCount, b - 1, |f[b - 1].insts|)
    modifies values, state
    ensures Facts(values[..], state[..]) == Known(f, valueCount, b, |f[b].insts|)
    ensures |block| == |f[b].insts| && Annotated(f, valueCount, b, block)
  {
    hide Known, Annotated, WellFormed, Leader;
    EntryLeads(f);
    KnownAtStart(f, valueCount, b);
    if leader { ResetState(state); }
    block := AnalyzeBlock(f, valueCount, b, values, state);
  }

  method ResetState(state: array<Interval>)
    requires state.Length == STATE_COUNT
    modifies state
    ensures state[..] == Unbounded(STATE_COUNT)
  {
    forall slot | 0 <= slot < STATE_COUNT { state[slot] := Unknown; }
  }

  method AnalyzeBlock(f: Region, valueCount: nat, b: nat, values: array<Interval>, state: array<Interval>)
    returns (block: seq<Access>)
    requires WellFormed(f, valueCount) && b < |f|
    requires values.Length == valueCount && state.Length == STATE_COUNT && values != state
    requires Facts(values[..], state[..]) == Known(f, valueCount, b, 0)
    modifies values, state
    ensures Facts(values[..], state[..]) == Known(f, valueCount, b, |f[b].insts|)
    ensures |block| == |f[b].insts| && Annotated(f, valueCount, b, block)
  {
    hide Known, WellFormed, Transfer, Annotated;
    block := [];
    NothingAnnotated(f, valueCount, b);
    for n := 0 to |f[b].insts|
      invariant |block| == n && Facts(values[..], state[..]) == Known(f, valueCount, b, n)
      invariant Annotated(f, valueCount, b, block)
    {
      KnownAfter(f, valueCount, b, n);
      var inst := f[b].insts[n];
      var access := AccessOf(inst, values[..]);
      AnnotatesNext(f, valueCount, b, block, access);
      block := block + [access];
      AnalyzeInstruction(inst, values, state);
    }
  }

  lemma NothingAnnotated(f: Region, valueCount: nat, b: nat)
    requires WellFormed(f, valueCount) && b < |f|
    ensures Annotated(f, valueCount, b, [])
  {
  }

  lemma AnnotatesNext(f: Region, valueCount: nat, b: nat, block: seq<Access>, access: Access)
    requires WellFormed(f, valueCount) && b < |f| && Annotated(f, valueCount, b, block) && |block| < |f[b].insts|
    requires access == AccessOf(f[b].insts[|block|], Known(f, valueCount, b, |block|).values)
    ensures Annotated(f, valueCount, b, block + [access])
  {
    hide Known, AccessOf;
  }

  method AnalyzeInstruction(inst: Inst<nat>, values: array<Interval>, state: array<Interval>)
    requires Usable(inst, values.Length) && state.Length == STATE_COUNT && values != state
    modifies values, state
    ensures Facts(values[..], state[..]) == Transfer(inst, old(Facts(values[..], state[..])))
  {
    hide InstructionValue;
    var result := InstructionValue(inst, values[..], state[..]);
    if inst.result != NO_VALUE { values[inst.result] := result; }
    if inst.op == StateWrite { state[inst.aux] := values[inst.operands[0]]; }
    for slot := 0 to STATE_COUNT
      invariant values[..] == Transfer(inst, old(Facts(values[..], state[..]))).values
      invariant forall k | 0 <= k < STATE_COUNT :: (state[k] ==
        if k < slot then Transfer(inst, old(Facts(values[..], state[..]))).state[k]
        else if inst.op == StateWrite && inst.aux == k then values[inst.operands[0]] else old(state[k]))
    {
      if slot in inst.stateDefs && !(inst.op == StateWrite && inst.aux == slot) { state[slot] := Unknown; }
    }
  }

  // Runs

  /** About to execute instruction `n` of block `b`. */
  datatype Point = Point(b: nat, n: nat, vals: seq<nat>, st: seq<nat>)

  predicate At(f: Region, values: nat, p: Point) {
    p.b < |f| && p.n <= |f[p.b].insts| && |p.vals| == values && |p.st| == STATE_COUNT && Words(p.vals) && Words(p.st)
  }

  /** A run starts, and starts again, at any leader with any state. */
  ghost predicate Enters(f: Region, values: nat, p: Point) { At(f, values, p) && Leader(f, p.b) && p.n == 0 }

  predicate Successor(block: IrBlock, t: nat) {
    if block.kind == Fallthrough then block.first == Block(t) else Targets(block, t)
  }

  /** The next instruction, the next block with fresh SSA values, or a new entry. */
  ghost predicate Moves(f: Region, values: nat, p: Point, q: Point)
    requires WellFormed(f, values) && At(f, values, p) && At(f, values, q)
  {
    if p.n < |f[p.b].insts| then
      q.b == p.b && q.n == p.n + 1 && Executes(f[p.b].insts[p.n], p.vals, p.st, q.vals, q.st)
    else (q.n == 0 && Successor(f[p.b], q.b) && q.st == p.st) || Enters(f, values, q)
  }

  ghost predicate Run(f: Region, values: nat, run: seq<Point>)
    requires WellFormed(f, values)
  {
    run != [] && Enters(f, values, run[0]) && (forall k | 0 <= k < |run| :: At(f, values, run[k]))
    && forall k | 0 < k < |run| :: Moves(f, values, run[k - 1], run[k])
  }

  /** Every bounded slot, and every bounded value the block has defined, is inside its bounds. */
  ghost predicate Sound(f: Region, values: nat, p: Point)
    requires WellFormed(f, values) && At(f, values, p)
  {
    var known := Known(f, values, p.b, p.n);
    && (forall slot | 0 <= slot < STATE_COUNT :: Contains(known.state[slot], p.st[slot]))
    && (forall v | 0 <= v < values && DefinedBefore(f[p.b].insts, p.n, v) :: Contains(known.values[v], p.vals[v]))
  }

  lemma EntrySound(f: Region, values: nat, p: Point)
    requires WellFormed(f, values) && Enters(f, values, p)
    ensures Sound(f, values, p)
  {
  }

  /** Blocks that are not leaders are entered only by falling through from the block before. */
  lemma SuccessorSound(f: Region, values: nat, p: Point, q: Point)
    requires WellFormed(f, values) && At(f, values, p) && At(f, values, q)
    requires Sound(f, values, p) && p.n == |f[p.b].insts| && q.n == 0 && q.st == p.st && Successor(f[p.b], q.b)
    ensures Sound(f, values, q)
  {
    hide Known, WellFormed, Leader, Successor;
    FallsToNext(f, values, p.b, q.b);
    KnownAtStart(f, values, q.b);
  }

  lemma FallsToNext(f: Region, values: nat, b: nat, t: nat)
    requires WellFormed(f, values) && b < |f| && t < |f| && Successor(f[b], t)
    ensures Leader(f, t) || t == b + 1
  {
  }

  lemma ValueSound(inst: Inst<nat>, a: Facts, vals: seq<nat>, st: seq<nat>, vals': seq<nat>, st': seq<nat>)
    requires Usable(inst, |vals|) && Shaped(a, |vals|) && |st| == |st'| == STATE_COUNT && |vals'| == |vals|
    requires Words(vals) && inst.result != NO_VALUE && Executes(inst, vals, st, vals', st')
    requires forall slot | 0 <= slot < STATE_COUNT :: Contains(a.state[slot], st[slot])
    requires forall k | 0 <= k < |inst.operands| :: Contains(a.values[inst.operands[k]], vals[inst.operands[k]])
    ensures Contains(InstructionValue(inst, a.values, a.state), vals'[inst.result])
  {
    hide Pow2, UnaryValue, BinaryValue, Unary, Binary, Truncate, KnownValue;
    var width, y := TypeWidth(inst.ty), vals'[inst.result];
    if inst.op == Constant && width > 0 {
      KnownContains(inst.imm, width);
    } else if inst.op != StateRead {
      if |inst.operands| == 1 {
        OneOperand(inst.op, width, a.values[inst.operands[0]], vals[inst.operands[0]], y);
      } else if |inst.operands| == 2 {
        TwoOperands(inst.op, width, a.values[inst.operands[0]], a.values[inst.operands[1]],
                    vals[inst.operands[0]], vals[inst.operands[1]], y);
      }
    }
  }

  lemma OneOperand(op: Op, width: nat, a: Interval, x: nat, y: nat)
    requires Contains(a, x) && width <= 64 && x < Pow2(64) && (width > 0 ==> Unary(op, width, x, y))
    ensures Contains(UnaryValue(op, width, a), y)
  {
    if width > 0 { UnarySound(op, width, a, x, y); }
  }

  lemma TwoOperands(op: Op, width: nat, a: Interval, b: Interval, x: nat, z: nat, y: nat)
    requires Contains(a, x) && Contains(b, z) && width <= 64
    requires width > 0 ==> Binary(op, width, x, z, y) && y < Pow2(width)
    ensures Contains(BinaryValue(op, width, a, b), y)
  {
    if width > 0 { BinarySound(op, width, a, b, x, z, y); }
  }

  lemma StateSound(inst: Inst<nat>, a: Facts, vals: seq<nat>, st: seq<nat>, vals': seq<nat>, st': seq<nat>)
    requires Usable(inst, |vals|) && Shaped(a, |vals|) && |st| == |st'| == STATE_COUNT && |vals'| == |vals|
    requires Executes(inst, vals, st, vals', st')
    requires forall slot | 0 <= slot < STATE_COUNT :: Contains(a.state[slot], st[slot])
    requires forall k | 0 <= k < |inst.operands| :: Contains(a.values[inst.operands[k]], vals[inst.operands[k]])
    ensures forall slot | 0 <= slot < STATE_COUNT :: Contains(Transfer(inst, a).state[slot], st'[slot])
  {
    hide InstructionValue, Unary, Binary, Words, Pow2;
  }

  lemma TransferValues(inst: Inst<nat>, a: Facts)
    requires Usable(inst, |a.values|) && |a.state| == STATE_COUNT
    ensures Transfer(inst, a).values ==
      if inst.result != NO_VALUE then a.values[inst.result := InstructionValue(inst, a.values, a.state)] else a.values
  {
  }

  lemma InstructionSound(f: Region, values: nat, p: Point, q: Point)
    requires WellFormed(f, values) && At(f, values, p) && At(f, values, q) && Sound(f, values, p)
    requires p.n < |f[p.b].insts| && q.b == p.b && q.n == p.n + 1
    requires Executes(f[p.b].insts[p.n], p.vals, p.st, q.vals, q.st)
    ensures Sound(f, values, q)
  {
    hide Pow2, InstructionValue, Unary, Binary, Transfer, Known, WellFormed;
    var inst := f[p.b].insts[p.n];
    var known := Known(f, values, p.b, p.n);
    KnownAfter(f, values, p.b, p.n);
    OperandsSound(f, values, p);
    StateSound(inst, known, p.vals, p.st, q.vals, q.st);
    TransferValues(inst, known);
    if inst.result != NO_VALUE { ValueSound(inst, known, p.vals, p.st, q.vals, q.st); }
    forall v | 0 <= v < values && DefinedBefore(f[p.b].insts, q.n, v)
      ensures Contains(Transfer(inst, known).values[v], q.vals[v])
    {
      if v != inst.result { assert DefinedBefore(f[p.b].insts, p.n, v); }
    }
  }

  lemma OperandsSound(f: Region, values: nat, p: Point)
    requires WellFormed(f, values) && At(f, values, p) && Sound(f, values, p) && p.n < |f[p.b].insts|
    ensures var inst := f[p.b].insts[p.n];
      forall k | 0 <= k < |inst.operands| ::
        Contains(Known(f, values, p.b, p.n).values[inst.operands[k]], p.vals[inst.operands[k]])
  {
  }

  lemma {:induction false} RunSound(f: Region, values: nat, run: seq<Point>)
    requires WellFormed(f, values) && Run(f, values, run)
    ensures Sound(f, values, run[|run| - 1])
  {
    hide WellFormed, Sound, Executes, Leader, Known;
    var last := |run| - 1;
    if last == 0 {
      EntrySound(f, values, run[0]);
    } else {
      RunSound(f, values, run[..last]);
      var p, q := run[last - 1], run[last];
      assert Moves(f, values, p, q);
      if p.n < |f[p.b].insts| {
        InstructionSound(f, values, p, q);
      } else if Enters(f, values, q) {
        EntrySound(f, values, q);
      } else {
        SuccessorSound(f, values, p, q);
      }
    }
  }

  // Accesses that are proved to stay in RAM

  lemma WindowClass(a: nat)
    ensures RAM_BASE <= a < RAM_BASE + RAM_SIZE ==> ClassifyAddress(a) == Mem1 && Normalized(a) == a
    ensures RAM_UNCACHED <= a < RAM_UNCACHED + RAM_SIZE
      ==> ClassifyAddress(a) == Mem1 && Normalized(a) == a - UNCACHED_BIT
    ensures MEM2_BASE <= a < MEM2_BASE + MEM2_SIZE ==> ClassifyAddress(a) == Mem2 && Normalized(a) == a
    ensures MEM2_UNCACHED <= a < MEM2_UNCACHED + MEM2_SIZE ==>
      ClassifyAddress(a) == Mem2 && Normalized(a) == a - UNCACHED_BIT
  {
  }

  /** The class given to a range is the class of each of its addresses. */
  lemma RangeClass(lower: nat, upper: nat, a: nat)
    requires lower <= a <= upper && ClassifyRange(lower, upper) != UnknownDomain
    ensures ClassifyAddress(a) == ClassifyRange(lower, upper)
  {
    WindowClass(a);
  }

  /** `nativeMemoryAccess` */
  predicate NativeAccess(access: Access, width: nat) {
    (access.domain == Mem1 || access.domain == Mem2)
    && var base := if access.domain == Mem2 then MEM2_BASE else RAM_BASE;
       var size := if access.domain == Mem2 then MEM2_SIZE else RAM_SIZE;
       var (lower, upper) := (Normalized(access.lower), Normalized(access.upper));
       0 < width <= size && lower >= base && upper >= lower && upper - base <= size - width
  }

  datatype Memory = MainRam | Mem2Ram

  /** Where an address resolves, and the bytes available from there. */
  datatype Resolution = Unmapped | Mapped(memory: Memory, offset: nat, available: nat)

  /** `resolve_addr` with both memories at their fixed sizes */
  function Resolve(a: nat): Resolution {
    if RAM_BASE <= a < RAM_BASE + RAM_SIZE then Mapped(MainRam, a - RAM_BASE, RAM_SIZE - (a - RAM_BASE))
    else if RAM_UNCACHED <= a < RAM_UNCACHED + RAM_SIZE then
      Mapped(MainRam, a - RAM_UNCACHED, RAM_SIZE - (a - RAM_UNCACHED))
    else if MEM2_BASE <= a < MEM2_BASE + MEM2_SIZE then Mapped(Mem2Ram, a - MEM2_BASE, MEM2_SIZE - (a - MEM2_BASE))
    else if MEM2_UNCACHED <= a < MEM2_UNCACHED + MEM2_SIZE then
      Mapped(Mem2Ram, a - MEM2_UNCACHED, MEM2_SIZE - (a - MEM2_UNCACHED))
    else Unmapped
  }

  /** A native access is in RAM with all its bytes, at every address of the interval, cached or
      uncached alias alike. */
  lemma NativeAccessResolves(lower: nat, upper: nat, width: nat, a: nat)
    requires lower <= a <= upper <= ADDRESS_MAX
    requires NativeAccess(Access(ClassifyRange(lower, upper), lower, upper), width)
    ensures Resolve(a) == Mapped(if ClassifyRange(lower, upper) == Mem1 then MainRam else Mem2Ram,
                                 Resolve(a).offset, Resolve(a).available)
    ensures Resolve(a).available >= width
  {
    WindowClass(a);
    WindowClass(lower);
    WindowClass(upper);
  }

  /** In every run that enters at leaders, an access the analysis makes native reads or writes
      only bytes of the memory it names. */
  lemma ProvenAccessStaysInRam(f: Region, values: nat, run: seq<Point>, width: nat)
    requires WellFormed(f, values) && Run(f, values, run)
    requires var p := run[|run| - 1];
      p.n < |f[p.b].insts| && (f[p.b].insts[p.n].op == GuestLoad || f[p.b].insts[p.n].op == GuestStore)
    requires var p := run[|run| - 1];
      NativeAccess(AccessOf(f[p.b].insts[p.n], Known(f, values, p.b, p.n).values), width)
    ensures var p := run[|run| - 1];
      var a := p.vals[f[p.b].insts[p.n].operands[0]];
      var access := AccessOf(f[p.b].insts[p.n], Known(f, values, p.b, p.n).values);
      access.lower <= a <= access.upper && ClassifyAddress(a) == access.domain
      && Resolve(a).Mapped? && Resolve(a).available >= width
      && Resolve(a).memory == if access.domain == Mem1 then MainRam else Mem2Ram
  {
    hide Known;
    var p := run[|run| - 1];
    RunSound(f, values, run);
    OperandsSound(f, values, p);
    var inst := f[p.b].insts[p.n];
    assert inst.operands[0] < values;
    var access := AccessOf(inst, Known(f, values, p.b, p.n).values);
    var a := p.vals[inst.operands[0]];
    RangeClass(access.lower, access.upper, a);
    NativeAccessResolves(access.lower, access.upper, width, a);
  }
}
