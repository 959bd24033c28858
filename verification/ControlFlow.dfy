/** The control-flow facts the C backend computes for a function (src/backend/c_cfg.c). */
module ControlFlow {
  import opened Wrappers

  type Cost = n: nat | n >= 1 witness 1

  /** Instructions by what the control-flow pass asks about them.  `Fallback` is every opcode
      whose emitted text calls the fallback interpreter and returns; `Pure` is every opcode whose
      text only computes registers, `Memory` every other opcode an outlined loop may contain,
      `Other` the rest. */
  datatype Op =
    | B | BC | BCLR | BCCTR | SC | RFI | Fallback | TimebaseRead
    | Pure(cost: Cost) | Memory(cost: Cost) | Other(cost: Cost)

  /** `target` is the guest address of a direct branch; `always` is a BO field that lets a
      conditional branch fall through never. */
  datatype Inst = Inst(op: Op, target: nat, lk: bool, embedded: bool, always: bool) {
    predicate DirectBranch() { op.B? || op.BC? }

    /** `instruction_ends_block` */
    predicate EndsBlock() { op.B? || op.BC? || op.BCLR? || op.BCCTR? || op.SC? || op.RFI? || op.Fallback? }

    /** `instruction_is_outlinable` */
    predicate CanOutline() { Transparent() || op.Memory? }

    /** `instruction_is_pc_transparent` */
    predicate Transparent() { op.B? || op.BC? || op.Pure? }

    /** `instruction_cycles` */
    function Cycles(): nat {
      if embedded || op.Fallback? then 0
      else match op
        case SC | RFI => 2
        case Pure(cost) => cost
        case Memory(cost) => cost
        case Other(cost) => cost
        case _ => 1
    }
  }

  /** What each class of opcodes is: transfers end a block, everything else runs on; what only computes and
      the direct branches do not look at the guest PC. */
  lemma Classes(i: Inst)
    ensures i.EndsBlock() <==> !(i.op.TimebaseRead? || i.op.Pure? || i.op.Memory? || i.op.Other?)
    ensures i.Transparent() <==> i.DirectBranch() || i.op.Pure?
    ensures i.DirectBranch() ==> i.EndsBlock()
    ensures i.CanOutline() && !i.EndsBlock() <==> i.op.Pure? || i.op.Memory?
    ensures i.CanOutline() && i.EndsBlock() <==> i.DirectBranch()
    ensures i.Cycles() == 0 <==> i.embedded || i.op.Fallback?
    ensures !i.embedded && (i.op.SC? || i.op.RFI?) ==> i.Cycles() == 2
    ensures !i.embedded && (i.DirectBranch() || i.op.BCLR? || i.op.BCCTR? || i.op.TimebaseRead?) ==> i.Cycles() == 1
  {
  }

  /** A function of consecutive instructions at `start`, `start + 4`, ... */
  datatype Code = Code(start: nat, insts: seq<Inst>) {
    function Address(i: nat): nat { start + 4 * i }

    /** `c_function_cfg_contains` */
    predicate Contains(address: nat) {
      start <= address < start + 4 * |insts| && (address - start) % 4 == 0
    }

    function Index(address: nat): (i: nat)
      requires Contains(address)
      ensures i < |insts| && Address(i) == address
    {
      (address - start) / 4
    }

    predicate JumpsTo(j: nat, i: nat)
      requires j < |insts|
    {
      insts[j].DirectBranch() && insts[j].target == Address(i)
    }

    predicate Follows(i: nat)
      requires i < |insts|
    {
      i > 0 && !insts[i - 1].embedded && insts[i - 1].EndsBlock()
    }

    /** A block starts at the entry, after an instruction that ends a block, and at every
        local branch target. */
    ghost predicate Leader(i: nat)
      requires i < |insts|
    {
      i == 0 || Follows(i) || exists j: nat :: j < |insts| && !insts[j].embedded && JumpsTo(j, i)
    }

    predicate ReturnTarget(i: nat)
      requires i < |insts|
    {
      i > 0 && !insts[i - 1].embedded && insts[i - 1].lk
    }

    /** Cycles from `i` to the end of its block. */
    ghost function BlockSum(i: nat): nat
      requires i < |insts|
      decreases |insts| - i
    {
      insts[i].Cycles()
      + if insts[i].EndsBlock() || i + 1 == |insts| || Leader(i + 1) then 0 else BlockSum(i + 1)
    }

    /** A direct branch that may jump back inside the emitted function. */
    predicate LoopsBack(last: nat)
      requires last < |insts|
    {
      var branch := insts[last];
      branch.DirectBranch() && !branch.lk && Contains(branch.target) && branch.target <= Address(last)
      && forall i | Index(branch.target) <= i <= last :: !insts[i].op.TimebaseRead?
    }

    /** The instruction runs without the guest PC in memory: it is inside some such loop and its
        text does not look at it. */
    ghost predicate KeepsPcBack(i: nat, upTo: nat)
      requires i < |insts| && upTo <= |insts|
    {
      insts[i].Transparent()
      && exists last: nat :: last < upTo && LoopsBack(last) && Index(insts[last].target) <= i <= last
    }

    /** A loop emitted as a function of its own. */
    predicate Outlined(first: nat, last: nat)
      requires first < |insts| && last < |insts|
    {
      LoopsBack(last) && insts[last].target == Address(first) && first < last
      && (forall i | first <= i < last :: !insts[i].EndsBlock())
      && forall i | first <= i <= last :: insts[i].CanOutline()
    }
  }

  datatype Cfg = Cfg(
    leaders: seq<bool>, blockCycles: seq<nat>, materializePc: seq<bool>, returnTargets: seq<bool>,
    loopEnds: seq<Option<nat>>)

  ghost predicate Describes(cfg: Cfg, code: Code) {
    var n := |code.insts|;
    && |cfg.leaders| == |cfg.blockCycles| == |cfg.materializePc| == |cfg.returnTargets| == |cfg.loopEnds| == n
    && (forall i | 0 <= i < n :: cfg.leaders[i] == code.Leader(i))
    && (forall i | 0 <= i < n :: cfg.blockCycles[i] == if code.Leader(i) then code.BlockSum(i) else 0)
    && (forall i | 0 <= i < n :: cfg.materializePc[i] == !code.KeepsPcBack(i, n))
    && (forall i | 0 <= i < n :: cfg.returnTargets[i] == code.ReturnTarget(i))
    && (forall i | 0 <= i < n :: cfg.loopEnds[i].Some? ==>
          cfg.loopEnds[i].value < n && code.Outlined(i, cfg.loopEnds[i].value))
    && (forall i, last | 0 <= i < n && 0 <= last < n :: code.Outlined(i, last) ==> cfg.loopEnds[i] == Some(last))
  }

  /** The leader and return-target marks after the first `k` instructions. */
  ghost predicate Marked(code: Code, k: nat, leaders: seq<bool>, marks: seq<bool>)
    requires k <= |code.insts| && |leaders| == |marks| == |code.insts|
  {
    && (forall i | 0 <= i < |code.insts| :: leaders[i] <==>
          i == 0 || (i <= k && code.Follows(i)) || exists j: nat ::
            j < k && !code.insts[j].embedded && code.JumpsTo(j, i))
    && (forall i | 0 <= i < |code.insts| :: marks[i] <==> i <= k && code.ReturnTarget(i))
  }

  method MarkLeaders(code: Code, leaders: array<bool>, marks: array<bool>)
    requires leaders.Length == marks.Length == |code.insts| && leaders != marks
    requires forall i | 0 <= i < leaders.Length :: !leaders[i] && !marks[i]
    modifies leaders, marks
    ensures Marked(code, |code.insts|, leaders[..], marks[..])
  {
    var count := |code.insts|;
    if count > 0 { leaders[0] := true; }
    for i := 0 to count
      invariant Marked(code, i, leaders[..], marks[..])
    {
      MarkAfter(code, i, leaders, marks);
    }
  }

  /** The marks instruction `i` makes. */
  method MarkAfter(code: Code, i: nat, leaders: array<bool>, marks: array<bool>)
    requires leaders.Length == marks.Length == |code.insts| && leaders != marks && i < |code.insts|
    modifies leaders, marks
    ensures forall k | 0 <= k < leaders.Length :: leaders[k] <==>
      (old(leaders[k]) || (k == i + 1 && code.Follows(k)) || (!code.insts[i].embedded && code.JumpsTo(i, k)))
    ensures forall k | 0 <= k < marks.Length :: marks[k] <==> (old(marks[k]) || (k == i + 1 && code.ReturnTarget(k)))
  {
    var inst, count := code.insts[i], |code.insts|;
    if !inst.embedded {
      if inst.EndsBlock() && i + 1 < count { leaders[i + 1] := true; }
      if inst.lk && i + 1 < count { marks[i + 1] := true; }
      if inst.DirectBranch() && code.Contains(inst.target) {
        leaders[code.Index(inst.target)] := true;
      }
    }
  }

  method SumBlocks(code: Code, leaders: array<bool>, cycles: array<nat>)
    requires leaders.Length == cycles.Length == |code.insts|
    requires forall i | 0 <= i < leaders.Length :: leaders[i] == code.Leader(i) && cycles[i] == 0
    modifies cycles
    ensures forall i | 0 <= i < cycles.Length :: cycles[i] == if code.Leader(i) then code.BlockSum(i) else 0
  {
    var count := |code.insts|;
    for i := 0 to count
      invariant forall k | 0 <= k < count ::
        cycles[k] == if k < i && code.Leader(k) then code.BlockSum(k) else 0
    {
      if leaders[i] {
        var j := i;
        var open := true;
        while open
          invariant i <= j <= count && (open ==> j < count)
          invariant cycles[i] + (if open then code.BlockSum(j) else 0) == code.BlockSum(i)
          invariant forall k | 0 <= k < count && k != i ::
            cycles[k] == if k < i && code.Leader(k) then code.BlockSum(k) else 0
          decreases count - j, open
        {
          cycles[i] := cycles[i] + code.insts[j].Cycles();
          open := !(code.insts[j].EndsBlock() || j + 1 == count || leaders[j + 1]);
          j := j + 1;
        }
      }
    }
  }

  /** The instructions of a loop that keep the guest PC back. */
  method KeepBack(code: Code, last: nat, materialize: array<bool>)
    requires materialize.Length == |code.insts| && last < |code.insts| && code.LoopsBack(last)
    requires forall i | 0 <= i < materialize.Length :: materialize[i] == !code.KeepsPcBack(i, last)
    modifies materialize
    ensures forall i | 0 <= i < materialize.Length :: materialize[i] == !code.KeepsPcBack(i, last + 1)
  {
    var first := code.Index(code.insts[last].target);
    for i := first to last + 1
      invariant forall k | 0 <= k < materialize.Length ::
        materialize[k] == !(code.KeepsPcBack(k, last) || (first <= k < i && code.insts[k].Transparent()))
    {
      if code.insts[i].Transparent() { materialize[i] := false; }
    }
    forall i | 0 <= i < materialize.Length
      ensures code.KeepsPcBack(i, last + 1)
         <==> (code.KeepsPcBack(i, last) || (first <= i <= last && code.insts[i].Transparent()))
    {
      if code.KeepsPcBack(i, last + 1) && !code.KeepsPcBack(i, last) {
        var l: nat :| l < last + 1 && code.LoopsBack(l) && code.Index(code.insts[l].target) <= i <= l;
        assert l == last;
      }
    }
  }

  method FindLoops(code: Code, materialize: array<bool>, ends: array<Option<nat>>)
    requires materialize.Length == ends.Length == |code.insts|
    requires forall i | 0 <= i < ends.Length :: materialize[i] && ends[i] == None
    modifies materialize, ends
    ensures forall i | 0 <= i < ends.Length :: materialize[i] == !code.KeepsPcBack(i, |code.insts|)
    ensures forall i | 0 <= i < ends.Length ::
      ends[i].Some? ==> ends[i].value < ends.Length && code.Outlined(i, ends[i].value)
    ensures forall i, last | 0 <= i < ends.Length && 0 <= last < ends.Length ::
      code.Outlined(i, last) ==> ends[i] == Some(last)
  {
    var count := |code.insts|;
    for last := 0 to count
      invariant forall i | 0 <= i < count :: materialize[i] == !code.KeepsPcBack(i, last)
      invariant forall i | 0 <= i < count :: ends[i].Some? ==> ends[i].value < last && code.Outlined(i, ends[i].value)
      invariant forall i, k | 0 <= i < count && 0 <= k < last :: code.Outlined(i, k) ==> ends[i] == Some(k)
    {
      if code.LoopsBack(last) {
        KeepBack(code, last, materialize);
        FindLoop(code, last, ends);
      }
    }
  }

  /** Record the loop a backward branch closes, if it can be a function of its own. */
  method FindLoop(code: Code, last: nat, ends: array<Option<nat>>)
    requires ends.Length == |code.insts| && last < |code.insts| && code.LoopsBack(last)
    modifies ends
    ensures forall i | 0 <= i < ends.Length :: ends[i] == if code.Outlined(i, last) then Some(last) else old(ends[i])
  {
    var first := code.Index(code.insts[last].target);
    var straightLine, outlinable := true, true;
    for i := first to last
      invariant straightLine <==> forall k | first <= k < i :: !code.insts[k].EndsBlock()
    {
      straightLine := straightLine && !code.insts[i].EndsBlock();
    }
    for i := first to last + 1
      invariant outlinable <==> forall k | first <= k < i :: code.insts[k].CanOutline()
    {
      outlinable := outlinable && code.insts[i].CanOutline();
    }
    if straightLine && outlinable && first < last {
      ends[first] := Some(last);
    }
  }

  /** `c_function_cfg_build` */
  method BuildCfg(code: Code) returns (cfg: Cfg)
    ensures Describes(cfg, code)
  {
    var count := |code.insts|;
    var leaders := new bool[count](_ => false);
    var marks := new bool[count](_ => false);
    var cycles := new nat[count](_ => 0);
    var materialize := new bool[count](_ => true);
    var ends := new Option<nat>[count](_ => None);
    MarkLeaders(code, leaders, marks);
    SumBlocks(code, leaders, cycles);
    FindLoops(code, materialize, ends);
    cfg := Cfg(leaders[..], cycles[..], materialize[..], marks[..], ends[..]);
  }

  /** A block that does not start with a fallback instruction or a data word charges cycles. */
  lemma BlockCharges(code: Code, i: nat)
    requires i < |code.insts| && !code.insts[i].op.Fallback? && !code.insts[i].embedded
    ensures code.BlockSum(i) >= 1
  {
  }

  /** From `i` to the end of its block there are only data words and fallback instructions. */
  ghost predicate OnlyData(code: Code, i: nat)
    requires i < |code.insts|
    decreases |code.insts| - i
  {
    && (code.insts[i].embedded || code.insts[i].op.Fallback?)
    && (code.insts[i].EndsBlock() || i + 1 == |code.insts| || code.Leader(i + 1) || OnlyData(code, i + 1))
  }

  /** A block charges nothing exactly when it holds nothing else. */
  lemma {:induction false} SumIsZeroIff(code: Code, i: nat)
    requires i < |code.insts|
    ensures code.BlockSum(i) == 0 <==> OnlyData(code, i)
    decreases |code.insts| - i
  {
    if !(code.insts[i].EndsBlock() || i + 1 == |code.insts| || code.Leader(i + 1)) {
      SumIsZeroIff(code, i + 1);
    }
  }
}
