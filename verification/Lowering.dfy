/** The DolIR builder (src/ir/dolir_builder.c): methods append instructions to a growing
    buffer and hand out SSA values.

    Every SSA value carries, as ghost data, what it denotes for each state the block is
    entered with, and the builder carries the state the code so far leaves.  All contracts
    are therefore statements about every entry state at once. */
module Lowering {
  import opened Wrappers
  import opened DolIR
  import opened SplitMachine
  import opened EmittedC
  import opened SplitRelation

  datatype V1 = V1(id: nat, ghost b: SplitState -> bool)
  datatype V32 = V32(id: nat, ghost x: SplitState -> bv32)
  datatype V64 = V64(id: nat, ghost y: SplitState -> bv64)

  function Choose(p: bool, a: bv32, c: bv32): bv32 { if p then a else c }

  /** A block starts without SSA values. */
  function Start(s: SplitState): Machine { Machine(map[], s) }

  /** From every entry state the code runs without undefined behaviour and leaves `st`. */
  ghost predicate Runs(code: Code, next: nat, st: SplitState -> SplitState) {
    forall s {:trigger Run(code, Start(s))} ::
      var r := Run(code, Start(s));
      r.Some? && r.value.st == st(s) && forall k | k in r.value.vals :: k < next
  }

  ghost predicate Defines1(code: Code, v: V1) {
    forall s {:trigger v.b(s)} {:trigger Run(code, Start(s))} ::
      Run(code, Start(s)).Some? && Get(Run(code, Start(s)).value, v.id) == Some(W1(v.b(s)))
  }

  ghost predicate Defines32(code: Code, v: V32) {
    forall s {:trigger v.x(s)} {:trigger Run(code, Start(s))} ::
      Run(code, Start(s)).Some? && Get(Run(code, Start(s)).value, v.id) == Some(W32(v.x(s)))
  }

  ghost predicate Defines64(code: Code, v: V64) {
    forall s {:trigger v.y(s)} {:trigger Run(code, Start(s))} ::
      Run(code, Start(s)).Some? && Get(Run(code, Start(s)).value, v.id) == Some(W64(v.y(s)))
  }

  class Builder {
    var code: Code
    var next: nat
    ghost var st: SplitState -> SplitState

    ghost predicate Valid()
      reads this
    {
      Runs(code, next, st)
    }

    ghost predicate Has1(v: V1) reads this { Defines1(code, v) }
    ghost predicate Has32(v: V32) reads this { Defines32(code, v) }
    ghost predicate Has64(v: V64) reads this { Defines64(code, v) }

    /** The builder stays valid and earlier values keep their meaning. */
    twostate predicate Extended()
      reads this
    {
      && Valid() && old(next) <= next && old(code) <= code
      && (forall v: V1 {:trigger Has1(v)} :: old(Has1(v)) ==> Has1(v))
      && (forall v: V32 {:trigger Has32(v)} :: old(Has32(v)) ==> Has32(v))
      && (forall v: V64 {:trigger Has64(v)} :: old(Has64(v)) ==> Has64(v))
    }

    /** A new block of a function whose values so far are numbered below `first`. */
    constructor (first: nat)
      ensures Valid() && code == [] && next == first
      ensures forall s {:trigger st(s)} :: st(s) == s
    {
      code, next, st := [], first, (s: SplitState) => s;
    }

    /** `dolir_append` for an instruction with a result. */
    method Append(op: Op, ty: Type, operands: seq<nat>, imm: bv64, aux: nat, uses: set<nat>,
            ghost w: SplitState -> Word)
      returns (id: nat)
      requires Valid() && op != StateWrite
      requires forall s ::
        Eval(Inst(op, ty, next, operands, imm, aux, uses, {}), Run(code, Start(s)).value) == Some(w(s))
      modifies this
      ensures Extended() && st == old(st)
      ensures forall s {:trigger Run(code, Start(s))} :: Get(Run(code, Start(s)).value, id) == Some(w(s))
    {
      hide Eval;
      var inst := Inst(op, ty, next, operands, imm, aux, uses, {});
      forall s: SplitState
        ensures Run(code + [inst], Start(s)) == Step(inst, Run(code, Start(s)).value)
      {
        RunAppend(code, inst, Start(s));
      }
      id := next;
      code := code + [inst];
      next := next + 1;
    }

    method C32(x: bv32) returns (v: V32)
      requires Valid()
      modifies this
      ensures Extended() && st == old(st) && Has32(v)
      ensures forall s {:trigger v.x(s)} :: v.x(s) == x
    {
      hide Run, EvalUnary, EvalBinary;
      var id := Append(Constant, I32, [], x as bv64, 0, {}, (s: SplitState) => W32(x));
      v := V32(id, (s: SplitState) => x);
    }

    method C64(y: bv64) returns (v: V64)
      requires Valid()
      modifies this
      ensures Extended() && st == old(st) && Has64(v)
      ensures forall s {:trigger v.y(s)} :: v.y(s) == y
    {
      hide Run, EvalUnary, EvalBinary;
      var id := Append(Constant, I64, [], y, 0, {}, (s: SplitState) => W64(y));
      v := V64(id, (s: SplitState) => y);
    }

    method C1(b: bool) returns (v: V1)
      requires Valid()
      modifies this
      ensures Extended() && st == old(st) && Has1(v)
      ensures forall s {:trigger v.b(s)} :: v.b(s) == b
    {
      hide Run, EvalUnary, EvalBinary;
      var id := Append(Constant, I1, [], if b then 1 else 0, 0, {}, (s: SplitState) => W1(b));
      v := V1(id, (s: SplitState) => b);
    }

    method Binary32(op: Op, a: V32, c: V32) returns (v: V32)
      requires Valid() && Has32(a) && Has32(c)
      requires Total32?(op)
      modifies this
      ensures Extended() && st == old(st) && Has32(v)
      ensures forall s {:trigger v.x(s)} :: v.x(s) == Total32(op, a.x(s), c.x(s))
    {
      hide Run, EvalUnary, EvalBinary, Total32;
      forall s: SplitState { EvalTotal32(op, a.x(s), c.x(s)); }
      var id := Append(op, I32, [a.id, c.id], 0, 0, {}, (s: SplitState) => W32(Total32(op, a.x(s), c.x(s))));
      v := V32(id, (s: SplitState) => Total32(op, a.x(s), c.x(s)));
    }

    method Shift32(op: Op, a: V32, c: V32) returns (v: V32)
      requires Valid() && Has32(a) && Has32(c)
      requires op == Shl || op == LShr || op == AShr
      requires forall s {:trigger c.x(s)} :: ShiftInRange(c.x(s))
      modifies this
      ensures Extended() && st == old(st) && Has32(v)
      ensures forall s {:trigger v.x(s)} :: v.x(s) == Shifted32(op, a.x(s), c.x(s))
    {
      hide Run, Eval, EvalBinary, Get, Shifted32, ShiftInRange;
      ghost var inst := Inst(op, I32, next, [a.id, c.id], 0, 0, {}, {});
      forall s: SplitState
        ensures Eval(inst, Run(code, Start(s)).value) == Some(W32(Shifted32(op, a.x(s), c.x(s))))
      {
        EvalTwo(inst, Run(code, Start(s)).value, W32(a.x(s)), W32(c.x(s)));
        EvalShift32(op, a.x(s), c.x(s));
      }
      var id := Append(op, I32, [a.id, c.id], 0, 0, {}, (s: SplitState) => W32(Shifted32(op, a.x(s), c.x(s))));
      v := V32(id, (s: SplitState) => Shifted32(op, a.x(s), c.x(s)));
    }

    method Divide32(op: Op, a: V32, c: V32) returns (v: V32)
      requires Valid() && Has32(a) && Has32(c)
      requires op == UDiv || op == SDiv
      requires forall s {:trigger c.x(s)} :: c.x(s) != 0 && (op == SDiv ==> !DivisionOverflows(a.x(s), c.x(s)))
      modifies this
      ensures Extended() && st == old(st) && Has32(v)
      ensures forall s {:trigger v.x(s)} :: v.x(s) == Divided32(op, a.x(s), c.x(s))
    {
      hide Run, EvalUnary, EvalBinary, Divided32, DivisionOverflows;
      forall s: SplitState
        ensures EvalBinary(op, I32, W32(a.x(s)), W32(c.x(s))) == Some(W32(Divided32(op, a.x(s), c.x(s))))
      {
        EvalDivide32(op, a.x(s), c.x(s));
      }
      var id := Append(op, I32, [a.id, c.id], 0, 0, {}, (s: SplitState) => W32(Divided32(op, a.x(s), c.x(s))));
      v := V32(id, (s: SplitState) => Divided32(op, a.x(s), c.x(s)));
    }

    method Compare32(op: Op, a: V32, c: V32) returns (v: V1)
      requires Valid() && Has32(a) && Has32(c)
      requires Comparison?(op)
      modifies this
      ensures Extended() && st == old(st) && Has1(v)
      ensures forall s {:trigger v.b(s)} :: v.b(s) == Compared32(op, a.x(s), c.x(s))
    {
      hide Run, EvalUnary, EvalBinary, Compared32;
      forall s: SplitState { EvalCompare32(op, a.x(s), c.x(s)); }
      var id := Append(op, I1, [a.id, c.id], 0, 0, {}, (s: SplitState) => W1(Compared32(op, a.x(s), c.x(s))));
      v := V1(id, (s: SplitState) => Compared32(op, a.x(s), c.x(s)));
    }

    method And1(a: V1, c: V1) returns (v: V1)
      requires Valid() && Has1(a) && Has1(c)
      modifies this
      ensures Extended() && st == old(st) && Has1(v)
      ensures forall s {:trigger v.b(s)} :: v.b(s) == (a.b(s) && c.b(s))
    {
      hide Run, EvalUnary;
      var id := Append(And, I1, [a.id, c.id], 0, 0, {}, (s: SplitState) => W1(a.b(s) && c.b(s)));
      v := V1(id, (s: SplitState) => a.b(s) && c.b(s));
    }

    method Or1(a: V1, c: V1) returns (v: V1)
      requires Valid() && Has1(a) && Has1(c)
      modifies this
      ensures Extended() && st == old(st) && Has1(v)
      ensures forall s {:trigger v.b(s)} :: v.b(s) == (a.b(s) || c.b(s))
    {
      hide Run, EvalUnary;
      var id := Append(Or, I1, [a.id, c.id], 0, 0, {}, (s: SplitState) => W1(a.b(s) || c.b(s)));
      v := V1(id, (s: SplitState) => a.b(s) || c.b(s));
    }

    method Binary64(op: Op, a: V64, c: V64) returns (v: V64)
      requires Valid() && Has64(a) && Has64(c)
      requires op == Add || op == Mul
      modifies this
      ensures Extended() && st == old(st) && Has64(v)
      ensures forall s {:trigger v.y(s)} :: v.y(s) == Total64(op, a.y(s), c.y(s))
    {
      hide Run, EvalUnary, EvalBinary, Total64;
      forall s: SplitState
        ensures EvalBinary(op, I64, W64(a.y(s)), W64(c.y(s))) == Some(W64(Total64(op, a.y(s), c.y(s))))
      {
        Eval64Total(op, a.y(s), c.y(s));
      }
      var id := Append(op, I64, [a.id, c.id], 0, 0, {}, (s: SplitState) => W64(Total64(op, a.y(s), c.y(s))));
      v := V64(id, (s: SplitState) => Total64(op, a.y(s), c.y(s)));
    }

    method HighWord(a: V64) returns (v: V64)
      requires Valid() && Has64(a)
      modifies this
      ensures Extended() && st == old(st) && Has64(v)
      ensures forall s {:trigger v.y(s)} :: v.y(s) == LShr64(a.y(s), 32)
    {
      hide Run, Has64;
      var width := C64(32);
      v := Shift64(a, width);
    }

    /** Right shift by a value that is always 32, the only 64-bit shift the lowering uses. */
    method Shift64(a: V64, width: V64) returns (v: V64)
      requires Valid() && Has64(a) && Has64(width) && forall s {:trigger width.y(s)} :: width.y(s) == 32
      modifies this
      ensures Extended() && st == old(st) && Has64(v)
      ensures forall s {:trigger v.y(s)} :: v.y(s) == LShr64(a.y(s), 32)
    {
      hide Run, Eval, EvalBinary, Get, LShr64;
      ghost var inst := Inst(LShr, I64, next, [a.id, width.id], 0, 0, {}, {});
      forall s: SplitState ensures Eval(inst, Run(code, Start(s)).value) == Some(W64(LShr64(a.y(s), 32))) {
        EvalTwo(inst, Run(code, Start(s)).value, W64(a.y(s)), W64(width.y(s)));
        EvalHighWord(a.y(s));
      }
      var id := Append(LShr, I64, [a.id, width.id], 0, 0, {}, (s: SplitState) => W64(LShr64(a.y(s), 32)));
      v := V64(id, (s: SplitState) => LShr64(a.y(s), 32));
    }

    method Not1(a: V1) returns (v: V1)
      requires Valid() && Has1(a)
      modifies this
      ensures Extended() && st == old(st) && Has1(v)
      ensures forall s {:trigger v.b(s)} :: v.b(s) == !a.b(s)
    {
      hide Run, EvalUnary, EvalBinary;
      forall s: SplitState { UnaryFlag(a.b(s)); }
      var id := Append(Not, I1, [a.id], 0, 0, {}, (s: SplitState) => W1(!a.b(s)));
      v := V1(id, (s: SplitState) => !a.b(s));
    }

    method NotWord(a: V32) returns (v: V32)
      requires Valid() && Has32(a)
      modifies this
      ensures Extended() && st == old(st) && Has32(v)
      ensures forall s {:trigger v.x(s)} :: v.x(s) == Not32(a.x(s))
    {
      hide Run, EvalUnary, EvalBinary, Not32;
      forall s: SplitState { UnaryWord32(a.x(s)); }
      var id := Append(Not, I32, [a.id], 0, 0, {}, (s: SplitState) => W32(Not32(a.x(s))));
      v := V32(id, (s: SplitState) => Not32(a.x(s)));
    }

    method CountZeros(a: V32) returns (v: V32)
      requires Valid() && Has32(a)
      modifies this
      ensures Extended() && st == old(st) && Has32(v)
      ensures forall s {:trigger v.x(s)} :: v.x(s) == Clz32(a.x(s))
    {
      hide Run, EvalUnary, EvalBinary, Clz32;
      forall s: SplitState { UnaryWord32(a.x(s)); }
      var id := Append(Clz, I32, [a.id], 0, 0, {}, (s: SplitState) => W32(Clz32(a.x(s))));
      v := V32(id, (s: SplitState) => Clz32(a.x(s)));
    }

    method FlagWord(a: V1) returns (v: V32)
      requires Valid() && Has1(a)
      modifies this
      ensures Extended() && st == old(st) && Has32(v)
      ensures forall s {:trigger v.x(s)} :: v.x(s) == Flag(a.b(s))
    {
      hide Run, EvalUnary, EvalBinary, Flag;
      forall s: SplitState { UnaryFlag(a.b(s)); }
      var id := Append(ZExt, I32, [a.id], 0, 0, {}, (s: SplitState) => W32(Flag(a.b(s))));
      v := V32(id, (s: SplitState) => Flag(a.b(s)));
    }

    method Widen(a: V32) returns (v: V64)
      requires Valid() && Has32(a)
      modifies this
      ensures Extended() && st == old(st) && Has64(v)
      ensures forall s {:trigger v.y(s)} :: v.y(s) == Zext64(a.x(s))
    {
      hide Run, EvalUnary, EvalBinary, Zext64;
      forall s: SplitState { UnaryWiden(a.x(s)); }
      var id := Append(ZExt, I64, [a.id], 0, 0, {}, (s: SplitState) => W64(Zext64(a.x(s))));
      v := V64(id, (s: SplitState) => Zext64(a.x(s)));
    }

    method WidenSigned(a: V32) returns (v: V64)
      requires Valid() && Has32(a)
      modifies this
      ensures Extended() && st == old(st) && Has64(v)
      ensures forall s {:trigger v.y(s)} :: v.y(s) == SignExtend(a.x(s))
    {
      hide Run, EvalUnary, EvalBinary, SignExtend;
      forall s: SplitState { UnaryWiden(a.x(s)); }
      var id := Append(SExt, I64, [a.id], 0, 0, {}, (s: SplitState) => W64(SignExtend(a.x(s))));
      v := V64(id, (s: SplitState) => SignExtend(a.x(s)));
    }

    method LowWord(a: V64) returns (v: V32)
      requires Valid() && Has64(a)
      modifies this
      ensures Extended() && st == old(st) && Has32(v)
      ensures forall s {:trigger v.x(s)} :: v.x(s) == Low32(a.y(s))
    {
      hide Run, EvalUnary, EvalBinary, Low32;
      forall s: SplitState { UnaryWord64(a.y(s)); }
      var id := Append(Trunc, I32, [a.id], 0, 0, {}, (s: SplitState) => W32(Low32(a.y(s))));
      v := V32(id, (s: SplitState) => Low32(a.y(s)));
    }

    method LowBit64(a: V64) returns (v: V1)
      requires Valid() && Has64(a)
      modifies this
      ensures Extended() && st == old(st) && Has1(v)
      ensures forall s {:trigger v.b(s)} :: v.b(s) == Odd64(a.y(s))
    {
      hide Run, EvalUnary, EvalBinary, Odd64;
      forall s: SplitState { UnaryWord64(a.y(s)); }
      var id := Append(Trunc, I1, [a.id], 0, 0, {}, (s: SplitState) => W1(Odd64(a.y(s))));
      v := V1(id, (s: SplitState) => Odd64(a.y(s)));
    }

    method LowBit32(a: V32) returns (v: V1)
      requires Valid() && Has32(a)
      modifies this
      ensures Extended() && st == old(st) && Has1(v)
      ensures forall s {:trigger v.b(s)} :: v.b(s) == Odd32(a.x(s))
    {
      hide Run, EvalUnary, EvalBinary, Odd32;
      forall s: SplitState { UnaryTruncate(a.x(s)); }
      var id := Append(Trunc, I1, [a.id], 0, 0, {}, (s: SplitState) => W1(Odd32(a.x(s))));
      v := V1(id, (s: SplitState) => Odd32(a.x(s)));
    }

    /** Truncation to I8 and sign extension back to I32. */
    method SignExtendByte(a: V32) returns (v: V32)
      requires Valid() && Has32(a)
      modifies this
      ensures Extended() && st == old(st) && Has32(v)
      ensures forall s {:trigger v.x(s)} :: v.x(s) == ExtendByte(Low8(a.x(s)))
    {
      hide Run, Eval, Get, ExtendByte, Low8;
      ghost var first := Inst(Trunc, I8, next, [a.id], 0, 0, {}, {});
      forall s: SplitState ensures Eval(first, Run(code, Start(s)).value) == Some(W8(Low8(a.x(s)))) {
        EvalOne(first, Run(code, Start(s)).value, W32(a.x(s)));
        UnaryTruncate(a.x(s));
      }
      var narrow := Append(Trunc, I8, [a.id], 0, 0, {}, (s: SplitState) => W8(Low8(a.x(s))));
      ghost var second := Inst(SExt, I32, next, [narrow], 0, 0, {}, {});
      forall s: SplitState ensures Eval(second, Run(code, Start(s)).value) == Some(W32(ExtendByte(Low8(a.x(s))))) {
        EvalOne(second, Run(code, Start(s)).value, W8(Low8(a.x(s))));
        UnaryNarrow(Low8(a.x(s)), 0);
      }
      var id := Append(SExt, I32, [narrow], 0, 0, {}, (s: SplitState) => W32(ExtendByte(Low8(a.x(s)))));
      v := V32(id, (s: SplitState) => ExtendByte(Low8(a.x(s))));
    }

    /** Truncation to I16 and sign extension back to I32. */
    method SignExtendHalf(a: V32) returns (v: V32)
      requires Valid() && Has32(a)
      modifies this
      ensures Extended() && st == old(st) && Has32(v)
      ensures forall s {:trigger v.x(s)} :: v.x(s) == ExtendHalf(Low16(a.x(s)))
    {
      hide Run, Eval, Get, ExtendHalf, Low16;
      ghost var first := Inst(Trunc, I16, next, [a.id], 0, 0, {}, {});
      forall s: SplitState ensures Eval(first, Run(code, Start(s)).value) == Some(W16(Low16(a.x(s)))) {
        EvalOne(first, Run(code, Start(s)).value, W32(a.x(s)));
        UnaryTruncate(a.x(s));
      }
      var narrow := Append(Trunc, I16, [a.id], 0, 0, {}, (s: SplitState) => W16(Low16(a.x(s))));
      ghost var second := Inst(SExt, I32, next, [narrow], 0, 0, {}, {});
      forall s: SplitState ensures Eval(second, Run(code, Start(s)).value) == Some(W32(ExtendHalf(Low16(a.x(s))))) {
        EvalOne(second, Run(code, Start(s)).value, W16(Low16(a.x(s))));
        UnaryNarrow(0, Low16(a.x(s)));
      }
      var id := Append(SExt, I32, [narrow], 0, 0, {}, (s: SplitState) => W32(ExtendHalf(Low16(a.x(s)))));
      v := V32(id, (s: SplitState) => ExtendHalf(Low16(a.x(s))));
    }

    method Select32(p: V1, a: V32, c: V32) returns (v: V32)
      requires Valid() && Has1(p) && Has32(a) && Has32(c)
      modifies this
      ensures Extended() && st == old(st) && Has32(v)
      ensures forall s {:trigger v.x(s)} :: v.x(s) == Choose(p.b(s), a.x(s), c.x(s))
    {
      hide Run, Eval, Get, Choose;
      ghost var inst := Inst(Select, I32, next, [p.id, a.id, c.id], 0, 0, {}, {});
      forall s: SplitState
        ensures Eval(inst, Run(code, Start(s)).value) == Some(W32(Choose(p.b(s), a.x(s), c.x(s))))
      {
        EvalSelect(inst, Run(code, Start(s)).value, p.b(s), W32(a.x(s)), W32(c.x(s)));
        ChooseWord(p.b(s), a.x(s), c.x(s));
      }
      var id := Append(Select, I32, [p.id, a.id, c.id], 0, 0, {},
        (s: SplitState) => W32(Choose(p.b(s), a.x(s), c.x(s))));
      v := V32(id, (s: SplitState) => Choose(p.b(s), a.x(s), c.x(s)));
    }

    method Select1(p: V1, a: V1, c: V1) returns (v: V1)
      requires Valid() && Has1(p) && Has1(a) && Has1(c)
      modifies this
      ensures Extended() && st == old(st) && Has1(v)
      ensures forall s {:trigger v.b(s)} :: v.b(s) == if p.b(s) then a.b(s) else c.b(s)
    {
      hide Run, EvalUnary, EvalBinary;
      var id := Append(Select, I1, [p.id, a.id, c.id], 0, 0, {},
        (s: SplitState) => W1(if p.b(s) then a.b(s) else c.b(s)));
      v := V1(id, (s: SplitState) => if p.b(s) then a.b(s) else c.b(s));
    }

    method Read32(slot: nat) returns (v: V32)
      requires Valid()
      requires forall st :: ReadSlot(st, slot).Some? && ReadSlot(st, slot).value.W32?
      modifies this
      ensures Extended() && st == old(st) && Has32(v)
      ensures forall s {:trigger v.x(s)} :: v.x(s) == ReadSlot(st(s), slot).value.x
    {
      hide Run, EvalUnary, EvalBinary, ReadSlot;
      ghost var before := st;
      var id := Append(StateRead, StateType(slot), [], 0, slot, {slot},
        (s: SplitState) => W32(ReadSlot(before(s), slot).value.x));
      v := V32(id, (s: SplitState) => ReadSlot(before(s), slot).value.x);
    }

    method Read1(slot: nat) returns (v: V1)
      requires Valid()
      requires forall st :: ReadSlot(st, slot).Some? && ReadSlot(st, slot).value.W1?
      modifies this
      ensures Extended() && st == old(st) && Has1(v)
      ensures forall s {:trigger v.b(s)} :: v.b(s) == ReadSlot(st(s), slot).value.b
    {
      hide Run, EvalUnary, EvalBinary, ReadSlot;
      ghost var before := st;
      var id := Append(StateRead, StateType(slot), [], 0, slot, {slot},
        (s: SplitState) => W1(ReadSlot(before(s), slot).value.b));
      v := V1(id, (s: SplitState) => ReadSlot(before(s), slot).value.b);
    }

    method Gpr(r: Reg) returns (v: V32)
      requires Valid()
      modifies this
      ensures Extended() && st == old(st) && Has32(v)
      ensures forall s {:trigger v.x(s)} :: v.x(s) == st(s).gpr[r]
    {
      hide Run;
      v := Read32(GPR0 + r);
    }

    /** `dolir_state_write` */
    method WriteSlot(slot: nat, id: nat, ghost w: SplitState -> Word, ghost after: SplitState -> SplitState)
      requires Valid()
      requires forall s ::
        Get(Run(code, Start(s)).value, id) == Some(w(s)) && SplitMachine.WriteSlot(st(s), slot, w(s)) == Some(after(s))
      modifies this
      ensures Extended() && st == after
    {
      hide SplitMachine.WriteSlot;
      var inst := Inst(StateWrite, Void, NO_VALUE, [id], 0, slot, {}, {slot});
      forall s: SplitState
        ensures Run(code + [inst], Start(s)) == Step(inst, Run(code, Start(s)).value)
      {
        RunAppend(code, inst, Start(s));
      }
      code := code + [inst];
      st := after;
    }

    method SetGpr(r: Reg, a: V32)
      requires Valid() && Has32(a)
      modifies this
      ensures Extended()
      ensures forall s {:trigger st(s)} :: st(s) == old(st)(s).(gpr := old(st)(s).gpr[r := a.x(s)])
    {
      hide Run, SplitMachine.WriteSlot;
      ghost var before := st;
      forall s: SplitState { WritesGpr(before(s), r, a.x(s)); }
      WriteSlot(r, a.id, (s: SplitState) => W32(a.x(s)),
                (s: SplitState) => before(s).(gpr := before(s).gpr[r := a.x(s)]));
    }

    method SetCarry(a: V1)
      requires Valid() && Has1(a)
      modifies this
      ensures Extended()
      ensures forall s {:trigger st(s)} :: st(s) == old(st)(s).(ca := a.b(s))
    {
      hide Run;
      ghost var before := st;
      WriteSlot(XER_CA, a.id, (s: SplitState) => W1(a.b(s)), (s: SplitState) => before(s).(ca := a.b(s)));
    }

    method SetField(field: Field, a: V32)
      requires Valid() && Has32(a)
      modifies this
      ensures Extended()
      ensures forall s {:trigger st(s)} :: st(s) == old(st)(s).(crf := old(st)(s).crf[field := a.x(s)])
    {
      hide Run, SplitMachine.WriteSlot;
      ghost var before := st;
      forall s: SplitState { WritesField(before(s), field, a.x(s)); }
      WriteSlot(CR0 + field, a.id, (s: SplitState) => W32(a.x(s)),
                (s: SplitState) => before(s).(crf := before(s).crf[field := a.x(s)]));
    }

    /** `write_cr_field` */
    method WriteCrField(field: Field, a: V32)
      requires Valid() && Has32(a)
      modifies this
      ensures Extended()
      ensures forall s {:trigger st(s)} :: st(s) == old(st)(s).(crf := old(st)(s).crf[field := And32(a.x(s), 0xF)])
    {
      hide Run, Has32, And32;
      var mask := C32(0xF);
      var masked := Binary32(And, a, mask);
      SetField(field, masked);
    }

    /** `bit` where the condition holds, else 0. */
    method SelectBit(p: V1, bit: bv32) returns (v: V32)
      requires Valid() && Has1(p)
      modifies this
      ensures Extended() && st == old(st) && Has32(v)
      ensures forall s {:trigger v.x(s)} :: v.x(s) == Choose(p.b(s), bit, 0)
    {
      hide Run, Has32, Has1, Choose;
      var yes := C32(bit);
      var zero := C32(0);
      v := Select32(p, yes, zero);
    }

    method OrSelected(bits: V32, p: V1, bit: bv32) returns (v: V32)
      requires Valid() && Has32(bits) && Has1(p)
      modifies this
      ensures Extended() && st == old(st) && Has32(v)
      ensures forall s {:trigger v.x(s)} :: v.x(s) == Or32(bits.x(s), Choose(p.b(s), bit, 0))
    {
      hide Run, Has32, Has1, Choose, Or32;
      var selected := SelectBit(p, bit);
      v := Binary32(Or, bits, selected);
    }

    /** The LT, GT and EQ bits of a comparison. */
    method OrderBits(op: Op, lhs: V32, rhs: V32) returns (v: V32)
      requires Valid() && Has32(lhs) && Has32(rhs) && Comparison?(op)
      modifies this
      ensures Extended() && st == old(st) && Has32(v)
      ensures forall s {:trigger v.x(s)} :: v.x(s) == Ordered32(op, lhs.x(s), rhs.x(s))
    {
      hide Run, Has32, Has1, Or32, Compared32, Choose;
      var lt := Compare32(op, lhs, rhs);
      var gt := Compare32(op, rhs, lhs);
      var eq := Compare32(ICmpEq, lhs, rhs);
      v := SelectBit(lt, 8);
      v := OrSelected(v, gt, 4);
      v := OrSelected(v, eq, 2);
    }

    /** `set_cr_field` */
    method SetCrField(field: Field, lhs: V32, rhs: V32, signed: bool)
      requires Valid() && Has32(lhs) && Has32(rhs)
      modifies this
      ensures Extended()
      ensures forall s {:trigger st(s)} ::
        st(s) == old(st)(s).(crf := old(st)(s).crf[field := FieldBits(lhs.x(s), rhs.x(s), signed, old(st)(s).so)])
    {
      hide Run, Has32, Has1, And32, Or32, Ordered32, Flag;
      var bits := OrderBits(if signed then ICmpSlt else ICmpUlt, lhs, rhs);
      var so := Read1(XER_SO);
      var soWord := FlagWord(so);
      bits := Binary32(Or, bits, soWord);
      WriteCrField(field, bits);
    }

    /** `set_cr0` */
    method SetCr0(a: V32)
      requires Valid() && Has32(a)
      modifies this
      ensures Extended()
      ensures forall s {:trigger st(s)} :: st(s) == Record(old(st)(s), a.x(s))
    {
      hide Run, Has32, FieldBits;
      var zero := C32(0);
      SetCrField(0, a, zero, true);
    }

    method RecordIfNeeded(rc: bool, a: V32)
      requires Valid() && Has32(a)
      modifies this
      ensures Extended()
      ensures forall s {:trigger st(s)} :: st(s) == RecordIf(old(st)(s), rc, a.x(s))
    {
      hide Run, Has32, Record;
      if rc { SetCr0(a); }
    }

    method XerCa() returns (v: V32)
      requires Valid()
      modifies this
      ensures Extended() && st == old(st) && Has32(v)
      ensures forall s {:trigger v.x(s)} :: v.x(s) == Flag(st(s).ca)
    {
      hide Run, Has32, Has1, Flag;
      var ca := Read1(XER_CA);
      v := FlagWord(ca);
    }

    method AddWide(a: V32, c: V32) returns (v: V64)
      requires Valid() && Has32(a) && Has32(c)
      modifies this
      ensures Extended() && st == old(st) && Has64(v)
      ensures forall s {:trigger v.y(s)} :: v.y(s) == Sum64(a.x(s), c.x(s))
    {
      hide Run, Has32, Has64, Zext64, Add64;
      var wideA := Widen(a);
      var wideC := Widen(c);
      v := Binary64(Add, wideA, wideC);
    }

    /** `add_wide_with_carry` with a carry operand */
    method AddWideWithCarry(a: V32, c: V32, carry: V32) returns (v: V64)
      requires Valid() && Has32(a) && Has32(c) && Has32(carry)
      modifies this
      ensures Extended() && st == old(st) && Has64(v)
      ensures forall s {:trigger v.y(s)} :: v.y(s) == AddCarry64(a.x(s), c.x(s), carry.x(s))
    {
      hide Run, Has32, Has64, Zext64, Add64, Sum64;
      var wide := AddWide(a, c);
      var wideCarry := Widen(carry);
      v := Binary64(Add, wide, wideCarry);
    }

    /** Adding a carry word to a sum already built. */
    method AddCarryWord(wide: V64, ghost a: V32, ghost c: V32, carry: V32) returns (v: V64)
      requires Valid() && Has64(wide) && Has32(carry)
      requires forall s {:trigger wide.y(s)} :: wide.y(s) == Sum64(a.x(s), c.x(s))
      modifies this
      ensures Extended() && st == old(st) && Has64(v)
      ensures forall s {:trigger v.y(s)} :: v.y(s) == AddCarry64(a.x(s), c.x(s), carry.x(s))
    {
      hide Run, Has32, Has64, Zext64, Add64, Sum64;
      var wideCarry := Widen(carry);
      v := Binary64(Add, wide, wideCarry);
    }

    method CarryBit(wide: V64) returns (v: V1)
      requires Valid() && Has64(wide)
      modifies this
      ensures Extended() && st == old(st) && Has1(v)
      ensures forall s {:trigger v.b(s)} :: v.b(s) == CarryOf(wide.y(s))
    {
      hide Run, Has64, Has1, LShr64, Odd64;
      var high := HighWord(wide);
      v := LowBit64(high);
    }

    /** `write_carry_result`; the ADDC family writes the carry before the register. */
    method WriteCarryResult(r: Reg, wide: V64, record: bool)
      requires Valid() && Has64(wide)
      modifies this
      ensures Extended()
      ensures forall s {:trigger st(s)} :: st(s) == CarryResult(old(st)(s), r, wide.y(s), record)
    {
      hide Run, Has64, Has32, Has1, Low32, CarryOf, RecordIf;
      var result := LowWord(wide);
      var carry := CarryBit(wide);
      SetGpr(r, result);
      SetCarry(carry);
      RecordIfNeeded(record, result);
    }

    method WriteCarryFirst(r: Reg, wide: V64, record: bool)
      requires Valid() && Has64(wide)
      modifies this
      ensures Extended()
      ensures forall s {:trigger st(s)} :: st(s) == CarryResult(old(st)(s), r, wide.y(s), record)
    {
      hide Run, Has64, Has32, Has1, Low32, CarryOf, RecordIf;
      var result := LowWord(wide);
      var carry := CarryBit(wide);
      SetCarry(carry);
      SetGpr(r, result);
      RecordIfNeeded(record, result);
    }

    method WriteResult(r: Reg, a: V32, record: bool)
      requires Valid() && Has32(a)
      modifies this
      ensures Extended()
      ensures forall s {:trigger st(s)} :: st(s) == Written(old(st)(s), r, record, a.x(s))
    {
      hide Run, Has32, RecordIf;
      SetGpr(r, a);
      RecordIfNeeded(record, a);
    }
  }

  function Ordered32(less: Op, a: bv32, c: bv32): bv32 {
    Or32(Or32(Choose(Compared32(less, a, c), 8, 0), Choose(Compared32(less, c, a), 4, 0)),
         Choose(Compared32(ICmpEq, a, c), 2, 0))
  }

  /** The bits `set_cr_field` computes for a comparison. */
  function FieldBits(a: bv32, c: bv32, signed: bool, so: bool): bv32 {
    And32(Or32(Ordered32(if signed then ICmpSlt else ICmpUlt, a, c), Flag(so)), 0xF)
  }

  function WithGpr(st: SplitState, r: Reg, x: bv32): SplitState { st.(gpr := st.gpr[r := x]) }

  function Record(st: SplitState, x: bv32): SplitState {
    st.(crf := st.crf[0 := FieldBits(x, 0, true, st.so)])
  }

  function RecordIf(st: SplitState, record: bool, x: bv32): SplitState { if record then Record(st, x) else st }

  /** A register result, recorded in CR0 on request. */
  function Written(st: SplitState, r: Reg, record: bool, x: bv32): SplitState { RecordIf(WithGpr(st, r, x), record, x) }

  function Sum64(a: bv32, c: bv32): bv64 { Add64(Zext64(a), Zext64(c)) }

  function AddCarry64(a: bv32, c: bv32, carry: bv32): bv64 { Add64(Sum64(a, c), Zext64(carry)) }

  predicate CarryOf(wide: bv64) { Odd64(LShr64(wide, 32)) }

  function CarryResult(st: SplitState, r: Reg, wide: bv64, record: bool): SplitState {
    RecordIf(WithGpr(st, r, Low32(wide)).(ca := CarryOf(wide)), record, Low32(wide))
  }

  predicate Total32?(op: Op) { op in {Add, Sub, And, Or, Xor, Rotl} }

  function Total32(op: Op, a: bv32, c: bv32): bv32 {
    if op == Add then Add32(a, c)
    else if op == Sub then Sub32(a, c)
    else if op == And then And32(a, c)
    else if op == Op.Or then Or32(a, c)
    else if op == Xor then Xor32(a, c)
    else RotateLeft32(a, c)
  }

  function Shifted32(op: Op, a: bv32, c: bv32): bv32 {
    if op == Shl then Shl32(a, c)
    else if op == LShr then LShr32(a, c)
    else AShr32(a, c)
  }

  function Divided32(op: Op, a: bv32, c: bv32): bv32 { if op == UDiv then UDiv32(a, c) else SignedDivide(a, c) }

  predicate Comparison?(op: Op) { op in {ICmpEq, ICmpNe, ICmpUlt, ICmpSlt} }

  predicate Compared32(op: Op, a: bv32, c: bv32) {
    if op == ICmpEq then a == c
    else if op == ICmpNe then a != c
    else if op == ICmpUlt then Less32(a, c)
    else SignedLess(a, c)
  }

  function Total64(op: Op, a: bv64, c: bv64): bv64 { if op == Add then Add64(a, c) else Mul64(a, c) }

  lemma EvalTotal32(op: Op, a: bv32, c: bv32)
    requires Total32?(op)
    ensures EvalBinary(op, I32, W32(a), W32(c)) == Some(W32(Total32(op, a, c)))
  {
    hide Add32, Sub32, Mul32, UDiv32, And32, Or32, Xor32, Not32, Shl32, LShr32, AShr32, Less32, SignedDivide,
      RotateLeft32, SignedLess;
    hide Add64, Mul64, LShr64, Zext64, SignExtend, Clz32, Low32, Odd32, Odd64, Low8, Low16, ExtendByte, ExtendHalf,
      Flag, ShiftInRange, DivisionOverflows;
  }

  lemma EvalShift32(op: Op, a: bv32, c: bv32)
    requires op == Shl || op == LShr || op == AShr
    requires ShiftInRange(c)
    ensures EvalBinary(op, I32, W32(a), W32(c)) == Some(W32(Shifted32(op, a, c)))
  {
    hide Add32, Sub32, Mul32, UDiv32, And32, Or32, Xor32, Not32, Shl32, LShr32, AShr32, Less32, SignedDivide,
      RotateLeft32, SignedLess;
    hide Add64, Mul64, LShr64, Zext64, SignExtend, Clz32, Low32, Odd32, Odd64, Low8, Low16, ExtendByte, ExtendHalf,
      Flag, ShiftInRange, DivisionOverflows;
  }

  lemma EvalDivide32(op: Op, a: bv32, c: bv32)
    requires op == UDiv || (op == SDiv && !DivisionOverflows(a, c))
    requires c != 0
    ensures EvalBinary(op, I32, W32(a), W32(c)) == Some(W32(Divided32(op, a, c)))
  {
    hide Add32, Sub32, Mul32, UDiv32, And32, Or32, Xor32, Not32, Shl32, LShr32, AShr32, Less32, SignedDivide,
      RotateLeft32, SignedLess;
    hide Add64, Mul64, LShr64, Zext64, SignExtend, Clz32, Low32, Odd32, Odd64, Low8, Low16, ExtendByte, ExtendHalf,
      Flag, ShiftInRange, DivisionOverflows;
  }

  lemma EvalCompare32(op: Op, a: bv32, c: bv32)
    requires Comparison?(op)
    ensures EvalBinary(op, I1, W32(a), W32(c)) == Some(W1(Compared32(op, a, c)))
  {
    hide Add32, Sub32, Mul32, UDiv32, And32, Or32, Xor32, Not32, Shl32, LShr32, AShr32, Less32, SignedDivide,
      RotateLeft32, SignedLess;
    hide Add64, Mul64, LShr64, Zext64, SignExtend, Clz32, Low32, Odd32, Odd64, Low8, Low16, ExtendByte, ExtendHalf,
      Flag, ShiftInRange, DivisionOverflows;
  }

  lemma Eval64Total(op: Op, a: bv64, c: bv64)
    requires op == Add || op == Mul
    ensures EvalBinary(op, I64, W64(a), W64(c)) == Some(W64(Total64(op, a, c)))
  {
    hide Add32, Sub32, Mul32, UDiv32, And32, Or32, Xor32, Not32, Shl32, LShr32, AShr32, Less32, SignedDivide,
      RotateLeft32, SignedLess;
    hide Add64, Mul64, LShr64, Zext64, SignExtend, Clz32, Low32, Odd32, Odd64, Low8, Low16, ExtendByte, ExtendHalf,
      Flag, ShiftInRange, DivisionOverflows;
  }

  lemma EvalHighWord(a: bv64)
    ensures EvalBinary(LShr, I64, W64(a), W64(32)) == Some(W64(LShr64(a, 32)))
  {
    hide Add32, Sub32, Mul32, UDiv32, And32, Or32, Xor32, Not32, Shl32, LShr32, AShr32, Less32, SignedDivide,
      RotateLeft32, SignedLess;
    hide Add64, Mul64, LShr64, Zext64, SignExtend, Clz32, Low32, Odd32, Odd64, Low8, Low16, ExtendByte, ExtendHalf,
      Flag, ShiftInRange, DivisionOverflows;
  }

  lemma UnaryWord32(x: bv32)
    ensures EvalUnary(Not, I32, W32(x)) == Some(W32(Not32(x)))
    ensures EvalUnary(Clz, I32, W32(x)) == Some(W32(Clz32(x)))
  {
    hide Not32, Zext64, SignExtend, Clz32, Low32, Odd32, Odd64, Low8, Low16, ExtendByte, ExtendHalf, Flag;
  }

  lemma UnaryWiden(x: bv32)
    ensures EvalUnary(ZExt, I64, W32(x)) == Some(W64(Zext64(x)))
    ensures EvalUnary(SExt, I64, W32(x)) == Some(W64(SignExtend(x)))
  {
    hide Not32, Zext64, SignExtend, Clz32, Low32, Odd32, Odd64, Low8, Low16, ExtendByte, ExtendHalf, Flag;
  }

  lemma UnaryTruncate(x: bv32)
    ensures EvalUnary(Trunc, I1, W32(x)) == Some(W1(Odd32(x)))
    ensures EvalUnary(Trunc, I8, W32(x)) == Some(W8(Low8(x)))
    ensures EvalUnary(Trunc, I16, W32(x)) == Some(W16(Low16(x)))
  {
    hide Not32, Zext64, SignExtend, Clz32, Low32, Odd32, Odd64, Low8, Low16, ExtendByte, ExtendHalf, Flag;
  }

  lemma UnaryNarrow(x: bv8, y: bv16)
    ensures EvalUnary(SExt, I32, W8(x)) == Some(W32(ExtendByte(x)))
    ensures EvalUnary(SExt, I32, W16(y)) == Some(W32(ExtendHalf(y)))
  {
    hide Not32, Zext64, SignExtend, Clz32, Low32, Odd32, Odd64, Low8, Low16, ExtendByte, ExtendHalf, Flag;
  }

  lemma UnaryFlag(b: bool)
    ensures EvalUnary(ZExt, I32, W1(b)) == Some(W32(Flag(b)))
    ensures EvalUnary(Not, I1, W1(b)) == Some(W1(!b))
  {
    hide Not32, Zext64, SignExtend, Clz32, Low32, Odd32, Odd64, Low8, Low16, ExtendByte, ExtendHalf, Flag;
  }

  lemma UnaryWord64(y: bv64)
    ensures EvalUnary(Trunc, I32, W64(y)) == Some(W32(Low32(y)))
    ensures EvalUnary(Trunc, I1, W64(y)) == Some(W1(Odd64(y)))
  {
    hide Not32, Zext64, SignExtend, Clz32, Low32, Odd32, Odd64, Low8, Low16, ExtendByte, ExtendHalf, Flag;
  }

  lemma EvalOne(inst: Inst<bv64>, m: Machine, a: Word)
    requires inst.op != Constant && inst.op != StateRead && |inst.operands| == 1
    requires Get(m, inst.operands[0]) == Some(a)
    ensures Eval(inst, m) == EvalUnary(inst.op, inst.ty, a)
  {
    hide EvalUnary, EvalBinary, ReadSlot, Get;
  }

  lemma EvalTwo(inst: Inst<bv64>, m: Machine, a: Word, c: Word)
    requires inst.op != Constant && inst.op != StateRead && |inst.operands| == 2
    requires Get(m, inst.operands[0]) == Some(a) && Get(m, inst.operands[1]) == Some(c)
    ensures Eval(inst, m) == EvalBinary(inst.op, inst.ty, a, c)
  {
    hide EvalUnary, EvalBinary, ReadSlot, Get;
  }

  lemma EvalSelect(inst: Inst<bv64>, m: Machine, p: bool, a: Word, c: Word)
    requires inst.op == Select && |inst.operands| == 3
    requires Get(m, inst.operands[0]) == Some(W1(p))
    requires Get(m, inst.operands[1]) == Some(a) && Get(m, inst.operands[2]) == Some(c)
    ensures Eval(inst, m) == Some(if p then a else c)
  {
    hide EvalUnary, EvalBinary, ReadSlot, Get;
  }

  lemma ChooseWord(p: bool, a: bv32, c: bv32)
    ensures W32(Choose(p, a, c)) == if p then W32(a) else W32(c)
  {
  }

  lemma WritesGpr(st: SplitState, r: Reg, x: bv32)
    ensures WriteSlot(st, r, W32(x)) == Some(st.(gpr := st.gpr[r := x]))
  {
  }

  lemma WritesField(st: SplitState, field: Field, x: bv32)
    ensures WriteSlot(st, CR0 + field, W32(x)) == Some(st.(crf := st.crf[field := x]))
  {
  }
}
