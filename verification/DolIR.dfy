/** The DolIR instruction set: types, state slots, instructions and terminators
    (src/ir/dolir.h, src/ir/dolir.c, src/ir/dolir_effects.c).

    `Inst<W>` is parameterised by the representation of immediates.  The lowering is
    checked bit by bit and uses machine words (`W = bv64`); the address analysis is
    arithmetic and uses integers (`W = nat`). */
module DolIR {

  datatype Type = Void | I1 | I8 | I16 | I32 | I64 | F32 | F64 | V2F32 | V2F64

  /** Width of an integer type in bits; 0 for every type that is not an integer. */
  function TypeWidth(ty: Type): nat {
    match ty
    case I1 => 1
    case I8 => 8
    case I16 => 16
    case I32 => 32
    case I64 => 64
    case _ => 0
  }

  // State slots, numbered as in the DolIRStateSlot enumeration.
  const GPR0: nat := 0
  const FPR0: nat := 32
  const PS1_0: nat := 64
  const LR: nat := 97
  const CTR: nat := 98
  const CR: nat := 99
  const CR0: nat := 100
  const XER: nat := 108
  const XER_CA: nat := 109
  const XER_OV: nat := 110
  const XER_SO: nat := 111
  const TIMEBASE: nat := 120
  const RESERVE_VALID: nat := 148
  const DOWNCOUNT: nat := 149
  const STATE_COUNT: nat := 150

  function StateType(slot: nat): Type {
    if FPR0 <= slot < 96 then F64
    else if slot == TIMEBASE || slot == DOWNCOUNT then I64
    else if slot == RESERVE_VALID || XER_CA <= slot <= XER_SO then I1
    else I32
  }

  datatype Op =
    | Constant | StateRead | StateWrite
    | Add | Sub | Mul | UDiv | SDiv
    | And | Or | Xor | Not
    | Shl | LShr | AShr | Rotl | Clz
    | Trunc | ZExt | SExt
    | ICmpEq | ICmpNe | ICmpUlt | ICmpUle | ICmpSlt | ICmpSle
    | Select
    | GuestLoad | GuestStore | HelperCall
    | Other  // floating-point, vector and byte-swap operations

  const NO_VALUE: nat := 0

  datatype Inst<W> = Inst(
    op: Op, ty: Type, result: nat, operands: seq<nat>, imm: W, aux: nat,
    stateUses: set<nat>, stateDefs: set<nat>)

  datatype TermKind =
    | NoTerm | Fallthrough | Branch | CondBranch | Indirect
    | Return | SideExit | Fallback | SystemCall | Rfi

  datatype Target = NoBlock | Block(index: nat)
}
