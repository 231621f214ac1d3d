/**
 A Thumb machine for the 32-bit instructions that the Thumb-2 relocator takes apart and for those it
 emits: B (T3 and T4), BL (T1), BLX (T2), ADR (T2 and T3), MOVW (T3), LDR literal (T2), LDR immediate (T3).
 Encodings and operations are those of section F5.1 of the Arm Architecture Reference Manual (DDI 0487).
 */
module ThumbMachine {
  import opened Common

  /** `r` holds registers 0 to 14; `pc` is the address of the instruction; `thumb` the execution state; `holds` says
      which conditions the flags satisfy. */
  datatype State = State(pc: bv32, thumb: bool, r: bv32 -> bv32, mem: bv32 -> bv8, holds: bv16 -> bool)

  datatype Instr =
    | Branch(offset: bv32)
    | BranchLink(offset: bv32)
    | BranchLinkExchange(offset: bv32)
    | CondBranch(cond: bv16, offset: bv32)
    | Address(add: bool, rd: bv32, imm12: bv32)
    | MoveWide(rd: bv32, imm16: bv32)
    | LoadLiteral(add: bool, rt: bv32, imm12: bv32)
    | LoadOffset(rt: bv32, rn: bv32, imm12: bv32)
    | Unknown

  /** Address arithmetic, modulo 2^32. */
  function Plus(a: bv32, b: bv32): bv32 { a + b }

  function Minus(a: bv32, b: bv32): bv32 { a - b }

  function Load16(mem: bv32 -> bv8, a: bv32): bv16 {
    (mem(a) as bv16) | ((mem(a + 1) as bv16) << 8)
  }

  function Join(low: bv16, high: bv16): bv32 {
    (low as bv32) | ((high as bv32) << 16)
  }

  function Load32(mem: bv32 -> bv8, a: bv32): bv32 {
    Join(Load16(mem, a), Load16(mem, Plus(a, 2)))
  }

  /** SignExtend(S:I1:I2:imm10:imm11:'0'), where I1 and I2 are NOT (J EOR S). */
  function BranchOffset(h1: bv16, h2: bv16): bv32 {
    var s, j1, j2 := (h1 >> 10) & 1, (h2 >> 13) & 1, (h2 >> 11) & 1;
    var i1, i2 := (j1 ^ s) ^ 1, (j2 ^ s) ^ 1;
    (if s == 1 then 0xFF00_0000 else 0)
    | ((i1 as bv32) << 23) | ((i2 as bv32) << 22) | (((h1 & 0x3FF) as bv32) << 12) | (((h2 & 0x7FF) as bv32) << 1)
  }

  /** The offset of a conditional branch (T3): SignExtend(S:J2:J1:imm6:imm11:'0'). */
  function CondOffset(h1: bv16, h2: bv16): bv32 {
    (if (h1 >> 10) & 1 == 1 then 0xFFF0_0000 else 0)
    | ((((h2 >> 11) & 1) as bv32) << 19) | ((((h2 >> 13) & 1) as bv32) << 18)
    | (((h1 & 0x3F) as bv32) << 12) | (((h2 & 0x7FF) as bv32) << 1)
  }

  /** i:imm3:imm8. */
  function AddressOffset(h1: bv16, h2: bv16): bv32 {
    ((h2 & 0xFF) as bv32) | ((((h2 >> 12) & 7) as bv32) << 8) | ((((h1 >> 10) & 1) as bv32) << 11)
  }

  function Decode(h1: bv16, h2: bv16): Instr {
    if h1 >> 11 == 0x1E && h2 & 0xD000 == 0x9000 then Branch(BranchOffset(h1, h2))
    else if h1 >> 11 == 0x1E && h2 & 0xD000 == 0xD000 then BranchLink(BranchOffset(h1, h2))
    else if h1 >> 11 == 0x1E && h2 & 0xD001 == 0xC000 then BranchLinkExchange(BranchOffset(h1, h2))
    else if h1 >> 11 == 0x1E && h2 & 0xD000 == 0x8000 && (h1 >> 6) & 14 != 14 then
      CondBranch((h1 >> 6) & 15, CondOffset(h1, h2))
    else if (h1 & 0xFBFF == 0xF20F || h1 & 0xFBFF == 0xF2AF) && h2 & 0x8000 == 0 then
      Address(h1 & 0xFBFF == 0xF20F, ((h2 >> 8) & 15) as bv32, AddressOffset(h1, h2))
    else if h1 & 0xFBF0 == 0xF240 && h2 & 0x8000 == 0 then
      MoveWide(((h2 >> 8) & 15) as bv32, (((h1 & 15) as bv32) << 12) | AddressOffset(h1, h2))
    else if h1 & 0xFF7F == 0xF85F then LoadLiteral((h1 >> 7) & 1 == 1, (h2 >> 12) as bv32, (h2 & 0xFFF) as bv32)
    else if h1 & 0xFFF0 == 0xF8D0 && h1 & 15 != 15 then
      LoadOffset((h2 >> 12) as bv32, (h1 & 15) as bv32, (h2 & 0xFFF) as bv32)
    else Unknown
  }

  function Align(a: bv32): bv32 { a & 0xFFFF_FFFC }

  function Put(s: State, rt: bv32, v: bv32): State {
    s.(r := x => if x == rt then v else s.r(x))
  }

  /** BXWritePC: bit 0 chooses the execution state; `None` where the address is unpredictable. */
  function BranchExchange(s: State, a: bv32): Option<State> {
    if a & 1 == 1 then Some(s.(pc := a & 0xFFFF_FFFE, thumb := true))
    else if a & 2 == 0 then Some(s.(pc := a, thumb := false))
    else None
  }

  /** A load into a register, or into the program counter. */
  function Loaded(s: State, rt: bv32, v: bv32): Option<State> {
    if rt == 15 then BranchExchange(s, v) else Some(Put(s, rt, v).(pc := Plus(s.pc, 4)))
  }

  /** The address a literal load reads, or ADR computes. */
  function LiteralAddress(pc: bv32, add: bool, imm12: bv32): bv32 {
    if add then Plus(Align(Plus(pc, 4)), imm12) else Minus(Align(Plus(pc, 4)), imm12)
  }

  function Execute(i: Instr, s: State): Option<State> {
    match i
    case Branch(offset) => Some(s.(pc := Plus(Plus(s.pc, 4), offset)))
    case BranchLink(offset) => Some(Put(s, 14, Plus(s.pc, 4) | 1).(pc := Plus(Plus(s.pc, 4), offset)))
    case BranchLinkExchange(offset) =>
      Some(Put(s, 14, Plus(s.pc, 4) | 1).(pc := Plus(Align(Plus(s.pc, 4)), offset), thumb := false))
    case CondBranch(cond, offset) =>
      Some(s.(pc := if s.holds(cond) then Plus(Plus(s.pc, 4), offset) else Plus(s.pc, 4)))
    case Address(add, rd, imm12) =>
      if rd == 15 then None else Some(Put(s, rd, LiteralAddress(s.pc, add, imm12)).(pc := Plus(s.pc, 4)))
    case MoveWide(rd, imm16) => if rd == 15 then None else Some(Put(s, rd, imm16).(pc := Plus(s.pc, 4)))
    case LoadLiteral(add, rt, imm12) => Loaded(s, rt, Load32(s.mem, LiteralAddress(s.pc, add, imm12)))
    case LoadOffset(rt, rn, imm12) => Loaded(s, rt, Load32(s.mem, Plus(s.r(rn), imm12)))
    case Unknown => None
  }

  /** Execute the 32-bit instruction at the program counter. */
  function Step(s: State): Option<State> {
    Execute(Decode(Load16(s.mem, s.pc), Load16(s.mem, Plus(s.pc, 2))), s)
  }

  function Run(s: State, n: nat): Option<State>
    decreases n
  {
    if n == 0 then Some(s) else
      match Step(s)
      case None => None
      case Some(t) => Run(t, n - 1)
  }

  /** Halfwords `code` stand at `a`. */
  ghost predicate Holds(mem: bv32 -> bv8, a: bv32, code: seq<bv16>)
    decreases code
  {
    code == [] || (Load16(mem, a) == code[0] && Holds(mem, Plus(a, 2), code[1..]))
  }
}
