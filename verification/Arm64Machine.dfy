/**
 A byte-addressed AArch64 machine, at the level of encoded instruction words.

 The PC-relative instructions and the few instructions that the relocator itself emits
 (MOVZ, MOVK, LDR with an unsigned offset, BR, BLR) are decoded from the bit fields that
 section C4.1 of the Arm Architecture Reference Manual (DDI 0487) gives, and executed as its
 section C6.2 says.  Every other instruction is executed by a parameter `sem`, which sees the
 word and the machine core but not the program counter.
 */
module Arm64Machine {

  /** Everything but the program counter.  Register numbers are words below 32; number 31 is XZR.
      `rest` stands for what no instruction below touches: SP, SIMD and system registers. */
  datatype Core<R> = Core(x: bv32 -> bv64, nzcv: bv4, mem: bv64 -> bv8, rest: R)

  datatype State<R> = State(pc: bv64, core: Core<R>)

  /** What one instruction does: fall through, branch, or branch and link. */
  datatype Effect<R> =
    | Next(core: Core<R>)
    | Jump(core: Core<R>, target: bv64)
    | Call(core: Core<R>, target: bv64)

  type Semantics<!R> = (bv32, Core<R>) -> Effect<R>

  datatype Instr =
    | LoadLiteral(opc: bv32, simd: bool, rt: bv32, offset: bv64)
    | PcRelative(page: bool, rd: bv32, offset: bv64)
    | Branch(link: bool, offset: bv64)
    | TestBranch(nonzero: bool, rt: bv32, pos: bv32, offset: bv64)
    | CompareBranch(nonzero: bool, wide: bool, rt: bv32, offset: bv64)
    | CondBranch(cond: bv32, offset: bv64)
    | MoveWide(keep: bool, rd: bv32, imm: bv64, half: bv32)
    | LoadWide(rt: bv32, rn: bv32, offset: bv64)
    | BranchRegister(link: bool, rn: bv32)
    | Plain

  // ----- sign extension of the immediate fields, to 64 bits -----

  function Extend16(imm: bv32): bv64 {
    if imm & 0x8000 != 0 then (imm as bv64) | 0xFFFF_FFFF_FFFF_0000 else imm as bv64
  }

  function Extend21(imm: bv32): bv64 {
    if imm & 0x10_0000 != 0 then (imm as bv64) | 0xFFFF_FFFF_FFE0_0000 else imm as bv64
  }

  function Extend28(imm: bv32): bv64 {
    if imm & 0x800_0000 != 0 then (imm as bv64) | 0xFFFF_FFFF_F000_0000 else imm as bv64
  }

  // ----- decoding -----

  function Decode(w: bv32): Instr {
    if (w >> 27) & 7 == 3 && (w >> 24) & 3 == 0 then
      LoadLiteral(w >> 30, (w >> 26) & 1 == 1, w & 31, Extend21(((w >> 5) & 0x7FFFF) << 2))
    else if (w >> 24) & 31 == 16 then
      PcRelative(w >> 31 == 1, w & 31, Extend21((((w >> 5) & 0x7FFFF) << 2) | ((w >> 29) & 3)))
    else if (w >> 26) & 31 == 5 then
      Branch(w >> 31 == 1, Extend28((w & 0x3FFFFFF) << 2))
    else if (w >> 25) & 63 == 27 then
      TestBranch((w >> 24) & 1 == 1, w & 31, ((w >> 31) << 5) | ((w >> 19) & 31), Extend16(((w >> 5) & 0x3FFF) << 2))
    else if (w >> 25) & 63 == 26 then
      CompareBranch((w >> 24) & 1 == 1, w >> 31 == 1, w & 31, Extend21(((w >> 5) & 0x7FFFF) << 2))
    else if w >> 24 == 0x54 then
      CondBranch(w & 15, Extend21(((w >> 5) & 0x7FFFF) << 2))
    else if (w >> 23) == 0x1A5 || (w >> 23) == 0x1E5 then
      MoveWide(w >> 23 == 0x1E5, w & 31, ((w >> 5) & 0xFFFF) as bv64, (w >> 21) & 3)
    else if w >> 22 == 0x3E5 && (w >> 5) & 31 != 31 then
      LoadWide(w & 31, (w >> 5) & 31, (((w >> 10) & 0xFFF) as bv64) << 3)
    else if w & 0xFFFF_FC1F == 0xD61F_0000 then BranchRegister(false, (w >> 5) & 31)
    else if w & 0xFFFF_FC1F == 0xD63F_0000 then BranchRegister(true, (w >> 5) & 31)
    else Plain
  }

  // ----- registers, memory, flags -----

  /** Address arithmetic, modulo 2^64. */
  function Plus(a: bv64, b: bv64): bv64 { a + b }

  function ReadX<R>(c: Core<R>, r: bv32): bv64 {
    if r == 31 then 0 else c.x(r)
  }

  function WriteX<R>(c: Core<R>, r: bv32, v: bv64): Core<R> {
    if r == 31 then c else c.(x := y => if y == r then v else c.x(y))
  }

  function Load32(mem: bv64 -> bv8, a: bv64): bv32 {
    (mem(a) as bv32) | ((mem(a + 1) as bv32) << 8) | ((mem(a + 2) as bv32) << 16) | ((mem(a + 3) as bv32) << 24)
  }

  function Join(low: bv32, high: bv32): bv64 {
    (low as bv64) | ((high as bv64) << 32)
  }

  function Load64(mem: bv64 -> bv8, a: bv64): bv64 {
    Join(Load32(mem, a), Load32(mem, Plus(a, 4)))
  }

  /** ConditionHolds: bits 3:1 choose the test, bit 0 inverts it except for 1111. */
  predicate CondHolds(cond: bv32, nzcv: bv4) {
    var n, z, c, v := nzcv & 8 != 0, nzcv & 4 != 0, nzcv & 2 != 0, nzcv & 1 != 0;
    var base :=
      if cond >> 1 == 0 then z
      else if cond >> 1 == 1 then c
      else if cond >> 1 == 2 then n
      else if cond >> 1 == 3 then v
      else if cond >> 1 == 4 then c && !z
      else if cond >> 1 == 5 then n == v
      else if cond >> 1 == 6 then n == v && !z
      else true;
    if cond & 1 == 1 && cond != 15 then !base else base
  }

  /** Bit `pos` of `v`, for `pos` below 64. */
  predicate BitSet(v: bv64, pos: bv32) {
    (if pos < 64 then v >> (pos as bv7) else 0) & 1 == 1
  }

  predicate IsNonzero(wide: bool, v: bv64) {
    (if wide then v else v & 0xFFFF_FFFF) != 0
  }

  function MoveWideValue(keep: bool, was: bv64, imm: bv64, half: bv32): bv64 {
    if half == 0 then (if keep then was & 0xFFFF_FFFF_FFFF_0000 else 0) | imm
    else if half == 1 then (if keep then was & 0xFFFF_FFFF_0000_FFFF else 0) | (imm << 16)
    else if half == 2 then (if keep then was & 0xFFFF_0000_FFFF_FFFF else 0) | (imm << 32)
    else (if keep then was & 0x0000_FFFF_FFFF_FFFF else 0) | (imm << 48)
  }

  // ----- execution -----

  function Taken<R>(b: bool, c: Core<R>, target: bv64): Effect<R> {
    if b then Jump(c, target) else Next(c)
  }

  function Perform<R>(sem: Semantics<R>, i: Instr, w: bv32, pc: bv64, c: Core<R>): Effect<R> {
    match i
    case LoadLiteral(opc, simd, rt, offset) =>
      if simd || opc >= 2 then sem(w, c)
      else if opc == 0 then Next(WriteX(c, rt, Load32(c.mem, Plus(pc, offset)) as bv64))
      else Next(WriteX(c, rt, Load64(c.mem, Plus(pc, offset))))
    case PcRelative(page, rd, offset) =>
      Next(WriteX(c, rd, if page then Plus(pc & 0xFFFF_FFFF_FFFF_F000, offset << 12) else Plus(pc, offset)))
    case Branch(link, offset) => if link then Call(c, Plus(pc, offset)) else Jump(c, Plus(pc, offset))
    case TestBranch(nonzero, rt, pos, offset) => Taken(BitSet(ReadX(c, rt), pos) == nonzero, c, Plus(pc, offset))
    case CompareBranch(nonzero, wide, rt, offset) =>
      Taken(IsNonzero(wide, ReadX(c, rt)) == nonzero, c, Plus(pc, offset))
    case CondBranch(cond, offset) => Taken(CondHolds(cond, c.nzcv), c, Plus(pc, offset))
    case MoveWide(keep, rd, imm, half) => Next(WriteX(c, rd, MoveWideValue(keep, ReadX(c, rd), imm, half)))
    case LoadWide(rt, rn, offset) => Next(WriteX(c, rt, Load64(c.mem, Plus(ReadX(c, rn), offset))))
    case BranchRegister(link, rn) => if link then Call(c, ReadX(c, rn)) else Jump(c, ReadX(c, rn))
    case Plain => sem(w, c)
  }

  function Execute<R>(sem: Semantics<R>, w: bv32, pc: bv64, c: Core<R>): Effect<R> {
    Perform(sem, Decode(w), w, pc, c)
  }

  function Commit<R>(pc: bv64, e: Effect<R>): State<R> {
    match e
    case Next(c) => State(Plus(pc, 4), c)
    case Jump(c, target) => State(target, c)
    case Call(c, target) => State(target, WriteX(c, 30, Plus(pc, 4)))
  }

  /** Fetch the word at the program counter, decode it, execute it. */
  function Step<R>(sem: Semantics<R>, s: State<R>): State<R> {
    Commit(s.pc, Execute(sem, Load32(s.core.mem, s.pc), s.pc, s.core))
  }

  function Run<R>(sem: Semantics<R>, s: State<R>, n: nat): State<R>
    decreases n
  {
    if n == 0 then s else Run(sem, Step(sem, s), n - 1)
  }

  // ----- addresses of words, and words held in memory -----

  /** The address of word `i` of a sequence of words placed at `base`. */
  function Place(base: bv64, i: nat): bv64 {
    if i == 0 then base else Plus(Place(base, i - 1), 4)
  }

  ghost predicate Holds(mem: bv64 -> bv8, base: bv64, words: seq<bv32>) {
    forall i :: 0 <= i < |words| ==> Load32(mem, Place(base, i)) == words[i]
  }
}
