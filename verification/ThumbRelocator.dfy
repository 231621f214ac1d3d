/** The Thumb-2 relocator: what one 32-bit instruction becomes. */
module ThumbRelocator {
  import opened ThumbMachine

  /** `EmitThumb2Branch`: the two halfwords of a B (or BL) with byte offset `imm`. */
  function BranchHalves(imm: bv32, link: bool): seq<bv16> {
    var operand := imm >> 1;
    var signbit := (imm >> 31) & 1;
    var i1, i2 := (operand >> 22) & 1, (operand >> 21) & 1;
    var imm10, imm11 := (operand >> 11) & 0x3FF, operand & 0x7FF;
    var j1, j2 := (i1 ^ signbit) ^ 1, (i2 ^ signbit) ^ 1;
    [(0xF000 | (signbit << 10) | imm10) as bv16,
     (0x9000 | (j1 << 13) | (j2 << 11) | imm11 | (if link then 0x4000 else 0)) as bv16]
  }

  /** `EmitThumb2LoadLiteral` for a non-negative offset: only a positive one sets U. */
  function LoadLiteralHalves(rt: bv16, offset: bv16): seq<bv16>
    requires rt < 16 && offset < 0x1000
  {
    [0xF85F | (if offset > 0 then 0x80 else 0), (rt << 12) | offset]
  }

  /** `t2_ldr(rt, [rt, #0])`. */
  function LoadSelfHalves(rt: bv16): seq<bv16>
    requires rt < 16
  {
    [0xF8D0 | rt, rt << 12]
  }

  /** `EmitAddress`. */
  function AddressHalves(v: bv32): seq<bv16> {
    [(v & 0xFFFF) as bv16, (v >> 16) as bv16]
  }

  /** The offset the relocator itself decodes from B, BL and BLX. */
  function DecodeLabel(inst1: bv16, inst2: bv16): bv32 {
    var s, j1, j2 := ((inst1 >> 10) & 1) as bv32, ((inst2 >> 13) & 1) as bv32, ((inst2 >> 11) & 1) as bv32;
    var i1, i2 := if j1 ^ s == 0 then 1 as bv32 else 0, if j2 ^ s == 0 then 1 as bv32 else 0;
    (((inst2 & 0x7FF) as bv32) << 1) | (((inst1 & 0x3FF) as bv32) << 12) | (i2 << 22) | (i1 << 23) | ((0 - s) << 24)
  }

  function DecodeExchangeLabel(inst1: bv16, inst2: bv16): bv32 {
    var s, j1, j2 := ((inst1 >> 10) & 1) as bv32, ((inst2 >> 13) & 1) as bv32, ((inst2 >> 11) & 1) as bv32;
    var i1, i2 := if j1 ^ s == 0 then 1 as bv32 else 0, if j2 ^ s == 0 then 1 as bv32 else 0;
    ((((inst2 >> 1) & 0x3FF) as bv32) << 2) | (((inst1 & 0x3FF) as bv32) << 12)
    | (i2 << 22) | (i1 << 23) | ((0 - s) << 24)
  }

  predicate IsControl(inst1: bv16, inst2: bv16) { inst1 & 0xF800 == 0xF000 && inst2 & 0x8000 == 0x8000 }
  predicate IsCondBranch(inst1: bv16, inst2: bv16) {
    IsControl(inst1, inst2) && (inst1 >> 6) & 14 != 14 && (inst2 >> 12) & 5 == 0
  }
  predicate IsBranch(inst1: bv16, inst2: bv16) { IsControl(inst1, inst2) && (inst2 >> 12) & 5 == 1 }
  predicate IsBranchLink(inst1: bv16, inst2: bv16) { IsControl(inst1, inst2) && (inst2 >> 12) & 5 == 5 }
  predicate IsBranchLinkExchange(inst1: bv16, inst2: bv16) { IsControl(inst1, inst2) && (inst2 >> 12) & 5 == 4 }
  predicate IsAdr(inst1: bv16, inst2: bv16) {
    && inst1 & 0xFA10 == 0xF200 && inst2 & 0x8000 == 0 && inst1 & 0x100 == 0 && (inst2 >> 5) & 2 == 0
    && (inst1 >> 7) & 1 == (inst1 >> 5) & 1 && inst1 & 15 == 15
  }
  predicate IsLoadLiteral(inst1: bv16, inst2: bv16) { inst1 & 0xFF7F == 0xF85F }

  /** A jump to `v` through the literal that follows it. */
  function JumpThrough(v: bv32): seq<bv16> {
    LoadLiteralHalves(15, 0) + AddressHalves(v)
  }

  /** A call to `v` through a literal: call the jump, and on return skip it. */
  function CallThrough(v: bv32): seq<bv16> {
    BranchHalves(4, true) + BranchHalves(8, false) + JumpThrough(v)
  }

  /** A branch over a skip, and a jump to `v`. */
  function SkipOrJump(branch: seq<bv16>, v: bv32): seq<bv16> {
    branch + BranchHalves(4, false) + JumpThrough(v)
  }

  /** Load the literal `v` into `rt` and branch over it with offset `skip`. */
  function LoadAddress(rt: bv16, skip: bv32, v: bv32): seq<bv16>
    requires rt < 16
  {
    LoadLiteralHalves(rt, 4) + BranchHalves(skip, false) + AddressHalves(v)
  }

  function CondBranchLabel(inst1: bv16, inst2: bv16): bv32 {
    var s := if (inst1 >> 10) & 1 == 1 then 0xFFF0_0000 as bv32 else 0;
    s | ((((inst2 >> 11) & 1) as bv32) << 19) | ((((inst2 >> 13) & 1) as bv32) << 18)
    | (((inst1 & 0x3F) as bv32) << 12) | (((inst2 & 0x7FF) as bv32) << 1)
  }

  function AdrValue(inst1: bv16, inst2: bv16, from_pc: bv32): bv32 {
    var imm := ((inst2 & 0xFF) as bv32) | ((((inst2 >> 12) & 7) as bv32) << 8) | ((((inst1 >> 10) & 1) as bv32) << 11);
    if (inst1 >> 7) & 1 == 0 then Plus(from_pc, imm) else Minus(from_pc, imm)
  }

  /** The address of the literal, rounded down only after the offset is added. */
  function LiteralValue(inst1: bv16, inst2: bv16, from_pc: bv32): bv32 {
    var imm12 := (inst2 & 0xFFF) as bv32;
    Align(if (inst1 >> 7) & 1 == 1 then Plus(from_pc, imm12) else Minus(from_pc, imm12))
  }

  /** `Thumb2RelocateSingleInstr` after its alignment, for an instruction whose PC reads as `from_pc`. */
  function Relocate(inst1: bv16, inst2: bv16, from_pc: bv32): seq<bv16> {
    if IsCondBranch(inst1, inst2) then
      SkipOrJump([inst1 & 0xFFC0, (inst2 & 0xD000) | 2], Plus(Plus(from_pc, CondBranchLabel(inst1, inst2)), 1))
    else if IsBranch(inst1, inst2) then
      JumpThrough(Plus(Plus(from_pc, DecodeLabel(inst1, inst2)), 1))
    else if IsBranchLink(inst1, inst2) then
      CallThrough(Plus(Plus(from_pc, DecodeLabel(inst1, inst2)), 1))
    else if IsBranchLinkExchange(inst1, inst2) then
      CallThrough(Plus(Align(from_pc), DecodeExchangeLabel(inst1, inst2)))
    else if IsAdr(inst1, inst2) then
      LoadAddress((inst2 >> 8) & 15, 0, AdrValue(inst1, inst2, from_pc))
    else if IsLoadLiteral(inst1, inst2) then
      LoadAddress(inst2 >> 12, 4, LiteralValue(inst1, inst2, from_pc)) + LoadSelfHalves(inst2 >> 12)
    else
      [inst1, inst2]
  }
}
