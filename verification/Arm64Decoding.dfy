/** The relocator's masks and shifts against the architecture's encodings. */
module Arm64Decoding {
  import opened Common
  import opened Arm64Machine
  import opened Arm64Relocator

  // ----- the relocator's decoders -----

  lemma {:induction false} Offset14(w: bv32)
    ensures DecodeImm14Offset(w) == Extend16(((w >> 5) & 0x3FFF) << 2)
  {}

  lemma {:induction false} Offset19(w: bv32)
    ensures DecodeImm19Offset(w) == Extend21(((w >> 5) & 0x7FFFF) << 2)
  {}

  lemma {:induction false} Offset26(w: bv32)
    ensures DecodeImm26Offset(w) == Extend28((w & 0x3FFFFFF) << 2)
  {}

  lemma {:induction false} Offset21(w: bv32)
    ensures DecodeImmhiImmloOffset(w) == Extend21((((w >> 5) & 0x7FFFF) << 2) | ((w >> 29) & 3))
  {}

  lemma {:induction false} LoadLiteralDecodes(w: bv32)
    ensures IsLoadLiteral(w) <==> Decode(w).LoadLiteral?
    ensures IsLoadLiteral(w) ==>
              Decode(w) == LoadLiteral(w >> 30, (w >> 26) & 1 == 1, w & 31, DecodeImm19Offset(w))
  {
    Offset19(w);
  }

  lemma {:induction false} PcRelativeDecodes(w: bv32)
    ensures IsPcRelative(w) <==> Decode(w).PcRelative?
    ensures IsPcRelative(w) ==>
              Decode(w) == PcRelative(w & 0x9F00_0000 != 0x1000_0000, w & 31, DecodeImmhiImmloOffset(w))
  {
    Offset21(w);
  }

  lemma {:induction false} BranchDecodes(w: bv32)
    ensures IsBranch(w) <==> Decode(w).Branch?
    ensures IsBranch(w) ==> Decode(w) == Branch(w & 0xFC00_0000 == 0x9400_0000, DecodeImm26Offset(w))
  {
    Offset26(w);
  }

  lemma {:induction false} TestBranchDecodes(w: bv32)
    ensures IsTestBranch(w) <==> Decode(w).TestBranch?
    ensures IsTestBranch(w) ==> Decode(w).offset == DecodeImm14Offset(w)
  {
    Offset14(w);
  }

  lemma {:induction false} TestBranchInverts(w: bv32)
    requires IsTestBranch(w)
    ensures Decode(InvertTestBranch(w)) ==
      TestBranch((w >> 24) & 1 != 1, w & 31, ((w >> 31) << 5) | ((w >> 19) & 31), 12)
  {}

  lemma {:induction false} CompareBranchDecodes(w: bv32)
    ensures IsCompareBranch(w) <==> Decode(w).CompareBranch?
    ensures IsCompareBranch(w) ==> Decode(w).offset == DecodeImm19Offset(w)
  {
    Offset19(w);
  }

  lemma {:induction false} CompareBranchInverts(w: bv32)
    requires IsCompareBranch(w)
    ensures Decode(InvertCompareBranch(w)) ==
              CompareBranch((w >> 24) & 1 != 1, w >> 31 == 1, w & 31, 12)
  {}

  lemma {:induction false} CondBranchDecodes(w: bv32)
    ensures Decode(w).CondBranch? <==> w >> 24 == 0x54
    ensures w >> 24 == 0x54 ==> IsCondBranch(w) && Decode(w) == CondBranch(w & 15, DecodeImm19Offset(w))
  {
    Offset19(w);
  }

  lemma {:induction false} CondBranchInverts(w: bv32)
    requires w >> 24 == 0x54
    ensures Decode(InvertCondBranch(w)) == CondBranch((w & 15) ^ 1, 12)
  {}

  lemma {:induction false} CopiedClass(w: bv32)
    ensures !IsLoadLiteral(w) && !IsPcRelative(w) && !IsBranch(w) && !IsTestBranch(w) && !IsCompareBranch(w)
              && !IsCondBranch(w) <==>
            && (Decode(w).MoveWide? || Decode(w).LoadWide? || Decode(w).BranchRegister? || Decode(w).Plain?)
            && w >> 24 != 0x55
  {
    hide Decode, IsLoadLiteral, IsPcRelative, IsBranch, IsTestBranch, IsCompareBranch, IsCondBranch;
    LoadLiteralDecodes(w);
    PcRelativeDecodes(w);
    BranchDecodes(w);
    TestBranchDecodes(w);
    CompareBranchDecodes(w);
    CondBranchDecodes(w);
    CondBranchMask(w);
  }

  lemma {:induction false} CondBranchMask(w: bv32)
    ensures IsCondBranch(w) <==> w >> 24 == 0x54 || w >> 24 == 0x55
  {}

  /** A word is copied if and only if the architecture decodes it as none of the six kinds that depend on the program
      counter, and it is not one of the unallocated words 0x55xx_xxxx, which the mask takes for b.cond. */
  lemma {:induction false} CopiedExactly(w: bv32, pc: bv64)
    ensures Relocate(w, pc) == Piece([w], None) <==>
              && (Decode(w).MoveWide? || Decode(w).LoadWide? || Decode(w).BranchRegister? || Decode(w).Plain?)
              && w >> 24 != 0x55
  {
    hide Decode, MovWords, LdrWord, Plus, AdrValue, IsLoadLiteral, IsPcRelative, IsBranch, IsTestBranch;
    hide IsCompareBranch, IsCondBranch, DecodeImm14Offset, DecodeImm19Offset, DecodeImm26Offset;
    hide BranchOver, BranchThrough;
    CopiedClass(w);
  }

  // ----- the words the relocator emits -----

  lemma {:induction false} MovzDecodes(rt: bv32, imm16: bv32)
    requires rt < 32 && imm16 < 0x10000
    ensures Decode(MovzWord(rt, imm16)) == MoveWide(false, rt, imm16 as bv64, 0)
  {}

  lemma {:induction false} MovkDecodes(rt: bv32, imm16: bv32, half: bv32)
    requires rt < 32 && imm16 < 0x10000 && half < 4
    ensures Decode(MovkWord(rt, imm16, half)) == MoveWide(true, rt, imm16 as bv64, half)
  {}

  lemma {:induction false} LdrDecodes(rt: bv32)
    requires rt < 32
    ensures Decode(LdrWord(rt, TMP_REG_0)) == LoadWide(rt, TMP_REG_0, 0)
  {}


  lemma {:induction false} BrDecodes()
    ensures Decode(BrWord(TMP_REG_0)) == BranchRegister(false, TMP_REG_0)
    ensures Decode(BlrWord(TMP_REG_0)) == BranchRegister(true, TMP_REG_0)
  {}

  // ----- values -----

  lemma {:induction false} InvertedCondition(cond: bv32, nzcv: bv4)
    requires cond < 14
    ensures CondHolds(cond ^ 1, nzcv) == !CondHolds(cond, nzcv)
  {}

  /** AL and NV both always hold, so flipping bit 0 inverts nothing. */
  lemma {:induction false} AlwaysStaysAlways(cond: bv32, nzcv: bv4)
    requires cond == 14 || cond == 15
    ensures CondHolds(cond, nzcv) && CondHolds(cond ^ 1, nzcv)
  {}

  lemma {:induction false} QuarterSmall(v: bv64, k: bv32)
    ensures Quarter(v, k) < 0x10000
  {}

  /** One MOVZ and three MOVKs of the quarters of `v` make `v`, whatever was there. */
  lemma {:induction false} QuartersMakeWord(was: bv64, v: bv64)
    ensures var a := MoveWideValue(false, was, Quarter(v, 0) as bv64, 0);
            var b := MoveWideValue(true, a, Quarter(v, 1) as bv64, 1);
            var c := MoveWideValue(true, b, Quarter(v, 2) as bv64, 2);
            MoveWideValue(true, c, Quarter(v, 3) as bv64, 3) == v
  {}

  lemma {:induction false} HalvesMakeWord(v: bv64)
    ensures Join(Low(v), High(v)) == v
  {}
}
