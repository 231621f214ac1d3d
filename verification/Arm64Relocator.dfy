/**
 The ARM64 instruction relocator: bit-field decoders, the assembler calls it makes, the loop
 over the origin block, the jump back, and the binding of the literal pool.

 Positions in the code buffer are counted in 4-byte words; every emission is a whole number of
 words.
 */
module Arm64Relocator {
  import opened Common
  import opened Residues
  import opened Arm64Machine

  // ----- bit-field decoders -----

  // SignExtend(x, M, 64) shifts left and then arithmetically right by 64 - M.
  function SignExtend16(x: bv64): bv64 {
    var y := x << 48;
    if y & 0x8000_0000_0000_0000 != 0 then (y >> 48) | 0xFFFF_FFFF_FFFF_0000 else y >> 48
  }

  function SignExtend21(x: bv64): bv64 {
    var y := x << 43;
    if y & 0x8000_0000_0000_0000 != 0 then (y >> 43) | 0xFFFF_FFFF_FFE0_0000 else y >> 43
  }

  function SignExtend28(x: bv64): bv64 {
    var y := x << 36;
    if y & 0x8000_0000_0000_0000 != 0 then (y >> 36) | 0xFFFF_FFFF_F000_0000 else y >> 36
  }

  function DecodeImm14Offset(w: bv32): bv64 {
    SignExtend16((((w >> 5) & 0x3FFF) as bv64) << 2)
  }

  function DecodeImm19Offset(w: bv32): bv64 {
    SignExtend21((((w >> 5) & 0x7FFFF) as bv64) << 2)
  }

  function DecodeImm26Offset(w: bv32): bv64 {
    SignExtend28(((w & 0x3FFFFFF) as bv64) << 2)
  }

  function DecodeImmhiImmloOffset(w: bv32): bv64 {
    SignExtend21((((w >> 29) & 3) + (((w >> 5) & 0x7FFFF) << 2)) as bv64)
  }

  function DecodeImmhiImmloZero12Offset(w: bv32): bv64 {
    DecodeImmhiImmloOffset(w) << 12
  }

  // ----- the words the assembler emits -----

  const TMP_REG_0: bv32 := 17

  function MovzWord(rd: bv32, imm16: bv32): bv32 { 0xD280_0000 | (imm16 << 5) | rd }

  function MovkWord(rd: bv32, imm16: bv32, half: bv32): bv32 { 0xF280_0000 | (half << 21) | (imm16 << 5) | rd }

  /** `Low16Bits` and `High16Bits` of the two halves of a value. */
  function Quarter(v: bv64, k: bv32): bv32 {
    if k == 0 then (v & 0xFFFF) as bv32
    else if k == 1 then ((v >> 16) & 0xFFFF) as bv32
    else if k == 2 then ((v >> 32) & 0xFFFF) as bv32
    else ((v >> 48) & 0xFFFF) as bv32
  }

  /** `Mov`: one MOVZ and three MOVKs, whatever the value. */
  function MovWords(rd: bv32, v: bv64): (r: seq<bv32>)
    ensures |r| == 4
  {
    [MovzWord(rd, Quarter(v, 0)),
     MovkWord(rd, Quarter(v, 1), 1),
     MovkWord(rd, Quarter(v, 2), 2),
     MovkWord(rd, Quarter(v, 3), 3)]
  }

  /** `ldr(reg, MemOperand(rn, 0))`: the opcode is LDR_x whatever the width of `reg`. */
  function LdrWord(rt: bv32, rn: bv32): bv32 { 0xF940_0000 | (rn << 5) | rt }

  /** `Ldr(reg, label)` for a label that is not bound yet: a 64-bit literal load with a zero offset. */
  function LdrLabelWord(rt: bv32): bv32 { 0x5800_0000 | rt }

  function BrWord(rn: bv32): bv32 { 0xD61F_0000 | (rn << 5) }

  function BlrWord(rn: bv32): bv32 { 0xD63F_0000 | (rn << 5) }

  /** `link_confused_instructions`: put the distance to the label, in words, into imm19. */
  function LinkWord(w: bv32, distance: nat): bv32 {
    (w & 0xFF00_001F) | ((Residue(distance) & 0x7FFFF) << 5)
  }

  function Low(v: bv64): bv32 { (v & 0xFFFF_FFFF) as bv32 }

  function High(v: bv64): bv32 { (v >> 32) as bv32 }

  // ----- one instruction -----

  /** The words one instruction becomes, and the literal (if any) that its `Ldr` at index `link` needs. */
  datatype Piece = Piece(words: seq<bv32>, literal: Option<Literal>)

  datatype Literal = Literal(link: nat, data: bv64)

  predicate IsLoadLiteral(w: bv32) { w & 0x3B00_0000 == 0x1800_0000 }
  predicate IsPcRelative(w: bv32) { w & 0x1F00_0000 == 0x1000_0000 }
  predicate IsBranch(w: bv32) { w & 0x7C00_0000 == 0x1400_0000 }
  predicate IsTestBranch(w: bv32) { w & 0x7E00_0000 == 0x3600_0000 }
  predicate IsCompareBranch(w: bv32) { w & 0x7E00_0000 == 0x3400_0000 }
  predicate IsCondBranch(w: bv32) { w & 0xFE00_0000 == 0x5400_0000 }

  /** LDRSW, PRFM and their SIMD counterparts: the relocator stops the process. */
  predicate Unimplemented(w: bv32) { IsLoadLiteral(w) && w >> 30 >= 2 }

  /** They are the architecture's literal loads with opc 2 and 3. */
  lemma {:induction false} UnimplementedExactly(w: bv32)
    ensures Unimplemented(w) <==> Decode(w).LoadLiteral? && Decode(w).opc >= 2
  {
    hide Decode, IsLoadLiteral;
    LoadLiteralMask(w);
    LoadLiteralOpc(w);
  }

  lemma {:induction false} LoadLiteralMask(w: bv32)
    ensures IsLoadLiteral(w) <==> Decode(w).LoadLiteral?
  {}

  lemma {:induction false} LoadLiteralOpc(w: bv32)
    ensures Decode(w).LoadLiteral? ==> Decode(w).opc == w >> 30
  {}

  function AdrValue(w: bv32, pc: bv64): bv64 {
    if w & 0x9F00_0000 == 0x1000_0000 then Plus(pc, DecodeImmhiImmloOffset(w))
    else Plus(pc & 0xFFFF_FFFF_FFFF_F000, DecodeImmhiImmloZero12Offset(w))
  }

  /** tbz/tbnz with the test inverted and imm14 = 3. */
  function InvertTestBranch(w: bv32): bv32 {
    var op := ((w >> 24) & 1) ^ 1;
    var flipped := (0xFEFF_FFFF & w) | (op << 24);
    (0xFFF8_001F & flipped) | (3 << 5)
  }

  /** cbz/cbnz with the test inverted and imm19 = 3. */
  function InvertCompareBranch(w: bv32): bv32 {
    var op := ((w >> 24) & 1) ^ 1;
    var flipped := (0xFEFF_FFFF & w) | (op << 24);
    (0xFF00_001F & flipped) | (3 << 5)
  }

  /** b.cond with bit 0 of the condition flipped and imm19 = 3. */
  function InvertCondBranch(w: bv32): bv32 {
    var cond := (w & 15) ^ 1;
    var flipped := (0xFFFF_FFF0 & w) | cond;
    (0xFF00_001F & flipped) | (3 << 5)
  }

  /** An inverted branch over a jump through a literal. */
  function BranchOver(inverted: bv32, target: bv64): (p: Piece)
    ensures |p.words| == 3 && p.literal == Some(Literal(1, target))
  {
    Piece([inverted, LdrLabelWord(TMP_REG_0), BrWord(TMP_REG_0)], Some(Literal(1, target)))
  }

  /** A jump or call through a literal. */
  function BranchThrough(link: bool, target: bv64): (p: Piece)
    ensures |p.words| == 2 && p.literal == Some(Literal(0, target))
  {
    Piece([LdrLabelWord(TMP_REG_0), if link then BlrWord(TMP_REG_0) else BrWord(TMP_REG_0)], Some(Literal(0, target)))
  }

  /** The relocation of one instruction that stood at `pc`. */
  function Relocate(w: bv32, pc: bv64): Piece {
    if IsLoadLiteral(w) then
      Piece(MovWords(TMP_REG_0, Plus(pc, DecodeImm19Offset(w))) + [LdrWord(w & 31, TMP_REG_0)], None)
    else if IsPcRelative(w) then
      Piece(MovWords(w & 31, AdrValue(w, pc)), None)
    else if IsBranch(w) then
      BranchThrough(w & 0xFC00_0000 == 0x9400_0000, Plus(pc, DecodeImm26Offset(w)))
    else if IsTestBranch(w) then
      BranchOver(InvertTestBranch(w), Plus(pc, DecodeImm14Offset(w)))
    else if IsCompareBranch(w) then
      BranchOver(InvertCompareBranch(w), Plus(pc, DecodeImm19Offset(w)))
    else if IsCondBranch(w) then
      BranchOver(InvertCondBranch(w), Plus(pc, DecodeImm19Offset(w)))
    else
      Piece([w], None)
  }

  // ----- the whole block -----

  /** The code emitted for the first `k` instructions of the block. */
  function Body(block: seq<bv32>, org: bv64, k: nat): seq<bv32>
    requires k <= |block|
  {
    if k == 0 then [] else Body(block, org, k - 1) + Relocate(block[k - 1], Place(org, k - 1)).words
  }

  /** A piece's literal, linked at its place in the whole buffer when the piece starts at `at`. */
  function Moved(at: nat, literal: Option<Literal>): seq<Literal> {
    match literal
    case None => []
    case Some(l) => [Literal(at + l.link, l.data)]
  }

  /** The literals of the first `k` instructions. */
  function Literals(block: seq<bv32>, org: bv64, k: nat): seq<Literal>
    requires k <= |block|
  {
    if k == 0 then [] else
      Literals(block, org, k - 1)
      + Moved(|Body(block, org, k - 1)|, Relocate(block[k - 1], Place(org, k - 1)).literal)
  }

  /** `LiteralLdrBranch`: the label is bound two words after its `Ldr`. */
  function JumpBack(address: bv64): seq<bv32> {
    [LinkWord(LdrLabelWord(TMP_REG_0), 2), BrWord(TMP_REG_0), Low(address), High(address)]
  }

  ghost predicate Linkable(size: nat, literals: seq<Literal>) {
    forall i :: 0 <= i < |literals| ==> literals[i].link < size
  }

  /** `RelocBind` after `q` literals: each is bound at the end of the buffer and its data appended. */
  function Bind(buffer: seq<bv32>, literals: seq<Literal>, q: nat): (r: seq<bv32>)
    requires q <= |literals| && Linkable(|buffer|, literals)
    ensures |r| == |buffer| + 2 * q
  {
    if q == 0 then buffer else
      var b := Bind(buffer, literals, q - 1);
      var l := literals[q - 1];
      b[l.link := LinkWord(b[l.link], |b| - l.link)] + [Low(l.data), High(l.data)]
  }

  function Unbound(block: seq<bv32>, org: bv64): seq<bv32> {
    Body(block, org, |block|) + JumpBack(Place(org, |block|))
  }

  lemma {:induction false} PieceShape(w: bv32, pc: bv64)
    ensures 1 <= |Relocate(w, pc).words| <= 5
    ensures Relocate(w, pc).literal.Some? ==> Relocate(w, pc).literal.value.link < |Relocate(w, pc).words|
  {
    hide DecodeImm14Offset, DecodeImm19Offset, DecodeImm26Offset, AdrValue, Plus;
    hide InvertTestBranch, InvertCompareBranch, InvertCondBranch, LdrWord, MovWords, BranchOver, BranchThrough;
    hide IsLoadLiteral, IsPcRelative, IsBranch, IsTestBranch, IsCompareBranch, IsCondBranch;
  }

  lemma {:induction false} LiteralsInside(block: seq<bv32>, org: bv64, k: nat)
    requires k <= |block|
    ensures Linkable(|Body(block, org, k)|, Literals(block, org, k))
  {
    hide Relocate, Plus;
    if k > 0 { PieceShape(block[k - 1], Place(org, k - 1)); }
    if k > 0 { LiteralsInside(block, org, k - 1); }
  }

  /** The finished code for a block. */
  function Relocated(block: seq<bv32>, org: bv64): seq<bv32> {
    LiteralsInside(block, org, |block|);
    var literals := Literals(block, org, |block|);
    Bind(Unbound(block, org), literals, |literals|)
  }

  // ----- the assembler object and the loop -----

  class TurboAssembler {
    var buffer: seq<bv32>
    var literals: seq<Literal>

    constructor ()
      ensures buffer == [] && literals == []
    {
      buffer, literals := [], [];
    }

    method Emit(w: bv32)
      modifies this
      ensures buffer == old(buffer) + [w] && literals == old(literals)
    {
      buffer := buffer + [w];
    }

    /** `AppendRelocLabelEntry` and `Ldr` for a fresh label. */
    method LdrLiteral(data: bv64)
      modifies this
      ensures buffer == old(buffer) + [LdrLabelWord(TMP_REG_0)]
      ensures literals == old(literals) + [Literal(|old(buffer)|, data)]
    {
      literals := literals + [Literal(|buffer|, data)];
      Emit(LdrLabelWord(TMP_REG_0));
    }

    method Mov(rd: bv32, v: bv64)
      modifies this
      ensures buffer == old(buffer) + MovWords(rd, v) && literals == old(literals)
    {
      hide Quarter, MovzWord, MovkWord;
      Emit(MovzWord(rd, Quarter(v, 0)));
      Emit(MovkWord(rd, Quarter(v, 1), 1));
      Emit(MovkWord(rd, Quarter(v, 2), 2));
      Emit(MovkWord(rd, Quarter(v, 3), 3));
    }

    method LiteralLdrBranch(address: bv64)
      modifies this
      ensures buffer == old(buffer) + JumpBack(address) && literals == old(literals)
    {
      var link := |buffer|;
      Emit(LdrLabelWord(TMP_REG_0));
      Emit(BrWord(TMP_REG_0));
      buffer := buffer[link := LinkWord(buffer[link], |buffer| - link)];
      Emit(Low(address));
      Emit(High(address));
    }

    method RelocBind()
      requires Linkable(|buffer|, literals)
      modifies this
      ensures literals == old(literals)
      ensures buffer == Bind(old(buffer), literals, |literals|)
    {
      hide LinkWord, Low, High;
      var i := 0;
      while i < |literals|
        invariant 0 <= i <= |literals| && literals == old(literals)
        invariant buffer == Bind(old(buffer), literals, i)
      {
        var l := literals[i];
        buffer := buffer[l.link := LinkWord(buffer[l.link], |buffer| - l.link)];
        buffer := buffer + [Low(l.data)] + [High(l.data)];
        i := i + 1;
      }
    }

    method EmitBranchOver(inverted: bv32, target: bv64)
      modifies this
      ensures buffer == old(buffer) + BranchOver(inverted, target).words
      ensures literals == old(literals) + [Literal(|old(buffer)| + 1, target)]
    {
      hide LdrLabelWord, BrWord;
      Emit(inverted);
      LdrLiteral(target);
      Emit(BrWord(TMP_REG_0));
    }

    method EmitBranchThrough(link: bool, target: bv64)
      modifies this
      ensures buffer == old(buffer) + BranchThrough(link, target).words
      ensures literals == old(literals) + [Literal(|old(buffer)|, target)]
    {
      hide LdrLabelWord, BrWord, BlrWord;
      LdrLiteral(target);
      if link { Emit(BlrWord(TMP_REG_0)); } else { Emit(BrWord(TMP_REG_0)); }
    }

    /** One pass of the loop body. */
    method RelocateOne(w: bv32, pc: bv64) returns (ok: bool)
      modifies this
      ensures ok == !(Decode(w).LoadLiteral? && Decode(w).opc >= 2)
      ensures ok ==> buffer == old(buffer) + Relocate(w, pc).words
      ensures ok ==> literals == old(literals) + Moved(|old(buffer)|, Relocate(w, pc).literal)
    {
      hide DecodeImm14Offset, DecodeImm19Offset, DecodeImm26Offset, AdrValue, Plus;
      hide InvertTestBranch, InvertCompareBranch, InvertCondBranch;
      hide LdrWord, MovWords, BranchOver, BranchThrough;
      hide IsLoadLiteral, IsPcRelative, IsBranch, IsTestBranch, IsCompareBranch, IsCondBranch, Decode;
      UnimplementedExactly(w);
      ok := true;
      if IsLoadLiteral(w) {
        if w >> 30 >= 2 { return false; }
        Mov(TMP_REG_0, Plus(pc, DecodeImm19Offset(w)));
        Emit(LdrWord(w & 31, TMP_REG_0));
      } else if IsPcRelative(w) {
        Mov(w & 31, AdrValue(w, pc));
      } else if IsBranch(w) {
        EmitBranchThrough(w & 0xFC00_0000 == 0x9400_0000, Plus(pc, DecodeImm26Offset(w)));
      } else if IsTestBranch(w) {
        EmitBranchOver(InvertTestBranch(w), Plus(pc, DecodeImm14Offset(w)));
      } else if IsCompareBranch(w) {
        EmitBranchOver(InvertCompareBranch(w), Plus(pc, DecodeImm19Offset(w)));
      } else if IsCondBranch(w) {
        EmitBranchOver(InvertCondBranch(w), Plus(pc, DecodeImm19Offset(w)));
      } else {
        Emit(w);
      }
    }
  }

  /** `GenRelocateCodeAndBranch`: `None` when it meets a literal load with opc 2 or 3. */
  method GenRelocateCodeAndBranch(block: seq<bv32>, org: bv64) returns (code: Option<seq<bv32>>)
    ensures code.None? <==> exists i :: 0 <= i < |block| && Decode(block[i]).LoadLiteral? && Decode(block[i]).opc >= 2
    ensures code.Some? ==> code.value == Relocated(block, org)
  {
    hide Relocate, Decode, JumpBack, Plus;
    var assembler := new TurboAssembler();
    var pc, k := org, 0;
    while k < |block|
      invariant 0 <= k <= |block| && pc == Place(org, k)
      invariant assembler.buffer == Body(block, org, k)
      invariant assembler.literals == Literals(block, org, k)
      invariant forall i :: 0 <= i < k ==> !(Decode(block[i]).LoadLiteral? && Decode(block[i]).opc >= 2)
    {
      var ok := assembler.RelocateOne(block[k], pc);
      if !ok { return None; }
      pc, k := Plus(pc, 4), k + 1;
    }
    assembler.LiteralLdrBranch(pc);
    LiteralsInside(block, org, |block|);
    assembler.RelocBind();
    return Some(assembler.buffer);
  }
}
