/**
 The x64 relocator: the decode loop and the bytes it emits, the chunk that must hold them, and the retry with a larger
 chunk.  Decoding is a function of the offset into the origin, whose bytes do not change between passes.
 */
module X64Relocator {
  import opened Common
  import opened Bytes

  /** What the decoder reports of an instruction. */
  datatype Insn = Insn(
    length: nat, opcode: nat, ripRelative: bool,
    displacementOffset: nat, displacement: int, immediateOffset: nat, immediate: int)

  /** The function to be moved: its address, its bytes and its instructions by their offset. */
  datatype Origin = Origin(start: int, byte: nat -> Byte, decode: nat -> Insn)

  /** Every instruction is at least one byte long. */
  ghost predicate Decodes(o: Origin) {
    forall off :: o.decode(off).length >= 1
  }

  // ----- one instruction -----

  predicate IsCondRel8(i: Insn) { 0x70 <= i.opcode <= 0x7F }

  /** LOOP and JCXZ: the relocator stops the process. */
  predicate Unimplemented(i: Insn) {
    !IsCondRel8(i) && i.opcode != 0xEB && !i.ripRelative && 0xE0 <= i.opcode <= 0xE3
  }

  /** The low 32 bits, and the low 8 bits, read as signed. */
  function Signed32(w: int): (r: int)
    ensures (r - w) % 0x1_0000_0000 == 0 && -0x8000_0000 <= r < 0x8000_0000
    ensures r == w <==> -0x8000_0000 <= w < 0x8000_0000
  {
    if w % 0x1_0000_0000 >= 0x8000_0000 then w % 0x1_0000_0000 - 0x1_0000_0000 else w % 0x1_0000_0000
  }

  function Signed8(w: int): (r: int)
    ensures (r - w) % 256 == 0 && -128 <= r < 128 && (r == w <==> -128 <= w < 128)
  {
    if w % 256 >= 128 then w % 256 - 256 else w % 256
  }

  /** The relative operand as the relocator reads it. */
  function Operand(i: Insn): int {
    if IsCondRel8(i) || i.opcode == 0xEB then Signed8(i.immediate)
    else if i.ripRelative then i.displacement
    else i.immediate
  }

  /** The displacement that the relocator writes for an instruction moved from `origIp` to `reloIp`; for a short jump it
      is cut to 8 bits before it is widened. */
  function NewDisplacement(i: Insn, origIp: int, disp: int, reloIp: int): int {
    if i.opcode == 0xEB then Signed8(origIp + disp - reloIp) else Signed32(origIp + disp - reloIp)
  }

  /** `Emit32`. */
  function Word(x: int): (r: seq<Byte>)
    ensures |r| == 4
  {
    LittleEndian(x % 0x1_0000_0000, 4)
  }

  function Copied(o: Origin, off: nat, n: nat): (r: seq<Byte>)
    ensures |r| == n && forall k :: 0 <= k < n ==> r[k] == o.byte(off + k)
  {
    seq<Byte>(n, k requires 0 <= k < n => o.byte(off + k))
  }

  /** The bytes that the instruction at `off` becomes at `reloIp`. */
  function Piece(o: Origin, off: nat, reloIp: int): seq<Byte> {
    var i := o.decode(off);
    var operand := Word(NewDisplacement(i, o.start + off, Operand(i), reloIp));
    if IsCondRel8(i) then [0x0F, 0x80 + i.opcode % 16] + operand
    else if i.opcode == 0xEB then [0xE9] + operand
    else if i.ripRelative then Copied(o, off, i.displacementOffset) + operand
    else if i.opcode == 0xE8 || i.opcode == 0xE9 then Copied(o, off, i.immediateOffset) + operand
    else Copied(o, off, i.length)
  }

  /** The number of bytes an instruction becomes. */
  function EmittedLength(i: Insn): nat {
    if IsCondRel8(i) then 6
    else if i.opcode == 0xEB then 5
    else if i.ripRelative then i.displacementOffset + 4
    else if i.opcode == 0xE8 || i.opcode == 0xE9 then i.immediateOffset + 4
    else i.length
  }

  lemma {:induction false} PieceLength(o: Origin, off: nat, reloIp: int)
    ensures |Piece(o, off, reloIp)| == EmittedLength(o.decode(off))
  {
    hide Word, Copied, NewDisplacement;
  }

  // ----- the decode loop -----

  /** The first instruction boundary at or after `size`, decoding from `off`. */
  function Boundary(o: Origin, off: nat, size: nat): (r: nat)
    requires Decodes(o)
    ensures off <= r && size <= if off < size then r else size
    decreases size - off
  {
    if off >= size then off else Boundary(o, off + o.decode(off).length, size)
  }

  /** The number of bytes emitted for the instructions from `off` up to that boundary. */
  function Emitted(o: Origin, off: nat, size: nat): nat
    requires Decodes(o)
    decreases size - off
  {
    if off >= size then 0 else EmittedLength(o.decode(off)) + Emitted(o, off + o.decode(off).length, size)
  }

  /** Those bytes, if the first of them goes to `reloIp`. */
  function Body(o: Origin, off: nat, size: nat, reloIp: int): seq<Byte>
    requires Decodes(o)
    decreases size - off
  {
    if off >= size then []
    else
      var piece := Piece(o, off, reloIp);
      piece + Body(o, off + o.decode(off).length, size, reloIp + |piece|)
  }

  /** Every instruction up to the boundary is implemented. */
  ghost predicate Supported(o: Origin, off: nat, size: nat)
    requires Decodes(o)
    decreases size - off
  {
    off < size ==> !Unimplemented(o.decode(off)) && Supported(o, off + o.decode(off).length, size)
  }

  /** `jmp [rip]` and its eight-byte target. */
  function JumpBack(target: int): (r: seq<Byte>)
    ensures |r| == 14
  {
    [0xFF, 0x25] + Word(0) + LittleEndian(target % 0x1_0000_0000_0000_0000, 8)
  }

  function CodeLength(o: Origin, size: nat): nat
    requires Decodes(o)
  {
    Emitted(o, 0, size) + 14
  }

  /** The code at `start` for an origin of `size` bytes. */
  function Code(o: Origin, size: nat, start: int): seq<Byte>
    requires Decodes(o)
  {
    Body(o, 0, size, start) + JumpBack(o.start + Boundary(o, 0, size))
  }

  lemma {:induction false} BodyLength(o: Origin, off: nat, size: nat, reloIp: int)
    requires Decodes(o)
    ensures |Body(o, off, size, reloIp)| == Emitted(o, off, size)
    decreases size - off
  {
    hide Piece, EmittedLength;
    if off < size {
      PieceLength(o, off, reloIp);
      BodyLength(o, off + o.decode(off).length, size, reloIp + |Piece(o, off, reloIp)|);
    }
  }

  /** The code is as long as counted, wherever it goes. */
  lemma {:induction false} CodeHasLength(o: Origin, size: nat, start: int)
    requires Decodes(o)
    ensures |Code(o, size, start)| == CodeLength(o, size)
  {
    BodyLength(o, 0, size, start);
  }

  /** A second pass, over the origin that the first pass rounded up, decodes the same instructions: it ends at the same
      boundary, emits as many bytes, and the same ones to the same place, and meets the same unimplemented ones. */
  lemma {:induction false} SecondPassSame(o: Origin, off: nat, size: nat, reloIp: int)
    requires Decodes(o)
    ensures var rounded := Boundary(o, off, size);
            && Boundary(o, off, rounded) == rounded
            && Emitted(o, off, rounded) == Emitted(o, off, size)
            && Body(o, off, rounded, reloIp) == Body(o, off, size, reloIp)
            && (Supported(o, off, rounded) <==> Supported(o, off, size))
    decreases size - off
  {
    hide Piece;
    if off < size { SecondPassSame(o, off + o.decode(off).length, size, reloIp + |Piece(o, off, reloIp)|); }
  }

  /** The pass does not stop if and only if no instruction in the origin, from boundary to boundary, is LOOP, LOOPcc or
      JCXZ by its opcode, unless it is taken for a RIP-relative one. */
  lemma {:induction false} StopsExactly(o: Origin, off: nat, size: nat)
    requires Decodes(o)
    ensures Supported(o, off, size) <==>
              forall b :: off <= b < size && Boundary(o, off, b) == b ==>
                !(0xE0 <= o.decode(b).opcode <= 0xE3 && !o.decode(b).ripRelative)
    decreases size - off
  {
    if off < size {
      var next := off + o.decode(off).length;
      StopsExactly(o, next, size);
      assert Boundary(o, off, off) == off;
      forall b | off < b < size
        ensures Boundary(o, off, b) == b <==> next <= b && Boundary(o, next, b) == b
      {}
    }
  }

  /** One turn of the loop: the bytes emitted for the instruction, or `None` where it stops. */
  method EmitPiece(o: Origin, off: nat, reloIp: int) returns (piece: Option<seq<Byte>>)
    ensures piece.None? <==> Unimplemented(o.decode(off))
    ensures piece.Some? ==> piece.value == Piece(o, off, reloIp)
  {
    hide Word, Copied, NewDisplacement, Operand;
    var insn := o.decode(off);
    var operand := Word(NewDisplacement(insn, o.start + off, Operand(insn), reloIp));
    if IsCondRel8(insn) {
      var opcode: seq<Byte> := [0x0F, 0x80 + insn.opcode % 16];
      return Some(opcode + operand);
    } else if insn.opcode == 0xEB {
      var opcode: seq<Byte> := [0xE9];
      return Some(opcode + operand);
    } else if insn.ripRelative {
      return Some(Copied(o, off, insn.displacementOffset) + operand);
    } else if insn.opcode == 0xE8 || insn.opcode == 0xE9 {
      return Some(Copied(o, off, insn.immediateOffset) + operand);
    } else if 0xE0 <= insn.opcode <= 0xE3 {
      return None;
    } else {
      return Some(Copied(o, off, insn.length));
    }
  }

  /** `GenRelocateCodeFixed`: the code, the new origin size, and whether the code fits the chunk; `None` where it
      stops. */
  method GenRelocateCodeFixed(o: Origin, size: nat, start: int, capacity: nat)
    returns (r: Option<(seq<Byte>, nat, bool)>)
    requires Decodes(o)
    ensures r.None? <==> !Supported(o, 0, size)
    ensures r.Some? ==> r.value == (Code(o, size, start), Boundary(o, 0, size), CodeLength(o, size) <= capacity)
  {
    hide Piece, JumpBack, EmittedLength, Emitted;
    var off: nat, buffer: seq<Byte> := 0, [];
    while off < size
      invariant 0 <= off
      invariant Boundary(o, off, size) == Boundary(o, 0, size)
      invariant buffer + Body(o, off, size, start + |buffer|) == Body(o, 0, size, start)
      invariant Supported(o, off, size) == Supported(o, 0, size)
      decreases size - off
    {
      var piece := EmitPiece(o, off, start + |buffer|);
      if piece.None? { return None; }
      BodySplit(o, off, size, buffer, start);
      buffer := buffer + piece.value;
      off := off + o.decode(off).length;
    }
    assert buffer + [] == buffer;
    assert buffer == Body(o, 0, size, start) && off == Boundary(o, 0, size);
    buffer := buffer + JumpBack(o.start + off);
    CodeHasLength(o, size, start);
    return Some((buffer, off, |buffer| <= capacity));
  }

  lemma {:induction false} BodySplit(o: Origin, off: nat, size: nat, buffer: seq<Byte>, start: int)
    requires Decodes(o) && off < size
    ensures var reloIp := start + |buffer|;
            var piece := Piece(o, off, reloIp);
            buffer + Body(o, off, size, reloIp) ==
              (buffer + piece) + Body(o, off + o.decode(off).length, size, start + |buffer + piece|)
  {
    hide Piece;
  }

  // ----- the retry -----

  const FirstChunk: nat := 32
  const ChunkStep: nat := 16

  function ChunkSize(attempt: nat): nat { FirstChunk + ChunkStep * attempt }

  /** The first attempt whose chunk holds `length` bytes. */
  function AttemptsFor(length: nat): (k: nat)
    ensures length <= 32 + 16 * k && (k > 0 ==> 32 + 16 * (k - 1) < length)
  {
    if length <= FirstChunk then 0 else (length - FirstChunk + ChunkStep - 1) / ChunkStep
  }

  /** The chunk's address, the code written there, the attempt that succeeded and the new origin size; or no chunk;
      or an unimplemented instruction. */
  datatype Result = Relocated(address: nat, code: seq<Byte>, attempt: nat, originSize: nat) | NoMemory | Stopped

  /** `GenRelocateCodeAndBranch`.  `alloc(k)` is the address that the `k`th chunk allocation returns, or `None`. */
  method GenRelocateCodeAndBranch(o: Origin, size: nat, alloc: nat -> Option<nat>) returns (r: Result)
    requires Decodes(o)
    ensures var k := AttemptsFor(CodeLength(o, size));
            && (r.Relocated? <==> Supported(o, 0, size) && forall j :: 0 <= j <= k ==> alloc(j).Some?)
            && (r.Relocated? ==>
                  r == Relocated(alloc(k).value, Code(o, size, alloc(k).value), k, Boundary(o, 0, size)))
    ensures r.Stopped? ==> !Supported(o, 0, size)
    ensures r.NoMemory? ==> exists j :: 0 <= j <= AttemptsFor(CodeLength(o, size)) && alloc(j).None?
  {
    hide Body, JumpBack, Emitted;
    var attempt, originSize := 0, size;
    ghost var length := CodeLength(o, size);
    while true
      invariant 0 <= attempt && originSize == (if attempt == 0 then size else Boundary(o, 0, size))
      invariant attempt <= AttemptsFor(length)
      invariant attempt > 0 ==> Supported(o, 0, size)
      invariant forall j :: 0 <= j < attempt ==> alloc(j).Some? && ChunkSize(j) < length
      decreases AttemptsFor(length) - attempt
    {
      var chunk := alloc(attempt);
      if chunk.None? { return NoMemory; }
      SecondPassSame(o, 0, size, chunk.value);
      var pass := GenRelocateCodeFixed(o, originSize, chunk.value, ChunkSize(attempt));
      if pass.None? { return Stopped; }
      originSize := pass.value.1;
      if pass.value.2 { return Relocated(chunk.value, pass.value.0, attempt, originSize); }
      attempt := attempt + 1;
    }
  }

  // ----- what the emitted bytes mean -----

  lemma {:induction false} WordReads(x: int)
    ensures Signed32(FromLittleEndian(Word(x))) == Signed32(x)
  {
    assert Power256(4) == 0x1_0000_0000 by { assert Power256(2) == 65536; }
    LittleEndianRoundTrip(x % 0x1_0000_0000, 4);
  }

  /** A rewritten instruction: its opcode, or what was copied in front of the operand, and the operand in its last four
      bytes. */
  lemma {:induction false} PieceReads(o: Origin, off: nat, reloIp: int)
    ensures var i, piece := o.decode(off), Piece(o, off, reloIp);
            var n := |piece| - 4;
            if IsCondRel8(i) || i.opcode == 0xEB || i.ripRelative || i.opcode == 0xE8 || i.opcode == 0xE9 then
              && n >= 0
              && Signed32(FromLittleEndian(piece[n..])) == NewDisplacement(i, o.start + off, Operand(i), reloIp)
              && (if IsCondRel8(i) then n == 2 && piece[0] == 0x0F && piece[1] == 0x80 + (i.opcode - 0x70)
                  else if i.opcode == 0xEB then n == 1 && piece[0] == 0xE9
                  else && n == (if i.ripRelative then i.displacementOffset else i.immediateOffset)
                       && forall k :: 0 <= k < n ==> piece[k] == o.byte(off + k))
            else |piece| == i.length && forall k :: 0 <= k < |piece| ==> piece[k] == o.byte(off + k)
  {
    hide Word, FromLittleEndian, NewDisplacement, Operand, Copied;
    var i, d := o.decode(off), NewDisplacement(o.decode(off), o.start + off, Operand(o.decode(off)), reloIp);
    WordReads(d);
    DisplacementFits(o.decode(off), o.start + off, Operand(o.decode(off)), reloIp);
    if IsCondRel8(i) {
      LastFour([0x0F, 0x80 + i.opcode % 16], Word(d));
    } else if i.opcode == 0xEB {
      LastFour([0xE9], Word(d));
    } else if i.ripRelative {
      LastFour(Copied(o, off, i.displacementOffset), Word(d));
    } else if i.opcode == 0xE8 || i.opcode == 0xE9 {
      LastFour(Copied(o, off, i.immediateOffset), Word(d));
    }
  }

  lemma {:induction false} DisplacementFits(i: Insn, origIp: int, disp: int, reloIp: int)
    ensures Signed32(NewDisplacement(i, origIp, disp, reloIp)) == NewDisplacement(i, origIp, disp, reloIp)
  {}

  lemma {:induction false} LastFour(front: seq<Byte>, operand: seq<Byte>)
    requires |operand| == 4
    ensures (front + operand)[|front + operand| - 4..] == operand
  {}

  /** The last fourteen bytes jump to the address that follows them, the first instruction after the origin. */
  lemma {:induction false} JumpBackReads(o: Origin, size: nat, start: int)
    requires Decodes(o)
    ensures var code, n := Code(o, size, start), CodeLength(o, size) - 14;
            && |code| == n + 14 && code[n] == 0xFF && code[n + 1] == 0x25 && code[n + 2..n + 6] == [0, 0, 0, 0]
            && FromLittleEndian(code[n + 6..]) == (o.start + Boundary(o, 0, size)) % 0x1_0000_0000_0000_0000
  {
    hide Word, LittleEndian, FromLittleEndian, Body, Emitted, Boundary, JumpBack;
    var target := o.start + Boundary(o, 0, size);
    var body, tail := Body(o, 0, size, start), JumpBack(target);
    BodyLength(o, 0, size, start);
    JumpBackTail(target);
    BehindAt(body, tail, 0);
    BehindAt(body, tail, 1);
    Behind(body, tail, 2, 6);
    Behind(body, tail, 6, 14);
    WholeTail(body + tail, |body| + 6, |body| + 14);
    WholeTail(tail, 6, 14);
  }

  lemma {:induction false} WholeTail(s: seq<Byte>, i: nat, n: nat)
    requires i <= n == |s|
    ensures s[i..n] == s[i..]
  {}

  lemma {:induction false} Behind(a: seq<Byte>, b: seq<Byte>, i: nat, j: nat)
    requires i <= j <= |b|
    ensures (a + b)[|a| + i..|a| + j] == b[i..j]
  {}

  lemma {:induction false} BehindAt(a: seq<Byte>, b: seq<Byte>, k: nat)
    requires k < |b|
    ensures (a + b)[|a| + k] == b[k]
  {}

  lemma {:induction false} BodyFirst(o: Origin, off: nat, size: nat, reloIp: int)
    requires Decodes(o) && off < size
    ensures var piece := Piece(o, off, reloIp);
            Body(o, off, size, reloIp) == piece + Body(o, off + o.decode(off).length, size, reloIp + |piece|)
  {
    hide Piece;
  }

  lemma {:induction false} PastFirst(o: Origin, off: nat, b: nat)
    requires Decodes(o) && off <= b && Boundary(o, off, b) == b
    ensures b == off ==> Emitted(o, off, b) == 0
    ensures b > off ==>
              var next := off + o.decode(off).length;
              && next <= b && Boundary(o, next, b) == b
              && Emitted(o, off, b) == EmittedLength(o.decode(off)) + Emitted(o, next, b)
  {
    hide EmittedLength;
  }

  /** Each instruction of the origin has its piece in the code, in order, made for the place where it stands. */
  lemma {:induction false} PieceStands(o: Origin, off: nat, size: nat, reloIp: int, b: nat)
    requires Decodes(o) && off <= b < size && Boundary(o, off, b) == b
    ensures var at := Emitted(o, off, b);
            var piece := Piece(o, b, reloIp + at);
            at + |piece| <= |Body(o, off, size, reloIp)| && Body(o, off, size, reloIp)[at..at + |piece|] == piece
    decreases size - off
  {
    hide Piece, EmittedLength, Body, Emitted, Boundary;
    var first, next := Piece(o, off, reloIp), off + o.decode(off).length;
    PieceLength(o, off, reloIp);
    var rest := Body(o, next, size, reloIp + |first|);
    BodyFirst(o, off, size, reloIp);
    PastFirst(o, off, b);
    if b == off {
      assert (first + rest)[..|first|] == first;
    } else {
      PieceStands(o, next, size, reloIp + |first|, b);
      var at := Emitted(o, next, b);
      var piece := Piece(o, b, reloIp + |first| + at);
      Behind(first, rest, at, at + |piece|);
    }
  }

  lemma {:induction false} JumpBackTail(target: int)
    ensures JumpBack(target)[0] == 0xFF && JumpBack(target)[1] == 0x25 && JumpBack(target)[2..6] == [0, 0, 0, 0]
    ensures FromLittleEndian(JumpBack(target)[6..]) == target % 0x1_0000_0000_0000_0000
  {
    ZeroWord();
    assert Power256(8) == 0x1_0000_0000_0000_0000 by { assert Power256(4) == 0x1_0000_0000; }
    LittleEndianRoundTrip(target % 0x1_0000_0000_0000_0000, 8);
    hide Word, LittleEndian, FromLittleEndian;
    assert JumpBack(target)[6..] == LittleEndian(target % 0x1_0000_0000_0000_0000, 8);
    assert JumpBack(target)[2..6] == Word(0);
  }

  lemma {:induction false} ZeroWord()
    ensures Word(0) == [0, 0, 0, 0]
  {}

  /** The address an instruction of `length` bytes at `ip` refers to with displacement `disp`. */
  function Target(ip: int, length: nat, disp: int): int { ip + length + disp }

  /** The relocated instruction refers to the original address exactly when it is as
      long as the original and the distance fits in the bits kept of it: 8 for a short jump, 32 otherwise. */
  lemma {:induction false} TargetKept(i: Insn, origIp: int, disp: int, reloIp: int)
    requires Encoded(i)
    ensures Target(reloIp, EmittedLength(i), NewDisplacement(i, origIp, disp, reloIp)) == Target(origIp, i.length, disp)
            <==> EmittedLength(i) == i.length && Representable(i, origIp + disp - reloIp)
  {
    var d := origIp + disp - reloIp;
    if i.opcode == 0xEB {
      var k := (Signed8(d) - d) / 256;
      assert Signed8(d) - d == 256 * k;
    } else {
      var k := (Signed32(d) - d) / 0x1_0000_0000;
      assert Signed32(d) - d == 0x1_0000_0000 * k;
    }
  }

  /** At most 15 bytes, with the operand inside the instruction. */
  predicate Encoded(i: Insn) {
    i.length <= 15 && i.displacementOffset <= i.length && i.immediateOffset <= i.length
  }

  predicate Representable(i: Insn, distance: int) {
    if i.opcode == 0xEB then -128 <= distance < 128 else -0x8000_0000 <= distance < 0x8000_0000
  }

  /** A two-byte conditional jump is four bytes off. */
  lemma {:induction false} ShortJumpMoves(i: Insn, origIp: int, disp: int, reloIp: int)
    requires IsCondRel8(i) && i.length == 2 && -0x8000_0000 <= origIp + disp - reloIp < 0x8000_0000
    ensures Target(reloIp, EmittedLength(i), NewDisplacement(i, origIp, disp, reloIp)) == Target(origIp, 2, disp) + 4
  {}
}
