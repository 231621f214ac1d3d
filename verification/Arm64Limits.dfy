/** Where the ARM64 relocator is wrong: exact conditions and examples. */
module Arm64Limits {
  import opened Arm64Machine
  import opened Arm64Relocator
  import opened Arm64Decoding
  import opened Arm64Simulation

  /** A literal load's word with the SIMD bit, 26, cleared. */
  function General(w: bv32): bv32 { w & 0xFBFF_FFFF }

  lemma {:induction false} GeneralFields(w: bv32)
    requires IsLoadLiteral(w)
    ensures IsLoadLiteral(General(w)) && DecodeImm19Offset(General(w)) == DecodeImm19Offset(w)
    ensures General(w) & 31 == w & 31 && General(w) >> 30 == w >> 30 && (General(w) >> 26) & 1 == 0
  {
    assert (General(w) >> 5) & 0x7FFFF == (w >> 5) & 0x7FFFF;
  }

  /** The relocator does not look at bit 26, so a SIMD literal load becomes the general-purpose load that differs
      from it in that bit alone. */
  lemma {:induction false} SimdLoadTakenForGeneral(w: bv32, pc: bv64)
    requires Decode(w).LoadLiteral? && Decode(w).simd
    ensures Decode(General(w)) == Decode(w).(simd := false)
    ensures Relocate(w, pc) == Relocate(General(w), pc)
  {
    hide Decode, MovWords, LdrWord, Plus, General, IsLoadLiteral, DecodeImm19Offset;
    LoadLiteralDecodes(w);
    GeneralFields(w);
    LoadLiteralDecodes(General(w));
  }

  lemma {:induction false} SimdEffect<R>(sem: Semantics<R>, w: bv32, pc: bv64, c: Core<R>)
    requires Decode(w).LoadLiteral? && Decode(w).simd
    ensures Execute(sem, w, pc, c) == sem(w, c)
  {
    hide Decode;
  }

  /** The emitted general-purpose load against an original that changes only what is not general-purpose. */
  lemma {:induction false} RestAgrees<R>(
      c: Core<R>, d: Core<R>, u: Core<R>, r: R, rt: bv32, a: bv64, private: iset<bv64>)
    requires Agree(c, d, private) && LoadedWide(d, u, rt, a)
    ensures Agree(c.(rest := r), u, private) <==>
              r == c.rest && (rt == 31 || rt == TMP_REG_0 || c.x(rt) == Load64(d.mem, a))
  {
    hide Load64;
    if rt != 31 && rt != TMP_REG_0 && c.x(rt) != Load64(d.mem, a) { assert c.(rest := r).x(rt) != u.x(rt); }
  }

  /** A SIMD literal load of 32 or 64 bits, which makes `r` of the SIMD state, is relocated rightly if and only if it
      changes nothing there and the general-purpose register of the same number already held the literal, or is XZR or
      X17. */
  lemma {:induction false} SimdLoadSimulates<R>(
      sem: Semantics<R>, w: bv32, pc: bv64, c: Core<R>, t: State<R>, base: bv64, code: seq<bv32>, i: nat,
      private: iset<bv64>, r: R)
    requires Decode(w).LoadLiteral? && Decode(w).simd && Decode(w).opc < 2
    requires AtPiece(t, w, pc, c, base, code, i, private) && sem(w, c) == Next(c.(rest := r))
    ensures var rt := Decode(w).rt;
            Follows(Execute(sem, w, pc, c), Run(sem, t, 5), Place(base, i + 5), private) <==>
              && r == c.rest
              && (rt == 31 || rt == TMP_REG_0 || c.x(rt) == Load64(t.core.mem, Plus(pc, Decode(w).offset)))
  {
    hide Decode, Load64, Plus, Relocate, Run, LoadedWide, Agree, Holds, Place, Execute;
    LoadLiteralSize(w, pc);
    LoadLiteralRuns(sem, w, pc, t, base, code, i);
    SimdEffect(sem, w, pc, c);
    RestAgrees(c, t.core, Run(sem, t, 5).core, r, Decode(w).rt, Plus(pc, Decode(w).offset), private);
  }

  /** `ldr d0` from address 8, on a core whose `rest` is D0. */
  const LoadD0: bv32 := 0x5C00_0040

  function SimdSemantics(w: bv32, c: Core<bv64>): Effect<bv64> { Next(c.(rest := Load64(c.mem, 8))) }

  function OneAtEight(a: bv64): bv8 { if a == 8 then 1 else 0 }

  lemma {:induction false} LoadD0Decodes()
    ensures Decode(LoadD0) == LoadLiteral(1, true, 0, 8) && Load64(OneAtEight, 8) == 1
  {}

  /** It loads 1 into D0; wherever its relocation stands, that leaves D0 as it was. */
  lemma {:induction false} SimdLoadExample(t: State<bv64>, base: bv64, code: seq<bv32>, i: nat, private: iset<bv64>)
    requires AtPiece(t, LoadD0, 0, Core(r => 0, 0, OneAtEight, 0), base, code, i, private)
    ensures var c := Core(r => 0, 0, OneAtEight, 0);
            && Execute(SimdSemantics, LoadD0, 0, c) == Next(c.(rest := 1))
            && !Follows(Execute(SimdSemantics, LoadD0, 0, c), Run(SimdSemantics, t, 5), Place(base, i + 5), private)
  {
    hide Decode, Load64, Follows, Run, Place, AtPiece, Execute;
    var c := Core(r => 0, 0, OneAtEight, 0);
    LoadD0Decodes();
    SimdEffect(SimdSemantics, LoadD0, 0, c);
    SimdLoadSimulates(SimdSemantics, LoadD0, 0, c, t, base, code, i, private, 1);
  }

  /** `ldr w0` from address 0, where memory holds 1 in every aligned word: the original loads 1, the relocated
      load leaves 0x1_0000_0001. */
  lemma {:induction false} NarrowLoadExample()
    ensures var mem := (a: bv64) => if a & 3 == 0 then 1 as bv8 else 0;
            && Decode(0x1800_0000) == LoadLiteral(0, false, 0, 0)
            && Literally(0, mem, 0) == 1 && Load64(mem, 0) == 0x1_0000_0001
            && !WordLoadGuard(0, 0, Core(r => 0, 0, mem, ()))
  {}

  /** `b.al` to the second next instruction becomes `b.nv` over the jump, which is always taken too. */
  lemma {:induction false} AlwaysBranchExample(nzcv: bv4)
    ensures Decode(0x5400_004E) == CondBranch(14, 8) && CondHolds(14, nzcv)
    ensures Decode(InvertCondBranch(0x5400_004E)) == CondBranch(15, 12) && CondHolds(15, nzcv)
  {}
}
