/**
 Running relocated code does what the original block does.

 Two machines share one semantics `sem` for the instructions that are not PC-relative.  The first
 runs the block where it stood, the second runs the relocated code somewhere else, in a memory that
 may differ inside a `private` set of addresses: the block's own bytes (patched by then) and the
 bytes of the relocated code.
 */
module Arm64Simulation {
  import opened Common
  import opened Residues
  import opened Arm64Machine
  import opened Arm64Relocator
  import opened Arm64Layout
  import opened Arm64Decoding

  // ----- agreement -----

  /** Equal but for X17 and private memory. */
  ghost predicate Agree<R>(c: Core<R>, d: Core<R>, private: iset<bv64>) {
    && (forall r :: r != TMP_REG_0 ==> c.x(r) == d.x(r))
    && AgreeElsewhere(c, d, private)
  }

  /** Equal but for X17, LR and private memory. */
  ghost predicate AgreeButLink<R>(c: Core<R>, d: Core<R>, private: iset<bv64>) {
    && (forall r :: r != TMP_REG_0 && r != 30 ==> c.x(r) == d.x(r))
    && AgreeElsewhere(c, d, private)
  }

  ghost predicate AgreeElsewhere<R>(c: Core<R>, d: Core<R>, private: iset<bv64>) {
    && c.nzcv == d.nzcv && c.rest == d.rest
    && (forall a :: a !in private ==> c.mem(a) == d.mem(a))
  }

  ghost predicate EffectsAgree<R>(e: Effect<R>, f: Effect<R>, private: iset<bv64>) {
    match (e, f)
    case (Next(c), Next(d)) => Agree(c, d, private)
    case (Jump(c, a), Jump(d, b)) => a == b && Agree(c, d, private)
    case (Call(c, a), Call(d, b)) => a == b && Agree(c, d, private)
    case _ => false
  }

  ghost predicate Untouched<R>(c: Core<R>, d: Core<R>, private: iset<bv64>) {
    forall a :: a in private ==> c.mem(a) == d.mem(a)
  }

  // ----- when the relocator is right about one instruction -----

  /** In state `c` a copied word does what it does on every machine that agrees with it, and leaves private memory
      alone. */
  ghost predicate CopySafe<R(!new)>(sem: Semantics<R>, w: bv32, c: Core<R>, private: iset<bv64>) {
    forall d: Core<R> :: Agree(c, d, private) ==>
      && EffectsAgree(Execute(sem, w, 0, c), Execute(sem, w, 0, d), private)
      && Untouched(c, Execute(sem, w, 0, c).core, private)
      && Untouched(d, Execute(sem, w, 0, d).core, private)
  }

  ghost predicate DoubleWordOutside(a: bv64, private: iset<bv64>) {
    && a !in private && a + 1 !in private && a + 2 !in private && a + 3 !in private
    && Plus(a, 4) !in private && Plus(a, 4) + 1 !in private && Plus(a, 4) + 2 !in private && Plus(a, 4) + 3 !in private
  }

  /** What must hold of an instruction about to run at `pc` for its relocation to be right. */
  ghost predicate Guard<R(!new)>(sem: Semantics<R>, w: bv32, pc: bv64, c: Core<R>, private: iset<bv64>) {
    match Decode(w)
    case LoadLiteral(opc, simd, rt, offset) =>
      && !simd && opc < 2 && DoubleWordOutside(Plus(pc, offset), private)
      && (opc == 0 ==> WordLoadGuard(rt, Plus(pc, offset), c))
    case PcRelative(_, _, _) => true
    case Branch(_, _) => true
    case TestBranch(_, rt, _, _) => rt != TMP_REG_0
    case CompareBranch(_, _, rt, _) => rt != TMP_REG_0
    case CondBranch(cond, _) => cond < 14
    case _ => !IsCondBranch(w) && CopySafe(sem, w, c, private)
  }

  /** The relocated load is always 64 bits wide, so a 32-bit one needs a zero word after its literal. */
  predicate WordLoadGuard<R>(rt: bv32, address: bv64, c: Core<R>) {
    rt == 31 || rt == TMP_REG_0 || Load32(c.mem, Plus(address, 4)) == 0
  }

  /** Where the relocated machine must be after an instruction with effect `e`, if `next` is the image of
      the next instruction. */
  ghost predicate Follows<R>(e: Effect<R>, t: State<R>, next: bv64, private: iset<bv64>) {
    match e
    case Next(c) => t.pc == next && Agree(c, t.core, private)
    case Jump(c, a) => t.pc == a && Agree(c, t.core, private)
    case Call(c, a) => t.pc == a && AgreeButLink(c, t.core, private) && t.core.x(30) == next
  }

  // ----- single steps of the relocated code -----

  lemma {:induction false} StepAt<R>(sem: Semantics<R>, s: State<R>, base: bv64, code: seq<bv32>, i: nat)
    requires i < |code| && Holds(s.core.mem, base, code) && s.pc == Place(base, i)
    ensures Step(sem, s) == Commit(s.pc, Execute(sem, code[i], s.pc, s.core))
  {
    hide Execute, Load32, Place, Plus;
  }

  lemma {:induction false} MoveStep<R>(
      sem: Semantics<R>, s: State<R>, base: bv64, code: seq<bv32>, i: nat, keep: bool, rd: bv32, imm: bv64,
      half: bv32)
    requires i < |code| && Holds(s.core.mem, base, code) && s.pc == Place(base, i)
    requires Decode(code[i]) == MoveWide(keep, rd, imm, half)
    ensures Step(sem, s) ==
              State(Place(base, i + 1), WriteX(s.core, rd, MoveWideValue(keep, ReadX(s.core, rd), imm, half)))
  {
    hide Decode, Load32, Plus, MoveWideValue, ReadX, WriteX;
    StepAt(sem, s, base, code, i);
  }

  /** `d` is `c` with `v` written to register `rd`. */
  ghost predicate Wrote<R>(c: Core<R>, d: Core<R>, rd: bv32, v: bv64) {
    && (forall r :: d.x(r) == if r == rd && rd != 31 then v else c.x(r))
    && d.nzcv == c.nzcv && d.mem == c.mem && d.rest == c.rest
  }

  /** One MOVK on top of what has been written so far. */
  lemma {:induction false} WriteAgain<R>(c: Core<R>, d: Core<R>, rd: bv32, v: bv64, imm: bv64, half: bv32)
    requires Wrote(c, d, rd, v)
    ensures Wrote(c, WriteX(d, rd, MoveWideValue(true, ReadX(d, rd), imm, half)), rd, MoveWideValue(true, v, imm, half))
  {
    hide MoveWideValue;
  }

  lemma {:induction false} WriteOnce<R>(c: Core<R>, rd: bv32, v: bv64)
    ensures Wrote(c, WriteX(c, rd, v), rd, v)
  {}

  lemma {:induction false} MovWordsDecode(rd: bv32, v: bv64)
    requires rd < 32
    ensures Decode(MovWords(rd, v)[0]) == MoveWide(false, rd, Quarter(v, 0) as bv64, 0)
    ensures Decode(MovWords(rd, v)[1]) == MoveWide(true, rd, Quarter(v, 1) as bv64, 1)
    ensures Decode(MovWords(rd, v)[2]) == MoveWide(true, rd, Quarter(v, 2) as bv64, 2)
    ensures Decode(MovWords(rd, v)[3]) == MoveWide(true, rd, Quarter(v, 3) as bv64, 3)
  {
    hide Decode, MovzWord, MovkWord, Quarter;
    QuarterSmall(v, 0);
    QuarterSmall(v, 1);
    QuarterSmall(v, 2);
    QuarterSmall(v, 3);
    MovzDecodes(rd, Quarter(v, 0));
    MovkDecodes(rd, Quarter(v, 1), 1);
    MovkDecodes(rd, Quarter(v, 2), 2);
    MovkDecodes(rd, Quarter(v, 3), 3);
  }

  lemma {:induction false} RunMore<R>(sem: Semantics<R>, s: State<R>, m: nat)
    ensures Run(sem, s, m + 1) == Step(sem, Run(sem, s, m))
    decreases m
  {
    hide Step;
    if m > 0 { RunMore(sem, Step(sem, s), m - 1); }
  }

  /** The four words of `Mov` leave `v` in `rd` and change nothing else. */
  lemma {:induction false} MovRuns<R>(
      sem: Semantics<R>, s: State<R>, base: bv64, code: seq<bv32>, i: nat, rd: bv32, v: bv64)
    requires i + 4 <= |code| && Holds(s.core.mem, base, code) && s.pc == Place(base, i) && rd < 32
    requires forall j :: 0 <= j < 4 ==> code[i + j] == MovWords(rd, v)[j]
    ensures var t := Run(sem, s, 4); t.pc == Place(base, i + 4) && Wrote(s.core, t.core, rd, v)
  {
    hide Decode, Load32, Plus, MoveWideValue, ReadX, WriteX, Quarter, MovWords, Place, Step;
    MovWordsDecode(rd, v);
    var s1 := Step(sem, s);
    var s2 := Step(sem, s1);
    var s3 := Step(sem, s2);
    var s4 := Step(sem, s3);
    var was := ReadX(s.core, rd);
    var v1 := MoveWideValue(false, was, Quarter(v, 0) as bv64, 0);
    var v2 := MoveWideValue(true, v1, Quarter(v, 1) as bv64, 1);
    var v3 := MoveWideValue(true, v2, Quarter(v, 2) as bv64, 2);
    assert code[i + 0] == MovWords(rd, v)[0];
    MoveStep(sem, s, base, code, i, false, rd, Quarter(v, 0) as bv64, 0);
    WriteOnce(s.core, rd, v1);
    MoveStep(sem, s1, base, code, i + 1, true, rd, Quarter(v, 1) as bv64, 1);
    WriteAgain(s.core, s1.core, rd, v1, Quarter(v, 1) as bv64, 1);
    MoveStep(sem, s2, base, code, i + 2, true, rd, Quarter(v, 2) as bv64, 2);
    WriteAgain(s.core, s2.core, rd, v2, Quarter(v, 2) as bv64, 2);
    MoveStep(sem, s3, base, code, i + 3, true, rd, Quarter(v, 3) as bv64, 3);
    WriteAgain(s.core, s3.core, rd, v3, Quarter(v, 3) as bv64, 3);
    QuartersMakeWord(was, v);
    RunMore(sem, s, 0);
    RunMore(sem, s, 1);
    RunMore(sem, s, 2);
    RunMore(sem, s, 3);
  }

  /** A linked `Ldr` loads its literal into X17. */
  lemma {:induction false} LiteralLoads<R>(
      sem: Semantics<R>, s: State<R>, base: bv64, code: seq<bv32>, i: nat, data: bv64)
    requires i < |code| < 0x40000 && Holds(s.core.mem, base, code) && s.pc == Place(base, i)
    requires LinkedIn(code, i, LdrLabelWord(TMP_REG_0), data)
    ensures Step(sem, s) == State(Place(base, i + 1), WriteX(s.core, TMP_REG_0, data))
  {
    hide Decode, Load32, Plus, Low, High, LinkWord, LdrLabelWord, WriteX, Join;
    var distance: nat :| LinkedBy(code, i, LdrLabelWord(TMP_REG_0), data, distance);
    LinkReaches(base, i, distance);
    StepAt(sem, s, base, code, i);
    HalvesMakeWord(data);
    assert Load32(s.core.mem, Place(base, i + distance + 1)) == High(data);
    assert Place(base, i + distance + 1) == Plus(Place(base, i + distance), 4);
  }

  /** `Ldr x17, literal; br x17` goes to the literal, `blr x17` also puts the next place in LR. */
  lemma {:induction false} LiteralBranches<R>(
      sem: Semantics<R>, s: State<R>, base: bv64, code: seq<bv32>, i: nat, link: bool, data: bv64)
    requires i + 2 <= |code| < 0x40000 && Holds(s.core.mem, base, code) && s.pc == Place(base, i)
    requires LinkedIn(code, i, LdrLabelWord(TMP_REG_0), data)
    requires code[i + 1] == if link then BlrWord(TMP_REG_0) else BrWord(TMP_REG_0)
    ensures var c := WriteX(s.core, TMP_REG_0, data);
            Run(sem, s, 2) == if link then State(data, WriteX(c, 30, Place(base, i + 2))) else State(data, c)
  {
    hide Decode, Load32, Plus, LdrLabelWord, BrWord, BlrWord, Step;
    LiteralLoads(sem, s, base, code, i, data);
    var t := Step(sem, s);
    StepAt(sem, t, base, code, i + 1);
    BrDecodes();
    RunMore(sem, s, 0);
    RunMore(sem, s, 1);
  }

  // ----- one instruction -----

  /** What every case below assumes of the relocated machine `t` about to run the piece of `w`. */
  ghost predicate AtPiece<R>(t: State<R>, w: bv32, pc: bv64, c: Core<R>, base: bv64, code: seq<bv32>, i: nat,
                                   private: iset<bv64>) {
    && |code| < 0x40000 && i < |code| && Holds(t.core.mem, base, code) && t.pc == Place(base, i)
    && PieceIn(code, i, Relocate(w, pc)) && Agree(c, t.core, private)
  }

  lemma {:induction false} LoadsAgree(m: bv64 -> bv8, n: bv64 -> bv8, a: bv64, private: iset<bv64>)
    requires forall b :: b !in private ==> m(b) == n(b)
    requires DoubleWordOutside(a, private)
    ensures Load32(m, a) == Load32(n, a) && Load32(m, Plus(a, 4)) == Load32(n, Plus(a, 4))
  {}

  lemma {:induction false} JoinIsNarrow(low: bv32, high: bv32)
    ensures Join(low, high) == low as bv64 <==> high == 0
  {}

  lemma {:induction false} PlusZero(a: bv64)
    ensures Plus(a, 0) == a
  {}

  /** The value a literal load puts in its register. */
  ghost function Literally(opc: bv32, m: bv64 -> bv8, a: bv64): bv64 {
    if opc == 0 then Load32(m, a) as bv64 else Load64(m, a)
  }

  /** The relocated literal load: five words that leave the 64 bits at the literal in the register. */
  lemma {:induction false} LoadLiteralRuns<R>(
      sem: Semantics<R>, w: bv32, pc: bv64, t: State<R>, base: bv64, code: seq<bv32>, i: nat)
    requires Decode(w).LoadLiteral? && i + 5 <= |code| && Holds(t.core.mem, base, code) && t.pc == Place(base, i)
    requires PieceIn(code, i, Relocate(w, pc))
    ensures var a, rt, u := Plus(pc, Decode(w).offset), Decode(w).rt, Run(sem, t, 5);
            && u.pc == Place(base, i + 5)
            && LoadedWide(t.core, u.core, rt, a)
  {
    hide Decode, Load32, Load64, Plus, MovWords, LdrWord, DecodeImm19Offset, Step, Place;
    LoadLiteralDecodes(w);
    LdrDecodes(w & 31);
    var a := Plus(pc, Decode(w).offset);
    var words := Relocate(w, pc).words;
    assert words == MovWords(TMP_REG_0, a) + [LdrWord(w & 31, TMP_REG_0)];
    forall j | 0 <= j < 4
      ensures code[i + j] == MovWords(TMP_REG_0, a)[j]
    {
      assert code[i + j] == words[j];
    }
    assert code[i + 4] == words[4];
    MovRuns(sem, t, base, code, i, TMP_REG_0, a);
    var u := Run(sem, t, 4);
    StepAt(sem, u, base, code, i + 4);
    PlusZero(a);
    RunMore(sem, t, 4);
    NextPlace(base, i + 4);
  }

  /** `u` is `d` with the 64 bits at `a` in `rt`; X17 is free. */
  ghost predicate LoadedWide<R>(d: Core<R>, u: Core<R>, rt: bv32, a: bv64) {
    && u.mem == d.mem && u.nzcv == d.nzcv && u.rest == d.rest
    && (forall r :: r != TMP_REG_0 ==> u.x(r) == if r == rt && r != 31 then Load64(d.mem, a) else d.x(r))
  }

  /** Reading 64 bits for a literal is right exactly when it is a 64-bit one or the next word is zero. */
  lemma {:induction false} LiteralValue(opc: bv32, m: bv64 -> bv8, n: bv64 -> bv8, a: bv64, private: iset<bv64>)
    requires forall b :: b !in private ==> m(b) == n(b)
    requires DoubleWordOutside(a, private)
    ensures Literally(opc, m, a) == Load64(n, a) <==> (opc == 0 ==> Load32(m, Plus(a, 4)) == 0)
  {
    Load64Agrees(m, n, a, private);
    hide Load32, Load64, Plus, DoubleWordOutside, Join;
    NarrowLoad(m, a);
  }

  lemma {:induction false} Load64Agrees(m: bv64 -> bv8, n: bv64 -> bv8, a: bv64, private: iset<bv64>)
    requires forall b :: b !in private ==> m(b) == n(b)
    requires DoubleWordOutside(a, private)
    ensures Load64(m, a) == Load64(n, a)
  {
    hide Load32, Plus, DoubleWordOutside, Join;
    LoadsAgree(m, n, a, private);
  }

  lemma {:induction false} NarrowLoad(m: bv64 -> bv8, a: bv64)
    ensures Load64(m, a) == Load32(m, a) as bv64 <==> Load32(m, Plus(a, 4)) == 0
  {
    hide Load32, Plus, Join;
    JoinIsNarrow(Load32(m, a), Load32(m, Plus(a, 4)));
  }

  lemma {:induction false} SameWrite<R>(c: Core<R>, d: Core<R>, u: Core<R>, rt: bv32, a: bv64, private: iset<bv64>)
    requires Agree(c, d, private) && LoadedWide(d, u, rt, a)
    ensures Agree(WriteX(c, rt, Load64(d.mem, a)), u, private)
  {
    hide Load64;
  }

  lemma {:induction false} UnseenWrite<R>(
      c: Core<R>, d: Core<R>, u: Core<R>, rt: bv32, v: bv64, a: bv64, private: iset<bv64>)
    requires Agree(c, d, private) && LoadedWide(d, u, rt, a) && (rt == 31 || rt == TMP_REG_0)
    ensures Agree(WriteX(c, rt, v), u, private)
  {
    hide Load64;
  }

  lemma {:induction false} OtherWrite<R>(
      c: Core<R>, d: Core<R>, u: Core<R>, rt: bv32, v: bv64, a: bv64, private: iset<bv64>)
    requires LoadedWide(d, u, rt, a) && rt != 31 && rt != TMP_REG_0 && v != Load64(d.mem, a)
    ensures !Agree(WriteX(c, rt, v), u, private)
  {
    hide Load64;
    assert WriteX(c, rt, v).x(rt) == v;
    assert u.x(rt) != v;
  }

  lemma {:induction false} LoadedAgree<R>(
      c: Core<R>, d: Core<R>, u: Core<R>, opc: bv32, rt: bv32, a: bv64, private: iset<bv64>)
    requires Agree(c, d, private) && LoadedWide(d, u, rt, a) && DoubleWordOutside(a, private)
    ensures Agree(WriteX(c, rt, Literally(opc, c.mem, a)), u, private) <==> (opc == 0 ==> WordLoadGuard(rt, a, c))
  {
    hide Load32, Load64, Plus, DoubleWordOutside, Literally, WriteX, LoadedWide;
    var v := Literally(opc, c.mem, a);
    LiteralValue(opc, c.mem, d.mem, a, private);
    if rt == 31 || rt == TMP_REG_0 {
      UnseenWrite(c, d, u, rt, v, a, private);
    } else if v == Load64(d.mem, a) {
      SameWrite(c, d, u, rt, a, private);
    } else {
      OtherWrite(c, d, u, rt, v, a, private);
    }
  }

  lemma {:induction false} NextPlace(base: bv64, i: nat)
    ensures Place(base, i + 1) == Plus(Place(base, i), 4)
  {}

  /** Relocating a 32-bit literal load is right exactly when the next word of memory is zero, or the register
      is XZR or X17; relocating a 64-bit one always is. */
  lemma {:induction false} LoadLiteralSimulates<R>(
      sem: Semantics<R>, w: bv32, pc: bv64, c: Core<R>, t: State<R>, base: bv64, code: seq<bv32>, i: nat,
      private: iset<bv64>)
    requires Decode(w).LoadLiteral? && !Decode(w).simd && Decode(w).opc < 2
    requires DoubleWordOutside(Plus(pc, Decode(w).offset), private)
    requires AtPiece(t, w, pc, c, base, code, i, private)
    ensures Run(sem, t, 5).core.mem == t.core.mem
    ensures Follows(Execute(sem, w, pc, c), Run(sem, t, 5), Place(base, i + 5), private) <==>
              (Decode(w).opc == 0 ==> WordLoadGuard(Decode(w).rt, Plus(pc, Decode(w).offset), c))
  {
    hide Decode, Load32, Load64, Plus, Relocate, Run, DoubleWordOutside, WordLoadGuard, WriteX, LoadedWide, Agree;
    hide Holds, Place, Execute, Literally;
    LoadLiteralSize(w, pc);
    var a, rt, opc := Plus(pc, Decode(w).offset), Decode(w).rt, Decode(w).opc;
    LoadLiteralRuns(sem, w, pc, t, base, code, i);
    LoadedAgree(c, t.core, Run(sem, t, 5).core, opc, rt, a, private);
    LoadedKeepsMemory(t.core, Run(sem, t, 5).core, rt, a);
    LoadLiteralEffect(sem, w, pc, c);
  }

  lemma {:induction false} LoadLiteralEffect<R>(sem: Semantics<R>, w: bv32, pc: bv64, c: Core<R>)
    requires Decode(w).LoadLiteral? && !Decode(w).simd && Decode(w).opc < 2
    ensures Execute(sem, w, pc, c) ==
              Next(WriteX(c, Decode(w).rt, Literally(Decode(w).opc, c.mem, Plus(pc, Decode(w).offset))))
  {
    hide Decode, Load32, Load64, Plus, WriteX;
  }

  lemma {:induction false} LoadedKeepsMemory<R>(d: Core<R>, u: Core<R>, rt: bv32, a: bv64)
    requires LoadedWide(d, u, rt, a)
    ensures u.mem == d.mem
  {}

  lemma {:induction false} LoadLiteralSize(w: bv32, pc: bv64)
    requires Decode(w).LoadLiteral?
    ensures |Relocate(w, pc).words| == 5
  {
    hide Decode, DecodeImm19Offset, LdrWord, MovWords, Plus;
    LoadLiteralDecodes(w);
  }

  // ----- adr, adrp -----

  lemma {:induction false} PcRelativeShape(w: bv32, pc: bv64)
    requires Decode(w).PcRelative?
    ensures Relocate(w, pc) == Piece(MovWords(Decode(w).rd, AdrValue(w, pc)), None) && Decode(w).rd < 32
  {
    hide Decode, MovWords, AdrValue, DecodeImmhiImmloOffset;
    PcRelativeDecodes(w);
    PcRelativeIsNotLiteral(w);
  }

  lemma {:induction false} PcRelativeIsNotLiteral(w: bv32)
    requires IsPcRelative(w)
    ensures !IsLoadLiteral(w)
  {}

  lemma {:induction false} PcRelativeEffect<R>(sem: Semantics<R>, w: bv32, pc: bv64, c: Core<R>)
    requires Decode(w).PcRelative?
    ensures Execute(sem, w, pc, c) == Next(WriteX(c, Decode(w).rd, AdrValue(w, pc)))
  {
    hide Decode, Plus, WriteX, DecodeImmhiImmloOffset;
    PcRelativeDecodes(w);
  }

  lemma {:induction false} WroteAgree<R>(c: Core<R>, d: Core<R>, u: Core<R>, rd: bv32, v: bv64, private: iset<bv64>)
    requires Agree(c, d, private) && Wrote(d, u, rd, v)
    ensures Agree(WriteX(c, rd, v), u, private)
  {}

  lemma {:induction false} PcRelativeSimulates<R>(
      sem: Semantics<R>, w: bv32, pc: bv64, c: Core<R>, t: State<R>, base: bv64, code: seq<bv32>, i: nat,
      private: iset<bv64>)
    requires Decode(w).PcRelative? && AtPiece(t, w, pc, c, base, code, i, private)
    ensures Run(sem, t, 4).core.mem == t.core.mem
    ensures Follows(Execute(sem, w, pc, c), Run(sem, t, 4), Place(base, i + 4), private)
  {
    hide Decode, MovWords, AdrValue, Execute, Run, Agree, WriteX, Holds, Place, Relocate;
    PcRelativeShape(w, pc);
    PcRelativeEffect(sem, w, pc, c);
    var rd, v := Decode(w).rd, AdrValue(w, pc);
    MovRuns(sem, t, base, code, i, rd, v);
    WroteAgree(c, t.core, Run(sem, t, 4).core, rd, v, private);
  }

  // ----- b, bl -----

  lemma {:induction false} BranchShape(w: bv32, pc: bv64)
    requires Decode(w).Branch?
    ensures Relocate(w, pc) == BranchThrough(Decode(w).link, Plus(pc, Decode(w).offset))
  {
    hide Decode, DecodeImm26Offset, BranchThrough, Plus;
    BranchDecodes(w);
    BranchIsNothingElse(w);
  }

  lemma {:induction false} BranchIsNothingElse(w: bv32)
    requires IsBranch(w)
    ensures !IsLoadLiteral(w) && !IsPcRelative(w)
  {}

  lemma {:induction false} BranchEffect<R>(sem: Semantics<R>, w: bv32, pc: bv64, c: Core<R>)
    requires Decode(w).Branch?
    ensures var target := Plus(pc, Decode(w).offset);
            Execute(sem, w, pc, c) == if Decode(w).link then Call(c, target) else Jump(c, target)
  {
    hide Decode, Plus;
  }

  lemma {:induction false} ScratchAgrees<R>(c: Core<R>, d: Core<R>, v: bv64, lr: bv64, private: iset<bv64>)
    requires Agree(c, d, private)
    ensures Agree(c, WriteX(d, TMP_REG_0, v), private)
    ensures var u := WriteX(WriteX(d, TMP_REG_0, v), 30, lr); AgreeButLink(c, u, private) && u.x(30) == lr
  {}

  lemma {:induction false} BranchSimulates<R>(
      sem: Semantics<R>, w: bv32, pc: bv64, c: Core<R>, t: State<R>, base: bv64, code: seq<bv32>, i: nat,
      private: iset<bv64>)
    requires Decode(w).Branch? && AtPiece(t, w, pc, c, base, code, i, private)
    ensures Run(sem, t, 2).core.mem == t.core.mem
    ensures Follows(Execute(sem, w, pc, c), Run(sem, t, 2), Place(base, i + 2), private)
  {
    hide Decode, Execute, Run, Agree, AgreeButLink, Holds, Place, Relocate, Plus, LdrLabelWord, BrWord, BlrWord;
    hide LinkedIn;
    BranchShape(w, pc);
    BranchEffect(sem, w, pc, c);
    var link, target := Decode(w).link, Plus(pc, Decode(w).offset);
    assert code[i + 1] == BranchThrough(link, target).words[1];
    LiteralBranches(sem, t, base, code, i, link, target);
    ScratchAgrees(c, t.core, target, Place(base, i + 2), private);
  }

  // ----- the three conditional branches -----

  lemma {:induction false} PlaceThree(base: bv64, i: nat)
    ensures Place(base, i + 3) == Plus(Place(base, i), 12)
  {
    hide Plus, Residue;
    PlaceAhead(base, i, 3);
    ThreeWords();
  }

  lemma {:induction false} ThreeWords()
    ensures Bytes(Residue(3)) == 12
  {
    assert Residue(1) == 1;
    assert Residue(2) == 2;
  }

  /** An inverted branch over a jump: `goes` says whether the inverted branch is taken, `holds` whether the
      original one is.  The piece is left after one step or after three, and is right when exactly one is. */
  lemma {:induction false} BranchOverSimulates<R>(
      sem: Semantics<R>, w: bv32, pc: bv64, c: Core<R>, t: State<R>, base: bv64, code: seq<bv32>, i: nat,
      private: iset<bv64>, inverted: bv32, holds: bool, goes: bool, target: bv64)
    requires AtPiece(t, w, pc, c, base, code, i, private)
    requires Relocate(w, pc) == BranchOver(inverted, target)
    requires Execute(sem, w, pc, c) == Taken(holds, c, target)
    requires Execute(sem, inverted, t.pc, t.core) == Taken(goes, t.core, Plus(t.pc, 12))
    ensures var m := if goes then 1 else 3;
            && Run(sem, t, m).core.mem == t.core.mem
            && (Follows(Execute(sem, w, pc, c), Run(sem, t, m), Place(base, i + 3), private) <==>
                holds != goes || target == Place(base, i + 3))
  {
    hide Decode, Execute, Agree, Holds, Place, Relocate, Plus, LdrLabelWord, BrWord, LinkedIn, Step, WriteX;
    assert code[i + 0] == BranchOver(inverted, target).words[0];
    assert code[i + 2] == BranchOver(inverted, target).words[2];
    StepAt(sem, t, base, code, i);
    var u := Step(sem, t);
    RunMore(sem, t, 0);
    NextPlace(base, i);
    if goes {
      PlaceThree(base, i);
    } else {
      LiteralBranches(sem, u, base, code, i + 1, false, target);
      ScratchAgrees(c, t.core, target, 0, private);
      RunTwoMore(sem, t);
      WriteKeepsMemory(t.core, TMP_REG_0, target);
    }
  }

  lemma {:induction false} WriteKeepsMemory<R>(c: Core<R>, r: bv32, v: bv64)
    ensures WriteX(c, r, v).mem == c.mem
  {}

  lemma {:induction false} RunTwoMore<R>(sem: Semantics<R>, t: State<R>)
    ensures Run(sem, t, 3) == Run(sem, Step(sem, t), 2)
  {
    hide Step;
  }

  /** Why the inverted word of a test or compare branch takes the other way. */
  lemma {:induction false} TestBranchOver<R>(sem: Semantics<R>, w: bv32, pc: bv64, c: Core<R>, q: bv64, d: Core<R>)
    requires Decode(w).TestBranch? && c.x(w & 31) == d.x(w & 31)
    ensures Relocate(w, pc) == BranchOver(InvertTestBranch(w), Plus(pc, Decode(w).offset))
    ensures exists holds: bool ::
              && Execute(sem, w, pc, c) == Taken(holds, c, Plus(pc, Decode(w).offset))
              && Execute(sem, InvertTestBranch(w), q, d) == Taken(!holds, d, Plus(q, 12))
  {
    hide Decode, Plus, BranchOver, InvertTestBranch, DecodeImm14Offset, BitSet;
    TestBranchDecodes(w);
    TestBranchInverts(w);
    TestBranchIsNothingElse(w);
    TestBranchFields(w);
    var holds := BitSet(ReadX(c, w & 31), ((w >> 31) << 5) | ((w >> 19) & 31)) == ((w >> 24) & 1 == 1);
    assert Execute(sem, w, pc, c) == Taken(holds, c, Plus(pc, Decode(w).offset));
  }

  lemma {:induction false} TestBranchFields(w: bv32)
    requires Decode(w).TestBranch?
    ensures Decode(w).nonzero == ((w >> 24) & 1 == 1) && Decode(w).rt == w & 31
    ensures Decode(w).pos == ((w >> 31) << 5) | ((w >> 19) & 31)
  {}

  lemma {:induction false} TestBranchIsNothingElse(w: bv32)
    requires IsTestBranch(w)
    ensures !IsLoadLiteral(w) && !IsPcRelative(w) && !IsBranch(w)
  {}

  lemma {:induction false} CompareBranchOver<R>(sem: Semantics<R>, w: bv32, pc: bv64, c: Core<R>, q: bv64, d: Core<R>)
    requires Decode(w).CompareBranch? && c.x(w & 31) == d.x(w & 31)
    ensures Relocate(w, pc) == BranchOver(InvertCompareBranch(w), Plus(pc, Decode(w).offset))
    ensures exists holds: bool ::
              && Execute(sem, w, pc, c) == Taken(holds, c, Plus(pc, Decode(w).offset))
              && Execute(sem, InvertCompareBranch(w), q, d) == Taken(!holds, d, Plus(q, 12))
  {
    hide Decode, Plus, BranchOver, InvertCompareBranch, DecodeImm19Offset, IsNonzero;
    CompareBranchDecodes(w);
    CompareBranchInverts(w);
    CompareBranchIsNothingElse(w);
    CompareBranchFields(w);
    var holds := IsNonzero(w >> 31 == 1, ReadX(c, w & 31)) == ((w >> 24) & 1 == 1);
    assert Execute(sem, w, pc, c) == Taken(holds, c, Plus(pc, Decode(w).offset));
  }

  lemma {:induction false} CompareBranchFields(w: bv32)
    requires Decode(w).CompareBranch?
    ensures Decode(w).nonzero == ((w >> 24) & 1 == 1) && Decode(w).rt == w & 31 && Decode(w).wide == (w >> 31 == 1)
  {}

  lemma {:induction false} CompareBranchIsNothingElse(w: bv32)
    requires IsCompareBranch(w)
    ensures !IsLoadLiteral(w) && !IsPcRelative(w) && !IsBranch(w) && !IsTestBranch(w)
  {}

  lemma {:induction false} TestBranchSimulates<R>(
      sem: Semantics<R>, w: bv32, pc: bv64, c: Core<R>, t: State<R>, base: bv64, code: seq<bv32>, i: nat,
      private: iset<bv64>)
    returns (m: nat)
    requires Decode(w).TestBranch? && AtPiece(t, w, pc, c, base, code, i, private)
    requires c.x(Decode(w).rt) == t.core.x(Decode(w).rt)
    ensures Run(sem, t, m).core.mem == t.core.mem
    ensures Follows(Execute(sem, w, pc, c), Run(sem, t, m), Place(base, i + 3), private)
  {
    hide Decode, Execute, Run, Holds, Place, Relocate, Plus, PieceIn, Follows, Taken, InvertTestBranch, BranchOver;
    TestBranchFields(w);
    var target := Plus(pc, Decode(w).offset);
    TestBranchOver(sem, w, pc, c, t.pc, t.core);
    var holds: bool :| Execute(sem, w, pc, c) == Taken(holds, c, target)
                       && Execute(sem, InvertTestBranch(w), t.pc, t.core) == Taken(!holds, t.core, Plus(t.pc, 12));
    BranchOverSimulates(sem, w, pc, c, t, base, code, i, private, InvertTestBranch(w), holds, !holds, target);
    m := if !holds then 1 else 3;
  }

  lemma {:induction false} CompareBranchSimulates<R>(
      sem: Semantics<R>, w: bv32, pc: bv64, c: Core<R>, t: State<R>, base: bv64, code: seq<bv32>, i: nat,
      private: iset<bv64>)
    returns (m: nat)
    requires Decode(w).CompareBranch? && AtPiece(t, w, pc, c, base, code, i, private)
    requires c.x(Decode(w).rt) == t.core.x(Decode(w).rt)
    ensures Run(sem, t, m).core.mem == t.core.mem
    ensures Follows(Execute(sem, w, pc, c), Run(sem, t, m), Place(base, i + 3), private)
  {
    hide Decode, Execute, Run, Holds, Place, Relocate, Plus, PieceIn, Follows, Taken, InvertCompareBranch, BranchOver;
    CompareBranchFields(w);
    var target := Plus(pc, Decode(w).offset);
    CompareBranchOver(sem, w, pc, c, t.pc, t.core);
    var holds: bool :| Execute(sem, w, pc, c) == Taken(holds, c, target)
                       && Execute(sem, InvertCompareBranch(w), t.pc, t.core) == Taken(!holds, t.core, Plus(t.pc, 12));
    BranchOverSimulates(sem, w, pc, c, t, base, code, i, private, InvertCompareBranch(w), holds, !holds, target);
    m := if !holds then 1 else 3;
  }

  lemma {:induction false} CondBranchShape(w: bv32, pc: bv64)
    requires Decode(w).CondBranch?
    ensures Relocate(w, pc) == BranchOver(InvertCondBranch(w), Plus(pc, Decode(w).offset))
    ensures Decode(w).cond == w & 15 && w & 15 < 16
    ensures Decode(InvertCondBranch(w)) == CondBranch((w & 15) ^ 1, 12)
  {
    hide Decode, Plus, BranchOver, InvertCondBranch, DecodeImm19Offset;
    CondBranchDecodes(w);
    CondBranchInverts(w);
    CondBranchIsNothingElse(w);
  }

  lemma {:induction false} CondBranchIsNothingElse(w: bv32)
    requires IsCondBranch(w)
    ensures !IsLoadLiteral(w) && !IsPcRelative(w) && !IsBranch(w) && !IsTestBranch(w) && !IsCompareBranch(w)
  {}

  lemma {:induction false} CondBranchEffect<R>(sem: Semantics<R>, w: bv32, pc: bv64, c: Core<R>)
    requires Decode(w).CondBranch?
    ensures Execute(sem, w, pc, c) == Taken(CondHolds(Decode(w).cond, c.nzcv), c, Plus(pc, Decode(w).offset))
  {
    hide Decode, Plus, CondHolds, Taken;
  }

  /** Relocating b.cond is right exactly when the condition is not AL or NV: those the inversion does not invert. */
  lemma {:induction false} CondBranchSimulates<R>(
      sem: Semantics<R>, w: bv32, pc: bv64, c: Core<R>, t: State<R>, base: bv64, code: seq<bv32>, i: nat,
      private: iset<bv64>)
    returns (m: nat)
    requires Decode(w).CondBranch? && AtPiece(t, w, pc, c, base, code, i, private)
    ensures m == if CondHolds(Decode(w).cond ^ 1, c.nzcv) then 1 else 3
    ensures Run(sem, t, m).core.mem == t.core.mem
    ensures Follows(Execute(sem, w, pc, c), Run(sem, t, m), Place(base, i + 3), private) <==>
              Decode(w).cond < 14 || Plus(pc, Decode(w).offset) == Place(base, i + 3)
  {
    hide Decode, Execute, Run, Holds, Place, Relocate, Plus, PieceIn, Follows, Taken, InvertCondBranch, BranchOver;
    hide CondHolds;
    CondBranchShape(w, pc);
    var cond, target := Decode(w).cond, Plus(pc, Decode(w).offset);
    CondBranchEffect(sem, w, pc, c);
    CondBranchEffect(sem, InvertCondBranch(w), t.pc, t.core);
    var holds, goes := CondHolds(cond, c.nzcv), CondHolds(cond ^ 1, c.nzcv);
    if cond < 14 { InvertedCondition(cond, c.nzcv); } else { AlwaysStaysAlways(cond, c.nzcv); }
    BranchOverSimulates(sem, w, pc, c, t, base, code, i, private, InvertCondBranch(w), holds, goes, target);
    m := if goes then 1 else 3;
  }

  // ----- everything else -----

  lemma {:induction false} CopiedShape(w: bv32, pc: bv64)
    requires Decode(w).MoveWide? || Decode(w).LoadWide? || Decode(w).BranchRegister? || Decode(w).Plain?
    requires !IsCondBranch(w)
    ensures Relocate(w, pc) == Piece([w], None)
  {
    hide Decode, IsLoadLiteral, IsPcRelative, IsBranch, IsTestBranch, IsCompareBranch, IsCondBranch;
    LoadLiteralDecodes(w);
    PcRelativeDecodes(w);
    BranchDecodes(w);
    TestBranchDecodes(w);
    CompareBranchDecodes(w);
  }

  lemma {:induction false} CopiedIgnoresPc<R>(sem: Semantics<R>, w: bv32, pc: bv64, c: Core<R>)
    requires Decode(w).MoveWide? || Decode(w).LoadWide? || Decode(w).BranchRegister? || Decode(w).Plain?
    ensures Execute(sem, w, pc, c) == Execute(sem, w, 0, c)
  {
    hide Decode, WriteX, ReadX, Load64, MoveWideValue, Plus;
  }

  lemma {:induction false} CopySimulates<R(!new)>(
      sem: Semantics<R>, w: bv32, pc: bv64, c: Core<R>, t: State<R>, base: bv64, code: seq<bv32>, i: nat,
      private: iset<bv64>)
    requires Decode(w).MoveWide? || Decode(w).LoadWide? || Decode(w).BranchRegister? || Decode(w).Plain?
    requires !IsCondBranch(w) && CopySafe(sem, w, c, private)
    requires AtPiece(t, w, pc, c, base, code, i, private)
    ensures Untouched(t.core, Run(sem, t, 1).core, private)
    ensures Untouched(c, Execute(sem, w, pc, c).core, private)
    ensures Follows(Execute(sem, w, pc, c), Run(sem, t, 1), Place(base, i + 1), private)
  {
    hide Decode, Execute, Plus, Place, Relocate, IsCondBranch, Holds;
    CopiedShape(w, pc);
    CopiedIgnoresPc(sem, w, pc, c);
    CopiedIgnoresPc(sem, w, t.pc, t.core);
    assert code[i + 0] == Relocate(w, pc).words[0];
    StepAt(sem, t, base, code, i);
    NextPlace(base, i);
    RunMore(sem, t, 0);
  }

  // ----- any instruction -----

  /** The piece of any guarded instruction does what the instruction does. */
  lemma {:induction false} PieceSimulates<R(!new)>(
      sem: Semantics<R>, w: bv32, pc: bv64, c: Core<R>, t: State<R>, base: bv64, code: seq<bv32>, i: nat,
      private: iset<bv64>)
    returns (m: nat)
    requires Guard(sem, w, pc, c, private) && AtPiece(t, w, pc, c, base, code, i, private)
    ensures Untouched(t.core, Run(sem, t, m).core, private)
    ensures Untouched(c, Execute(sem, w, pc, c).core, private)
    ensures Follows(Execute(sem, w, pc, c), Run(sem, t, m), Place(base, i + |Relocate(w, pc).words|), private)
  {
    hide Decode, Execute, Plus, Place, Relocate, IsCondBranch, AtPiece, Follows, Run, WordLoadGuard, DoubleWordOutside;
    hide CopySafe, BranchOver, BranchThrough, Literally, AdrValue, WriteX, MovWords, Load32;
    hide InvertTestBranch, InvertCompareBranch, InvertCondBranch, CondHolds;
    match Decode(w)
    case LoadLiteral(_, _, _, _) =>
      LoadLiteralSize(w, pc);
      LoadLiteralEffect(sem, w, pc, c);
      LoadLiteralSimulates(sem, w, pc, c, t, base, code, i, private);
      WriteKeepsMemory(c, Decode(w).rt, Literally(Decode(w).opc, c.mem, Plus(pc, Decode(w).offset)));
      m := 5;
    case PcRelative(_, _, _) =>
      PcRelativeShape(w, pc);
      PcRelativeEffect(sem, w, pc, c);
      PcRelativeSimulates(sem, w, pc, c, t, base, code, i, private);
      WriteKeepsMemory(c, Decode(w).rd, AdrValue(w, pc));
      m := 4;
    case Branch(_, _) =>
      BranchShape(w, pc);
      BranchEffect(sem, w, pc, c);
      BranchSimulates(sem, w, pc, c, t, base, code, i, private);
      m := 2;
    case TestBranch(_, _, _, _) =>
      SameTested(c, t, w, pc, base, code, i, private);
      TestBranchOver(sem, w, pc, c, t.pc, t.core);
      m := TestBranchSimulates(sem, w, pc, c, t, base, code, i, private);
    case CompareBranch(_, _, _, _) =>
      SameTested(c, t, w, pc, base, code, i, private);
      CompareBranchOver(sem, w, pc, c, t.pc, t.core);
      m := CompareBranchSimulates(sem, w, pc, c, t, base, code, i, private);
    case CondBranch(_, _) =>
      CondBranchShape(w, pc);
      CondBranchEffect(sem, w, pc, c);
      m := CondBranchSimulates(sem, w, pc, c, t, base, code, i, private);
    case _ =>
      CopiedShape(w, pc);
      CopySimulates(sem, w, pc, c, t, base, code, i, private);
      m := 1;
  }

  lemma {:induction false} SameTested<R>(
      c: Core<R>, t: State<R>, w: bv32, pc: bv64, base: bv64, code: seq<bv32>, i: nat, private: iset<bv64>)
    requires AtPiece(t, w, pc, c, base, code, i, private)
    ensures Decode(w).TestBranch? && Decode(w).rt != TMP_REG_0 ==>
              Decode(w).rt == w & 31 && c.x(w & 31) == t.core.x(w & 31)
    ensures Decode(w).CompareBranch? && Decode(w).rt != TMP_REG_0 ==>
              Decode(w).rt == w & 31 && c.x(w & 31) == t.core.x(w & 31)
  {
    hide Decode, PieceIn, Relocate, Place, Holds;
    if Decode(w).TestBranch? { TestBranchFields(w); }
    if Decode(w).CompareBranch? { CompareBranchFields(w); }
  }
}
