/** What the guard of the block theorem means for copied loads and stores, and for an ordinary prologue. */
module Arm64Guards {
  import opened Arm64Machine
  import opened Arm64Relocator
  import opened Arm64Simulation
  import opened Arm64Block

  // ----- loads -----

  /** The memory `m` with one byte changed. */
  function Flipped(m: bv64 -> bv8, a: bv64): bv64 -> bv8 { b => if b == a then m(b) ^ 1 else m(b) }

  predicate InWord(b: bv64, a: bv64) { b == a || b == a + 1 || b == a + 2 || b == a + 3 }

  lemma {:induction false} Load32Differs(m: bv64 -> bv8, a: bv64, b: bv64)
    requires InWord(b, a)
    ensures Load32(Flipped(m, b), a) != Load32(m, a)
  {
    FlippedBytes(m(a), m(a + 1), m(a + 2), m(a + 3));
  }

  /** Changing any of four bytes changes their word. */
  lemma {:induction false} FlippedBytes(p: bv8, q: bv8, r: bv8, s: bv8)
    ensures Word(p ^ 1, q, r, s) != Word(p, q, r, s)
    ensures Word(p, q ^ 1, r, s) != Word(p, q, r, s)
    ensures Word(p, q, r ^ 1, s) != Word(p, q, r, s)
    ensures Word(p, q, r, s ^ 1) != Word(p, q, r, s)
  {}

  function Word(p: bv8, q: bv8, r: bv8, s: bv8): bv32 {
    (p as bv32) | ((q as bv32) << 8) | ((r as bv32) << 16) | ((s as bv32) << 24)
  }

  lemma {:induction false} JoinInjective(a: bv32, b: bv32, c: bv32, d: bv32)
    ensures Join(a, b) == Join(c, d) <==> a == c && b == d
  {
    JoinHalves(a, b);
    JoinHalves(c, d);
    hide Join, Low, High;
  }

  lemma {:induction false} JoinHalves(a: bv32, b: bv32)
    ensures Low(Join(a, b)) == a && High(Join(a, b)) == b
  {}

  lemma {:induction false} Load64Differs(m: bv64 -> bv8, a: bv64, b: bv64)
    requires InWord(b, a) || InWord(b, Plus(a, 4))
    ensures Load64(Flipped(m, b), a) != Load64(m, a)
  {
    hide Load32, Join, Plus, InWord, Flipped;
    var n, h := Flipped(m, b), Plus(a, 4);
    if InWord(b, a) { Load32Differs(m, a, b); } else { Load32Differs(m, h, b); }
    JoinInjective(Load32(n, a), Load32(n, h), Load32(m, a), Load32(m, h));
  }

  lemma {:induction false} WordMembers(a: bv64)
    ensures InWord(a, a) && InWord(a + 1, a) && InWord(a + 2, a) && InWord(a + 3, a)
  {}

  ghost predicate WordOutside(a: bv64, private: iset<bv64>) {
    a !in private && a + 1 !in private && a + 2 !in private && a + 3 !in private
  }

  lemma {:induction false} PrivateInWord(a: bv64, private: iset<bv64>) returns (b: bv64)
    requires !WordOutside(a, private)
    ensures b in private && InWord(b, a)
  {
    hide InWord;
    WordMembers(a);
    if a in private {
      b := a;
    } else if a + 1 in private {
      b := a + 1;
    } else if a + 2 in private {
      b := a + 2;
    } else {
      b := a + 3;
    }
  }

  lemma {:induction false} PrivateByte(a: bv64, private: iset<bv64>) returns (b: bv64)
    requires !DoubleWordOutside(a, private)
    ensures b in private && (InWord(b, a) || InWord(b, Plus(a, 4)))
  {
    hide Plus, InWord;
    if !WordOutside(a, private) {
      b := PrivateInWord(a, private);
    } else {
      b := PrivateInWord(Plus(a, 4), private);
    }
  }

  /** The address that a load reads through its base register. */
  function LoadAddress<R>(w: bv32, c: Core<R>): bv64
    requires Decode(w).LoadWide?
  {
    Plus(ReadX(c, Decode(w).rn), Decode(w).offset)
  }

  lemma {:induction false} LoadIsNotCondBranch(w: bv32)
    requires Decode(w).LoadWide?
    ensures !IsCondBranch(w)
  {}

  lemma {:induction false} GuardOfLoad<R(!new)>(
      sem: Semantics<R>, w: bv32, pc: bv64, c: Core<R>, private: iset<bv64>)
    requires Decode(w).LoadWide?
    ensures Guard(sem, w, pc, c, private) <==> CopySafe(sem, w, c, private)
  {
    hide Decode, IsCondBranch, CopySafe;
    LoadIsNotCondBranch(w);
  }

  lemma {:induction false} LoadEffect<R>(sem: Semantics<R>, w: bv32, pc: bv64, c: Core<R>)
    requires Decode(w).LoadWide?
    ensures Execute(sem, w, pc, c) == Next(WriteX(c, Decode(w).rt, Load64(c.mem, LoadAddress(w, c))))
  {
    hide Decode, Load64, Plus, WriteX, ReadX;
  }

  lemma {:induction false} SameAddress<R>(w: bv32, c: Core<R>, d: Core<R>, private: iset<bv64>)
    requires Decode(w).LoadWide? && Decode(w).rn != TMP_REG_0 && Agree(c, d, private)
    ensures LoadAddress(w, c) == LoadAddress(w, d)
  {
    hide Decode, Plus;
  }

  /** Two machines that agree still agree after writing one register, if they write the same or it does not count. */
  lemma {:induction false} WritesAgree<R>(
      c: Core<R>, d: Core<R>, rt: bv32, v: bv64, u: bv64, private: iset<bv64>)
    requires Agree(c, d, private)
    ensures Agree(WriteX(c, rt, v), WriteX(d, rt, u), private) <==> v == u || rt == 31 || rt == TMP_REG_0
  {
    if v != u && rt != 31 && rt != TMP_REG_0 {
      assert WriteX(c, rt, v).x(rt) != WriteX(d, rt, u).x(rt);
    }
  }

  /** A copied load through a register other than X17 passes the guard if and only if the eight bytes that it reads in
      this state are public, or its result goes to XZR or X17. */
  lemma {:induction false} RegisterLoadGuard<R(!new)>(
      sem: Semantics<R>, w: bv32, pc: bv64, c: Core<R>, private: iset<bv64>)
    requires Decode(w).LoadWide? && Decode(w).rn != TMP_REG_0
    ensures Guard(sem, w, pc, c, private) <==>
              DoubleWordOutside(LoadAddress(w, c), private) || Decode(w).rt == 31 || Decode(w).rt == TMP_REG_0
  {
    GuardOfLoad(sem, w, pc, c, private);
    hide Decode, DoubleWordOutside, LoadAddress, CopySafe, Guard;
    var a, rt := LoadAddress(w, c), Decode(w).rt;
    if DoubleWordOutside(a, private) || rt == 31 || rt == TMP_REG_0 {
      PublicLoadIsSafe(sem, w, c, private);
    } else {
      PrivateLoadIsNot(sem, w, c, private);
    }
  }

  lemma {:induction false} PublicLoadIsSafe<R(!new)>(sem: Semantics<R>, w: bv32, c: Core<R>, private: iset<bv64>)
    requires Decode(w).LoadWide? && Decode(w).rn != TMP_REG_0
    requires DoubleWordOutside(LoadAddress(w, c), private) || Decode(w).rt == 31 || Decode(w).rt == TMP_REG_0
    ensures CopySafe(sem, w, c, private)
  {
    hide Decode, Load64, DoubleWordOutside, Execute, LoadAddress, WriteX, Agree;
    var a, rt := LoadAddress(w, c), Decode(w).rt;
    LoadEffect(sem, w, 0, c);
    WriteKeepsMemory(c, rt, Load64(c.mem, a));
    forall d: Core<R> | Agree(c, d, private)
      ensures EffectsAgree(Execute(sem, w, 0, c), Execute(sem, w, 0, d), private)
      ensures Untouched(c, Execute(sem, w, 0, c).core, private) && Untouched(d, Execute(sem, w, 0, d).core, private)
    {
      LoadEffect(sem, w, 0, d);
      SameAddress(w, c, d, private);
      WriteKeepsMemory(d, rt, Load64(d.mem, a));
      WritesAgree(c, d, rt, Load64(c.mem, a), Load64(d.mem, a), private);
      if DoubleWordOutside(a, private) { SameLoad(c, d, a, private); }
    }
  }

  lemma {:induction false} SameLoad<R>(c: Core<R>, d: Core<R>, a: bv64, private: iset<bv64>)
    requires Agree(c, d, private) && DoubleWordOutside(a, private)
    ensures Load64(c.mem, a) == Load64(d.mem, a)
  {
    hide Load64, DoubleWordOutside;
    Load64Agrees(c.mem, d.mem, a, private);
  }

  lemma {:induction false} FlippedAgrees<R>(c: Core<R>, b: bv64, private: iset<bv64>)
    requires b in private
    ensures Agree(c, c.(mem := Flipped(c.mem, b)), private)
  {}

  lemma {:induction false} PrivateLoadIsNot<R(!new)>(sem: Semantics<R>, w: bv32, c: Core<R>, private: iset<bv64>)
    requires Decode(w).LoadWide? && Decode(w).rn != TMP_REG_0
    requires !DoubleWordOutside(LoadAddress(w, c), private) && Decode(w).rt != 31 && Decode(w).rt != TMP_REG_0
    ensures !CopySafe(sem, w, c, private)
  {
    hide Decode, Load64, DoubleWordOutside, Execute, LoadAddress, WriteX, Agree, InWord, Plus, Flipped;
    var a, rt := LoadAddress(w, c), Decode(w).rt;
    var b := PrivateByte(a, private);
    var d := c.(mem := Flipped(c.mem, b));
    Load64Differs(c.mem, a, b);
    FlippedAgrees(c, b, private);
    LoadEffect(sem, w, 0, c);
    LoadEffect(sem, w, 0, d);
    SameAddress(w, c, d, private);
    WritesAgree(c, d, rt, Load64(c.mem, a), Load64(d.mem, a), private);
    assert !EffectsAgree(Execute(sem, w, 0, c), Execute(sem, w, 0, d), private);
  }

  // ----- stores -----

  /** The memory `m` with the `n` bytes at `a` replaced. */
  function Patched(m: bv64 -> bv8, a: bv64, n: bv64, bytes: bv64 -> bv8): bv64 -> bv8 {
    b => if Hits(b, a, n) then bytes(b) else m(b)
  }

  predicate Hits(b: bv64, a: bv64, n: bv64) { b - a < n }

  ghost predicate Public(a: bv64, n: bv64, private: iset<bv64>) {
    forall b :: b in private ==> !Hits(b, a, n)
  }

  /** On every machine that agrees with `c` the word stores the same bytes at the same place, leaves `rest` (the stack
      pointer, say) at the same value, and changes nothing else: address and data do not come from X17. */
  ghost predicate Stores<R(!new)>(
      sem: Semantics<R>, w: bv32, c: Core<R>, private: iset<bv64>, a: bv64, n: bv64, bytes: bv64 -> bv8, rest: R)
  {
    forall d: Core<R> :: Agree(c, d, private) ==>
      sem(w, d) == Next(d.(mem := Patched(d.mem, a, n, bytes), rest := rest))
  }

  lemma {:induction false} PatchedAgree<R>(
      c: Core<R>, d: Core<R>, private: iset<bv64>, a: bv64, n: bv64, bytes: bv64 -> bv8, rest: R)
    requires Agree(c, d, private)
    ensures Agree(c.(mem := Patched(c.mem, a, n, bytes), rest := rest),
                  d.(mem := Patched(d.mem, a, n, bytes), rest := rest), private)
  {
    hide Hits;
  }

  lemma {:induction false} PatchedUntouched<R>(
      c: Core<R>, private: iset<bv64>, a: bv64, n: bv64, bytes: bv64 -> bv8, rest: R)
    requires Public(a, n, private)
    ensures Untouched(c, c.(mem := Patched(c.mem, a, n, bytes), rest := rest), private)
  {
    hide Hits;
  }

  lemma {:induction false} PlainEffect<R>(sem: Semantics<R>, w: bv32, pc: bv64, c: Core<R>)
    requires Decode(w).Plain?
    ensures Execute(sem, w, pc, c) == sem(w, c)
  {
    hide Decode;
  }

  lemma {:induction false} AgreesWithItself<R>(c: Core<R>, private: iset<bv64>)
    ensures Agree(c, c, private)
  {}

  /** A copied store of public bytes passes the guard, whatever it writes and wherever it may point in other states. */
  lemma {:induction false} StoreIsGuarded<R(!new)>(
      sem: Semantics<R>, w: bv32, pc: bv64, c: Core<R>, private: iset<bv64>, a: bv64, n: bv64, bytes: bv64 -> bv8,
      rest: R)
    requires Decode(w).Plain? && !IsCondBranch(w)
    requires Stores(sem, w, c, private, a, n, bytes, rest) && Public(a, n, private)
    ensures Guard(sem, w, pc, c, private)
  {
    hide Decode, IsCondBranch, Patched, Agree, Public, Untouched, Execute;
    AgreesWithItself(c, private);
    PlainEffect(sem, w, 0, c);
    PatchedUntouched(c, private, a, n, bytes, rest);
    forall d: Core<R> | Agree(c, d, private)
      ensures EffectsAgree(Execute(sem, w, 0, c), Execute(sem, w, 0, d), private)
      ensures Untouched(c, Execute(sem, w, 0, c).core, private) && Untouched(d, Execute(sem, w, 0, d).core, private)
    {
      PlainEffect(sem, w, 0, d);
      PatchedAgree(c, d, private, a, n, bytes, rest);
      PatchedUntouched(d, private, a, n, bytes, rest);
    }
  }

  // ----- a prologue -----

  /** `stp x29, x30, [sp, #-16]!` and `mov x29, sp`. */
  const PushFrame: bv32 := 0xA9BF_7BFD
  const SetFrame: bv32 := 0x9100_03FD

  function Byte(v: bv64, k: bv64): bv8 {
    ((if k == 0 then v else if k == 1 then v >> 8 else if k == 2 then v >> 16 else if k == 3 then v >> 24
      else if k == 4 then v >> 32 else if k == 5 then v >> 40 else if k == 6 then v >> 48 else v >> 56) & 0xFF) as bv8
  }

  /** Two registers as they stand in memory at `a`. */
  function Frame(a: bv64, fp: bv64, lr: bv64): bv64 -> bv8 {
    b => if b - a < 8 then Byte(fp, b - a) else Byte(lr, b - a - 8)
  }

  /** The two instructions on a core whose `rest` is the stack pointer. */
  function FrameSemantics(w: bv32, c: Core<bv64>): Effect<bv64> {
    if w == PushFrame then
      Next(c.(mem := Patched(c.mem, c.rest - 16, 16, Frame(c.rest - 16, c.x(29), c.x(30))), rest := c.rest - 16))
    else Next(WriteX(c, 29, c.rest))
  }

  lemma {:induction false} FrameWords()
    ensures Decode(PushFrame).Plain? && Decode(SetFrame).Plain?
    ensures !IsCondBranch(PushFrame) && !IsCondBranch(SetFrame)
  {}

  /** Where the two stack slots are public, the usual prologue runs under the guard, so the block theorem applies to it
      with the stack pointer and both saved registers. */
  lemma {:induction false} PrologueIsGuarded(org: bv64, c: Core<bv64>, private: iset<bv64>)
    requires Public(c.rest - 16, 16, private)
    ensures GuardedRun(FrameSemantics, [PushFrame, SetFrame], org, 0, c, private)
  {
    FrameWords();
    hide Decode, IsCondBranch, Frame, Place, Patched, Public;
    var block := [PushFrame, SetFrame];
    var sp := c.rest - 16;
    StoreIsGuarded(FrameSemantics, PushFrame, Place(org, 0), c, private, sp, 16, Frame(sp, c.x(29), c.x(30)), sp);
    var e := Execute(FrameSemantics, PushFrame, Place(org, 0), c);
    SetFrameIsGuarded(Place(org, 1), e.core, private);
    assert GuardedRun(FrameSemantics, block, org, 1, e.core, private);
  }

  lemma {:induction false} SetFrameIsGuarded(pc: bv64, c: Core<bv64>, private: iset<bv64>)
    ensures Guard(FrameSemantics, SetFrame, pc, c, private)
  {
    FrameWords();
    hide Decode, IsCondBranch;
  }
}
