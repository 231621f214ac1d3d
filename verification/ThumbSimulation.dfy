/** The relocated Thumb-2 sequences against the instructions they replace. */
module ThumbSimulation {
  import opened Common
  import opened ThumbMachine
  import opened ThumbRelocator

  // ----- encoders and decoders -----

  /** A branch offset that 24 bits and a sign can hold. */
  predicate Encodable(imm: bv32) {
    imm & 1 == 0 && (imm < 0x0100_0000 || imm >= 0xFF00_0000)
  }

  lemma {:induction false} BranchKind(imm: bv32, link: bool)
    ensures var h := BranchHalves(imm, link);
            var offset := BranchOffset(h[0], h[1]);
            Decode(h[0], h[1]) == if link then BranchLink(offset) else Branch(offset)
  {
    hide BranchOffset;
  }

  /** The branch encoder is inverted by the architecture's decoder on exactly the even offsets in [-2^24, 2^24). */
  lemma {:induction false} BranchOffsetInverts(imm: bv32, link: bool)
    ensures var h := BranchHalves(imm, link); BranchOffset(h[0], h[1]) == imm <==> Encodable(imm)
  {
    if imm >> 31 == 1 { NegativeInverts(imm, link); } else { PositiveInverts(imm, link); }
  }

  lemma {:induction false} NegativeInverts(imm: bv32, link: bool)
    requires imm >> 31 == 1
    ensures var h := BranchHalves(imm, link); BranchOffset(h[0], h[1]) == 0xFF00_0000 | (imm & 0x00FF_FFFE)
  {}

  lemma {:induction false} PositiveInverts(imm: bv32, link: bool)
    requires imm >> 31 == 0
    ensures var h := BranchHalves(imm, link); BranchOffset(h[0], h[1]) == imm & 0x00FF_FFFE
  {}

  lemma {:induction false} BranchDecodes(imm: bv32, link: bool)
    requires Encodable(imm)
    ensures var h := BranchHalves(imm, link); Decode(h[0], h[1]) == if link then BranchLink(imm) else Branch(imm)
  {
    hide Decode, BranchHalves, BranchOffset;
    BranchKind(imm, link);
    BranchOffsetInverts(imm, link);
  }

  /** The relocator's own decoder of B and BL is the architecture's. */
  lemma {:induction false} LabelIsOffset(inst1: bv16, inst2: bv16)
    ensures DecodeLabel(inst1, inst2) == BranchOffset(inst1, inst2)
  {}

  lemma {:induction false} ExchangeLabelIsOffset(inst1: bv16, inst2: bv16)
    requires inst2 & 1 == 0
    ensures DecodeExchangeLabel(inst1, inst2) == BranchOffset(inst1, inst2)
  {
    hide BranchOffset;
    LabelIsOffset(inst1, inst2);
    ExchangeField(inst2);
  }

  lemma {:induction false} ExchangeField(inst2: bv16)
    requires inst2 & 1 == 0
    ensures (((inst2 >> 1) & 0x3FF) as bv32) << 2 == ((inst2 & 0x7FF) as bv32) << 1
  {}

  lemma {:induction false} OffsetShape(inst1: bv16, inst2: bv16)
    ensures BranchOffset(inst1, inst2) & 1 == 0 && Encodable(BranchOffset(inst1, inst2))
    ensures inst2 & 1 == 0 ==> BranchOffset(inst1, inst2) & 3 == 0
  {}

  lemma {:induction false} LoadLiteralDecodes(rt: bv16, offset: bv16)
    requires rt < 16 && offset < 0x1000
    ensures var h := LoadLiteralHalves(rt, offset);
            Decode(h[0], h[1]) == LoadLiteral(offset > 0, rt as bv32, offset as bv32)
  {}

  lemma {:induction false} LoadSelfDecodes(rt: bv16)
    requires rt < 15
    ensures var h := LoadSelfHalves(rt); Decode(h[0], h[1]) == LoadOffset(rt as bv32, rt as bv32, 0)
  {}

  lemma {:induction false} AddressJoins(v: bv32)
    ensures var h := AddressHalves(v); Join(h[0], h[1]) == v
  {}

  lemma {:induction false} BranchClass(inst1: bv16, inst2: bv16)
    ensures Decode(inst1, inst2).Branch? <==> IsBranch(inst1, inst2)
    ensures Decode(inst1, inst2).Branch? ==> Decode(inst1, inst2).offset == BranchOffset(inst1, inst2)
  {
    hide BranchOffset;
  }

  lemma {:induction false} BranchLinkClass(inst1: bv16, inst2: bv16)
    ensures Decode(inst1, inst2).BranchLink? <==> IsBranchLink(inst1, inst2)
    ensures Decode(inst1, inst2).BranchLink? ==> Decode(inst1, inst2).offset == BranchOffset(inst1, inst2)
  {
    hide BranchOffset;
  }

  lemma {:induction false} BranchLinkExchangeClass(inst1: bv16, inst2: bv16)
    ensures Decode(inst1, inst2).BranchLinkExchange? ==>
              && IsBranchLinkExchange(inst1, inst2) && inst2 & 1 == 0
              && Decode(inst1, inst2).offset == BranchOffset(inst1, inst2)
  {
    hide BranchOffset;
  }

  lemma {:induction false} LoadLiteralClass(inst1: bv16, inst2: bv16)
    ensures Decode(inst1, inst2).LoadLiteral? <==> IsLoadLiteral(inst1, inst2)
    ensures Decode(inst1, inst2).LoadLiteral? ==>
              Decode(inst1, inst2) == LoadLiteral((inst1 >> 7) & 1 == 1, (inst2 >> 12) as bv32, (inst2 & 0xFFF) as bv32)
  {
    hide BranchOffset;
  }

  lemma {:induction false} ClassesExclude(inst1: bv16, inst2: bv16)
    ensures IsBranch(inst1, inst2) ==> !IsCondBranch(inst1, inst2)
    ensures IsBranchLink(inst1, inst2) ==> !IsCondBranch(inst1, inst2) && !IsBranch(inst1, inst2)
    ensures IsBranchLinkExchange(inst1, inst2) ==>
              !IsCondBranch(inst1, inst2) && !IsBranch(inst1, inst2) && !IsBranchLink(inst1, inst2)
    ensures IsLoadLiteral(inst1, inst2) ==> !IsControl(inst1, inst2) && !IsAdr(inst1, inst2)
    ensures IsAdr(inst1, inst2) ==> !IsControl(inst1, inst2)
  {}

  // ----- addresses -----

  lemma {:induction false} Ahead(a: bv32)
    ensures Plus(Plus(a, 2), 2) == Plus(a, 4) && Plus(Plus(a, 4), 0) == Plus(a, 4)
    ensures Plus(Plus(a, 4), 4) == Plus(a, 8) && Plus(Plus(a, 8), 4) == Plus(a, 12)
    ensures Plus(Plus(a, 12), 4) == Plus(a, 16)
    ensures Plus(Plus(a, 4), 2) == Plus(a, 6) && Plus(Plus(Plus(a, 4), 4), 8) == Plus(a, 16)
    ensures Plus(Plus(Plus(a, 4), 4), 4) == Plus(a, 12) && Plus(Plus(Plus(a, 4), 4), 0) == Plus(a, 8)
  {
    assert Plus(a, 4) == a + 4 && Plus(a, 8) == a + 8 && Plus(a, 12) == a + 12 && Plus(a, 2) == a + 2;
  }

  lemma {:induction false} AlignedNext(a: bv32)
    requires a & 3 == 0
    ensures LiteralAddress(a, false, 0) == Plus(a, 4) && LiteralAddress(a, true, 4) == Plus(a, 8)
    ensures Align(Plus(a, 4)) == Plus(a, 4)
    ensures Plus(a, 4) & 3 == 0 && Plus(a, 8) & 3 == 0
  {
    assert Plus(a, 4) == a + 4 && Plus(a, 8) == a + 8;
    assert Align(a + 4) == a + 4;
  }

  // ----- running the emitted sequences -----

  /** The first instruction of `code` at `a`, and what follows it. */
  lemma {:induction false} HoldsPair(mem: bv32 -> bv8, a: bv32, h: seq<bv16>, rest: seq<bv16>)
    requires |h| == 2 && Holds(mem, a, h + rest)
    ensures Load16(mem, a) == h[0] && Load16(mem, Plus(a, 2)) == h[1] && Holds(mem, Plus(a, 4), rest)
  {
    hide Load16, Plus;
    Ahead(a);
    assert (h + rest)[1..][0] == h[1];
    assert (h + rest)[1..][1..] == rest;
  }

  lemma {:induction false} StepIs(s: State, h: seq<bv16>)
    requires |h| == 2 && Load16(s.mem, s.pc) == h[0] && Load16(s.mem, Plus(s.pc, 2)) == h[1]
    ensures Step(s) == Execute(Decode(h[0], h[1]), s)
  {
    hide Load16, Decode, Execute, Plus;
  }

  lemma {:induction false} AddressHeld(mem: bv32 -> bv8, a: bv32, v: bv32, rest: seq<bv16>)
    requires Holds(mem, a, AddressHalves(v) + rest)
    ensures Load32(mem, a) == v
  {
    hide Load16, AddressHalves, Join, Plus;
    Pairs(0, 0, 0, v);
    HoldsPair(mem, a, AddressHalves(v), rest);
    AddressJoins(v);
  }

  lemma {:induction false} Pairs(rt: bv16, offset: bv16, imm: bv32, v: bv32)
    requires rt < 16 && offset < 0x1000
    ensures |LoadLiteralHalves(rt, offset)| == 2 && |BranchHalves(imm, true)| == 2 && |BranchHalves(imm, false)| == 2
    ensures |AddressHalves(v)| == 2 && |LoadSelfHalves(rt)| == 2
  {}

  /** A jump through a literal goes where the literal says. */
  lemma {:induction false} JumpRuns(s: State, v: bv32)
    requires s.pc & 3 == 0 && Holds(s.mem, s.pc, JumpThrough(v))
    ensures Step(s) == BranchExchange(s, v)
  {
    hide Load16, Load32, Decode, AddressHalves, LoadLiteralHalves, LiteralAddress, BranchExchange, Holds, Step, Plus;
    var h := LoadLiteralHalves(15, 0);
    Pairs(15, 0, 0, v);
    HoldsPair(s.mem, s.pc, h, AddressHalves(v));
    StepIs(s, h);
    LoadLiteralDecodes(15, 0);
    AlignedNext(s.pc);
    assert AddressHalves(v) + [] == AddressHalves(v);
    AddressHeld(s.mem, Plus(s.pc, 4), v, []);
  }

  lemma {:induction false} BranchStep(s: State, imm: bv32, link: bool, rest: seq<bv16>)
    requires Encodable(imm) && Holds(s.mem, s.pc, BranchHalves(imm, link) + rest)
    ensures var to := Plus(Plus(s.pc, 4), imm);
            Step(s) == Some(if link then Put(s, 14, Plus(s.pc, 4) | 1).(pc := to) else s.(pc := to))
    ensures Holds(s.mem, Plus(s.pc, 4), rest)
  {
    hide Load16, Load32, Decode, BranchHalves, Holds, Step, Put, Encodable, Plus, Loaded, LiteralAddress, Align;
    Pairs(0, 0, imm, 0);
    HoldsPair(s.mem, s.pc, BranchHalves(imm, link), rest);
    StepIs(s, BranchHalves(imm, link));
    BranchDecodes(imm, link);
    hide Execute;
    if link { LinkStep(s, imm); } else { PlainStep(s, imm); }
  }

  lemma {:induction false} PlainStep(s: State, offset: bv32)
    ensures Execute(Branch(offset), s) == Some(s.(pc := Plus(Plus(s.pc, 4), offset)))
  {
    hide Plus, Put, Loaded, Load32, LiteralAddress, Align;
  }

  lemma {:induction false} LinkStep(s: State, offset: bv32)
    ensures Execute(BranchLink(offset), s) == Some(Put(s, 14, Plus(s.pc, 4) | 1).(pc := Plus(Plus(s.pc, 4), offset)))
  {
    hide Plus, Put, Loaded, Load32, LiteralAddress, Align;
  }

  lemma {:induction false} CallParts(v: bv32)
    ensures CallThrough(v) == BranchHalves(4, true) + (BranchHalves(8, false) + JumpThrough(v))
  {
    hide BranchHalves, JumpThrough;
  }

  /** A call through a literal: two steps lead to the callee, with LR after the first instruction. */
  lemma {:induction false} CallLeads(s: State, v: bv32)
    requires s.pc & 3 == 0 && Holds(s.mem, s.pc, CallThrough(v))
    ensures Run(s, 2) == BranchExchange(Put(s, 14, Plus(s.pc, 4) | 1), v)
  {
    hide BranchHalves, Holds, Step, JumpThrough, BranchExchange, Put, Encodable, Plus, CallThrough, Run;
    var a, lr := s.pc, Plus(s.pc, 4) | 1;
    SmallOffsets();
    CallParts(v);
    BranchStep(s, 4, true, BranchHalves(8, false) + JumpThrough(v));
    BranchStep(s.(pc := Plus(a, 4)), 8, false, JumpThrough(v));
    Ahead(a);
    AlignedNext(a);
    PutKeeps(s, 14, lr);
    var t := Put(s, 14, lr).(pc := Plus(a, 8));
    JumpRuns(t, v);
    ExchangeForgetsPc(Put(s, 14, lr), v, Plus(a, 8));
    RunTwo(s, t);
  }

  /** The callee's return: one step leads past the literal. */
  lemma {:induction false} CallReturns(s: State, v: bv32, u: State)
    requires Holds(s.mem, s.pc, CallThrough(v)) && u.mem == s.mem && u.pc == Plus(s.pc, 4)
    ensures Step(u) == Some(u.(pc := Plus(s.pc, 16)))
  {
    hide BranchHalves, Holds, Step, JumpThrough, Put, Encodable, Plus, CallThrough;
    SmallOffsets();
    CallParts(v);
    BranchStep(s, 4, true, BranchHalves(8, false) + JumpThrough(v));
    BranchStep(u, 8, false, JumpThrough(v));
    Ahead(s.pc);
  }

  lemma {:induction false} SmallOffsets()
    ensures Encodable(0) && Encodable(4) && Encodable(8)
  {}

  lemma {:induction false} PutKeeps(s: State, rt: bv32, v: bv32)
    ensures Put(s, rt, v).mem == s.mem && Put(s, rt, v).pc == s.pc && Put(s, rt, v).thumb == s.thumb
  {}

  lemma {:induction false} ExchangeForgetsPc(s: State, v: bv32, pc: bv32)
    ensures BranchExchange(s.(pc := pc), v) == BranchExchange(s, v)
  {}

  lemma {:induction false} RunTwo(s: State, t: State)
    requires Step(s) == Some(t)
    ensures Run(s, 2) == Step(t)
  {
    hide Step;
    assert Run(s, 2) == Run(t, 1);
  }

  // ----- B, BL, BLX -----

  lemma {:induction false} EvenSum(a: bv32, b: bv32)
    requires a & 1 == 0 && b & 1 == 0
    ensures Plus(a, b) & 1 == 0
  {}

  lemma {:induction false} FourfoldSum(a: bv32, b: bv32)
    requires a & 3 == 0 && b & 3 == 0
    ensures Plus(a, b) & 3 == 0
  {}

  /** An even address with the Thumb flag added leads to that address in Thumb state. */
  lemma {:induction false} ThumbTarget(s: State, x: bv32)
    requires x & 1 == 0
    ensures BranchExchange(s, Plus(x, 1)) == Some(s.(pc := x, thumb := true))
  {
    assert Plus(x, 1) & 1 == 1 && Plus(x, 1) & 0xFFFF_FFFE == x;
  }

  /** A word-aligned address leads there in Arm state. */
  lemma {:induction false} ArmTarget(s: State, x: bv32)
    requires x & 3 == 0
    ensures BranchExchange(s, x) == Some(s.(pc := x, thumb := false))
  {
    assert x & 1 == 0 && x & 2 == 0;
  }

  lemma {:induction false} BranchShape(inst1: bv16, inst2: bv16, from_pc: bv32)
    requires Decode(inst1, inst2).Branch?
    ensures Relocate(inst1, inst2, from_pc) == JumpThrough(Plus(Plus(from_pc, Decode(inst1, inst2).offset), 1))
    ensures Decode(inst1, inst2).offset & 1 == 0
  {
    hide Decode, Plus, BranchOffset, DecodeLabel, IsBranch, IsCondBranch, JumpThrough;
    BranchClass(inst1, inst2);
    ClassesExclude(inst1, inst2);
    LabelIsOffset(inst1, inst2);
    OffsetShape(inst1, inst2);
  }

  lemma {:induction false} BranchLinkShape(inst1: bv16, inst2: bv16, from_pc: bv32)
    requires Decode(inst1, inst2).BranchLink?
    ensures Relocate(inst1, inst2, from_pc) == CallThrough(Plus(Plus(from_pc, Decode(inst1, inst2).offset), 1))
    ensures Decode(inst1, inst2).offset & 1 == 0
  {
    hide Decode, Plus, BranchOffset, DecodeLabel, IsBranch, IsBranchLink, IsCondBranch, CallThrough, JumpThrough;
    BranchLinkClass(inst1, inst2);
    ClassesExclude(inst1, inst2);
    LabelIsOffset(inst1, inst2);
    OffsetShape(inst1, inst2);
  }

  lemma {:induction false} BranchLinkExchangeShape(inst1: bv16, inst2: bv16, from_pc: bv32)
    requires Decode(inst1, inst2).BranchLinkExchange?
    ensures Relocate(inst1, inst2, from_pc) == CallThrough(Plus(Align(from_pc), Decode(inst1, inst2).offset))
    ensures Decode(inst1, inst2).offset & 3 == 0
  {
    hide Decode, Plus, Align, BranchOffset, DecodeLabel, DecodeExchangeLabel, IsBranch, IsBranchLink, IsCondBranch;
    hide IsBranchLinkExchange, CallThrough, JumpThrough;
    BranchLinkExchangeClass(inst1, inst2);
    ClassesExclude(inst1, inst2);
    ExchangeLabelIsOffset(inst1, inst2);
    OffsetShape(inst1, inst2);
  }

  lemma {:induction false} EvenNext(p: bv32)
    requires p & 1 == 0
    ensures Plus(p, 4) & 1 == 0
  {}

  /** B.W: one step of the relocated code goes where the original goes, and changes nothing else. */
  lemma {:induction false} BranchSimulates(inst1: bv16, inst2: bv16, o: State, t: State)
    requires Decode(inst1, inst2).Branch? && o.pc & 1 == 0
    requires t.pc & 3 == 0 && Holds(t.mem, t.pc, Relocate(inst1, inst2, Plus(o.pc, 4)))
    ensures Execute(Decode(inst1, inst2), o).Some?
    ensures Step(t) == Some(t.(pc := Execute(Decode(inst1, inst2), o).value.pc, thumb := true))
  {
    hide Decode, Plus, Holds, Step, JumpThrough, Relocate, BranchExchange;
    var offset := Decode(inst1, inst2).offset;
    BranchShape(inst1, inst2, Plus(o.pc, 4));
    PlainStep(o, offset);
    EvenNext(o.pc);
    EvenSum(Plus(o.pc, 4), offset);
    var target := Plus(Plus(o.pc, 4), offset);
    JumpRuns(t, Plus(target, 1));
    ThumbTarget(t, target);
  }

  /** BL: two steps reach the callee with LR inside the relocated code; a return to LR then leads past it. */
  lemma {:induction false} BranchLinkSimulates(inst1: bv16, inst2: bv16, o: State, t: State)
    requires Decode(inst1, inst2).BranchLink? && o.pc & 1 == 0
    requires t.pc & 3 == 0 && Holds(t.mem, t.pc, Relocate(inst1, inst2, Plus(o.pc, 4)))
    ensures Execute(Decode(inst1, inst2), o).Some?
    ensures Run(t, 2) ==
              Some(Put(t, 14, Plus(t.pc, 4) | 1).(pc := Execute(Decode(inst1, inst2), o).value.pc, thumb := true))
    ensures forall u: State :: u.mem == t.mem && u.pc == Plus(t.pc, 4) ==> Step(u) == Some(u.(pc := Plus(t.pc, 16)))
  {
    hide Decode, Plus, Holds, Step, CallThrough, Relocate, BranchExchange, Put, Run;
    var offset := Decode(inst1, inst2).offset;
    BranchLinkShape(inst1, inst2, Plus(o.pc, 4));
    LinkStep(o, offset);
    EvenNext(o.pc);
    EvenSum(Plus(o.pc, 4), offset);
    var target := Plus(Plus(o.pc, 4), offset);
    CallLeads(t, Plus(target, 1));
    ThumbTarget(Put(t, 14, Plus(t.pc, 4) | 1), target);
    forall u: State | u.mem == t.mem && u.pc == Plus(t.pc, 4)
      ensures Step(u) == Some(u.(pc := Plus(t.pc, 16)))
    {
      CallReturns(t, Plus(target, 1), u);
    }
  }

  lemma {:induction false} ExchangeStep(s: State, offset: bv32)
    ensures Execute(BranchLinkExchange(offset), s) ==
              Some(Put(s, 14, Plus(s.pc, 4) | 1).(pc := Plus(Align(Plus(s.pc, 4)), offset), thumb := false))
  {
    hide Plus, Put, Loaded, Load32, LiteralAddress, Align;
  }

  lemma {:induction false} AlignIsFourfold(a: bv32)
    ensures Align(a) & 3 == 0
  {}

  /** BLX: as BL, and the callee runs in Arm state. */
  lemma {:induction false} BranchLinkExchangeSimulates(inst1: bv16, inst2: bv16, o: State, t: State)
    requires Decode(inst1, inst2).BranchLinkExchange?
    requires t.pc & 3 == 0 && Holds(t.mem, t.pc, Relocate(inst1, inst2, Plus(o.pc, 4)))
    ensures Execute(Decode(inst1, inst2), o).Some?
    ensures Run(t, 2) ==
              Some(Put(t, 14, Plus(t.pc, 4) | 1).(pc := Execute(Decode(inst1, inst2), o).value.pc, thumb := false))
    ensures forall u: State :: u.mem == t.mem && u.pc == Plus(t.pc, 4) ==> Step(u) == Some(u.(pc := Plus(t.pc, 16)))
  {
    hide Decode, Plus, Align, Holds, Step, CallThrough, Relocate, BranchExchange, Put, Run;
    var offset := Decode(inst1, inst2).offset;
    BranchLinkExchangeShape(inst1, inst2, Plus(o.pc, 4));
    ExchangeStep(o, offset);
    AlignIsFourfold(Plus(o.pc, 4));
    FourfoldSum(Align(Plus(o.pc, 4)), offset);
    var target := Plus(Align(Plus(o.pc, 4)), offset);
    CallLeads(t, target);
    ArmTarget(Put(t, 14, Plus(t.pc, 4) | 1), target);
    forall u: State | u.mem == t.mem && u.pc == Plus(t.pc, 4)
      ensures Step(u) == Some(u.(pc := Plus(t.pc, 16)))
    {
      CallReturns(t, target, u);
    }
  }

  // ----- LDR literal -----

  function LowBits(x: bv32): bv32 { x & 3 }

  lemma {:induction false} AlignSubtracts(x: bv32)
    ensures Align(x) == Minus(x, LowBits(x))
  {}

  lemma {:induction false} LowBitsKept(x: bv32, i: bv32)
    requires i & 3 == 0
    ensures LowBits(Plus(x, i)) == LowBits(x)
  {
    assert (x + i) & 3 == x & 3;
  }

  lemma {:induction false} SubtractFirstPlain(x: bv32, i: bv32, z: bv32)
    ensures Minus(x + i, z) == Plus(x - z, i)
  {}

  lemma {:induction false} SubtractFirst(x: bv32, i: bv32, z: bv32)
    ensures Minus(Plus(x, i), z) == Plus(Minus(x, z), i)
  {
    hide Plus, Minus;
    PlusPlain(x, i);
    MinusPlain(x, z);
    SubtractFirstPlain(x, i, z);
  }

  lemma {:induction false} NegatedFourfold(i: bv32)
    requires i & 3 == 0
    ensures (0 - i) & 3 == 0
  {}

  lemma {:induction false} AlignAfterAdd(x: bv32, i: bv32)
    requires i & 3 == 0
    ensures Align(Plus(x, i)) == Plus(Align(x), i)
  {
    hide Plus, Minus, Align, LowBits;
    AlignSubtracts(x);
    AlignSubtracts(Plus(x, i));
    LowBitsKept(x, i);
    SubtractFirst(x, i, LowBits(x));
  }

  lemma {:induction false} PlusPlain(a: bv32, b: bv32)
    ensures Plus(a, b) == a + b
  {}

  lemma {:induction false} AlignPlain(a: bv32)
    ensures Align(a) == a & 0xFFFF_FFFC
  {}

  lemma {:induction false} MinusIsPlus(x: bv32, i: bv32)
    ensures Minus(x, i) == Plus(x, 0 - i)
  {}

  lemma {:induction false} AlignAfterSubtract(x: bv32, i: bv32)
    requires i & 3 == 0
    ensures Align(Minus(x, i)) == Minus(Align(x), i)
  {
    hide Plus, Minus, Align;
    NegatedFourfold(i);
    AlignAfterAdd(x, 0 - i);
    MinusIsPlus(x, i);
    MinusIsPlus(Align(x), i);
  }

  lemma {:induction false} OffByLowBits(x: bv32, i: bv32)
    requires i & 3 != 0
    ensures Plus(Align(x), i) & 3 != 0 && Minus(Align(x), i) & 3 != 0
  {
    assert ((x & 0xFFFF_FFFC) + i) & 3 != 0 && ((x & 0xFFFF_FFFC) - i) & 3 != 0;
  }

  /** Rounding after the offset is added reads the architecture's address exactly when the offset is a multiple of
      four. */
  lemma {:induction false} LiteralAddressRight(inst1: bv16, inst2: bv16, p: bv32)
    requires Decode(inst1, inst2).LoadLiteral?
    ensures var i := Decode(inst1, inst2);
            LiteralValue(inst1, inst2, Plus(p, 4)) == LiteralAddress(p, i.add, i.imm12) <==> i.imm12 & 3 == 0
  {
    hide Decode, Plus, Minus, Align;
    LoadLiteralClass(inst1, inst2);
    RoundingRight(Plus(p, 4), (inst2 & 0xFFF) as bv32);
  }

  lemma {:induction false} RoundingRight(x: bv32, i: bv32)
    ensures Align(Plus(x, i)) == Plus(Align(x), i) <==> i & 3 == 0
    ensures Align(Minus(x, i)) == Minus(Align(x), i) <==> i & 3 == 0
  {
    hide Plus, Minus, Align;
    if i & 3 == 0 {
      AlignAfterAdd(x, i);
      AlignAfterSubtract(x, i);
    } else {
      OffByLowBits(x, i);
      AlignIsFourfold(Plus(x, i));
      AlignIsFourfold(Minus(x, i));
    }
  }

  /** Register `rt` holds what memory holds at `v`, everything else is as before, and control is past the code. */
  ghost predicate LoadedFrom(s: State, u: State, rt: bv32, v: bv32) {
    && u.pc == Plus(s.pc, 16) && u.thumb == s.thumb && u.mem == s.mem && u.holds == s.holds
    && forall x :: u.r(x) == if x == rt then Load32(s.mem, v) else s.r(x)
  }

  lemma {:induction false} LoadLiteralShape(inst1: bv16, inst2: bv16, from_pc: bv32)
    requires Decode(inst1, inst2).LoadLiteral?
    ensures var rt := inst2 >> 12;
            && Relocate(inst1, inst2, from_pc) ==
                 LoadLiteralHalves(rt, 4)
                 + (BranchHalves(4, false) + (AddressHalves(LiteralValue(inst1, inst2, from_pc)) + LoadSelfHalves(rt)))
            && Decode(inst1, inst2).rt == rt as bv32
  {
    hide Decode, LoadLiteralHalves, BranchHalves, AddressHalves, LiteralValue, LoadSelfHalves, IsControl, IsAdr;
    LoadLiteralClass(inst1, inst2);
    ClassesExclude(inst1, inst2);
  }

  /** The first of the emitted instructions: load the literal into `rt`, or into the program counter. */
  lemma {:induction false} LiteralStep(s: State, rt: bv16, v: bv32, middle: seq<bv16>, rest: seq<bv16>)
    requires rt < 16 && s.pc & 3 == 0 && |middle| == 2
    requires Holds(s.mem, s.pc, LoadLiteralHalves(rt, 4) + (middle + (AddressHalves(v) + rest)))
    ensures Step(s) == Loaded(s, rt as bv32, v)
    ensures Holds(s.mem, Plus(s.pc, 4), middle + (AddressHalves(v) + rest))
    ensures Holds(s.mem, Plus(s.pc, 12), rest)
  {
    hide Load16, Load32, Decode, LoadLiteralHalves, AddressHalves, Holds, Step, Loaded, Plus, LiteralAddress;
    var h := LoadLiteralHalves(rt, 4);
    Pairs(rt, 4, 0, v);
    HoldsPair(s.mem, s.pc, h, middle + (AddressHalves(v) + rest));
    HoldsPair(s.mem, Plus(s.pc, 4), middle, AddressHalves(v) + rest);
    Ahead(s.pc);
    HoldsPair(s.mem, Plus(s.pc, 8), AddressHalves(v), rest);
    AddressHeld(s.mem, Plus(s.pc, 8), v, rest);
    AlignedNext(s.pc);
    StepIs(s, h);
    LoadLiteralDecodes(rt, 4);
    hide Execute;
    LiteralExecutes(s, rt as bv32);
  }

  lemma {:induction false} LiteralExecutes(s: State, rt: bv32)
    ensures Execute(LoadLiteral(true, rt, 4), s) == Loaded(s, rt, Load32(s.mem, LiteralAddress(s.pc, true, 4)))
  {
    hide Load32, Loaded, LiteralAddress;
  }

  lemma {:induction false} SelfExecutes(s: State, rt: bv32)
    requires rt != 15
    ensures Execute(LoadOffset(rt, rt, 0), s) == Some(Put(s, rt, Load32(s.mem, s.r(rt))).(pc := Plus(s.pc, 4)))
  {
    hide Load32, Put;
  }

  /** LDR literal: three steps leave the word at the relocator's address in the register. */
  lemma {:induction false} LoadLiteralRuns(s: State, rt: bv16, v: bv32)
    requires rt < 15 && s.pc & 3 == 0
    requires Holds(s.mem, s.pc, LoadLiteralHalves(rt, 4)
                                + (BranchHalves(4, false) + (AddressHalves(v) + LoadSelfHalves(rt))))
    ensures Run(s, 3).Some? && LoadedFrom(s, Run(s, 3).value, rt as bv32, v)
  {
    hide Load16, Load32, Decode, LoadLiteralHalves, BranchHalves, AddressHalves, LoadSelfHalves, Holds, Step, Plus;
    hide Encodable, Execute;
    var a, r := s.pc, rt as bv32;
    Pairs(rt, 0, 4, v);
    LiteralStep(s, rt, v, BranchHalves(4, false), LoadSelfHalves(rt));
    var s1 := Put(s, r, v).(pc := Plus(a, 4));
    assert Step(s) == Some(s1);
    SmallOffsets();
    BranchStep(s1, 4, false, AddressHalves(v) + LoadSelfHalves(rt));
    Ahead(a);
    var s2 := s1.(pc := Plus(a, 12));
    assert Step(s1) == Some(s2);
    assert LoadSelfHalves(rt) + [] == LoadSelfHalves(rt);
    HoldsPair(s2.mem, s2.pc, LoadSelfHalves(rt), []);
    StepIs(s2, LoadSelfHalves(rt));
    LoadSelfDecodes(rt);
    SelfExecutes(s2, r);
    RunThree(s, s1, s2);
  }

  lemma {:induction false} RunThree(s: State, s1: State, s2: State)
    requires Step(s) == Some(s1) && Step(s1) == Some(s2)
    ensures Run(s, 3) == Step(s2)
  {
    hide Step;
    RunTwo(s1, s2);
  }

  /** LDR literal into a register, with any offset: the word at the relocator's address is loaded.  That is the
      original's load if and only if the offset is a multiple of four or the two words are equal. */
  lemma {:induction false} LoadLiteralSimulates(inst1: bv16, inst2: bv16, o: State, t: State)
    requires Decode(inst1, inst2).LoadLiteral? && Decode(inst1, inst2).rt != 15
    requires t.pc & 3 == 0 && Holds(t.mem, t.pc, Relocate(inst1, inst2, Plus(o.pc, 4)))
    ensures Run(t, 3).Some?
    ensures var i, v := Decode(inst1, inst2), LiteralValue(inst1, inst2, Plus(o.pc, 4));
            var a := LiteralAddress(o.pc, i.add, i.imm12);
            && LoadedFrom(t, Run(t, 3).value, i.rt, v)
            && (LoadedFrom(t, Run(t, 3).value, i.rt, a) <==> i.imm12 & 3 == 0 || Load32(t.mem, v) == Load32(t.mem, a))
  {
    hide Decode, Relocate, LiteralValue, LiteralAddress, Holds, Run, Plus, LoadedFrom, Load32;
    hide LoadLiteralHalves, BranchHalves, AddressHalves, LoadSelfHalves;
    var i, v := Decode(inst1, inst2), LiteralValue(inst1, inst2, Plus(o.pc, 4));
    LoadLiteralShape(inst1, inst2, Plus(o.pc, 4));
    LiteralAddressRight(inst1, inst2, o.pc);
    SmallRegister(inst2 >> 12);
    LoadLiteralRuns(t, inst2 >> 12, v);
    LoadedSame(t, Run(t, 3).value, i.rt, v, LiteralAddress(o.pc, i.add, i.imm12));
  }

  lemma {:induction false} LoadedSame(s: State, u: State, rt: bv32, v: bv32, a: bv32)
    requires LoadedFrom(s, u, rt, v)
    ensures LoadedFrom(s, u, rt, a) <==> Load32(s.mem, v) == Load32(s.mem, a)
  {
    hide Load32, Plus;
    assert u.r(rt) == Load32(s.mem, v);
  }

  lemma {:induction false} SmallRegister(rt: bv16)
    requires rt < 16 && rt as bv32 != 15
    ensures rt < 15
  {}

  /** Both machines go on, at the same address and in the same execution state. */
  predicate SamePlace(a: Option<State>, b: Option<State>) {
    a.Some? && b.Some? && a.value.pc == b.value.pc && a.value.thumb == b.value.thumb
  }

  lemma {:induction false} ExchangesMeet(s: State, word: bv32, t: State, address: bv32)
    requires address & 3 == 0
    ensures BranchExchange(t, address) == Some(t.(pc := address, thumb := false))
    ensures SamePlace(BranchExchange(s, word), BranchExchange(t, address)) <==> word == address
  {}

  /** The relocator's address is the sum rounded down to a word. */
  lemma {:induction false} LiteralValueAligned(inst1: bv16, inst2: bv16, from_pc: bv32)
    ensures LiteralValue(inst1, inst2, from_pc) & 3 == 0
    ensures Decode(inst1, inst2).LoadLiteral? ==>
              var i := Decode(inst1, inst2);
              var sum := if i.add then Plus(from_pc, i.imm12) else Minus(from_pc, i.imm12);
              Minus(sum, LiteralValue(inst1, inst2, from_pc)) < 4
  {
    LoadLiteralClass(inst1, inst2);
    hide Decode, Plus;
    var imm := (inst2 & 0xFFF) as bv32;
    RoundsDown(Plus(from_pc, imm));
    RoundsDown(Minus(from_pc, imm));
    hide Minus, Align;
  }

  lemma {:induction false} RoundsDown(x: bv32)
    ensures Align(x) & 3 == 0 && Minus(x, Align(x)) < 4
  {}

  lemma {:induction false} LoadPcExecutes(i: Instr, s: State)
    requires i.LoadLiteral? && i.rt == 15
    ensures Execute(i, s) == BranchExchange(s, Load32(s.mem, LiteralAddress(s.pc, i.add, i.imm12)))
  {
    hide Load32, LiteralAddress, BranchExchange;
  }

  /** LDR literal into PC, with any offset: the relocated code jumps to its own idea of the literal's address, in Arm
      state, so it meets the original if and only if the word that the original loads is that address. */
  lemma {:induction false} LoadLiteralIntoPc(inst1: bv16, inst2: bv16, o: State, t: State)
    requires Decode(inst1, inst2).LoadLiteral? && Decode(inst1, inst2).rt == 15
    requires t.pc & 3 == 0 && Holds(t.mem, t.pc, Relocate(inst1, inst2, Plus(o.pc, 4)))
    ensures var i, address := Decode(inst1, inst2), LiteralValue(inst1, inst2, Plus(o.pc, 4));
            var word := Load32(o.mem, LiteralAddress(o.pc, i.add, i.imm12));
            && Step(t) == Some(t.(pc := address, thumb := false))
            && (SamePlace(Execute(i, o), Step(t)) <==> word == address)
  {
    hide Decode, Relocate, LiteralValue, LiteralAddress, Holds, Plus, Step, BranchExchange, Load32, Execute, SamePlace;
    hide LoadLiteralHalves, BranchHalves, AddressHalves, LoadSelfHalves;
    var i, address := Decode(inst1, inst2), LiteralValue(inst1, inst2, Plus(o.pc, 4));
    LoadLiteralShape(inst1, inst2, Plus(o.pc, 4));
    Pairs(15, 0, 4, 0);
    IntoPc(inst2 >> 12);
    LiteralStep(t, inst2 >> 12, address, BranchHalves(4, false), LoadSelfHalves(inst2 >> 12));
    LoadPcExecutes(i, o);
    LiteralValueAligned(inst1, inst2, Plus(o.pc, 4));
    ExchangesMeet(o, Load32(o.mem, LiteralAddress(o.pc, i.add, i.imm12)), t, address);
  }

  lemma {:induction false} IntoPc(rt: bv16)
    requires rt as bv32 == 15
    ensures rt == 15
  {}

  // ----- conditional branches -----

  lemma {:induction false} CondBranchClass(inst1: bv16, inst2: bv16)
    ensures Decode(inst1, inst2).CondBranch? <==> IsCondBranch(inst1, inst2)
    ensures IsCondBranch(inst1, inst2) ==>
              Decode(inst1, inst2) == CondBranch((inst1 >> 6) & 15, CondOffset(inst1, inst2))
  {
    hide BranchOffset, CondOffset;
  }

  predicate Forward(offset: bv32) { offset >> 31 == 0 }

  /** The rewritten conditional branch keeps its condition and the sign bit of its offset: a forward one leads to the
      emitted jump, a backward one almost 1 MiB back. */
  lemma {:induction false} CondBranchRewritten(inst1: bv16, inst2: bv16)
    requires IsCondBranch(inst1, inst2)
    ensures Decode(inst1 & 0xFFC0, (inst2 & 0xD000) | 2) ==
              CondBranch((inst1 >> 6) & 15, if Forward(CondOffset(inst1, inst2)) then 4 else 0xFFF0_0004)
  {
    hide BranchOffset;
  }

  lemma {:induction false} CondLabelIsOffset(inst1: bv16, inst2: bv16)
    ensures CondBranchLabel(inst1, inst2) == CondOffset(inst1, inst2) && CondOffset(inst1, inst2) & 1 == 0
  {}

  lemma {:induction false} CondBranchExecutes(cond: bv16, offset: bv32, s: State)
    ensures Execute(CondBranch(cond, offset), s) ==
              Some(s.(pc := if s.holds(cond) then Plus(Plus(s.pc, 4), offset) else Plus(s.pc, 4)))
  {
    hide Plus;
  }

  /** Where the four parts of the emitted code stand. */
  lemma {:induction false} SkipParts(mem: bv32 -> bv8, a: bv32, branch: seq<bv16>, v: bv32)
    requires |branch| == 2 && Holds(mem, a, SkipOrJump(branch, v))
    ensures Load16(mem, a) == branch[0] && Load16(mem, Plus(a, 2)) == branch[1]
    ensures Holds(mem, Plus(a, 4), BranchHalves(4, false) + JumpThrough(v))
    ensures Holds(mem, Plus(a, 8), JumpThrough(v))
    ensures Load32(mem, Plus(a, 12)) == v
  {
    hide Holds, Plus, Load32, Load16, LoadLiteralHalves, BranchHalves, AddressHalves;
    Pairs(15, 0, 4, v);
    assert SkipOrJump(branch, v) == branch + (BranchHalves(4, false) + JumpThrough(v));
    HoldsPair(mem, a, branch, BranchHalves(4, false) + JumpThrough(v));
    HoldsPair(mem, Plus(a, 4), BranchHalves(4, false), JumpThrough(v));
    Ahead(a);
    HoldsPair(mem, Plus(a, 8), LoadLiteralHalves(15, 0), AddressHalves(v));
    assert AddressHalves(v) + [] == AddressHalves(v);
    AddressHeld(mem, Plus(a, 12), v, []);
  }

  /** The emitted jump goes where its literal says. */
  lemma {:induction false} JumpArm(t: State, branch: seq<bv16>, v: bv32, u: State)
    requires |branch| == 2 && t.pc & 3 == 0 && Holds(t.mem, t.pc, SkipOrJump(branch, v))
    requires u.mem == t.mem && u.pc == Plus(t.pc, 8)
    ensures Step(u) == BranchExchange(u, v)
  {
    hide Holds, Step, BranchExchange, Plus, Load32, Load16, SkipOrJump, JumpThrough;
    SkipParts(t.mem, t.pc, branch, v);
    AlignedNext(t.pc);
    JumpRuns(u, v);
  }

  /** The skip for a condition that fails leads to the literal itself. */
  lemma {:induction false} SkipArm(t: State, branch: seq<bv16>, v: bv32, u: State)
    requires |branch| == 2 && Holds(t.mem, t.pc, SkipOrJump(branch, v)) && u.mem == t.mem && u.pc == Plus(t.pc, 4)
    ensures Step(u) == Some(u.(pc := Plus(t.pc, 12)))
  {
    hide Holds, Step, Plus, Load32, Load16, SkipOrJump, JumpThrough, Encodable, BranchHalves;
    SkipParts(t.mem, t.pc, branch, v);
    SmallOffsets();
    BranchStep(u, 4, false, JumpThrough(v));
    Ahead(t.pc);
  }

  lemma {:induction false} CondBranchShape(inst1: bv16, inst2: bv16, from_pc: bv32)
    requires IsCondBranch(inst1, inst2)
    ensures Relocate(inst1, inst2, from_pc) ==
              SkipOrJump([inst1 & 0xFFC0, (inst2 & 0xD000) | 2], Plus(Plus(from_pc, CondOffset(inst1, inst2)), 1))
  {
    hide CondBranchLabel, CondOffset, SkipOrJump, Plus;
    CondLabelIsOffset(inst1, inst2);
  }

  /** B.cond, with the flags of the original. Taken forward, two steps reach the target of the original. Taken
      backward, the first step leads almost 1 MiB back. Not taken, two steps lead to the literal, which is the target
      with the Thumb flag. */
  lemma {:induction false} CondBranchRuns(inst1: bv16, inst2: bv16, o: State, t: State)
    requires Decode(inst1, inst2).CondBranch? && o.pc & 1 == 0
    requires t.pc & 3 == 0 && Holds(t.mem, t.pc, Relocate(inst1, inst2, Plus(o.pc, 4)))
    ensures var i := Decode(inst1, inst2);
            var target := Plus(Plus(o.pc, 4), i.offset);
            && (t.holds(i.cond) && Forward(i.offset) ==> Run(t, 2) == Some(t.(pc := target, thumb := true)))
            && (t.holds(i.cond) && !Forward(i.offset) ==> Step(t) == Some(t.(pc := Plus(Plus(t.pc, 4), 0xFFF0_0004))))
            && (!t.holds(i.cond) ==>
                  Run(t, 2) == Some(t.(pc := Plus(t.pc, 12))) && Load32(t.mem, Plus(t.pc, 12)) == Plus(target, 1))
  {
    hide Decode, Plus, Holds, Step, Run, Relocate, SkipOrJump, BranchExchange, Load32, Load16, CondOffset, IsCondBranch;
    hide Execute, Forward;
    var offset, cond := CondOffset(inst1, inst2), (inst1 >> 6) & 15;
    var branch, target := [inst1 & 0xFFC0, (inst2 & 0xD000) | 2], Plus(Plus(o.pc, 4), offset);
    var v := Plus(target, 1);
    CondBranchClass(inst1, inst2);
    CondBranchShape(inst1, inst2, Plus(o.pc, 4));
    CondBranchRewritten(inst1, inst2);
    SkipParts(t.mem, t.pc, branch, v);
    StepIs(t, branch);
    CondBranchExecutes(cond, if Forward(offset) then 4 else 0xFFF0_0004, t);
    if t.holds(cond) {
      if Forward(offset) {
        var u := t.(pc := Plus(Plus(t.pc, 4), 4));
        Ahead(t.pc);
        JumpArm(t, branch, v, u);
        RunTwo(t, u);
        CondLabelIsOffset(inst1, inst2);
        EvenNext(o.pc);
        EvenSum(Plus(o.pc, 4), offset);
        ThumbTarget(u, target);
      }
    } else {
      var u := t.(pc := Plus(t.pc, 4));
      SkipArm(t, branch, v, u);
      RunTwo(t, u);
    }
  }

  // ----- ADR -----

  /** The relocator takes an ADR for one if and only if bit 6 of its second halfword, a bit of the immediate, is clear;
      and it also takes for one a MOVW whose four high bits are all set. */
  lemma {:induction false} AdrClass(inst1: bv16, inst2: bv16)
    ensures Decode(inst1, inst2).Address? ==> (IsAdr(inst1, inst2) <==> inst2 & 0x40 == 0)
    ensures Decode(inst1, inst2).MoveWide? ==> (IsAdr(inst1, inst2) <==> inst1 & 15 == 15 && inst2 & 0x40 == 0)
  {
    hide BranchOffset, AddressOffset;
  }

  lemma {:induction false} MoveWideIsNothingElse(inst1: bv16, inst2: bv16)
    requires Decode(inst1, inst2).MoveWide?
    ensures !IsControl(inst1, inst2) && !IsLoadLiteral(inst1, inst2)
    ensures Decode(inst1, inst2).rd == ((inst2 >> 8) & 15) as bv32
  {
    hide BranchOffset, AddressOffset;
  }

  /** MOVW is copied if and only if its four high bits are not all set or that bit is; otherwise it is relocated as
      if it computed an address, and the first step leaves that address in its register. */
  lemma {:induction false} MoveWideTakenForAdr(inst1: bv16, inst2: bv16, from_pc: bv32, t: State)
    requires Decode(inst1, inst2).MoveWide? && Decode(inst1, inst2).rd != 15
    requires t.pc & 3 == 0 && Holds(t.mem, t.pc, Relocate(inst1, inst2, from_pc))
    ensures Relocate(inst1, inst2, from_pc) == [inst1, inst2] <==> inst1 & 15 != 15 || inst2 & 0x40 != 0
    ensures inst1 & 15 == 15 && inst2 & 0x40 == 0 ==>
              && Step(t).Some? && Step(t).value.r(Decode(inst1, inst2).rd) == AdrValue(inst1, inst2, from_pc)
              && Run(t, 2).Some? && Run(t, 2).value.pc == Plus(t.pc, 8)
  {
    AdrClass(inst1, inst2);
    MoveWideIsNothingElse(inst1, inst2);
    hide Decode, IsAdr, IsControl, IsLoadLiteral, Plus, Holds, Step, AdrValue, CondBranchLabel, DecodeLabel, Load32;
    hide Run, DecodeExchangeLabel, LoadLiteralHalves, BranchHalves, AddressHalves;
    if IsAdr(inst1, inst2) {
      AdrShape(inst1, inst2, from_pc);
      Pairs((inst2 >> 8) & 15, 4, 0, 0);
      Pairs(0, 4, 0, AdrValue(inst1, inst2, from_pc));
      SmallField((inst2 >> 8) & 15);
      AdrLandsOnItsLiteral(inst1, inst2, from_pc, t);
    }
  }

  lemma {:induction false} SmallField(rd: bv16)
    requires rd as bv32 != 15
    ensures rd != 15
  {}

  /** `movw r0, #0xF000`. */
  lemma {:induction false} MoveWideExample()
    ensures Decode(0xF24F, 0x0000) == MoveWide(0, 0xF000) && IsAdr(0xF24F, 0x0000)
  {}

  lemma {:induction false} AdrFields(inst1: bv16, inst2: bv16)
    requires Decode(inst1, inst2).Address?
    ensures Decode(inst1, inst2).rd == ((inst2 >> 8) & 15) as bv32
    ensures Decode(inst1, inst2).imm12 == AddressOffset(inst1, inst2)
    ensures Decode(inst1, inst2).add <==> (inst1 >> 7) & 1 == 0
    ensures !IsControl(inst1, inst2) && !IsLoadLiteral(inst1, inst2)
  {}

  lemma {:induction false} MinusUndoes(x: bv32, i: bv32)
    ensures Minus(x + i, i) == x && Plus(x - i, i) == x
  {}

  lemma {:induction false} MinusPlain(a: bv32, b: bv32)
    ensures Minus(a, b) == a - b
  {}

  lemma {:induction false} Undone(x: bv32, i: bv32)
    ensures Minus(Plus(x, i), i) == x && Plus(Minus(x, i), i) == x
  {
    hide Plus, Minus;
    PlusPlain(x, i);
    MinusPlain(x, i);
    MinusUndoes(x, i);
  }

  lemma {:induction false} OffsetCancels(x: bv32, y: bv32, i: bv32)
    ensures Plus(x, i) == Plus(y, i) <==> x == y
    ensures Minus(x, i) == Minus(y, i) <==> x == y
  {
    hide Plus, Minus;
    Undone(x, i);
    Undone(y, i);
  }

  lemma {:induction false} EvenAligned(p: bv32)
    requires p & 1 == 0
    ensures Align(Plus(p, 4)) == Plus(p, 4) <==> p & 2 == 0
  {}

  /** The address that the relocator computes is not rounded: it is the architecture's plus what rounding takes off,
      and so right if and only if the instruction stood on a word boundary. */
  lemma {:induction false} AdrValueRight(inst1: bv16, inst2: bv16, p: bv32)
    requires Decode(inst1, inst2).Address? && p & 1 == 0
    ensures var i := Decode(inst1, inst2);
            && AdrValue(inst1, inst2, Plus(p, 4)) == Plus(LiteralAddress(p, i.add, i.imm12), p & 2)
            && (AdrValue(inst1, inst2, Plus(p, 4)) == LiteralAddress(p, i.add, i.imm12) <==> p & 2 == 0)
  {
    AdrValueUnrounded(inst1, inst2, p);
    AdrFields(inst1, inst2);
    EvenAligned(p);
    hide Decode, Plus, Minus, Align, IsControl, IsLoadLiteral;
    OffsetCancels(Plus(p, 4), Align(Plus(p, 4)), AddressOffset(inst1, inst2));
  }

  lemma {:induction false} AdrValueUnrounded(inst1: bv16, inst2: bv16, p: bv32)
    requires Decode(inst1, inst2).Address? && p & 1 == 0
    ensures var i := Decode(inst1, inst2);
            AdrValue(inst1, inst2, Plus(p, 4)) == Plus(LiteralAddress(p, i.add, i.imm12), p & 2)
  {
    AdrFields(inst1, inst2);
    hide Decode, Plus, Minus, Align, IsControl, IsLoadLiteral, AddressOffset;
    RoundedOff(p);
    Commute(Align(Plus(p, 4)), AddressOffset(inst1, inst2), p & 2);
  }

  lemma {:induction false} RoundedOff(p: bv32)
    requires p & 1 == 0
    ensures Plus(p, 4) == Plus(Align(Plus(p, 4)), p & 2)
  {
    assert p + 4 == ((p + 4) & 0xFFFF_FFFC) + (p & 2);
  }

  lemma {:induction false} Commute(x: bv32, i: bv32, y: bv32)
    ensures Plus(Plus(x, y), i) == Plus(Plus(x, i), y) && Minus(Plus(x, y), i) == Plus(Minus(x, i), y)
  {
    hide Plus, Minus;
    PlusPlain(x, y);
    PlusPlain(x, i);
    MinusPlain(x, i);
    CommutePlain(x, i, y);
  }

  lemma {:induction false} CommutePlain(x: bv32, i: bv32, y: bv32)
    ensures Plus(x + y, i) == Plus(x + i, y) && Minus(x + y, i) == Plus(x - i, y)
  {}

  lemma {:induction false} AddressExecutes(i: Instr, s: State)
    requires i.Address? && i.rd != 15
    ensures Execute(i, s) == Some(Put(s, i.rd, LiteralAddress(s.pc, i.add, i.imm12)).(pc := Plus(s.pc, 4)))
  {
    hide Put, LiteralAddress, Plus;
  }

  lemma {:induction false} AddressesMeet(p: bv32, q: bv32, add: bool, imm12: bv32)
    ensures LiteralAddress(p, add, imm12) == LiteralAddress(q, add, imm12) <==> Align(Plus(p, 4)) == Align(Plus(q, 4))
  {
    hide Plus, Minus, Align;
    OffsetCancels(Align(Plus(p, 4)), Align(Plus(q, 4)), imm12);
  }

  /** An ADR with that bit set is copied, and then computes its address from where the copy stands: it gives the
      original's address if and only if both stand in the same word. */
  lemma {:induction false} AdrCopied(inst1: bv16, inst2: bv16, o: State, t: State)
    requires Decode(inst1, inst2).Address? && Decode(inst1, inst2).rd != 15 && inst2 & 0x40 != 0
    requires Holds(t.mem, t.pc, Relocate(inst1, inst2, Plus(o.pc, 4)))
    ensures var i := Decode(inst1, inst2);
            && Relocate(inst1, inst2, Plus(o.pc, 4)) == [inst1, inst2]
            && Execute(i, o).Some? && Step(t).Some? && Step(t).value.pc == Plus(t.pc, 4)
            && (Step(t).value.r(i.rd) == Execute(i, o).value.r(i.rd) <==> Align(Plus(t.pc, 4)) == Align(Plus(o.pc, 4)))
  {
    AdrClass(inst1, inst2);
    AdrFields(inst1, inst2);
    hide Decode, IsAdr, IsControl, IsLoadLiteral, Plus, Align, LiteralAddress, Load16, Holds, Step, Execute, AdrValue;
    hide AddressOffset, CondBranchLabel, DecodeLabel, DecodeExchangeLabel;
    var i, h := Decode(inst1, inst2), [inst1, inst2];
    assert h + [] == h;
    HoldsPair(t.mem, t.pc, h, []);
    StepIs(t, h);
    AddressExecutes(i, o);
    AddressExecutes(i, t);
    AddressesMeet(t.pc, o.pc, i.add, i.imm12);
  }

  lemma {:induction false} AdrShape(inst1: bv16, inst2: bv16, from_pc: bv32)
    requires IsAdr(inst1, inst2)
    ensures Relocate(inst1, inst2, from_pc) ==
              LoadLiteralHalves((inst2 >> 8) & 15, 4)
              + (BranchHalves(0, false) + (AddressHalves(AdrValue(inst1, inst2, from_pc)) + []))
  {
    hide LoadLiteralHalves, BranchHalves, AddressHalves, AdrValue, IsControl, IsAdr;
    ClassesExclude(inst1, inst2);
  }

  /** What is taken for ADR: the first step leaves the relocator's address in the register, but the skip has offset
      0, so the second leads to the literal itself. */
  lemma {:induction false} AdrLandsOnItsLiteral(inst1: bv16, inst2: bv16, from_pc: bv32, t: State)
    requires IsAdr(inst1, inst2) && (inst2 >> 8) & 15 != 15
    requires t.pc & 3 == 0 && Holds(t.mem, t.pc, Relocate(inst1, inst2, from_pc))
    ensures Step(t).Some? && Step(t).value.r(((inst2 >> 8) & 15) as bv32) == AdrValue(inst1, inst2, from_pc)
    ensures Run(t, 2).Some? && Run(t, 2).value.pc == Plus(t.pc, 8)
    ensures Load32(t.mem, Plus(t.pc, 8)) == AdrValue(inst1, inst2, from_pc)
  {
    hide Decode, Relocate, Holds, Plus, Step, Load32, AdrValue, Encodable, IsAdr;
    hide LoadLiteralHalves, BranchHalves, AddressHalves;
    var rt, v := (inst2 >> 8) & 15, AdrValue(inst1, inst2, from_pc);
    AdrShape(inst1, inst2, from_pc);
    Pairs(rt, 4, 0, v);
    LiteralStep(t, rt, v, BranchHalves(0, false), []);
    var s1 := Put(t, rt as bv32, v).(pc := Plus(t.pc, 4));
    assert Step(t) == Some(s1);
    SmallOffsets();
    BranchStep(s1, 0, false, AddressHalves(v) + []);
    Ahead(t.pc);
    RunTwo(t, s1);
    AddressHeld(t.mem, Plus(t.pc, 8), v, []);
  }

  // ----- what is copied -----

  /** BLX with bit 0 set is undefined; the relocator takes it for BLX. */
  predicate UndefinedExchange(h1: bv16, h2: bv16) { h1 >> 11 == 0x1E && h2 & 0xD001 == 0xC001 }

  /** An unallocated word between the ADRs and the MOVTs, with bit 6 of its second halfword clear; the relocator
      takes it for ADR. */
  predicate UnallocatedAddress(h1: bv16, h2: bv16) { h1 & 0xFBFF == 0xF2EF && h2 & 0x8040 == 0 }

  lemma {:induction false} ExchangeClass(inst1: bv16, inst2: bv16)
    ensures IsBranchLinkExchange(inst1, inst2) <==>
              Decode(inst1, inst2).BranchLinkExchange? || UndefinedExchange(inst1, inst2)
  {
    ExchangeMask(inst1, inst2);
    ExchangeDecodes(inst1, inst2);
    hide Decode, IsBranchLinkExchange;
    BitZero(inst2);
  }

  lemma {:induction false} ExchangeMask(inst1: bv16, inst2: bv16)
    ensures IsBranchLinkExchange(inst1, inst2) <==> inst1 >> 11 == 0x1E && inst2 & 0xD000 == 0xC000
  {}

  lemma {:induction false} ExchangeDecodes(inst1: bv16, inst2: bv16)
    ensures Decode(inst1, inst2).BranchLinkExchange? <==> inst1 >> 11 == 0x1E && inst2 & 0xD001 == 0xC000
  {
    hide BranchOffset, CondOffset, AddressOffset;
  }

  lemma {:induction false} BitZero(h: bv16)
    ensures h & 0xD000 == 0xC000 <==> h & 0xD001 == 0xC000 || h & 0xD001 == 0xC001
  {}

  lemma {:induction false} AddressMask(inst1: bv16, inst2: bv16)
    ensures IsAdr(inst1, inst2) <==>
              && inst2 & 0x8040 == 0
              && (inst1 & 0xFBBF == 0xF20F || inst1 & 0xFBBF == 0xF2AF)
  {}

  lemma {:induction false} AddressKinds(inst1: bv16, inst2: bv16)
    ensures inst2 & 0x8040 == 0 && (inst1 & 0xFBBF == 0xF20F || inst1 & 0xFBBF == 0xF2AF) <==>
              || (Decode(inst1, inst2).Address? && inst2 & 0x40 == 0)
              || (Decode(inst1, inst2).MoveWide? && inst1 & 15 == 15 && inst2 & 0x40 == 0)
              || UnallocatedAddress(inst1, inst2)
  {
    hide BranchOffset, CondOffset, AddressOffset;
  }

  lemma {:induction false} TakenWordsAreUnknown(inst1: bv16, inst2: bv16)
    ensures UndefinedExchange(inst1, inst2) || UnallocatedAddress(inst1, inst2) ==> Decode(inst1, inst2).Unknown?
  {
    hide BranchOffset, CondOffset, AddressOffset;
  }

  lemma {:induction false} CopiedClass(inst1: bv16, inst2: bv16)
    ensures !IsCondBranch(inst1, inst2) && !IsBranch(inst1, inst2) && !IsBranchLink(inst1, inst2)
              && !IsBranchLinkExchange(inst1, inst2) && !IsAdr(inst1, inst2) && !IsLoadLiteral(inst1, inst2) <==>
            Copied(inst1, inst2)
  {
    hide Decode, IsCondBranch, IsBranch, IsBranchLink, IsBranchLinkExchange, IsAdr, IsLoadLiteral;
    CondBranchClass(inst1, inst2);
    BranchClass(inst1, inst2);
    BranchLinkClass(inst1, inst2);
    ExchangeClass(inst1, inst2);
    AddressMask(inst1, inst2);
    AddressKinds(inst1, inst2);
    LoadLiteralClass(inst1, inst2);
    TakenWordsAreUnknown(inst1, inst2);
    hide UndefinedExchange, UnallocatedAddress;
  }

  /** By the architecture's decoder: ADR with bit 6 set, MOVW without its four high bits all set or with bit 6 set, and
      whatever depends on no program counter, but for the two kinds of words above. */
  predicate Copied(h1: bv16, h2: bv16) {
    match Decode(h1, h2)
    case Address(_, _, _) => h2 & 0x40 != 0
    case MoveWide(_, _) => h1 & 15 != 15 || h2 & 0x40 != 0
    case LoadOffset(_, _, _) => true
    case Unknown => !UndefinedExchange(h1, h2) && !UnallocatedAddress(h1, h2)
    case _ => false
  }

  lemma {:induction false} CopiedOrLonger(inst1: bv16, inst2: bv16, p: bv32)
    ensures if Copied(inst1, inst2) then Relocate(inst1, inst2, p) == [inst1, inst2]
            else |Relocate(inst1, inst2, p)| > 2
  {
    hide Copied, IsCondBranch, IsBranch, IsBranchLink, IsBranchLinkExchange, IsAdr, IsLoadLiteral, LoadLiteralHalves;
    hide CondBranchLabel, DecodeLabel, DecodeExchangeLabel, AdrValue, LiteralValue, Plus, Align, JumpThrough;
    hide CallThrough, SkipOrJump, LoadAddress, LoadSelfHalves, Decode;
    CopiedClass(inst1, inst2);
    SmallRegisters(inst2);
    LengthsLonger((inst2 >> 8) & 15, inst2 >> 12);
  }

  lemma {:induction false} LengthsLonger(rd: bv16, rt: bv16)
    requires rd < 16 && rt < 16
    ensures forall v :: |JumpThrough(v)| > 2 && |CallThrough(v)| > 2
    ensures forall branch, v :: |branch| == 2 ==> |SkipOrJump(branch, v)| > 2
    ensures forall v :: |LoadAddress(rd, 0, v)| > 2 && |LoadAddress(rt, 4, v)| > 2
  {
    hide LoadLiteralHalves, BranchHalves, AddressHalves;
    forall v ensures |AddressHalves(v)| == 2 { Pairs(15, 0, 4, v); }
    Pairs(rd, 4, 0, 0);
    Pairs(rt, 4, 4, 0);
    Pairs(15, 0, 8, 0);
  }

  lemma {:induction false} SmallRegisters(inst2: bv16)
    ensures inst2 >> 12 < 16 && (inst2 >> 8) & 15 < 16
  {}

  /** An instruction is copied, halfword by halfword in order, if and only if it is one of those. */
  lemma {:induction false} CopiedExactly(inst1: bv16, inst2: bv16, p: bv32)
    ensures Relocate(inst1, inst2, p) == [inst1, inst2] <==> Copied(inst1, inst2)
  {
    hide Relocate, Copied;
    CopiedOrLonger(inst1, inst2, p);
  }

  /** What is taken for ADR, MOVW included, becomes what the ADR becomes that has bit 6 of its first halfword clear. */
  lemma {:induction false} TakenForAdr(inst1: bv16, inst2: bv16, p: bv32)
    requires IsAdr(inst1, inst2)
    ensures IsAdr(inst1 & 0xFFBF, inst2) && Decode(inst1 & 0xFFBF, inst2).Address?
    ensures Relocate(inst1, inst2, p) == Relocate(inst1 & 0xFFBF, inst2, p)
  {
    hide LoadAddress, BranchOffset, CondOffset, SkipOrJump, JumpThrough, CallThrough, Plus, Minus;
    SameAdr(inst1, inst2, p);
    hide AdrValue;
  }

  lemma {:induction false} SameAdr(inst1: bv16, inst2: bv16, p: bv32)
    ensures AdrValue(inst1, inst2, p) == AdrValue(inst1 & 0xFFBF, inst2, p)
  {
    hide Plus, Minus;
  }

  /** The undefined BLX becomes what the BLX with bit 0 clear becomes. */
  lemma {:induction false} UndefinedExchangeIsExchange(inst1: bv16, inst2: bv16, p: bv32)
    requires UndefinedExchange(inst1, inst2)
    ensures Decode(inst1, inst2 & 0xFFFE).BranchLinkExchange?
    ensures Relocate(inst1, inst2, p) == Relocate(inst1, inst2 & 0xFFFE, p)
  {
    hide CallThrough, JumpThrough, SkipOrJump, LoadAddress, Plus, Align, AdrValue, LiteralValue, CondBranchLabel;
    hide DecodeLabel, LoadSelfHalves, BranchOffset, CondOffset, AddressOffset;
  }
}
