/** What a linked literal load reads on the machine. */
module ThumbLinking {
  import opened Residues
  import opened ThumbMachine
  import opened ThumbRelocator
  import opened ThumbAssembler
  import opened ThumbSimulation

  /** The address of halfword `i` of code placed at `base`. */
  function Place(base: bv32, i: nat): bv32 {
    if i == 0 then base else Plus(Place(base, i - 1), 2)
  }

  ghost predicate Placed(mem: bv32 -> bv8, base: bv32, code: seq<bv16>) {
    forall i :: 0 <= i < |code| ==> Load16(mem, Place(base, i)) == code[i]
  }

  // ----- addresses -----

  lemma {:induction false} PlusAssociates(a: bv32, b: bv32, c: bv32)
    ensures Plus(Plus(a, b), c) == Plus(a, Plus(b, c))
  {
    assert Plus(a, b) == a + b && Plus(b, c) == b + c;
    assert Plus(a + b, c) == Plus(a, b + c);
  }

  lemma {:induction false} PlusNothing(a: bv32)
    ensures Plus(a, 0) == a
  {}

  lemma {:induction false} TwoSteps(x: bv32)
    ensures Next(Next(x)) == Plus(x, 2)
  {
    assert Next(x) == x + 1;
    assert Next(x + 1) == x + 2;
  }

  lemma {:induction false} NextTwo(n: nat)
    ensures Residue(n + 2) == Plus(Residue(n), 2)
  {
    hide Plus, Next;
    assert Residue(n + 1) == Next(Residue(n));
    TwoSteps(Residue(n));
  }

  lemma {:induction false} PlaceAhead(base: bv32, i: nat, d: nat)
    ensures Place(base, i + d) == Plus(Place(base, i), Residue(2 * d))
  {
    hide Plus, Residue, Next;
    if d == 0 {
      PlusNothing(Place(base, i));
      ResidueZero();
    } else {
      PlaceAhead(base, i, d - 1);
      NextTwo(2 * (d - 1));
      PlusAssociates(Place(base, i), Residue(2 * (d - 1)), 2);
      assert i + d - 1 == i + (d - 1) && 2 * (d - 1) + 2 == 2 * d;
    }
  }

  lemma {:induction false} ResidueZero()
    ensures Residue(0) == 0
  {}

  lemma {:induction false} HalfwayRounds(a: bv32)
    requires a & 3 == 0
    ensures (a + 2) & 0xFFFF_FFFC == a
  {}

  lemma {:induction false} AlignedRounds(a: bv32)
    requires a & 3 == 0
    ensures a & 0xFFFF_FFFC == a
  {}

  lemma {:induction false} HalfwayAligned(a: bv32)
    requires a & 3 == 0
    ensures Align(a) == a && Align(Plus(a, 2)) == a && Plus(a, 4) & 3 == 0
  {
    HalfwayRounds(a);
    AlignedRounds(a);
    PlusPlain(a, 2);
    AlignPlain(a);
    AlignPlain(a + 2);
    FourfoldSum(a, 4);
    hide Plus, Align;
  }

  lemma {:induction false} FourIsTwoTwos(a: bv32)
    ensures Plus(Plus(a, 2), 2) == Plus(a, 4)
  {
    assert Plus(a, 2) == a + 2;
    assert Plus(a + 2, 2) == Plus(a, 4);
  }

  lemma {:induction false} NextAligned(a: bv32)
    requires a & 3 == 0
    ensures Plus(Plus(a, 2), 2) & 3 == 0
    ensures Align(Plus(a, 4)) == Plus(Plus(a, 2), 2) && Align(Plus(Plus(a, 2), 4)) == Plus(Plus(a, 2), 2)
  {
    hide Plus, Align;
    FourIsTwoTwos(a);
    HalfwayAligned(a);
    AlignAfterAdd(a, 4);
    AlignAfterAdd(Plus(a, 2), 4);
  }

  lemma {:induction false} EvenPlacesAligned(base: bv32, m: nat)
    requires base & 3 == 0
    ensures Place(base, 2 * m) & 3 == 0
  {
    hide Plus;
    if m > 0 {
      EvenPlacesAligned(base, m - 1);
      NextAligned(Place(base, 2 * (m - 1)));
      assert Place(base, 2 * m - 1) == Plus(Place(base, 2 * (m - 1)), 2);
    }
  }

  /** The base a literal load at halfword `l` adds its offset to. */
  lemma {:induction false} LoadBase(base: bv32, l: nat)
    requires base & 3 == 0
    ensures Align(Plus(Place(base, l), 4)) == Place(base, 2 * (l / 2) + 2)
  {
    hide Plus, Align;
    var m := l / 2;
    EvenPlacesAligned(base, m);
    NextAligned(Place(base, 2 * m));
    assert Place(base, 2 * m + 1) == Plus(Place(base, 2 * m), 2);
    assert Place(base, 2 * m + 2) == Plus(Place(base, 2 * m + 1), 2);
    assert l == 2 * m || l == 2 * m + 1;
  }

  /** A load linked to `pos` addresses exactly `pos`. */
  lemma {:induction false} LinkedAddress(base: bv32, l: nat, pos: nat)
    requires base & 3 == 0 && l + 2 <= pos
    ensures LiteralAddress(Place(base, l), true, Residue(LinkOffset(pos, l))) == Place(base, pos)
  {
    hide Plus, Align, Place, Residue;
    var m := 2 * (l / 2) + 2;
    LoadBase(base, l);
    PlaceAhead(base, m, pos - m);
    assert 2 * (pos - m) == LinkOffset(pos, l);
  }

  // ----- the load -----

  lemma {:induction false} LinkedDecodes(h1: bv16, h2: bv16, x: bv32)
    requires IsUnlinkedLoad(h1, h2) && x < 0x1000
    ensures Decode(h1 | 0x80, (h2 & 0xF000) | ((x & 0xFFFF) as bv16)) == LoadLiteral(true, (h2 >> 12) as bv32, x)
  {
    hide BranchOffset;
  }

  lemma {:induction false} LinkedIsLoad(h1: bv16, h2: bv16, offset: nat)
    requires IsUnlinkedLoad(h1, h2) && offset < 4096
    ensures Decode(LinkedFirst(h1), LinkedSecond(h2, offset)) == LoadLiteral(true, (h2 >> 12) as bv32, Residue(offset))
  {
    hide Decode, IsUnlinkedLoad, Residue;
    ResidueBelow(offset, 0x1000, 0x1000);
    LinkedDecodes(h1, h2, Residue(offset));
  }

  /** Halfwords `l` and `l + 1` of placed code, as the machine loads them. */
  lemma {:induction false} PlacedPair(mem: bv32 -> bv8, base: bv32, code: seq<bv16>, l: nat)
    requires Placed(mem, base, code) && l + 1 < |code|
    ensures Load16(mem, Place(base, l)) == code[l] && Load16(mem, Plus(Place(base, l), 2)) == code[l + 1]
    ensures Load32(mem, Place(base, l)) == Join(code[l], code[l + 1])
  {
    hide Load16, Plus, Join;
    assert Place(base, l + 1) == Plus(Place(base, l), 2);
  }

  /** The word of label `i` in placed code. */
  lemma {:induction false} LabelHolds(mem: bv32 -> bv8, base: bv32, buffer: seq<bv16>, labels: seq<Label>, i: nat)
    requires AllInside(labels, |buffer|) && i < |labels| && Placed(mem, base, BindAll(buffer, labels, |labels|))
    ensures Load32(mem, Place(base, |buffer| + 2 * i)) == labels[i].data
  {
    hide BindAll, Load32, Place, AddressHalves, Join, Placed;
    var code, pos := BindAll(buffer, labels, |labels|), |buffer| + 2 * i;
    PoolStands(buffer, labels, |labels|, i);
    AddressLength(labels[i].data);
    AddressJoins(labels[i].data);
    assert code[pos] == code[pos..pos + 2][0] && code[pos + 1] == code[pos..pos + 2][1];
    PlacedPair(mem, base, code, pos);
  }

  lemma {:induction false} LinkInside(buffer: seq<bv16>, labels: seq<Label>, i: nat, k: nat)
    requires AllInside(labels, |buffer|) && LoadsStand(buffer, labels)
    requires i < |labels| && k < |labels[i].links| && Reachable(labels[i].links, |buffer| + 2 * i)
    ensures var l := labels[i].links[k];
            l + 2 <= |buffer| && IsUnlinkedLoad(buffer[l], buffer[l + 1]) && LinkOffset(|buffer| + 2 * i, l) < 4096
  {
    hide IsUnlinkedLoad, LinkOffset;
    assert Inside(labels[i].links, |buffer|);
  }

  /** After binding, every linked load in code placed at a 4-aligned address is a literal load into its register that
      reads its own label's word. */
  lemma {:induction false} LinkedLoadReads(
      mem: bv32 -> bv8, base: bv32, buffer: seq<bv16>, labels: seq<Label>, i: nat, k: nat)
    requires base & 3 == 0 && AllInside(labels, |buffer|) && Apart(labels) && LoadsStand(buffer, labels)
    requires i < |labels| && k < |labels[i].links| && Reachable(labels[i].links, |buffer| + 2 * i)
    requires Placed(mem, base, BindAll(buffer, labels, |labels|))
    ensures var at, l := Place(base, labels[i].links[k]), labels[i].links[k];
            var load := Decode(Load16(mem, at), Load16(mem, Plus(at, 2)));
            && load.LoadLiteral? && load.rt == (buffer[l + 1] >> 12) as bv32
            && Load32(mem, LiteralAddress(at, load.add, load.imm12)) == labels[i].data
  {
    var code, l, pos := BindAll(buffer, labels, |labels|), labels[i].links[k], |buffer| + 2 * i;
    LinkInside(buffer, labels, i, k);
    var offset := LinkOffset(pos, l);
    hide BindAll, Decode, LiteralAddress, Load16, Load32, Plus, Residue, IsUnlinkedLoad, Apart, Place, Placed;
    hide AllInside, LinkOffset, Reachable, LoadsStand, LinkedFirst, LinkedSecond;
    LoadLinked(buffer, labels, |labels|, i, k);
    PlacedPair(mem, base, code, l);
    LinkedIsLoad(buffer[l], buffer[l + 1], offset);
    LinkedAddress(base, l, pos);
    LabelHolds(mem, base, buffer, labels, i);
  }

  /** The range check is exact: the offset is below 4096 if and only if some literal load from there reaches the
      label, in code below 128 KiB. */
  lemma {:induction false} ReachesExactly(base: bv32, l: nat, pos: nat)
    requires base & 3 == 0 && l + 2 <= pos < 0x10000
    ensures LinkOffset(pos, l) < 4096 <==>
              exists x: bv32 :: x < 0x1000 && LiteralAddress(Place(base, l), true, x) == Place(base, pos)
  {
    hide LiteralAddress, Place, Residue;
    var offset := LinkOffset(pos, l);
    LinkedAddress(base, l, pos);
    if offset < 4096 {
      ResidueBelow(offset, 0x1000, 0x1000);
    } else {
      ResidueGrows(0x1000, offset);
      ResidueOfPower(0x1000, 0x1000);
      forall x: bv32 | LiteralAddress(Place(base, l), true, x) == Place(base, pos)
        ensures x >= 0x1000
      {
        SameOffset(Place(base, l), x, Residue(offset));
      }
    }
  }

  lemma {:induction false} SameOffset(p: bv32, x: bv32, y: bv32)
    requires LiteralAddress(p, true, x) == LiteralAddress(p, true, y)
    ensures x == y
  {
    hide Plus, Align;
    PlusCommutes(Align(Plus(p, 4)), x);
    PlusCommutes(Align(Plus(p, 4)), y);
    OffsetCancels(x, y, Align(Plus(p, 4)));
  }

  lemma {:induction false} PlusCommutes(x: bv32, y: bv32)
    ensures Plus(x, y) == Plus(y, x)
  {}

  /** In a buffer of at most 4 KiB every label can be reached. */
  lemma {:induction false} SmallBufferReaches(buffer: seq<bv16>, labels: seq<Label>, i: nat)
    requires AllInside(labels, |buffer|) && i < |labels| && 2 * (|buffer| + 2 * |labels|) <= 4096
    ensures Reachable(labels[i].links, |buffer| + 2 * i)
  {}

  /** Rewriting one label's word: afterwards every load linked to it reads the new word, and every other load its own
      label's. */
  lemma {:induction false} FixedLoadReads(
      mem: bv32 -> bv8, base: bv32, buffer: seq<bv16>, labels: seq<Label>, fixed: nat, data: bv32, i: nat, k: nat)
    requires base & 3 == 0 && AllInside(labels, |buffer|) && Apart(labels) && LoadsStand(buffer, labels)
    requires fixed < |labels|
    requires i < |labels| && k < |labels[i].links| && Reachable(labels[i].links, |buffer| + 2 * i)
    requires Placed(mem, base, Rewritten(BindAll(buffer, labels, |labels|), |buffer| + 2 * fixed, data))
    ensures var at, l := Place(base, labels[i].links[k]), labels[i].links[k];
            var load := Decode(Load16(mem, at), Load16(mem, Plus(at, 2)));
            && load.LoadLiteral? && load.rt == (buffer[l + 1] >> 12) as bv32
            && Load32(mem, LiteralAddress(at, load.add, load.imm12)) == if i == fixed then data else labels[i].data
  {
    hide BindAll, Decode, LiteralAddress, Load16, Load32, Plus, IsUnlinkedLoad, Place, Placed, Rewritten;
    FixupIsRebinding(buffer, labels, |labels|, fixed, data);
    var after := WithData(labels, fixed, data);
    SameLinks(labels, fixed, data, |buffer|);
    hide AllInside, Reachable;
    StillApart(buffer, labels, fixed, data);
    hide Apart, LoadsStand;
    LinkedLoadReads(mem, base, buffer, after, i, k);
  }

  lemma {:induction false} StillApart(buffer: seq<bv16>, labels: seq<Label>, i: nat, data: bv32)
    requires i < |labels| && AllInside(labels, |buffer|) && Apart(labels) && LoadsStand(buffer, labels)
    requires AllInside(WithData(labels, i, data), |buffer|)
    ensures Apart(WithData(labels, i, data)) && LoadsStand(buffer, WithData(labels, i, data))
  {
    hide IsUnlinkedLoad;
  }

  /** What a load back becomes: imm12 keeps twelve bits of the distance, and the next four spill into the register. */
  function SpilledLoad(rt: bv16, back: bv32): Instr {
    LoadLiteral(false, rt as bv32 | ((back >> 12) & 15), back & 0xFFF)
  }

  lemma {:induction false} SpillDecodes(rt: bv16, back: bv32)
    requires rt < 16
    ensures Decode(0xF85F, LoadBackSecond(rt, back)) == SpilledLoad(rt, back)
  {
    hide BranchOffset, CondOffset, AddressOffset;
  }

  /** The emitted halfwords at any distance. */
  lemma {:induction false} LoadBackDecodes(rt: bv16, back: nat)
    requires rt < 16
    ensures Decode(LoadBackHalves(rt, back)[0], LoadBackHalves(rt, back)[1]) == SpilledLoad(rt, Residue(back))
  {
    hide Residue, Decode, LoadBackSecond, SpilledLoad;
    SpillDecodes(rt, Residue(back));
  }

  /** Nothing spills exactly below 4096 bytes; from there on the offset is wrong, and the register too unless its number
      already has the bits that spill. */
  lemma {:induction false} SpillsFrom4096(rt: bv16, back: bv32)
    requires rt < 16
    ensures back < 0x1000 ==> SpilledLoad(rt, back) == LoadLiteral(false, rt as bv32, back)
    ensures SpilledLoad(rt, back).rt == rt as bv32 <==> ((back >> 12) & 15) & (rt as bv32) == (back >> 12) & 15
    ensures SpilledLoad(rt, back).imm12 == back <==> back < 0x1000
  {}

  /** A load back to a label that is bound at `pos`, less than 4096 bytes before halfword `l`: it is a literal load
      into its register that reads one or two halfwords behind the label, since the offset does not allow for the
      program counter being ahead. */
  lemma {:induction false} LoadBackMisses(base: bv32, l: nat, pos: nat, rt: bv16)
    requires base & 3 == 0 && pos <= l && 2 * (l - pos) < 4096 && rt < 16
    ensures var h := LoadBackHalves(rt, 2 * (l - pos));
            var load := Decode(h[0], h[1]);
            && load.LoadLiteral? && load.rt == rt as bv32
            && LiteralAddress(Place(base, l), load.add, load.imm12) == Place(base, pos + 2 - l % 2)
            && Place(base, pos + 2 - l % 2) != Place(base, pos)
  {
    hide Decode, LoadBackHalves, Place, Residue, LiteralAddress, SpilledLoad;
    LoadBackDecodes(rt, 2 * (l - pos));
    ResidueBelow(2 * (l - pos), 0x1000, 0x1000);
    SpillsFrom4096(rt, Residue(2 * (l - pos)));
    LoadBackAddress(base, l, pos);
  }

  lemma {:induction false} LoadBackAddress(base: bv32, l: nat, pos: nat)
    requires base & 3 == 0 && pos <= l
    ensures LiteralAddress(Place(base, l), false, Residue(2 * (l - pos))) == Place(base, pos + 2 - l % 2)
    ensures Place(base, pos + 2 - l % 2) != Place(base, pos)
  {
    hide Plus, Minus, Align, Place, Residue;
    LoadBase(base, l);
    var m := pos + 2 - l % 2;
    PlaceAhead(base, m, l - pos);
    assert m + (l - pos) == 2 * (l / 2) + 2;
    Undone(Place(base, m), Residue(2 * (l - pos)));
    NotSamePlace(base, pos, 2 - l % 2);
  }

  lemma {:induction false} NotSamePlace(base: bv32, pos: nat, d: nat)
    requires d == 1 || d == 2
    ensures Place(base, pos + d) != Place(base, pos)
  {
    hide Place;
    PlaceAhead(base, pos, d);
    SmallResidues();
    SumDiffers(Place(base, pos));
  }

  lemma {:induction false} SmallResidues()
    ensures Residue(2) == 2 && Residue(4) == 4
  {
    assert Residue(2) == Next(Residue(1)) && Residue(4) == Next(Residue(3)) && Residue(3) == Next(Residue(2));
  }

  lemma {:induction false} SumDiffers(a: bv32)
    ensures Plus(a, 2) != a && Plus(a, 4) != a
  {}
}
