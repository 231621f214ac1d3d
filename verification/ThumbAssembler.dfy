/**
 The Thumb assembler: the shared code buffer, the labels of the literal pool, and the linking of the
 literal loads that refer to them.  Positions are counted in halfwords.
 */
module ThumbAssembler {
  import opened Common
  import opened Residues
  import opened ThumbMachine
  import opened ThumbRelocator

  /** A data label: where the loads linked to it stand, its word, and where it is bound. */
  datatype Label = Label(links: seq<nat>, data: bv32, pos: Option<nat>)

  // ----- linking -----

  /** `pos() - ALIGN(position, 4) - Thumb_PC_OFFSET`, in bytes. */
  function LinkOffset(pos: nat, link: nat): (r: nat)
    requires link + 2 <= pos
  {
    2 * pos - 4 * (link / 2) - 4
  }

  /** The load's first halfword with U set, and its second with the offset in imm12. */
  function LinkedFirst(h: bv16): bv16 { h | 0x80 }

  function LinkedSecond(h: bv16, offset: nat): bv16 { (h & 0xF000) | ((Residue(offset) & 0xFFFF) as bv16) }

  ghost predicate Inside(links: seq<nat>, size: nat) {
    forall k :: 0 <= k < |links| ==> links[k] + 2 <= size
  }

  /** `link_confused_instructions` after `n` of the label's loads. */
  function LinkAll(buffer: seq<bv16>, links: seq<nat>, pos: nat, n: nat): (r: seq<bv16>)
    requires n <= |links| && pos == |buffer| && Inside(links, pos)
    ensures |r| == |buffer|
  {
    if n == 0 then buffer else
      var b := LinkAll(buffer, links, pos, n - 1);
      var l := links[n - 1];
      b[l := LinkedFirst(b[l])][l + 1 := LinkedSecond(b[l + 1], LinkOffset(pos, l))]
  }

  ghost predicate AllInside(labels: seq<Label>, size: nat) {
    forall i :: 0 <= i < |labels| ==> Inside(labels[i].links, size)
  }

  /** `RelocBind` after `q` labels: each is bound at the end of the buffer, its loads linked, its word appended. */
  function BindAll(buffer: seq<bv16>, labels: seq<Label>, q: nat): (r: seq<bv16>)
    requires q <= |labels| && AllInside(labels, |buffer|)
    ensures |r| == |buffer| + 2 * q
  {
    if q == 0 then buffer else
      var b := BindAll(buffer, labels, q - 1);
      var links := labels[q - 1].links;
      LinkAll(b, links, |b|, |links|) + AddressHalves(labels[q - 1].data)
  }

  /** Two loads do not overlap, whichever labels they belong to. */
  ghost predicate Apart(labels: seq<Label>) {
    forall i, j, a, b |
      && 0 <= i < |labels| && 0 <= j < |labels| && 0 <= a < |labels[i].links| && 0 <= b < |labels[j].links|
      && (i != j || a != b) ::
      labels[i].links[a] + 2 <= labels[j].links[b] || labels[j].links[b] + 2 <= labels[i].links[a]
  }

  /** Every linked place holds a literal load with offset zero. */
  ghost predicate LoadsStand(buffer: seq<bv16>, labels: seq<Label>)
    requires AllInside(labels, |buffer|)
  {
    forall i, k :: 0 <= i < |labels| && 0 <= k < |labels[i].links| ==>
      IsUnlinkedLoad(buffer[labels[i].links[k]], buffer[labels[i].links[k] + 1])
  }

  predicate IsUnlinkedLoad(h1: bv16, h2: bv16) { h1 == 0xF85F && h2 & 0xFFF == 0 }

  /** `CHECK(imm12 < 4096)` for every load of the label at index `i`, bound at `pos`. */
  ghost predicate Reachable(links: seq<nat>, pos: nat)
    requires Inside(links, pos)
  {
    forall k :: 0 <= k < |links| ==> LinkOffset(pos, links[k]) < 4096
  }

  lemma {:induction false} UnlinkedHalves(rt: bv16)
    requires rt < 16
    ensures var h := LoadLiteralHalves(rt, 0); |h| == 2 && IsUnlinkedLoad(h[0], h[1])
  {}

  /** `EmitThumb2LoadLiteral` for an offset of `-back` bytes: U is clear, and imm12 is not masked. */
  function LoadBackHalves(rt: bv16, back: nat): seq<bv16>
    requires rt < 16
  {
    [0xF85F, LoadBackSecond(rt, Residue(back))]
  }

  function LoadBackSecond(rt: bv16, back: bv32): bv16 { (rt << 12) | ((back & 0xFFFF) as bv16) }

  lemma {:induction false} SmallFields(inst2: bv16)
    ensures (inst2 >> 8) & 15 < 16 && inst2 >> 12 < 16
  {}

  // ----- the object -----

  class ThumbTurboAssembler {
    var buffer: seq<bv16>
    var labels: seq<Label>

    ghost predicate Valid()
      reads this
    {
      AllInside(labels, |buffer|) && Apart(labels) && LoadsStand(buffer, labels)
    }

    constructor ()
      ensures buffer == [] && labels == [] && Valid()
    {
      buffer, labels := [], [];
    }

    method Emit(halves: seq<bv16>)
      requires Valid()
      modifies this
      ensures Valid() && buffer == old(buffer) + halves && labels == old(labels)
    {
      hide Apart, IsUnlinkedLoad;
      buffer := buffer + halves;
    }

    method AlignThumbNop()
      requires Valid()
      modifies this
      ensures Valid() && labels == old(labels)
      ensures |buffer| % 2 == 0 && buffer == if |old(buffer)| % 2 == 0 then old(buffer) else old(buffer) + [0xBF00]
    {
      if |buffer| % 2 != 0 { Emit([0xBF00]); }
    }

    method AppendRelocLabelEntry(data: bv32) returns (i: nat)
      requires Valid()
      modifies this
      ensures Valid() && buffer == old(buffer) && labels == old(labels) + [Label([], data, None)] && i == |old(labels)|
    {
      i := |labels|;
      labels := labels + [Label([], data, None)];
    }

    /** `T2_Ldr`: a load back to a label that is bound, or a load to be linked later. */
    method T2Ldr(rt: bv16, i: nat)
      requires Valid() && i < |labels| && rt < 16 && (labels[i].pos.Some? ==> labels[i].pos.value <= |buffer|)
      modifies this
      ensures Valid()
      ensures old(labels)[i].pos.Some? ==>
                && buffer == old(buffer) + LoadBackHalves(rt, 2 * (|old(buffer)| - old(labels)[i].pos.value))
                && labels == old(labels)
      ensures old(labels)[i].pos.None? ==>
                && buffer == old(buffer) + LoadLiteralHalves(rt, 0)
                && labels == old(labels)[i := old(labels)[i].(links := old(labels)[i].links + [|old(buffer)|])]
    {
      hide IsUnlinkedLoad;
      UnlinkedHalves(rt);
      var l := labels[i];
      if l.pos.Some? {
        Emit(LoadBackHalves(rt, 2 * (|buffer| - l.pos.value)));
        return;
      }
      labels := labels[i := l.(links := l.links + [|buffer|])];
      buffer := buffer + LoadLiteralHalves(rt, 0);
    }

    method Thumb2RelocateSingleInstr(inst1: bv16, inst2: bv16, from_pc: bv32)
      requires Valid()
      modifies this
      ensures Valid() && labels == old(labels)
      ensures exists aligned: seq<bv16> ::
                && |aligned| % 2 == 0 && (aligned == old(buffer) || aligned == old(buffer) + [0xBF00])
                && buffer == aligned + Relocate(inst1, inst2, from_pc)
    {
      AlignThumbNop();
      ghost var aligned := buffer;
      EmitRelocated(inst1, inst2, from_pc);
      assert buffer == aligned + Relocate(inst1, inst2, from_pc);
    }

    method EmitJumpThrough(v: bv32)
      requires Valid()
      modifies this
      ensures Valid() && labels == old(labels) && buffer == old(buffer) + JumpThrough(v)
    {
      hide LoadLiteralHalves, AddressHalves, AllInside, Apart, LoadsStand;
      Emit(LoadLiteralHalves(15, 0));
      Emit(AddressHalves(v));
    }

    method EmitCallThrough(v: bv32)
      requires Valid()
      modifies this
      ensures Valid() && labels == old(labels) && buffer == old(buffer) + CallThrough(v)
    {
      hide BranchHalves, JumpThrough, AllInside, Apart, LoadsStand;
      Emit(BranchHalves(4, true));
      Emit(BranchHalves(8, false));
      EmitJumpThrough(v);
    }

    method EmitSkipOrJump(branch: seq<bv16>, v: bv32)
      requires Valid()
      modifies this
      ensures Valid() && labels == old(labels) && buffer == old(buffer) + SkipOrJump(branch, v)
    {
      hide BranchHalves, JumpThrough, AllInside, Apart, LoadsStand;
      Emit(branch);
      Emit(BranchHalves(4, false));
      EmitJumpThrough(v);
    }

    method EmitLoadAddress(rt: bv16, skip: bv32, v: bv32)
      requires Valid() && rt < 16
      modifies this
      ensures Valid() && labels == old(labels) && buffer == old(buffer) + LoadAddress(rt, skip, v)
    {
      hide LoadLiteralHalves, BranchHalves, AddressHalves, AllInside, Apart, LoadsStand;
      Emit(LoadLiteralHalves(rt, 4));
      Emit(BranchHalves(skip, false));
      Emit(AddressHalves(v));
    }

    method EmitRelocated(inst1: bv16, inst2: bv16, from_pc: bv32)
      requires Valid()
      modifies this
      ensures Valid() && labels == old(labels) && buffer == old(buffer) + Relocate(inst1, inst2, from_pc)
    {
      hide IsCondBranch, IsBranch, IsBranchLink, IsBranchLinkExchange, IsAdr, IsLoadLiteral;
      hide JumpThrough, CallThrough, SkipOrJump, LoadAddress, LoadSelfHalves, LiteralValue, AdrValue;
      hide CondBranchLabel, DecodeLabel, DecodeExchangeLabel, Plus, Align, AllInside, Apart, LoadsStand;
      SmallFields(inst2);
      if IsCondBranch(inst1, inst2) {
        EmitSkipOrJump([inst1 & 0xFFC0, (inst2 & 0xD000) | 2], Plus(Plus(from_pc, CondBranchLabel(inst1, inst2)), 1));
      } else if IsBranch(inst1, inst2) {
        EmitJumpThrough(Plus(Plus(from_pc, DecodeLabel(inst1, inst2)), 1));
      } else if IsBranchLink(inst1, inst2) {
        EmitCallThrough(Plus(Plus(from_pc, DecodeLabel(inst1, inst2)), 1));
      } else if IsBranchLinkExchange(inst1, inst2) {
        EmitCallThrough(Plus(Align(from_pc), DecodeExchangeLabel(inst1, inst2)));
      } else if IsAdr(inst1, inst2) {
        EmitLoadAddress((inst2 >> 8) & 15, 0, AdrValue(inst1, inst2, from_pc));
      } else if IsLoadLiteral(inst1, inst2) {
        EmitLoadAddress(inst2 >> 12, 4, LiteralValue(inst1, inst2, from_pc));
        Emit(LoadSelfHalves(inst2 >> 12));
      } else {
        Emit([inst1, inst2]);
      }
    }

    /** `ThumbPseudoBind` for a label bound at the end of the buffer; false where CHECK stops the process. */
    method LinkConfusedInstructions(links: seq<nat>) returns (ok: bool)
      requires Inside(links, |buffer|)
      modifies this`buffer
      ensures ok <==> Reachable(links, |old(buffer)|)
      ensures |buffer| == |old(buffer)|
      ensures ok ==> buffer == LinkAll(old(buffer), links, |old(buffer)|, |links|)
    {
      hide LinkedFirst, LinkedSecond;
      var pos := |buffer|;
      var k := 0;
      while k < |links|
        invariant 0 <= k <= |links| && |buffer| == pos
        invariant buffer == LinkAll(old(buffer), links, pos, k)
        invariant forall i :: 0 <= i < k ==> LinkOffset(pos, links[i]) < 4096
      {
        var l := links[k];
        if LinkOffset(pos, l) >= 4096 { return false; }
        buffer := buffer[l := LinkedFirst(buffer[l])][l + 1 := LinkedSecond(buffer[l + 1], LinkOffset(pos, l))];
        k := k + 1;
      }
      return true;
    }

    /** Bind every label at the end of the code; false where a load cannot reach its label. */
    method RelocBind() returns (ok: bool)
      requires Valid() && forall i :: 0 <= i < |labels| ==> labels[i].pos.None?
      modifies this
      ensures ok <==> forall i :: 0 <= i < |old(labels)| ==> Reachable(old(labels)[i].links, |old(buffer)| + 2 * i)
      ensures ok ==> buffer == BindAll(old(buffer), old(labels), |old(labels)|)
      ensures ok ==> |labels| == |old(labels)| && forall i :: 0 <= i < |labels| ==>
                       labels[i] == old(labels)[i].(pos := Some(|old(buffer)| + 2 * i))
    {
      hide AddressHalves, LinkOffset, Apart, LinkAll, Reachable, LoadsStand;
      ghost var before, size := labels, |buffer|;
      var i := 0;
      while i < |labels|
        invariant 0 <= i <= |labels| == |before|
        invariant buffer == BindAll(old(buffer), before, i)
        invariant forall j :: 0 <= j < i ==> labels[j] == before[j].(pos := Some(size + 2 * j))
        invariant forall j :: i <= j < |before| ==> labels[j] == before[j]
        invariant forall j :: 0 <= j < i ==> Reachable(before[j].links, size + 2 * j)
      {
        assert |buffer| == size + 2 * i && Inside(before[i].links, size);
        AddressLength(labels[i].data);
        labels := labels[i := labels[i].(pos := Some(|buffer|))];
        var linked := LinkConfusedInstructions(labels[i].links);
        if !linked {
          assert !Reachable(before[i].links, size + 2 * i);
          return false;
        }
        buffer := buffer + AddressHalves(labels[i].data);
        i := i + 1;
      }
      return true;
    }

    /** Write a bound label's word again. */
    method RelocBindFixup(i: nat, data: bv32)
      requires i < |labels| && labels[i].pos.Some? && labels[i].pos.value + 2 <= |buffer|
      modifies this
      ensures labels == WithData(old(labels), i, data)
      ensures buffer == Rewritten(old(buffer), old(labels)[i].pos.value, data)
      ensures |buffer| == |old(buffer)| && buffer[labels[i].pos.value..labels[i].pos.value + 2] == AddressHalves(data)
      ensures forall x :: 0 <= x < |buffer| && x != labels[i].pos.value && x != labels[i].pos.value + 1 ==>
                buffer[x] == old(buffer)[x]
    {
      var p := labels[i].pos.value;
      labels := labels[i := labels[i].(data := data)];
      buffer := buffer[p := AddressHalves(data)[0]][p + 1 := AddressHalves(data)[1]];
    }
  }

  // ----- rewriting a word -----

  function WithData(labels: seq<Label>, i: nat, data: bv32): seq<Label>
    requires i < |labels|
  {
    labels[i := labels[i].(data := data)]
  }

  function Rewritten(code: seq<bv16>, pos: nat, data: bv32): (r: seq<bv16>)
    requires pos + 2 <= |code|
    ensures |r| == |code|
  {
    code[pos := AddressHalves(data)[0]][pos + 1 := AddressHalves(data)[1]]
  }

  /** Linking loads and rewriting a word behind them can be done in either order. */
  lemma {:induction false} LinkAllRewritten(
      code: seq<bv16>, links: seq<nat>, n: nat, pos: nat, data: bv32, size: nat)
    requires n <= |links| && Inside(links, size) && size <= pos && pos + 2 <= |code|
    ensures Inside(links, |code|)
    ensures LinkAll(Rewritten(code, pos, data), links, |code|, n) ==
              Rewritten(LinkAll(code, links, |code|, n), pos, data)
  {
    hide LinkedFirst, LinkedSecond, LinkOffset, AddressHalves;
    if n > 0 { LinkAllRewritten(code, links, n - 1, pos, data, size); }
  }

  lemma {:induction false} SameLinks(labels: seq<Label>, i: nat, data: bv32, size: nat)
    requires i < |labels| && AllInside(labels, size)
    ensures AllInside(WithData(labels, i, data), size)
    ensures forall j :: 0 <= j < |labels| ==> WithData(labels, i, data)[j].links == labels[j].links
  {}

  lemma {:induction false} BindStep(buffer: seq<bv16>, labels: seq<Label>, q: nat)
    requires 0 < q <= |labels| && AllInside(labels, |buffer|)
    ensures var b, links := BindAll(buffer, labels, q - 1), labels[q - 1].links;
            && Inside(links, |b|)
            && BindAll(buffer, labels, q) == LinkAll(b, links, |b|, |links|) + AddressHalves(labels[q - 1].data)
  {
    hide AddressHalves, LinkAll;
  }

  lemma {:induction false} SameBefore(buffer: seq<bv16>, labels: seq<Label>, q: nat, i: nat, data: bv32)
    requires q <= i < |labels| && AllInside(labels, |buffer|) && AllInside(WithData(labels, i, data), |buffer|)
    ensures BindAll(buffer, WithData(labels, i, data), q) == BindAll(buffer, labels, q)
  {
    hide AddressHalves, LinkAll;
    if q > 0 { SameBefore(buffer, labels, q - 1, i, data); }
  }

  lemma {:induction false} RewrittenEnd(code: seq<bv16>, was: bv32, data: bv32)
    ensures Rewritten(code + AddressHalves(was), |code|, data) == code + AddressHalves(data)
  {}

  lemma {:induction false} RewrittenInside(code: seq<bv16>, tail: seq<bv16>, pos: nat, data: bv32)
    requires pos + 2 <= |code|
    ensures Rewritten(code + tail, pos, data) == Rewritten(code, pos, data) + tail
  {}

  /** Rewriting a bound label's word gives the code that binding the label with the new word would have given. */
  lemma {:induction false} FixupIsRebinding(buffer: seq<bv16>, labels: seq<Label>, q: nat, i: nat, data: bv32)
    requires i < q <= |labels| && AllInside(labels, |buffer|)
    ensures AllInside(WithData(labels, i, data), |buffer|)
    ensures Rewritten(BindAll(buffer, labels, q), |buffer| + 2 * i, data) ==
              BindAll(buffer, WithData(labels, i, data), q)
  {
    hide AddressHalves, LinkAll, Rewritten, BindAll;
    var after := WithData(labels, i, data);
    SameLinks(labels, i, data, |buffer|);
    BindStep(buffer, labels, q);
    BindStep(buffer, after, q);
    var b, links, pos := BindAll(buffer, labels, q - 1), labels[q - 1].links, |buffer| + 2 * i;
    var linked := LinkAll(b, links, |b|, |links|);
    if i == q - 1 {
      SameBefore(buffer, labels, i, i, data);
      RewrittenEnd(linked, labels[i].data, data);
    } else {
      FixupIsRebinding(buffer, labels, q - 1, i, data);
      assert Inside(links, |buffer|);
      LinkAllRewritten(b, links, |links|, pos, data, |buffer|);
      RewrittenInside(linked, AddressHalves(labels[q - 1].data), pos, data);
    }
  }

  // ----- what binding changes -----

  ghost predicate Free(links: seq<nat>, n: nat, x: nat)
    requires n <= |links|
  {
    forall k :: 0 <= k < n ==> links[k] != x && links[k] + 1 != x
  }

  lemma {:induction false} LinkAllKeeps(buffer: seq<bv16>, links: seq<nat>, n: nat, x: nat)
    requires n <= |links| && Inside(links, |buffer|) && x < |buffer| && Free(links, n, x)
    ensures LinkAll(buffer, links, |buffer|, n)[x] == buffer[x]
  {
    hide LinkedFirst, LinkedSecond, LinkOffset;
    if n > 0 { LinkAllKeeps(buffer, links, n - 1, x); }
  }

  /** A label's own loads do not overlap. */
  ghost predicate Separate(links: seq<nat>) {
    forall a, b :: 0 <= a < |links| && 0 <= b < |links| && a != b ==>
      links[a] + 2 <= links[b] || links[b] + 2 <= links[a]
  }

  lemma {:induction false} LinkAllLinks(buffer: seq<bv16>, links: seq<nat>, n: nat, k: nat)
    requires k < n <= |links| && Inside(links, |buffer|) && Separate(links)
    ensures var code, l := LinkAll(buffer, links, |buffer|, n), links[k];
            && code[l] == LinkedFirst(buffer[l])
            && code[l + 1] == LinkedSecond(buffer[l + 1], LinkOffset(|buffer|, l))
  {
    hide LinkedFirst, LinkedSecond, LinkOffset;
    if k + 1 < n {
      LinkAllLinks(buffer, links, n - 1, k);
    } else {
      LinkAllKeeps(buffer, links, k, links[k]);
      LinkAllKeeps(buffer, links, k, links[k] + 1);
    }
  }

  /** Binding one more label leaves every halfword that it does not link. */
  lemma {:induction false} BindKeeps(buffer: seq<bv16>, labels: seq<Label>, q: nat, x: nat)
    requires q < |labels| && AllInside(labels, |buffer|) && x < |buffer| + 2 * q
    requires Free(labels[q].links, |labels[q].links|, x)
    ensures BindAll(buffer, labels, q + 1)[x] == BindAll(buffer, labels, q)[x]
  {
    hide AddressHalves, LinkAll;
    LinkAllKeeps(BindAll(buffer, labels, q), labels[q].links, |labels[q].links|, x);
  }

  lemma {:induction false} BindAllKeeps(buffer: seq<bv16>, labels: seq<Label>, q: nat, x: nat)
    requires q <= |labels| && AllInside(labels, |buffer|) && x < |buffer|
    requires forall i :: 0 <= i < q ==> Free(labels[i].links, |labels[i].links|, x)
    ensures BindAll(buffer, labels, q)[x] == buffer[x]
  {
    hide BindAll, Free;
    if q > 0 {
      BindAllKeeps(buffer, labels, q - 1, x);
      BindKeeps(buffer, labels, q - 1, x);
    } else {
      BindNone(buffer, labels);
    }
  }

  lemma {:induction false} BindNone(buffer: seq<bv16>, labels: seq<Label>)
    requires AllInside(labels, |buffer|)
    ensures BindAll(buffer, labels, 0) == buffer
  {}

  lemma {:induction false} AddressLength(v: bv32)
    ensures |AddressHalves(v)| == 2
  {}

  /** A label's word stands at its place when it is bound. */
  lemma {:induction false} PoolAppended(buffer: seq<bv16>, labels: seq<Label>, i: nat)
    requires i < |labels| && AllInside(labels, |buffer|)
    ensures var pos := |buffer| + 2 * i; BindAll(buffer, labels, i + 1)[pos..pos + 2] == AddressHalves(labels[i].data)
  {
    hide AddressHalves, LinkAll;
    var b, links, word := BindAll(buffer, labels, i), labels[i].links, AddressHalves(labels[i].data);
    AddressLength(labels[i].data);
    assert BindAll(buffer, labels, i + 1) == LinkAll(b, links, |b|, |links|) + word;
    hide BindAll;
    EndsWith(LinkAll(b, links, |b|, |links|), word);
  }

  lemma {:induction false} EndsWith(a: seq<bv16>, b: seq<bv16>)
    ensures (a + b)[|a|..|a| + |b|] == b
  {}

  /** A bound label's word stands at its place, and later binds leave it there. */
  lemma {:induction false} PoolStands(buffer: seq<bv16>, labels: seq<Label>, q: nat, i: nat)
    requires i < q <= |labels| && AllInside(labels, |buffer|)
    ensures var pos := |buffer| + 2 * i; BindAll(buffer, labels, q)[pos..pos + 2] == AddressHalves(labels[i].data)
  {
    hide AddressHalves, BindAll;
    if i + 1 < q {
      PoolStands(buffer, labels, q - 1, i);
      var pos := |buffer| + 2 * i;
      BindKeeps(buffer, labels, q - 1, pos);
      BindKeeps(buffer, labels, q - 1, pos + 1);
      assert BindAll(buffer, labels, q)[pos..pos + 2] == BindAll(buffer, labels, q - 1)[pos..pos + 2];
    } else {
      PoolAppended(buffer, labels, i);
    }
  }

  /** A load is linked when its label is bound. */
  lemma {:induction false} LoadLinkedNow(buffer: seq<bv16>, labels: seq<Label>, i: nat, k: nat)
    requires i < |labels| && k < |labels[i].links| && AllInside(labels, |buffer|) && Apart(labels)
    ensures var code, l := BindAll(buffer, labels, i + 1), labels[i].links[k];
            && code[l] == LinkedFirst(buffer[l])
            && code[l + 1] == LinkedSecond(buffer[l + 1], LinkOffset(|buffer| + 2 * i, l))
  {
    hide AddressHalves, LinkedFirst, LinkedSecond, LinkOffset, LinkAll;
    var l, links := labels[i].links[k], labels[i].links;
    BindAllKeeps(buffer, labels, i, l);
    BindAllKeeps(buffer, labels, i, l + 1);
    LinkAllLinks(BindAll(buffer, labels, i), links, |links|, k);
  }

  /** Later binds leave it linked. */
  lemma {:induction false} LoadLinked(buffer: seq<bv16>, labels: seq<Label>, q: nat, i: nat, k: nat)
    requires i < q <= |labels| && k < |labels[i].links| && AllInside(labels, |buffer|) && Apart(labels)
    ensures var code, l := BindAll(buffer, labels, q), labels[i].links[k];
            && code[l] == LinkedFirst(buffer[l])
            && code[l + 1] == LinkedSecond(buffer[l + 1], LinkOffset(|buffer| + 2 * i, l))
  {
    hide BindAll, LinkedFirst, LinkedSecond, LinkOffset;
    var l := labels[i].links[k];
    if i + 1 < q {
      LoadLinked(buffer, labels, q - 1, i, k);
      BindKeeps(buffer, labels, q - 1, l);
      BindKeeps(buffer, labels, q - 1, l + 1);
    } else {
      LoadLinkedNow(buffer, labels, i, k);
    }
  }
}
