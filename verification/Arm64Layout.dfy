/**
 Where each relocated instruction and each literal ends up in the finished code, and what a
 linked literal load reaches.
 */
module Arm64Layout {
  import opened Common
  import opened Residues
  import opened Arm64Machine
  import opened Arm64Relocator

  // ----- places and distances -----

  /** A word count as a byte offset. */
  function Bytes(count: bv32): bv64 { (count as bv64) << 2 }

  lemma {:induction false} NextOffset(x: bv32)
    requires x < 0x40000
    ensures Bytes(x + 1) == Plus(Bytes(x), 4)
  {}

  lemma {:induction false} BytesZero(a: bv64)
    ensures Plus(a, Bytes(0)) == a
  {}

  lemma {:induction false} PlusAssociates(a: bv64, b: bv64, c: bv64)
    ensures Plus(Plus(a, b), c) == Plus(a, Plus(b, c))
  {
    assert Plus(a, b) == a + b && Plus(b, c) == b + c;
    assert Plus(a + b, c) == Plus(a, b + c);
  }

  /** Place is affine in the word count. */
  lemma {:induction false} PlaceAhead(base: bv64, i: nat, d: nat)
    requires d < 0x40000
    ensures Place(base, i + d) == Plus(Place(base, i), Bytes(Residue(d)))
  {
    hide Plus, Bytes, SamePower;
    if d == 0 {
      BytesZero(Place(base, i));
    } else {
      PlaceAhead(base, i, d - 1);
      ResidueSmall(d - 1);
      NextOffset(Residue(d - 1));
      PlusAssociates(Place(base, i), Bytes(Residue(d - 1)), 4);
      assert i + d - 1 == i + (d - 1);
    }
  }

  lemma {:induction false} LinkedWordDecodes(x: bv32)
    requires x < 0x40000
    ensures Decode((LdrLabelWord(TMP_REG_0) & 0xFF00_001F) | ((x & 0x7FFFF) << 5)) ==
              LoadLiteral(1, false, TMP_REG_0, Bytes(x))
  {}

  /** A linked `Ldr` reads the word `distance` places ahead of itself. */
  lemma {:induction false} LinkReaches(base: bv64, i: nat, distance: nat)
    requires distance < 0x40000
    ensures var w := Decode(LinkWord(LdrLabelWord(TMP_REG_0), distance));
            w.LoadLiteral? && !w.simd && w.opc == 1 && w.rt == TMP_REG_0 &&
            Plus(Place(base, i), w.offset) == Place(base, i + distance)
  {
    hide Plus, Decode, Residue, Place, LdrLabelWord, Bytes, SamePower;
    ResidueSmall(distance);
    LinkedWordDecodes(Residue(distance));
    PlaceAhead(base, i, distance);
  }

  // ----- the body and the literals, instruction by instruction -----

  lemma {:induction false} BodyAt(block: seq<bv32>, org: bv64, k: nat, n: nat)
    requires k < n <= |block|
    ensures var words := Relocate(block[k], Place(org, k)).words;
            var at := |Body(block, org, k)|;
            && |Body(block, org, k + 1)| == at + |words| <= |Body(block, org, n)|
            && Body(block, org, n)[at..at + |words|] == words
  {
    hide Relocate, Plus, Place;
    if k + 1 < n { BodyAt(block, org, k, n - 1); }
  }

  lemma {:induction false} LiteralsStep(block: seq<bv32>, org: bv64, k: nat)
    requires k < |block|
    ensures Literals(block, org, k + 1) ==
              Literals(block, org, k) + Moved(|Body(block, org, k)|, Relocate(block[k], Place(org, k)).literal)
  {
    hide Relocate, Plus, Place, Body;
  }

  lemma {:induction false} BodyStep(block: seq<bv32>, org: bv64, k: nat)
    requires k < |block|
    ensures |Body(block, org, k)| <= |Body(block, org, k + 1)|
  {
    hide Relocate, Plus, Place;
  }

  lemma {:induction false} LiteralsGrow(block: seq<bv32>, org: bv64, k: nat, n: nat)
    requires k <= n <= |block|
    ensures Literals(block, org, k) <= Literals(block, org, n)
    ensures |Body(block, org, k)| <= |Body(block, org, n)|
    ensures forall q :: |Literals(block, org, k)| <= q < |Literals(block, org, n)| ==>
              |Body(block, org, k)| <= Literals(block, org, n)[q].link
  {
    hide Relocate, Plus, Place, Body, Literals;
    if k < n {
      LiteralsGrow(block, org, k, n - 1);
      LiteralsStep(block, org, n - 1);
      BodyStep(block, org, n - 1);
    }
  }

  ghost predicate Increasing(literals: seq<Literal>) {
    forall i, j :: 0 <= i < j < |literals| ==> literals[i].link < literals[j].link
  }

  lemma {:induction false} LiteralsIncrease(block: seq<bv32>, org: bv64, k: nat)
    requires k <= |block|
    ensures Increasing(Literals(block, org, k))
  {
    hide Relocate, Plus, Place;
    if k > 0 {
      LiteralsIncrease(block, org, k - 1);
      LiteralsInside(block, org, k - 1);
    }
  }

  // ----- what binding changes -----

  lemma {:induction false} BindKeeps(buffer: seq<bv32>, literals: seq<Literal>, q: nat, i: nat)
    requires q <= |literals| && Linkable(|buffer|, literals) && i < |buffer|
    requires forall r :: 0 <= r < q ==> literals[r].link != i
    ensures Bind(buffer, literals, q)[i] == buffer[i]
  {
    hide LinkWord, Low, High;
    if q > 0 { BindKeeps(buffer, literals, q - 1, i); }
  }

  lemma {:induction false} BindLinks(buffer: seq<bv32>, literals: seq<Literal>, q: nat, r: nat)
    requires r < q <= |literals| && Linkable(|buffer|, literals) && Increasing(literals)
    ensures var code, l, pool := Bind(buffer, literals, q), literals[r], |buffer| + 2 * r;
            && code[l.link] == LinkWord(buffer[l.link], pool - l.link)
            && code[pool] == Low(l.data) && code[pool + 1] == High(l.data)
  {
    hide LinkWord, Low, High;
    if r + 1 < q {
      BindLinks(buffer, literals, q - 1, r);
    } else {
      BindKeeps(buffer, literals, r, literals[r].link);
    }
  }

  // ----- the finished code -----

  /** Word `i` of the finished code is `words[j]`, or `words[j]` linked to a literal in the pool. */
  ghost predicate PieceIn(code: seq<bv32>, at: nat, piece: Piece) {
    && at + |piece.words| <= |code|
    && (forall j :: 0 <= j < |piece.words| && (piece.literal.Some? ==> j != piece.literal.value.link) ==>
          code[at + j] == piece.words[j])
    && (piece.literal.Some? ==>
          && piece.literal.value.link < |piece.words|
          && LinkedIn(code, at + piece.literal.value.link, piece.words[piece.literal.value.link],
                      piece.literal.value.data))
  }

  /** Word `i` of the code is `w` linked to a place in the code that holds `data`. */
  ghost predicate LinkedIn(code: seq<bv32>, i: nat, w: bv32, data: bv64) {
    exists distance: nat :: LinkedBy(code, i, w, data, distance)
  }

  ghost predicate LinkedBy(code: seq<bv32>, i: nat, w: bv32, data: bv64, distance: nat) {
    && i + distance + 1 < |code| && code[i] == LinkWord(w, distance)
    && code[i + distance] == Low(data) && code[i + distance + 1] == High(data)
  }

  /** A word that no literal links is not touched by the binding. */
  lemma {:induction false} WordStands(block: seq<bv32>, org: bv64, k: nat, j: nat)
    requires k < |block| && j < |Relocate(block[k], Place(org, k)).words|
    requires var l := Relocate(block[k], Place(org, k)).literal; l.Some? ==> j != l.value.link
    ensures var at := |Body(block, org, k)|;
            at + j < |Relocated(block, org)| &&
            Relocated(block, org)[at + j] == Relocate(block[k], Place(org, k)).words[j]
  {
    hide Relocate, Plus, Place, LinkWord, Low, High, JumpBack, Bind, Body, Literals;
    LiteralsStep(block, org, k);
    var n, at, words := |block|, |Body(block, org, k)|, Relocate(block[k], Place(org, k)).words;
    var literals := Literals(block, org, n);
    LiteralsInside(block, org, n);
    LiteralsInside(block, org, k);
    LiteralsGrow(block, org, k + 1, n);
    LiteralsGrow(block, org, k, n);
    BodyAt(block, org, k, n);
    assert Body(block, org, n)[at + j] == Body(block, org, n)[at..at + |words|][j];
    forall r | 0 <= r < |literals|
      ensures literals[r].link != at + j
    {
      if r < |Literals(block, org, k)| {
        assert literals[r] == Literals(block, org, k)[r];
      } else if r < |Literals(block, org, k + 1)| {
        assert literals[r] == Literals(block, org, k + 1)[r];
      }
    }
    BindKeeps(Unbound(block, org), literals, |literals|, at + j);
  }

  /** The `Ldr` of a piece is linked to a place that holds its literal. */
  lemma {:induction false} LiteralStands(block: seq<bv32>, org: bv64, k: nat)
    requires k < |block| && Relocate(block[k], Place(org, k)).literal.Some?
    ensures var piece, at := Relocate(block[k], Place(org, k)), |Body(block, org, k)|;
            var l := piece.literal.value;
            l.link < |piece.words| && LinkedIn(Relocated(block, org), at + l.link, piece.words[l.link], l.data)
  {
    hide Relocate, Plus, Place, LinkWord, Low, High, JumpBack, Bind, Body, Literals;
    LiteralsStep(block, org, k);
    var n, at, piece := |block|, |Body(block, org, k)|, Relocate(block[k], Place(org, k));
    var buffer, literals, l := Unbound(block, org), Literals(block, org, n), piece.literal.value;
    LiteralsInside(block, org, n);
    LiteralsIncrease(block, org, n);
    LiteralsGrow(block, org, k + 1, n);
    BodyAt(block, org, k, n);
    PieceShape(block[k], Place(org, k));
    var r := |Literals(block, org, k)|;
    assert literals[r] == Literals(block, org, k + 1)[r];
    assert Body(block, org, n)[at + l.link] == Body(block, org, n)[at..at + |piece.words|][l.link];
    BindLinks(buffer, literals, |literals|, r);
    assert LinkedBy(Relocated(block, org), at + l.link, piece.words[l.link], l.data, |buffer| + 2 * r - (at + l.link));
  }

  /** Every instruction's piece stands at its image, linked to its literal. */
  lemma {:induction false} PieceStands(block: seq<bv32>, org: bv64, k: nat)
    requires k < |block|
    ensures PieceIn(Relocated(block, org), |Body(block, org, k)|, Relocate(block[k], Place(org, k)))
    ensures |Body(block, org, k + 1)| == |Body(block, org, k)| + |Relocate(block[k], Place(org, k)).words|
  {
    hide Relocate, Plus, Place, Relocated, LinkedIn;
    var at, piece := |Body(block, org, k)|, Relocate(block[k], Place(org, k));
    PieceShape(block[k], Place(org, k));
    forall j | 0 <= j < |piece.words| && (piece.literal.Some? ==> j != piece.literal.value.link)
      ensures at + j < |Relocated(block, org)| && Relocated(block, org)[at + j] == piece.words[j]
    {
      WordStands(block, org, k, j);
    }
    RelocatedSize(block, org, k);
    if piece.literal.Some? { LiteralStands(block, org, k); }
  }

  lemma {:induction false} RelocatedSize(block: seq<bv32>, org: bv64, k: nat)
    requires k < |block|
    ensures |Body(block, org, k)| + |Relocate(block[k], Place(org, k)).words| <= |Relocated(block, org)|
  {
    hide Relocate, Plus, Place, LinkWord, Low, High, JumpBack;
    BodyAt(block, org, k, |block|);
    LiteralsInside(block, org, |block|);
  }

  lemma {:induction false} JumpBackWords(address: bv64)
    ensures |JumpBack(address)| == 4
    ensures JumpBack(address)[0] == LinkWord(LdrLabelWord(TMP_REG_0), 2) && JumpBack(address)[1] == BrWord(TMP_REG_0)
    ensures JumpBack(address)[2] == Low(address) && JumpBack(address)[3] == High(address)
  {
    hide LinkWord, LdrLabelWord, BrWord, Low, High;
  }

  /** The jump back stands after the last piece. */
  lemma {:induction false} JumpBackStands(block: seq<bv32>, org: bv64)
    ensures var code, at := Relocated(block, org), |Body(block, org, |block|)|;
            && at + 4 <= |code|
            && LinkedIn(code, at, LdrLabelWord(TMP_REG_0), Place(org, |block|))
            && code[at + 1] == BrWord(TMP_REG_0)
  {
    hide Relocated, Body, Place, LinkWord, Low, High, LdrLabelWord, BrWord, JumpBack;
    var code, at, address := Relocated(block, org), |Body(block, org, |block|)|, Place(org, |block|);
    JumpBackWords(address);
    JumpBackWordStands(block, org, 0);
    JumpBackWordStands(block, org, 1);
    JumpBackWordStands(block, org, 2);
    JumpBackWordStands(block, org, 3);
    assert LinkedBy(code, at, LdrLabelWord(TMP_REG_0), address, 2);
  }

  lemma {:induction false} JumpBackWordStands(block: seq<bv32>, org: bv64, j: nat)
    requires j < 4
    ensures |JumpBack(Place(org, |block|))| == 4 && |Body(block, org, |block|)| + 4 <= |Relocated(block, org)|
    ensures Relocated(block, org)[|Body(block, org, |block|)| + j] == JumpBack(Place(org, |block|))[j]
  {
    hide Relocate, Plus, Place, LinkWord, Low, High, LdrLabelWord, BrWord, JumpBack, Bind;
    var literals := Literals(block, org, |block|);
    LiteralsInside(block, org, |block|);
    JumpBackWords(Place(org, |block|));
    BindKeeps(Unbound(block, org), literals, |literals|, |Body(block, org, |block|)| + j);
  }
}
