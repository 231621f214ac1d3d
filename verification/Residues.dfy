/** Counts as 32-bit machine words, without leaving bit-vector arithmetic. */
module Residues {

  /** The residue of `n` modulo 2^32. */
  function Residue(n: nat): bv32 {
    if n == 0 then 0 else Next(Residue(n - 1))
  }

  function Next(x: bv32): bv32 { x + 1 }

  /** A power of two below 2^19, as an integer and as a word. */
  ghost predicate SamePower(n: nat, w: bv32) {
    || (n == 0x1 && w == 0x1) || (n == 0x2 && w == 0x2) || (n == 0x4 && w == 0x4) || (n == 0x8 && w == 0x8)
    || (n == 0x10 && w == 0x10) || (n == 0x20 && w == 0x20) || (n == 0x40 && w == 0x40) || (n == 0x80 && w == 0x80)
    || (n == 0x100 && w == 0x100) || (n == 0x200 && w == 0x200) || (n == 0x400 && w == 0x400)
    || (n == 0x800 && w == 0x800) || (n == 0x1000 && w == 0x1000) || (n == 0x2000 && w == 0x2000)
    || (n == 0x4000 && w == 0x4000) || (n == 0x8000 && w == 0x8000) || (n == 0x10000 && w == 0x10000)
    || (n == 0x20000 && w == 0x20000) || (n == 0x40000 && w == 0x40000)
  }

  lemma {:induction false} ResidueDoubles(n: nat)
    ensures Residue(2 * n) == Residue(n) + Residue(n)
  {
    if n > 0 {
      ResidueDoubles(n - 1);
      assert 2 * n - 1 == 2 * (n - 1) + 1;
    }
  }

  lemma {:induction false} HalvePower(n: nat, w: bv32)
    requires SamePower(n, w) && n > 1
    ensures n == 2 * (n / 2) && SamePower(n / 2, w >> 1) && w == (w >> 1) + (w >> 1) && w <= 0x40000
  {}

  lemma {:induction false} TwiceBelow(x: bv32, y: bv32)
    requires x < y && y <= 0x20000
    ensures x + x < y + y && x + x + 1 < y + y
  {}

  lemma {:induction false} ResidueBelow(d: nat, n: nat, w: bv32)
    requires SamePower(n, w) && d < n
    ensures Residue(d) < w
  {
    if n > 1 {
      HalvePower(n, w);
      ResidueBelow(d / 2, n / 2, w >> 1);
      ResidueDoubles(d / 2);
      TwiceBelow(Residue(d / 2), w >> 1);
      assert d == 2 * (d / 2) || d == 2 * (d / 2) + 1;
    }
  }

  lemma {:induction false} ResidueSmall(d: nat)
    requires d < 0x40000
    ensures Residue(d) < 0x40000
  {
    ResidueBelow(d, 0x40000, 0x40000);
  }

  lemma {:induction false} PowerOne(w: bv32)
    ensures SamePower(1, w) ==> w == 1 && Residue(1) == 1
  {
    assert Residue(1) == Next(Residue(0));
  }

  lemma {:induction false} PowerPositive(n: nat, w: bv32)
    requires SamePower(n, w)
    ensures n >= 1
  {}

  lemma {:induction false} Double(x: bv32, w: bv32)
    requires x == w >> 1 && w == (w >> 1) + (w >> 1)
    ensures x + x == w
  {}

  lemma {:induction false} ResidueOfPower(n: nat, w: bv32)
    requires SamePower(n, w)
    ensures Residue(n) == w
  {
    hide SamePower, Residue;
    PowerPositive(n, w);
    if n == 1 {
      PowerOne(w);
    } else {
      HalvePower(n, w);
      ResidueOfPower(n / 2, w >> 1);
      ResidueDoubles(n / 2);
      Double(Residue(n / 2), w);
    }
  }

  lemma {:induction false} ResidueNext(n: nat)
    requires n > 0
    ensures Residue(n) == Next(Residue(n - 1))
  {
    hide Next;
  }

  predicate Leq(x: bv32, y: bv32) { x <= y }

  lemma {:induction false} LeqItself(x: bv32)
    ensures Leq(x, x)
  {}

  lemma {:induction false} NextIsMore(x: bv32, y: bv32)
    requires Leq(x, y) && y < 0x40000
    ensures Leq(x, Next(y))
  {}

  lemma {:induction false} ResidueGrows(m: nat, n: nat)
    requires m <= n < 0x40000
    ensures Leq(Residue(m), Residue(n))
    decreases n
  {
    hide Residue, Next, Leq;
    if m == n {
      LeqItself(Residue(m));
    } else {
      ResidueNext(n);
      ResidueGrows(m, n - 1);
      ResidueSmall(n - 1);
      NextIsMore(Residue(m), Residue(n - 1));
    }
  }
}
