/**
 The LEB128 readers of the Mach-O symbol resolver, on a memory in which every read is checked.

 `result |= slice << bit` is written as an addition: `result` is below `1 << bit` at that point, so the two
 operands have no bit in common (`OrIsPlus`).
 */
module Leb128 {
  import opened Common
  import opened Bytes

  const TwoTo64: nat := 0x1_0000_0000_0000_0000

  /** A value read, and the position after it. */
  datatype Reading = Reading(value: int, next: nat)

  // ----- what an encoding denotes -----

  /** The position after the encoding at `p`, unless memory ends before it does. */
  function EndOf(mem: seq<Byte>, p: nat): (r: Option<nat>)
    ensures r.Some? ==> p < r.value <= |mem|
    decreases |mem| - p
  {
    if p >= |mem| then None else if mem[p] < 128 then Some(p + 1) else EndOf(mem, p + 1)
  }

  /** The groups at `p` as a number in base 128, least significant group first. */
  function Number(mem: seq<Byte>, p: nat): nat
    requires EndOf(mem, p).Some?
    decreases |mem| - p
  {
    mem[p] % 128 + if mem[p] < 128 then 0 else 128 * Number(mem, p + 1)
  }

  lemma {:induction false} OneByte(mem: seq<Byte>, p: nat)
    requires p < |mem| && mem[p] < 128
    ensures Unsigned(mem, p) == Some(Reading(mem[p], p + 1))
  {}

  function Pow128(k: nat): nat {
    if k == 0 then 1 else 128 * Pow128(k - 1)
  }

  /** An unsigned encoding: its number modulo 2^64, however many groups it has. */
  function Unsigned(mem: seq<Byte>, p: nat): (r: Option<Reading>)
    ensures r.Some? ==> 0 <= r.value.value < TwoTo64 && p < r.value.next <= |mem|
    ensures r.Some? <==> EndOf(mem, p).Some?
  {
    if EndOf(mem, p).None? then None else Some(Reading(Number(mem, p) % TwoTo64, EndOf(mem, p).value))
  }

  /** A signed encoding. Up to nine groups: its number, less 128^n if the last group's sign bit is set. A tenth group
      is shifted by 63, which the language defines for 0 and 1 only: the number as a 64-bit word read as signed. With
      any other tenth group, or an eleventh, a shift is undefined. */
  function Signed(mem: seq<Byte>, p: nat): Option<Reading> {
    if EndOf(mem, p).None? then None
    else
      var end, number := EndOf(mem, p).value, Number(mem, p);
      if end - p <= 9 then Some(Reading(number - if mem[end - 1] >= 64 then Pow128(end - p) else 0, end))
      else if end - p == 10 && mem[end - 1] <= 1 then
        Some(Reading(number - if mem[end - 1] == 1 then TwoTo64 else 0, end))
      else None
  }

  // ----- arithmetic -----

  lemma {:induction false} OrIsPlus(r: bv64, x: bv64)
    requires r & x == 0
    ensures r | x == r + x
  {}

  lemma {:induction false} SmallPowers()
    ensures Pow128(0) == 1 && Pow128(1) == 0x80 && Pow128(2) == 0x4000 && Pow128(3) == 0x20_0000
    ensures Pow128(4) == 0x1000_0000 && Pow128(5) == 0x8_0000_0000 && Pow128(6) == 0x400_0000_0000
    ensures Pow128(7) == 0x2_0000_0000_0000 && Pow128(8) == 0x100_0000_0000_0000
    ensures Pow128(9) == 0x8000_0000_0000_0000 && Pow128(10) == 64 * TwoTo64
  {}

  lemma {:induction false} HighPowers(j: nat)
    ensures Pow128(10 + j) == TwoTo64 * (64 * Pow128(j))
  {
    SmallPowers();
    if j > 0 { HighPowers(j - 1); }
  }

  lemma {:induction false} AddMultiple(x: int, m: int)
    ensures (x + TwoTo64 * m) % TwoTo64 == x % TwoTo64
  {}

  lemma {:induction false} Distribute(low: int, slice: int, power: int, rest: int)
    ensures low + power * (slice + 128 * rest) == low + slice * power + (128 * power) * rest
  {}

  /** `slice << bit` on 64 bits, for `bit == 7 * k`. */
  function Shifted(slice: nat, k: nat): nat {
    (slice * Pow128(k)) % TwoTo64
  }

  /** At shift 63 only the lowest bit of the group survives. */
  lemma {:induction false} NinthShift(low: nat, slice: nat)
    requires low < Pow128(9) && slice < 128
    ensures low + Shifted(slice, 9) == (low + slice * Pow128(9)) % TwoTo64
  {
    SmallPowers();
    var a, b := slice / 2, slice % 2;
    assert slice * Pow128(9) == b * 0x8000_0000_0000_0000 + TwoTo64 * a;
    AddMultiple(b * 0x8000_0000_0000_0000, a);
    AddMultiple(low + b * 0x8000_0000_0000_0000, a);
  }

  lemma {:induction false} EarlyShift(low: nat, slice: nat, k: nat)
    requires low < Pow128(k) && slice < 128 && k < 9
    ensures low + Shifted(slice, k) == (low + slice * Pow128(k)) % TwoTo64
  {
    NextPower(low, slice, k);
    PowersGrow(k + 1, 9);
    SmallPowers();
  }

  lemma {:induction false} LateShift(low: nat, slice: nat, k: nat)
    requires k > 9
    ensures (low + slice * Pow128(k)) % TwoTo64 == low % TwoTo64
  {
    HighPowers(k - 10);
    var m := slice * (64 * Pow128(k - 10));
    assert slice * Pow128(k) == TwoTo64 * m;
    AddMultiple(low, m);
  }

  lemma {:induction false} NextPower(low: nat, slice: nat, k: nat)
    requires low < Pow128(k) && slice < 128
    ensures low + slice * Pow128(k) < Pow128(k + 1)
    ensures slice * Pow128(k) >= 0
  {
    MulBelow(slice, Pow128(k));
  }

  lemma {:induction false} MulBelow(slice: nat, power: nat)
    requires slice < 128
    ensures 0 <= slice * power <= 127 * power
  {
    assert (127 - slice) * power >= 0;
  }

  lemma {:induction false} PowerStep(k: nat)
    ensures Pow128(k + 1) == 128 * Pow128(k)
  {}

  /** One turn of the unsigned loop: `low` is the number read so far, `k` groups long. */
  lemma {:induction false} Accumulates(low: nat, slice: nat, k: nat)
    requires low < Pow128(k) && slice < 128
    ensures 0 <= low + slice * Pow128(k) < Pow128(k + 1)
    ensures k <= 9 ==> low % TwoTo64 + Shifted(slice, k) == (low + slice * Pow128(k)) % TwoTo64
    ensures k > 9 ==> (low + slice * Pow128(k)) % TwoTo64 == low % TwoTo64
  {
    hide Pow128, Shifted;
    NextPower(low, slice, k);
    if k > 9 {
      LateShift(low, slice, k);
    } else {
      PowersGrow(k, 9);
      SmallPowers();
      if k == 9 { NinthShift(low, slice); } else { EarlyShift(low, slice, k); }
    }
  }

  lemma {:induction false} PowersGrow(i: nat, j: nat)
    requires i <= j
    ensures 1 <= Pow128(i) <= Pow128(j)
    decreases j - i
  {
    if i < j { PowersGrow(i + 1, j); } else { PowerPositive(i); }
  }

  lemma {:induction false} PowerPositive(i: nat)
    ensures 1 <= Pow128(i)
  {
    if i > 0 { PowerPositive(i - 1); }
  }

  /** One turn of either loop: the group at `p` moves from what is left to what has been read. */
  lemma {:induction false} ReadGroup(mem: seq<Byte>, p: nat, low: int, k: nat)
    requires EndOf(mem, p).Some?
    ensures var after := low + (mem[p] % 128) * Pow128(k);
            low + Pow128(k) * Number(mem, p) ==
              if mem[p] < 128 then after else after + Pow128(k + 1) * Number(mem, p + 1)
  {
    hide Pow128;
    PowerStep(k);
    if mem[p] >= 128 { Distribute(low, mem[p] % 128, Pow128(k), Number(mem, p + 1)); }
  }

  // ----- the readers -----

  method ReadUleb128(mem: seq<Byte>, start: nat) returns (r: Option<Reading>)
    ensures r == Unsigned(mem, start)
  {
    hide Pow128, Shifted, Number;
    SmallPowers();
    var p, result, bit := start, 0, 0;
    ghost var low: nat := 0;
    while true
      invariant start <= p && bit == 7 * if p - start <= 10 then p - start else 10
      invariant EndOf(mem, p) == EndOf(mem, start)
      invariant low < Pow128(p - start) && result == low % TwoTo64
      invariant EndOf(mem, p).Some? ==> Number(mem, start) == low + Pow128(p - start) * Number(mem, p)
      decreases |mem| - p
    {
      if p >= |mem| { return None; }
      var slice := mem[p] % 128;
      ghost var k := p - start;
      Accumulates(low, slice, k);
      if bit <= 63 {
        result := result + Shifted(slice, bit / 7);
        bit := bit + 7;
      }
      if EndOf(mem, p).Some? { ReadGroup(mem, p, low, k); }
      if mem[p] < 128 { return Some(Reading(result, p + 1)); }
      low := low + slice * Pow128(k);
      p := p + 1;
    }
  }

  /** `result |= ~0 << bit` on a 64-bit word read as signed subtracts `1 << bit`, and `1 << 63` is the least such word.
      The model stops where a shift is undefined. */
  method ReadSleb128(mem: seq<Byte>, start: nat) returns (r: Option<Reading>)
    ensures r == Signed(mem, start)
  {
    hide Pow128, Shifted, Unsigned, Number;
    SmallPowers();
    var p, result := start, 0;
    while true
      invariant start <= p <= start + 9
      invariant EndOf(mem, p) == EndOf(mem, start)
      invariant EndOf(mem, p).Some? ==> Number(mem, start) == result + Pow128(p - start) * Number(mem, p)
      decreases start + 9 - p
    {
      if p >= |mem| { return None; }
      var slice, k := mem[p] % 128, p - start;
      if k == 9 && mem[p] > 1 { return None; }
      if EndOf(mem, p).Some? { ReadGroup(mem, p, result, k); }
      result := if k == 9 && slice == 1 then result - Pow128(9) else result + slice * Pow128(k);
      p := p + 1;
      if mem[p - 1] < 128 {
        return Some(Reading(if mem[p - 1] >= 64 then result - Pow128(p - start) else result, p));
      }
    }
  }

  /** The loop with which the trie walk skips an encoding without reading it. */
  method SkipUleb(mem: seq<Byte>, start: nat) returns (next: Option<nat>)
    ensures next == EndOf(mem, start)
  {
    var p := start;
    while p < |mem| && mem[p] >= 128
      invariant start <= p && EndOf(mem, p) == EndOf(mem, start)
    {
      p := p + 1;
    }
    return if p < |mem| then Some(p + 1) else None;
  }

  // ----- round trips -----

  /** The canonical unsigned encoding (section 7.6 of DWARF version 4). */
  function EncodeUnsigned(v: nat): seq<Byte> {
    if v < 128 then [v] else [v % 128 + 128] + EncodeUnsigned(v / 128)
  }

  /** The canonical signed encoding.  Division rounds down, as an arithmetic shift does. */
  function EncodeSigned(v: int): (r: seq<Byte>)
    ensures |r| >= 1
    decreases if v < 0 then -v else v
  {
    if -64 <= v < 64 then [v % 128] else [v % 128 + 128] + EncodeSigned(v / 128)
  }

  /** `code` stands at `p`. */
  ghost predicate Stands(mem: seq<Byte>, p: nat, code: seq<Byte>) {
    p + |code| <= |mem| && mem[p..p + |code|] == code
  }

  lemma {:induction false} StandsAfter(mem: seq<Byte>, p: nat, code: seq<Byte>)
    requires Stands(mem, p, code) && |code| > 0
    ensures mem[p] == code[0] && Stands(mem, p + 1, code[1..])
  {
    assert mem[p..p + |code|][0] == code[0];
    assert mem[p + 1..p + |code|] == mem[p..p + |code|][1..];
  }

  lemma {:induction false} UnsignedNumber(mem: seq<Byte>, p: nat, v: nat)
    requires Stands(mem, p, EncodeUnsigned(v))
    ensures EndOf(mem, p) == Some(p + |EncodeUnsigned(v)|) && Number(mem, p) == v
    decreases v
  {
    StandsAfter(mem, p, EncodeUnsigned(v));
    if v >= 128 {
      assert EncodeUnsigned(v)[1..] == EncodeUnsigned(v / 128);
      UnsignedNumber(mem, p + 1, v / 128);
    }
  }

  /** Reading the encoding of a 64-bit value, wherever it stands, gives the value and the position after it. */
  lemma {:induction false} UnsignedRoundTrip(mem: seq<Byte>, p: nat, v: nat)
    requires v < TwoTo64 && Stands(mem, p, EncodeUnsigned(v))
    ensures Unsigned(mem, p) == Some(Reading(v, p + |EncodeUnsigned(v)|))
  {
    UnsignedNumber(mem, p, v);
  }

  lemma {:induction false} SignedNumber(mem: seq<Byte>, p: nat, v: int)
    requires Stands(mem, p, EncodeSigned(v))
    ensures var n := |EncodeSigned(v)|;
            && EndOf(mem, p) == Some(p + n)
            && Number(mem, p) - (if mem[p + n - 1] >= 64 then Pow128(n) else 0) == v
    decreases if v < 0 then -v else v
  {
    StandsAfter(mem, p, EncodeSigned(v));
    if -64 <= v < 64 {
      SmallPowers();
    } else {
      assert EncodeSigned(v)[1..] == EncodeSigned(v / 128);
      SignedNumber(mem, p + 1, v / 128);
      PowerStep(|EncodeSigned(v / 128)|);
    }
  }

  lemma {:induction false} SignedSize(v: int, n: nat)
    requires n >= 1
    ensures |EncodeSigned(v)| <= n <==> -64 * Pow128(n - 1) <= v < 64 * Pow128(n - 1)
    decreases n
  {
    if n == 1 {
    } else {
      PowerStep(n - 2);
      PowerPositive(n - 2);
      if !(-64 <= v < 64) { SignedSize(v / 128, n - 1); }
    }
  }

  /** The last group of an encoding is 0 exactly for the upper half of the positive values that need that many
      groups: the group is there for the sign bit alone. */
  lemma {:induction false} LastGroupZero(v: int, n: nat)
    requires n > 1 && |EncodeSigned(v)| == n
    ensures EncodeSigned(v)[n - 1] == 0 <==> 64 * Pow128(n - 2) <= v < 128 * Pow128(n - 2)
    decreases n
  {
    assert EncodeSigned(v)[1..] == EncodeSigned(v / 128);
    if n > 2 {
      PowerStep(n - 3);
      LastGroupZero(v / 128, n - 1);
    }
  }

  /** The signed reader gives back exactly the values of 63 bits and, because their tenth group is 0, the positive
      ones of 64: the rest of the negative ones need an undefined shift. */
  lemma {:induction false} SignedRoundTrip(mem: seq<Byte>, p: nat, v: int)
    requires Stands(mem, p, EncodeSigned(v))
    ensures Signed(mem, p) == Some(Reading(v, p + |EncodeSigned(v)|)) <==>
              -0x4000_0000_0000_0000 <= v < 0x8000_0000_0000_0000
  {
    var code := EncodeSigned(v);
    SignedNumber(mem, p, v);
    SmallPowers();
    SignedSize(v, 9);
    SignedSize(v, 10);
    assert mem[p..p + |code|][|code| - 1] == code[|code| - 1];
    hide Pow128, EncodeSigned, Number, EndOf;
    if |code| == 10 { LastGroupZero(v, 10); }
  }

  /** 2^62, the least of those with a tenth group. */
  lemma {:induction false} TenGroupsExample()
    ensures EncodeSigned(0x4000_0000_0000_0000) == [0x80, 0x80, 0x80, 0x80, 0x80, 0x80, 0x80, 0x80, 0xC0, 0]
  {}
}
