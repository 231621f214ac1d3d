/** Bytes, and little-endian integers. */
module Bytes {
  type Byte = b: int | 0 <= b < 256

  function Power256(n: nat): (r: nat)
    ensures r >= 1
  {
    if n == 0 then 1 else 256 * Power256(n - 1)
  }

  function LittleEndian(x: nat, width: nat): (r: seq<Byte>)
    ensures |r| == width
  {
    if width == 0 then [] else [x % 256] + LittleEndian(x / 256, width - 1)
  }

  function FromLittleEndian(s: seq<Byte>): nat {
    if s == [] then 0 else s[0] + 256 * FromLittleEndian(s[1..])
  }

  /** Byte `k` is the digit of 256^k. */
  lemma {:induction false} LittleEndianDigit(x: nat, width: nat, k: nat)
    requires k < width
    ensures LittleEndian(x, width)[k] == (x / Power256(k)) % 256
  {
    if k > 0 {
      LittleEndianDigit(x / 256, width - 1, k - 1);
      DivideTwice(x, Power256(k - 1));
    }
  }

  lemma {:induction false} DivideTwice(x: nat, p: nat)
    requires p >= 1
    ensures (x / 256) / p == x / (256 * p)
  {
    var q, r := x / 256, x % 256;
    var a, b := q / p, q % p;
    assert x == 256 * (a * p + b) + r == (256 * p) * a + (256 * b + r);
    assert 0 <= 256 * b + r < 256 * p;
    Quotient(x, 256 * p, a, 256 * b + r);
  }

  lemma {:induction false} Quotient(x: nat, d: nat, q: nat, r: nat)
    requires x == d * q + r && r < d
    ensures x / d == q
  {
    var k, m := x / d, x % d;
    assert x == d * k + m;
    assert d * (q - k) == m - r;
    Scaled(d, q - k);
  }

  lemma {:induction false} Scaled(d: int, n: int)
    requires d >= 0
    ensures n >= 1 ==> d * n >= d
    ensures n <= -1 ==> d * n <= -d
  {
    if n >= 1 { assert d * n == d + d * (n - 1) && d * (n - 1) >= 0; }
    if n <= -1 { assert d * n == -d + d * (n + 1) && d * (n + 1) <= 0; }
  }

  lemma {:induction false} LittleEndianRoundTrip(x: nat, width: nat)
    requires x < Power256(width)
    ensures FromLittleEndian(LittleEndian(x, width)) == x
  {
    if width > 0 { LittleEndianRoundTrip(x / 256, width - 1); }
  }

  lemma {:induction false} FromLittleEndianBound(s: seq<Byte>)
    ensures FromLittleEndian(s) < Power256(|s|)
  {
    if s != [] { FromLittleEndianBound(s[1..]); }
  }
}
