/**
 Big-endian bit sequences: the vocabulary in which the packed formats are stated.
 A number of a given width, and a buffer of octets, both denote a `seq<bool>`.
 */
module Bits {

  type Byte = b: int | 0 <= b < 256

  function Pow2(n: nat): (p: nat)
    ensures p >= 1
  {
    if n == 0 then 1 else 2 * Pow2(n - 1)
  }

  function Zeros(n: nat): (s: seq<bool>)
    ensures |s| == n
    ensures forall i :: 0 <= i < n ==> !s[i]
  {
    seq(n, i => false)
  }

  /** The number of octets that hold `n` bits (`ceil_frac(n, 8)` in the source). */
  function Octets(n: nat): nat {
    (n + 7) / 8
  }

  /** The least multiple of eight that is not below `n`. */
  function Up8(n: nat): (r: nat)
    ensures n <= r < n + 8 && r % 8 == 0
    ensures n % 8 == 0 ==> r == n
  {
    8 * Octets(n)
  }

  /** The `n` low bits of `v`, most significant first. */
  function NatBits(v: nat, n: nat): (s: seq<bool>)
    ensures |s| == n
  {
    if n == 0 then [] else NatBits(v / 2, n - 1) + [v % 2 == 1]
  }

  /** The number that `s` denotes, most significant bit first. */
  function BitsNat(s: seq<bool>): nat {
    if s == [] then 0 else 2 * BitsNat(s[..|s| - 1]) + if s[|s| - 1] then 1 else 0
  }

  function BytesBits(bs: seq<Byte>): (s: seq<bool>)
    ensures |s| == 8 * |bs|
  {
    seq(8 * |bs|, i requires 0 <= i < 8 * |bs| => NatBits(bs[i / 8], 8)[i % 8])
  }

  /** `v >> k`. */
  function ShiftRight(v: nat, k: nat): nat {
    if k == 0 then v else ShiftRight(v / 2, k - 1)
  }

  /** `v << k`, without any cut to a word size. */
  function ShiftLeft(v: nat, k: nat): nat {
    if k == 0 then v else 2 * ShiftLeft(v, k - 1)
  }

  /** `v & ((1 << k) - 1)`: the `k` low bits of `v` as a number. */
  function LowBits(v: nat, k: nat): nat {
    if k == 0 then 0 else 2 * LowBits(v / 2, k - 1) + v % 2
  }

  // ----- sizes -----

  lemma {:induction false} Pow2Mono(a: nat, b: nat)
    requires a <= b
    ensures Pow2(a) <= Pow2(b)
  {
    if a < b { Pow2Mono(a, b - 1); }
  }

  lemma Pow2Words()
    ensures Pow2(8) == 0x100 && Pow2(16) == 0x1_0000 && Pow2(24) == 0x100_0000 && Pow2(32) == 0x1_0000_0000
  {
    assert Pow2(8) == 0x100;
    assert Pow2(12) == 0x1000;
    assert Pow2(16) == 0x1_0000;
    assert Pow2(20) == 0x10_0000;
    assert Pow2(24) == 0x100_0000;
    assert Pow2(28) == 0x1000_0000;
  }

  lemma {:induction false} LowBitsBound(v: nat, k: nat)
    ensures LowBits(v, k) < Pow2(k)
  {
    if k > 0 { LowBitsBound(v / 2, k - 1); }
  }

  lemma {:induction false} LowBitsId(v: nat, k: nat)
    requires v < Pow2(k)
    ensures LowBits(v, k) == v
  {
    if k > 0 { LowBitsId(v / 2, k - 1); }
  }

  lemma {:induction false} LowBitsOfPow2(k: nat)
    ensures LowBits(Pow2(k), k) == 0
  {
    if k > 0 { LowBitsOfPow2(k - 1); }
  }

  lemma {:induction false} ShiftRightBound(v: nat, n: nat, k: nat)
    requires v < Pow2(n + k)
    ensures ShiftRight(v, k) < Pow2(n)
  {
    if k > 0 { ShiftRightBound(v / 2, n, k - 1); }
  }

  lemma {:induction false} ShiftLeftBound(v: nat, n: nat, k: nat)
    requires v < Pow2(n)
    ensures ShiftLeft(v, k) + Pow2(k) <= Pow2(n + k)
  {
    if k > 0 { ShiftLeftBound(v, n, k - 1); }
  }

  lemma {:induction false} ShiftLeftAdd(v: nat, x: nat, k: nat)
    ensures ShiftLeft(v + x, k) == ShiftLeft(v, k) + ShiftLeft(x, k)
  {
    if k > 0 { ShiftLeftAdd(v, x, k - 1); }
  }

  lemma Twice(v: nat, p: nat)
    ensures v * (2 * p) == 2 * (v * p)
  {
  }

  lemma {:induction false} ShiftLeftIsMul(v: nat, k: nat)
    ensures ShiftLeft(v, k) == v * Pow2(k)
  {
    if k > 0 {
      ShiftLeftIsMul(v, k - 1);
      Twice(v, Pow2(k - 1));
    }
  }

  lemma {:induction false} ShiftLeftTwice(v: nat, j: nat, k: nat)
    ensures ShiftLeft(ShiftLeft(v, j), k) == ShiftLeft(v, j + k)
  {
    if k > 0 { ShiftLeftTwice(v, j, k - 1); }
  }

  lemma Halves(y: nat, x: nat)
    ensures (2 * y + x) / 2 == y + x / 2 && (2 * y + x) % 2 == x % 2
    ensures (2 * y) / 2 == y && (2 * y) % 2 == 0 && 2 * (x / 2) + x % 2 == x
  {
  }

  lemma LowStep(y: nat, x: nat, w: nat)
    requires w > 0
    ensures LowBits(2 * y + x, w) == 2 * LowBits(y + x / 2, w - 1) + x % 2
    ensures LowBits(2 * y, w) == 2 * LowBits(y, w - 1)
  {
    Halves(y, x);
  }

  /** Adding a number below `2^k` to a multiple of `2^k` commutes with a cut to `w >= k` bits. */
  lemma {:induction false} LowBitsAdd(v: nat, x: nat, k: nat, w: nat)
    requires x < Pow2(k) && k <= w
    ensures LowBits(ShiftLeft(v, k) + x, w) == LowBits(ShiftLeft(v, k), w) + x
  {
    if k > 0 {
      LowBitsAdd(v, x / 2, k - 1, w - 1);
      LowStep(ShiftLeft(v, k - 1), x, w);
      hide LowBits;
    }
  }

  lemma {:induction false} ShiftParts(v: nat, k: nat)
    ensures ShiftLeft(ShiftRight(v, k), k) + LowBits(v, k) == v
  {
    if k > 0 { ShiftParts(v / 2, k - 1); }
  }

  // ----- logarithms -----

  /** `ceil(log2(x))`: the width of a field that distinguishes `x` values. */
  function CeilLog2(x: nat): nat {
    if x <= 1 then 0 else 1 + CeilLog2((x + 1) / 2)
  }

  /** `floor(log2(x)) + 1` for positive `x`. */
  function BitLength(x: nat): nat {
    if x == 0 then 0 else 1 + BitLength(x / 2)
  }

  lemma {:induction false} CeilLog2Bounds(x: nat)
    ensures x <= Pow2(CeilLog2(x))
    ensures x >= 2 ==> Pow2(CeilLog2(x) - 1) < x
  {
    if x >= 2 { CeilLog2Bounds((x + 1) / 2); }
  }

  /** `CeilLog2(x)` is the least width that holds `x` values. */
  lemma CeilLog2Least(x: nat, k: nat)
    ensures x <= Pow2(k) <==> CeilLog2(x) <= k
  {
    CeilLog2Bounds(x);
    if CeilLog2(x) <= k {
      Pow2Mono(CeilLog2(x), k);
    } else {
      Pow2Mono(k, CeilLog2(x) - 1);
    }
  }

  lemma {:induction false} BitLengthBounds(x: nat)
    ensures x < Pow2(BitLength(x))
    ensures x > 0 ==> Pow2(BitLength(x) - 1) <= x
  {
    if x > 0 { BitLengthBounds(x / 2); }
  }

  lemma BitLengthLeast(x: nat, k: nat)
    ensures x < Pow2(k) <==> BitLength(x) <= k
  {
    BitLengthBounds(x);
    if BitLength(x) <= k {
      Pow2Mono(BitLength(x), k);
    } else {
      Pow2Mono(k, BitLength(x) - 1);
    }
  }

  // ----- numbers and bits -----

  lemma {:induction false} BitsNatBound(s: seq<bool>)
    ensures BitsNat(s) < Pow2(|s|)
  {
    if s != [] { BitsNatBound(s[..|s| - 1]); }
  }

  lemma {:induction false} BitsNatOfNatBits(v: nat, n: nat)
    ensures BitsNat(NatBits(v, n)) == LowBits(v, n)
  {
    if n > 0 {
      BitsNatOfNatBits(v / 2, n - 1);
      var s := NatBits(v, n);
      assert s[..|s| - 1] == NatBits(v / 2, n - 1);
    }
  }

  lemma {:induction false} NatBitsOfBitsNat(s: seq<bool>)
    ensures NatBits(BitsNat(s), |s|) == s
  {
    if s != [] {
      NatBitsOfBitsNat(s[..|s| - 1]);
      assert s == s[..|s| - 1] + [s[|s| - 1]];
    }
  }

  lemma {:induction false} BitsNatConcat(s: seq<bool>, t: seq<bool>)
    ensures BitsNat(s + t) == ShiftLeft(BitsNat(s), |t|) + BitsNat(t)
  {
    if t == [] {
      assert s + t == s;
    } else {
      BitsNatConcat(s, t[..|t| - 1]);
      assert (s + t)[..|s + t| - 1] == s + t[..|t| - 1];
    }
  }

  /** The bits of a number are those of its high part followed by those of its low part. */
  lemma {:induction false} NatBitsSplit(v: nat, a: nat, b: nat)
    ensures NatBits(v, a + b) == NatBits(ShiftRight(v, b), a) + NatBits(v, b)
  {
    if b == 0 {
      assert NatBits(v, 0) == [];
    } else {
      NatBitsSplit(v / 2, a, b - 1);
      var hi, lo := NatBits(ShiftRight(v, b), a), NatBits(v / 2, b - 1);
      assert (hi + lo) + [v % 2 == 1] == hi + (lo + [v % 2 == 1]);
    }
  }

  /** Conversely, shifting left by `k` and adding a `k`-bit number joins their bits. */
  lemma {:induction false} NatBitsJoin(v: nat, n: nat, x: nat, k: nat)
    requires x < Pow2(k)
    ensures NatBits(ShiftLeft(v, k) + x, n + k) == NatBits(v, n) + NatBits(x, k)
  {
    if k == 0 {
      assert NatBits(x, 0) == [];
    } else {
      NatBitsJoin(v, n, x / 2, k - 1);
      var z := ShiftLeft(v, k) + x;
      assert z / 2 == ShiftLeft(v, k - 1) + x / 2 && z % 2 == x % 2;
      var hi, lo := NatBits(v, n), NatBits(x / 2, k - 1);
      assert (hi + lo) + [x % 2 == 1] == hi + (lo + [x % 2 == 1]);
    }
  }

  lemma {:induction false} NatBitsLow(v: nat, n: nat)
    ensures NatBits(LowBits(v, n), n) == NatBits(v, n)
  {
    if n > 0 { NatBitsLow(v / 2, n - 1); }
  }

  lemma {:induction false} NatBitsZero(n: nat)
    ensures NatBits(0, n) == Zeros(n)
  {
    if n > 0 { NatBitsZero(n - 1); }
  }

  lemma OneBit(f: bool)
    ensures NatBits(if f then 1 else 0, 1) == [f]
  {
  }

  lemma BitsNatZeros(n: nat)
    ensures BitsNat(Zeros(n)) == 0
  {
    NatBitsZero(n);
    BitsNatOfNatBits(0, n);
    LowBitsId(0, n);
  }

  // ----- octet buffers and bits -----

  lemma BytesBitsConcat(a: seq<Byte>, b: seq<Byte>)
    ensures BytesBits(a + b) == BytesBits(a) + BytesBits(b)
  {
    hide NatBits;
  }

  lemma BytesBitsOne(b: Byte)
    ensures BytesBits([b]) == NatBits(b, 8)
  {
    hide NatBits;
  }

  lemma BytesBitsPrefix(bs: seq<Byte>, n: nat)
    requires n <= |bs|
    ensures BytesBits(bs)[..8 * n] == BytesBits(bs[..n])
    ensures BytesBits(bs)[8 * n..] == BytesBits(bs[n..])
  {
    hide NatBits;
  }

  lemma OctetAt(bs: seq<Byte>, i: nat)
    requires i < |bs|
    ensures bs[i] == BitsNat(BytesBits(bs)[8 * i..8 * i + 8])
  {
    hide NatBits, BitsNat, LowBits;
    assert BytesBits(bs)[8 * i..8 * i + 8] == NatBits(bs[i], 8);
    BitsNatOfNatBits(bs[i], 8);
    assert Pow2(8) == 256;
    LowBitsId(bs[i], 8);
  }
}
