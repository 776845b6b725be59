/**
 The PER number and length encodings of X.691: constrained whole numbers (10.5), normally
 small numbers (10.6), length determinants (10.9) and octet strings, in the aligned and the
 unaligned variant. Encoders emit bits that may depend on the phase of the start position;
 decoders are total functions of the buffer.
 */
module Per {
  import opened Bits
  import opened BitCursor
  import opened BitRefs
  import opened Fields

  const ASN_16K := 16384
  const ASN_64K := 65536

  /** Numbers up to here have the same logarithm rounded up, or down, in floats as exactly. */
  const EXACT_RANGE := 0x10_0000

  /** What an encoder emits, and whether it then reports success (room permitting). */
  datatype Emit = Emit(w: seq<bool>, ok: bool)

  // ----- constrained whole numbers -----

  /** Octets of the minimal encoding of `x` in the length-prefixed regime. */
  function MinOctets(x: nat): (n: nat)
    ensures n >= 1
  {
    Octets(BitLength(if x == 0 then 1 else x))
  }

  /** Width of the length prefix of that regime. */
  function PrefixWidth(ra: nat): nat {
    CeilLog2(Octets(CeilLog2(ra)))
  }

  function EncNumber(x: nat, ra: nat, aligned: bool, pos: nat): seq<bool>
    requires x < ra
  {
    var k := CeilLog2(ra);
    if ra == 1 then []
    else if !aligned || ra < 256 then NatBits(x, k)
    else if ra <= ASN_64K then Pad(pos) + (NatBits(0, Up8(k) - k) + NatBits(x, k))
    else NatBits(MinOctets(x) - 1, PrefixWidth(ra)) + Pad(pos + PrefixWidth(ra)) + NatBits(x, 8 * MinOctets(x))
  }

  function DecNumber(bits: seq<bool>, pos: nat, ra: nat, aligned: bool): (r: Rd<nat>)
    requires pos <= |bits| && |bits| % 8 == 0 && ra > 0
    ensures pos <= r.pos <= |bits|
  {
    var k := CeilLog2(ra);
    if ra == 1 then Rd(true, 0, pos)
    else if !aligned then
      var r := Read(bits, pos, k);
      Rd(r.ok && r.v < ra, r.v, r.pos)
    else if ra < 256 then Read(bits, pos, k)
    else if ra <= ASN_64K then
      var r := Read(bits, Aligned(bits, pos), Up8(k));
      Rd(r.ok, r.v, r.pos)
    else
      var l := Read(bits, pos, PrefixWidth(ra));
      if !l.ok then Rd(false, 0, l.pos) else Read(bits, Aligned(bits, l.pos), 8 * (l.v + 1))
  }

  lemma NumberFits(x: nat, ra: nat)
    requires x < ra && ra > ASN_64K
    ensures MinOctets(x) - 1 < Pow2(PrefixWidth(ra))
    ensures x < Pow2(8 * MinOctets(x))
  {
    hide Pow2, BitLength, CeilLog2;
    var y := if x == 0 then 1 else x;
    CeilLog2Bounds(ra);
    BitLengthLeast(y, CeilLog2(ra));
    CeilLog2Bounds(Octets(CeilLog2(ra)));
    BitLengthLeast(y, 8 * MinOctets(x));
  }

  /**
   Section 10.5 of X.691: in the unaligned form and in all three regimes of the aligned form
   the decoder returns the number encoded and stops where the encoding ends.
   */
  lemma NumberRoundTrip(bits: seq<bool>, pos: nat, x: nat, ra: nat, aligned: bool)
    requires |bits| % 8 == 0 && x < ra <= EXACT_RANGE
    requires At(bits, pos, EncNumber(x, ra, aligned, pos))
    ensures DecNumber(bits, pos, ra, aligned) == Rd(true, x, pos + |EncNumber(x, ra, aligned, pos)|)
  {
    hide Pow2, CeilLog2, EncNumber, DecNumber;
    CeilLog2Bounds(ra);
    if ra == 1 || !aligned || ra < 256 {
      DirectRoundTrip(bits, pos, x, ra, aligned);
    } else if ra <= ASN_64K {
      WholeRoundTrip(bits, pos, x, ra);
    } else {
      PrefixedRoundTrip(bits, pos, x, ra);
    }
  }

  /**
   Beyond that range: whatever width both sides take for an unaligned number, it comes back if and
   only if it fits that width.
   */
  lemma WidthDecides(bits: seq<bool>, pos: nat, x: nat, k: nat)
    requires At(bits, pos, NatBits(x, k))
    ensures Read(bits, pos, k) == Rd(true, x, pos + k) <==> x < Pow2(k)
  {
    hide NatBits, Read, LowBits, Pow2;
    ReadAt(bits, pos, NatBits(x, k));
    BitsNatOfNatBits(x, k);
    LowBitsBound(x, k);
    if x < Pow2(k) { LowBitsId(x, k); }
  }

  /**
   The number 2^24 in the range from 0 to 2^24: the float of the 2^24 + 1 values is 2^24, so both
   sides take 24 bits, and the number is read as zero.
   */
  lemma WideRangeLost(bits: seq<bool>, pos: nat)
    requires At(bits, pos, NatBits(0x100_0000, 24))
    ensures Read(bits, pos, 24) == Rd(true, 0, pos + 24)
  {
    hide NatBits, Read, LowBits, Pow2;
    Pow2Words();
    ReadAt(bits, pos, NatBits(0x100_0000, 24));
    BitsNatOfNatBits(0x100_0000, 24);
    LowBitsOfPow2(24);
  }

  /** No bits, or a bit field of the least width. */
  lemma DirectRoundTrip(bits: seq<bool>, pos: nat, x: nat, ra: nat, aligned: bool)
    requires |bits| % 8 == 0 && x < ra <= Pow2(CeilLog2(ra)) && (ra == 1 || !aligned || ra < 256)
    requires At(bits, pos, EncNumber(x, ra, aligned, pos))
    ensures DecNumber(bits, pos, ra, aligned) == Rd(true, x, pos + |EncNumber(x, ra, aligned, pos)|)
  {
    hide Pow2, CeilLog2, NatBits, Read;
    if ra > 1 { ReadNat(bits, pos, x, CeilLog2(ra)); }
  }

  lemma WholeRoundTrip(bits: seq<bool>, pos: nat, x: nat, ra: nat)
    requires |bits| % 8 == 0 && x < ra <= Pow2(CeilLog2(ra)) && 256 <= ra <= ASN_64K
    requires At(bits, pos, EncNumber(x, ra, true, pos))
    ensures DecNumber(bits, pos, ra, true) == Rd(true, x, pos + |EncNumber(x, ra, true, pos)|)
  {
    hide Pow2, CeilLog2, NatBits, Read, Pad, Up8, Octets;
    MiddleRoundTrip(bits, pos, x, CeilLog2(ra));
  }

  lemma MiddleRoundTrip(bits: seq<bool>, pos: nat, x: nat, k: nat)
    requires |bits| % 8 == 0 && x < Pow2(k)
    requires At(bits, pos, Pad(pos) + (NatBits(0, Up8(k) - k) + NatBits(x, k)))
    ensures Read(bits, Up8(pos), Up8(k)) == Rd(true, x, Up8(pos) + Up8(k))
  {
    hide Pow2, NatBits, Read;
    var gap, body := NatBits(0, Up8(k) - k), NatBits(x, k);
    AtSplit(bits, pos, Pad(pos), gap + body);
    BitsZeroExtend(x, k, Up8(k) - k);
    Pow2Mono(k, Up8(k));
    ReadNat(bits, Up8(pos), x, Up8(k));
  }

  lemma BitsZeroExtend(x: nat, k: nat, gap: nat)
    requires x < Pow2(k)
    ensures NatBits(0, gap) + NatBits(x, k) == NatBits(x, gap + k)
  {
    NatBitsJoin(0, gap, x, k);
    ShiftLeftZero(k);
  }

  lemma PrefixedRoundTrip(bits: seq<bool>, pos: nat, x: nat, ra: nat)
    requires |bits| % 8 == 0 && x < ra && ra > ASN_64K
    requires At(bits, pos, EncNumber(x, ra, true, pos))
    ensures DecNumber(bits, pos, ra, true) == Rd(true, x, pos + |EncNumber(x, ra, true, pos)|)
  {
    hide Pow2, CeilLog2, NatBits, Read, BitLength, MinOctets, PrefixWidth, Pad, Up8, Octets, EncNumber, DecNumber;
    NumberFits(x, ra);
    var p, m := PrefixWidth(ra), MinOctets(x);
    var prefix, gap, body := NatBits(m - 1, p), Pad(pos + p), NatBits(x, 8 * m);
    PrefixedParts(x, ra, pos);
    AtSplit(bits, pos, prefix, gap + body);
    AtSplit(bits, pos + p, gap, body);
    ReadNat(bits, pos, m - 1, p);
    ReadNat(bits, Up8(pos + p), x, 8 * m);
    PrefixedRead(bits, pos, ra, m);
  }

  lemma PrefixedParts(x: nat, ra: nat, pos: nat)
    requires x < ra && ra > ASN_64K
    ensures var p, m := PrefixWidth(ra), MinOctets(x);
      EncNumber(x, ra, true, pos) == NatBits(m - 1, p) + (Pad(pos + p) + NatBits(x, 8 * m))
  {
    hide NatBits, MinOctets, PrefixWidth, CeilLog2, Pad;
    var p, m := PrefixWidth(ra), MinOctets(x);
    Reassociate(NatBits(m - 1, p), Pad(pos + p), NatBits(x, 8 * m));
  }

  /** The decoder of the length-prefixed regime, its prefix read. */
  lemma PrefixedRead(bits: seq<bool>, pos: nat, ra: nat, m: nat)
    requires |bits| % 8 == 0 && ra > ASN_64K && m > 0 && pos + PrefixWidth(ra) <= |bits|
    requires var p := PrefixWidth(ra); Read(bits, pos, p) == Rd(true, m - 1, pos + p)
    ensures Up8(pos + PrefixWidth(ra)) <= |bits|
    ensures DecNumber(bits, pos, ra, true) == Read(bits, Up8(pos + PrefixWidth(ra)), 8 * m)
  {
    hide Read, PrefixWidth, CeilLog2;
  }


  method PackConstrainedWholeNumber(b: BitRef, n: int, lb: int, ub: int, aligned: bool) returns (ok: bool)
    requires b.Valid() && ub - lb < EXACT_RANGE
    modifies b`ptr, b`offset, b.buf
    ensures b.Valid()
    ensures !(lb <= n <= ub) ==> !ok && b.C() == old(b.C())
    ensures lb <= n <= ub ==>
      var w := EncNumber(n - lb, ub - lb + 1, aligned, old(b.C().pos));
      b.C() == Put(old(b.C()), w) && ok == (!aligned || |w| <= old(b.C().Room()))
  {
    hide BitRef.C, Put, NatBits, CeilLog2, BitLength, Pow2, Up8, Octets, Pad, PrefixWidth, MinOctets, Cut;
    if ub < lb || n < lb || n > ub {
      return false;
    }
    var ra := ub - lb + 1;
    if ra == 1 {
      PutNothing(b.C());
      return true;
    }
    var nBits := CeilLog2(ra);
    CeilLog2Below(ra, 32);
    var toEncode := n - lb;
    if !aligned {
      var _ := b.Pack(toEncode, nBits);   // the return code is dropped
      return true;
    } else if ra < 256 {
      ok := b.Pack(toEncode, nBits);
    } else if ra <= ASN_64K {
      ok := PackMiddle(b, toEncode, nBits);
    } else {
      MinOctetsBelow(toEncode, 4);
      ok := PackPrefixed(b, MinOctets(toEncode), toEncode, PrefixWidth(ra));
    }
  }

  lemma CeilLog2Below(ra: nat, k: nat)
    requires ra <= UINT32_RANGE && k == 32
    ensures CeilLog2(ra) <= k && PrefixWidth(ra) <= 2
  {
    Pow2Words();
    assert Pow2(2) == 4;
    CeilLog2Least(ra, 32);
    CeilLog2Least(Octets(CeilLog2(ra)), 2);
  }

  lemma MinOctetsBelow(x: nat, m: nat)
    requires x < UINT32_RANGE && m == 4
    ensures MinOctets(x) <= m
  {
    Pow2Words();
    BitLengthLeast(if x == 0 then 1 else x, 32);
  }

  /** One or two whole octets on an octet boundary. */
  method PackMiddle(b: BitRef, x: nat, nBits: nat) returns (ok: bool)
    requires b.Valid() && x < UINT64_RANGE && nBits < 64
    modifies b`ptr, b`offset, b.buf
    ensures b.Valid()
    ensures var w := Pad(old(b.C().pos)) + (NatBits(0, Up8(nBits) - nBits) + NatBits(x, nBits));
      b.C() == Put(old(b.C()), w) && ok == (|w| <= old(b.C().Room()))
  {
    hide BitRef.C, Put, NatBits, Up8, Pad, FieldBits;
    ghost var c := b.C();
    var gap, body := Field(0, Up8(nBits) - nBits), Field(x, nBits);
    FieldBits2(gap, body);
    PutPut(c, Pad(c.pos), FieldBits([gap, body]));
    ok := b.AlignBytesZero();
    ok := PackFields(b, [gap, body]);
    if ok {
      Up8Sum(c.pos, nBits);
      assert b.C().pos == Up8(c.pos) + Up8(nBits);
      PutNoPad(b.C());
      ok := b.AlignBytesZero();
    }
  }

  lemma Up8Sum(a: nat, b: nat)
    ensures (Up8(a) + Up8(b)) % 8 == 0
  {
    hide Up8;
    MultiplesAdd(Up8(a), Up8(b));
  }

  /** A length prefix, then the minimal number of octets on an octet boundary. */
  method PackPrefixed(b: BitRef, m: nat, x: nat, prefixWidth: nat) returns (ok: bool)
    requires b.Valid() && 1 <= m <= 7 && x < UINT64_RANGE && prefixWidth < 64
    modifies b`ptr, b`offset, b.buf
    ensures b.Valid()
    ensures var p := old(b.C().pos);
      var w := NatBits(m - 1, prefixWidth) + Pad(p + prefixWidth) + NatBits(x, 8 * m);
      b.C() == Put(old(b.C()), w) && ok == (|w| <= old(b.C().Room()))
  {
    hide BitRef.C, Put, NatBits, Up8, Pad;
    ghost var c := b.C();
    ghost var prefix, gap, body := NatBits(m - 1, prefixWidth), Pad(c.pos + prefixWidth), NatBits(x, 8 * m);
    PutPut(c, prefix, gap);
    PutPut(c, prefix + gap, body);
    ok := b.Pack(m - 1, prefixWidth);
    if !ok {
      PutStop(c, prefix, gap);
      PutStop(c, prefix + gap, body);
      return;
    }
    ok := b.AlignBytesZero();
    ok := b.Pack(x, 8 * m);
  }

  method UnpackConstrainedWholeNumber(b: BitRef, lb: int, ub: int, aligned: bool) returns (ok: bool, n: int)
    requires b.Valid() && ub - lb < EXACT_RANGE
    modifies b`ptr, b`offset
    ensures b.Valid() && b.C().bits == old(b.C().bits)
    ensures ub < lb ==> !ok && b.C() == old(b.C())
    ensures lb <= ub ==>
      var r := DecNumber(old(b.C().bits), old(b.C().pos), ub - lb + 1, aligned);
      ok == r.ok && b.C().pos == r.pos && (ok ==> n == lb + r.v)
  {
    hide BitRef.C, CeilLog2, Read, Pow2, Up8, Octets;
    if ub < lb {
      return false, 0;
    }
    var ra := ub - lb + 1;
    if ra == 1 {
      return true, lb;
    }
    var nBits := CeilLog2(ra);
    CeilLog2Below(ra, 32);
    if !aligned || ra < 256 {
      ok, n := b.Unpack(32, 0, nBits);
      n := n + lb;
      ok := ok && (aligned || n <= ub);
    } else if ra <= ASN_64K {
      ok, n := UnpackMiddle(b, Up8(nBits));
      n := n + lb;
    } else {
      ok, n := UnpackPrefixed(b, PrefixWidth(ra));
      n := n + lb;
    }
  }

  lemma MultiplesAdd(a: nat, b: nat)
    requires a % 8 == 0 && b % 8 == 0
    ensures (a + b) % 8 == 0
  {
  }

  method UnpackMiddle(b: BitRef, nBits: nat) returns (ok: bool, n: nat)
    requires b.Valid() && nBits <= 32 && nBits % 8 == 0
    modifies b`ptr, b`offset
    ensures b.Valid() && b.C().bits == old(b.C().bits)
    ensures Rd(ok, n, b.C().pos) == Read(old(b.C().bits), Aligned(old(b.C().bits), old(b.C().pos)), nBits)
  {
    hide BitRef.C, Read, Up8, Octets, BitsNat;
    ok := b.AlignBytes();
    ghost var p := b.C().pos;
    ok, n := b.Unpack(32, 0, nBits);
    if ok {
      assert b.C().pos == p + nBits;
      MultiplesAdd(p, nBits);
      ok := b.AlignBytes();
    }
  }

  method UnpackPrefixed(b: BitRef, p: nat) returns (ok: bool, n: nat)
    requires b.Valid() && p <= 2
    modifies b`ptr, b`offset
    ensures b.Valid() && b.C().bits == old(b.C().bits)
    ensures var l := Read(old(b.C().bits), old(b.C().pos), p);
      Rd(ok, n, b.C().pos) == if !l.ok then Rd(false, 0, l.pos)
        else Read(old(b.C().bits), Aligned(old(b.C().bits), l.pos), 8 * (l.v + 1))
  {
    hide BitRef.C, Read, Up8, Aligned;
    PrefixBound(b.C().bits, b.C().pos, p);
    var m;
    ok, m := b.Unpack(32, 0, p);
    if !ok {
      return false, 0;
    }
    ok := b.AlignBytes();
    ok, n := b.Unpack(32, 0, 8 * (m + 1));
  }

  lemma PrefixBound(bits: seq<bool>, pos: nat, p: nat)
    requires pos <= |bits| && p <= 2
    ensures Read(bits, pos, p).v <= 3
  {
    ReadBound(bits, pos, p);
    assert Pow2(2) == 4;
    Pow2Mono(p, 2);
  }

  // ----- normally small non-negative whole numbers -----

  function EncSmall(n: nat): Emit {
    if n <= 63 then Emit(NatBits(n, 7), true) else Emit(NatBits(1, 1), false)
  }

  /** On failure the value is what the code leaves in a variable that held zero. */
  function DecSmall(bits: seq<bool>, pos: nat): (r: Rd<nat>)
    requires pos <= |bits|
    ensures pos <= r.pos <= |bits|
  {
    var e := Read(bits, pos, 1);
    if !e.ok || e.v != 0 then Rd(false, 0, e.pos) else Read(bits, e.pos, 6)
  }

  /** Section 10.6: exactly the numbers up to 63 are encoded, and they are decoded. */
  lemma SmallRoundTrip(bits: seq<bool>, pos: nat, n: nat)
    requires At(bits, pos, EncSmall(n).w)
    ensures DecSmall(bits, pos).ok <==> n <= 63
    ensures EncSmall(n).ok <==> n <= 63
    ensures n <= 63 ==> DecSmall(bits, pos) == Rd(true, n, pos + |EncSmall(n).w|)
  {
    hide Read;
    if n <= 63 {
      assert Pow2(6) == 64 && Pow2(1) == 2;
      FlaggedBits(n, 6);
      AtSplit(bits, pos, NatBits(0, 1), NatBits(n, 6));
      ReadNat(bits, pos, 0, 1);
      ReadNat(bits, pos + 1, n, 6);
    } else {
      assert Pow2(1) == 2;
      ReadNat(bits, pos, 1, 1);
    }
  }

  /** A number below `2^k`, written in one bit more, starts with a zero bit. */
  lemma FlaggedBits(n: nat, k: nat)
    requires n < Pow2(k)
    ensures NatBits(n, k + 1) == NatBits(0, 1) + NatBits(n, k)
  {
    hide NatBits;
    BitsZeroExtend(n, k, 1);
  }

  method PackNormSmall(b: BitRef, n: nat) returns (ok: bool)
    requires b.Valid() && n < UINT64_RANGE
    modifies b`ptr, b`offset, b.buf
    ensures b.Valid()
    ensures var e := EncSmall(n);
      b.C() == Put(old(b.C()), e.w) && ok == (e.ok && |e.w| <= old(b.C().Room()))
  {
    if n <= 63 {
      ok := b.Pack(n, 7);
    } else {
      ok := b.Pack(1, 1);
      return false;
    }
  }

  method UnpackNormSmall(b: BitRef) returns (ok: bool, n: nat)
    requires b.Valid()
    modifies b`ptr, b`offset
    ensures b.Valid() && b.C().bits == old(b.C().bits)
    ensures Rd(ok, n, b.C().pos) == DecSmall(old(b.C().bits), old(b.C().pos))
  {
    hide Read, BytesBits;
    var ext;
    ok, ext := b.Unpack(8, 0, 1);
    if !ok || ext != 0 {
      return false, 0;
    }
    ok, n := b.Unpack(32, 0, 6);
  }

  // ----- length determinants -----

  function EncLength(n: nat, aligned: bool, pos: nat): Emit {
    var pad := if aligned then Pad(pos) else [];
    if (aligned && n > ASN_64K) || (!aligned && n >= ASN_16K) then Emit([], false)
    else if n < 128 then Emit(pad + NatBits(n, 8), true)
    else if n < ASN_16K then Emit(pad + (NatBits(2, 2) + NatBits(n, 14)), true)
    else Emit(pad + (NatBits(3, 2) + NatBits(n / ASN_16K, 6) + NatBits(n % ASN_16K, 16)), true)
  }

  /** Total: on failure the value is what the code leaves in a variable that held zero. */
  function DecLength(bits: seq<bool>, pos: nat, aligned: bool): (r: Rd<nat>)
    requires pos <= |bits| && |bits| % 8 == 0
    ensures pos <= r.pos <= |bits|
  {
    if !aligned then
      var e := Read(bits, pos, 1);
      if !e.ok then Rd(false, 0, e.pos)
      else if e.v == 0 then Read(bits, e.pos, 7)
      else
        var f := Read(bits, e.pos, 1);
        if !f.ok || f.v != 0 then Rd(false, 0, f.pos) else Read(bits, f.pos, 14)
    else
      var o := Read(bits, Aligned(bits, pos), 8);
      if !o.ok || o.v < 128 then o
      else if o.v - 128 >= 64 then Rd(false, o.v - 128, o.pos)
      else
        var l := Read(bits, o.pos, 8);
        if l.ok then Rd(true, 256 * (o.v - 128) + l.v, l.pos) else Rd(false, o.v - 128, l.pos)
  }

  /**
   Section 10.9: what the encoder accepts is decoded again if and only if it is below 16384.
   In the aligned variant the encoder also accepts lengths from 16384 to 65536, which the
   decoder always rejects.
   */
  lemma LengthRoundTrip(bits: seq<bool>, pos: nat, n: nat, aligned: bool)
    requires |bits| % 8 == 0
    requires var e := EncLength(n, aligned, pos); e.ok && At(bits, pos, e.w)
    ensures DecLength(bits, pos, aligned).ok <==> n < ASN_16K
    ensures n < ASN_16K ==> DecLength(bits, pos, aligned) == Rd(true, n, pos + |EncLength(n, aligned, pos).w|)
  {
    hide NatBits, Read, Pow2, Up8;
    var body := LengthBody(n);
    if aligned {
      AtSplit(bits, pos, Pad(pos), body);
      if n < 128 {
        LengthShortAligned(bits, Up8(pos), n);
      } else if n < ASN_16K {
        LengthMediumAligned(bits, Up8(pos), n);
      } else {
        LengthLongAligned(bits, Up8(pos), n);
      }
    } else if n < 128 {
      LengthShort(bits, pos, n);
    } else {
      LengthMedium(bits, pos, n);
    }
  }

  /** The first length that the aligned encoder accepts and the decoder rejects. */
  lemma LongLengthLost(bits: seq<bool>, pos: nat)
    requires |bits| % 8 == 0
    ensures EncLength(ASN_16K, true, pos).ok
    ensures At(bits, pos, EncLength(ASN_16K, true, pos).w) ==> !DecLength(bits, pos, true).ok
  {
    hide DecLength, NatBits;
    if At(bits, pos, EncLength(ASN_16K, true, pos).w) {
      LengthRoundTrip(bits, pos, ASN_16K, true);
    }
  }

  function LengthBody(n: nat): seq<bool> {
    if n < 128 then NatBits(n, 8)
    else if n < ASN_16K then NatBits(2, 2) + NatBits(n, 14)
    else NatBits(3, 2) + NatBits(n / ASN_16K, 6) + NatBits(n % ASN_16K, 16)
  }

  lemma LengthShort(bits: seq<bool>, pos: nat, n: nat)
    requires n < 128 && At(bits, pos, NatBits(n, 8))
    ensures Read(bits, pos, 1) == Rd(true, 0, pos + 1)
    ensures Read(bits, pos + 1, 7) == Rd(true, n, pos + 8)
  {
    assert Pow2(7) == 128 && Pow2(1) == 2;
    hide NatBits, Read;
    FlaggedBits(n, 7);
    AtSplit(bits, pos, NatBits(0, 1), NatBits(n, 7));
    ReadNat(bits, pos, 0, 1);
    ReadNat(bits, pos + 1, n, 7);
  }

  lemma MediumHead()
    ensures Pow2(14) == ASN_16K && Pow2(1) == 2
    ensures NatBits(2, 2) == NatBits(1, 1) + NatBits(0, 1)
  {
    assert Pow2(8) == 256;
  }

  lemma LengthMedium(bits: seq<bool>, pos: nat, n: nat)
    requires n < ASN_16K && At(bits, pos, NatBits(2, 2) + NatBits(n, 14))
    ensures Read(bits, pos, 1) == Rd(true, 1, pos + 1)
    ensures Read(bits, pos + 1, 1) == Rd(true, 0, pos + 2)
    ensures Read(bits, pos + 2, 14) == Rd(true, n, pos + 16)
  {
    hide NatBits, Read, Pow2;
    MediumHead();
    AtSplit(bits, pos, NatBits(2, 2), NatBits(n, 14));
    AtSplit(bits, pos, NatBits(1, 1), NatBits(0, 1));
    ReadNat(bits, pos, 1, 1);
    ReadNat(bits, pos + 1, 0, 1);
    ReadNat(bits, pos + 2, n, 14);
  }

  lemma LengthShortAligned(bits: seq<bool>, pos: nat, n: nat)
    requires n < 128 && At(bits, pos, NatBits(n, 8))
    ensures Read(bits, pos, 8) == Rd(true, n, pos + 8)
  {
    assert Pow2(8) == 256;
    ReadNat(bits, pos, n, 8);
  }

  /** The two flag bits and the six high bits share the first octet. */
  lemma LengthMediumAligned(bits: seq<bool>, pos: nat, n: nat)
    requires n < ASN_16K && At(bits, pos, NatBits(2, 2) + NatBits(n, 14))
    ensures var o, l := Read(bits, pos, 8), Read(bits, pos + 8, 8);
      128 <= o.v < 192 && o == Rd(true, o.v, pos + 8) && l == Rd(true, l.v, pos + 16)
      && 256 * (o.v - 128) + l.v == n
  {
    hide NatBits, Read, Pow2;
    var hi, lo := MediumOctets(n);
    Pow2Words();
    AtSplit(bits, pos, NatBits(128 + hi, 8), NatBits(lo, 8));
    ReadNat(bits, pos, 128 + hi, 8);
    ReadNat(bits, pos + 8, lo, 8);
  }

  lemma Reassociate(a: seq<bool>, b: seq<bool>, c: seq<bool>)
    ensures a + (b + c) == a + b + c
  {
  }

  lemma MediumOctets(n: nat) returns (hi: nat, lo: nat)
    requires n < ASN_16K
    ensures hi < 64 && lo < 256 && 256 * hi + lo == n
    ensures NatBits(2, 2) + NatBits(n, 14) == NatBits(128 + hi, 8) + NatBits(lo, 8)
  {
    hi, lo := ShiftRight(n, 8), LowBits(n, 8);
    assert Pow2(14) == ASN_16K && Pow2(8) == 256 && Pow2(6) == 64;
    assert ShiftLeft(2, 6) == 128;
    hide NatBits, Pow2, ShiftLeft, ShiftRight, LowBits;
    ShiftRightBound(n, 6, 8);
    LowBitsBound(n, 8);
    ShiftParts(n, 8);
    ShiftLeftEight(hi);
    NatBitsLow(n, 8);
    NatBitsSplit(n, 6, 8);
    NatBitsJoin(2, 2, hi, 6);
    Reassociate(NatBits(2, 2), NatBits(hi, 6), NatBits(lo, 8));
  }

  lemma ShiftLeftEight(v: nat)
    ensures ShiftLeft(v, 8) == 256 * v
  {
    ShiftLeftIsMul(v, 8);
    Pow2Words();
  }

  lemma LengthLongAligned(bits: seq<bool>, pos: nat, n: nat)
    requires ASN_16K <= n <= ASN_64K
    requires At(bits, pos, NatBits(3, 2) + NatBits(n / ASN_16K, 6) + NatBits(n % ASN_16K, 16))
    ensures Read(bits, pos, 8).ok && Read(bits, pos, 8).v >= 192
  {
    LengthLongOctet(bits, pos, n / ASN_16K, NatBits(n % ASN_16K, 16));
  }

  lemma LengthLongOctet(bits: seq<bool>, pos: nat, m: nat, rest: seq<bool>)
    requires m < 64 && At(bits, pos, NatBits(3, 2) + NatBits(m, 6) + rest)
    ensures Read(bits, pos, 8).ok && Read(bits, pos, 8).v >= 192
  {
    assert Pow2(8) == 256 && Pow2(6) == 64;
    assert ShiftLeft(3, 6) == 192;
    hide NatBits, Read, Pow2, ShiftLeft;
    NatBitsJoin(3, 2, m, 6);
    AtSplit(bits, pos, NatBits(192 + m, 8), rest);
    ReadNat(bits, pos, 192 + m, 8);
  }

  /**
   The aligned form steps to the octet boundary without clearing bits: it keeps what stands there,
   which is the padding of the encoding if the cursor is clean.
   */
  method PackLength(b: BitRef, n: nat, aligned: bool) returns (ok: bool)
    requires b.Valid() && n < UINT32_RANGE
    modifies b`ptr, b`offset, b.buf
    ensures b.Valid()
    ensures var e := EncLength(n, aligned, old(b.C().pos));
      && ok == (e.ok && |e.w| <= old(b.C().Room()))
      && (e.ok && aligned ==>
          b.C() == Put(Cur(old(b.C().bits), Aligned(old(b.C().bits), old(b.C().pos))), LengthBody(n)))
      && (!e.ok || !aligned || old(b.C().Clean()) ==> b.C() == Put(old(b.C()), e.w))
  {
    hide BitRef.C, Put, NatBits, Up8, Pad;
    PutNothing(b.C());
    ghost var c := b.C();
    if (aligned && n > ASN_64K) || (!aligned && n >= ASN_16K) {
      return false;
    }
    if aligned {
      if c.Clean() { SkipIsPad(c); }
      PutPut(c, Pad(c.pos), LengthBody(n));
      ok := b.AlignBytes();
    } else {
      assert [] + LengthBody(n) == LengthBody(n);
    }
    ok := PackLengthBody(b, n);
  }

  method PackLengthBody(b: BitRef, n: nat) returns (ok: bool)
    requires b.Valid() && n <= ASN_64K
    modifies b`ptr, b`offset, b.buf
    ensures b.Valid()
    ensures b.C() == Put(old(b.C()), LengthBody(n)) && ok == (|LengthBody(n)| <= old(b.C().Room()))
  {
    hide BitRef.C, Put, NatBits, FieldBits;
    if n < 128 {
      ok := b.Pack(n, 8);
    } else if n < ASN_16K {
      ok := PackFields(b, [Field(2, 2), Field(n, 14)]);
      FieldBits2(Field(2, 2), Field(n, 14));
    } else {
      var m := n / ASN_16K;
      ok := PackFields(b, [Field(3, 2), Field(m, 6), Field(n - m * ASN_16K, 16)]);
      FieldBits3(Field(3, 2), Field(m, 6), Field(n - m * ASN_16K, 16));
    }
  }

  lemma FieldBits2(f: Field, g: Field)
    ensures FieldBits([f, g]) == NatBits(f.v, f.n) + NatBits(g.v, g.n)
  {
    hide NatBits;
    assert [f, g][1..] == [g] && [g][1..] == [];
    assert FieldBits([g]) == NatBits(g.v, g.n) + [];
  }

  lemma FieldBits3(f: Field, g: Field, h: Field)
    ensures FieldBits([f, g, h]) == NatBits(f.v, f.n) + NatBits(g.v, g.n) + NatBits(h.v, h.n)
  {
    hide NatBits;
    assert [f, g, h][1..] == [g, h];
    FieldBits2(g, h);
  }

  method UnpackLength(b: BitRef, aligned: bool) returns (ok: bool, n: nat)
    requires b.Valid()
    modifies b`ptr, b`offset
    ensures b.Valid() && b.C().bits == old(b.C().bits)
    ensures Rd(ok, n, b.C().pos) == DecLength(old(b.C().bits), old(b.C().pos), aligned)
  {
    if aligned {
      ok, n := UnpackLengthAligned(b);
    } else {
      ok, n := UnpackLengthUnaligned(b);
    }
  }

  method UnpackLengthUnaligned(b: BitRef) returns (ok: bool, n: nat)
    requires b.Valid()
    modifies b`ptr, b`offset
    ensures b.Valid() && b.C().bits == old(b.C().bits)
    ensures Rd(ok, n, b.C().pos) == DecLength(old(b.C().bits), old(b.C().pos), false)
  {
    hide BitRef.C, Read;
    var ext;
    ok, ext := b.Unpack(8, 0, 1);
    if !ok {
      return false, 0;
    }
    if ext == 0 {
      ok, n := b.Unpack(32, 0, 7);
      return;
    }
    ok, ext := b.Unpack(8, 0, 1);
    if !ok || ext != 0 {
      return false, 0;
    }
    ok, n := b.Unpack(32, 0, 14);
  }

  method UnpackLengthAligned(b: BitRef) returns (ok: bool, n: nat)
    requires b.Valid()
    modifies b`ptr, b`offset
    ensures b.Valid() && b.C().bits == old(b.C().bits)
    ensures Rd(ok, n, b.C().pos) == DecLength(old(b.C().bits), old(b.C().pos), true)
  {
    hide BitRef.C, Read;
    ok := b.AlignBytes();
    ok, n := b.Unpack(32, 0, 8);
    if !ok || n < 128 {
      return;
    }
    n := n - 128;
    if n < 64 {
      var low;
      ok, low := b.Unpack(32, 0, 8);
      if ok {
        n := 256 * n + low;
      }
      return;
    }
    ok := false;
  }

  // ----- octet strings -----

  /** The `n` octets that stand at `pos`. */
  function OctetsAt(bits: seq<bool>, pos: nat, n: nat): (data: seq<Byte>)
    requires pos + 8 * n <= |bits|
    ensures |data| == n
  {
    seq(n, i requires 0 <= i < n => OctetOf(bits[pos + 8 * i..pos + 8 * i + 8]))
  }

  function OctetOf(w: seq<bool>): (b: Byte)
    requires |w| == 8
  {
    BitsNatBound(w);
    Pow2Words();
    BitsNat(w)
  }

  lemma SliceOfSlice(s: seq<bool>, pos: nat, n: nat, at: nat, k: nat)
    requires pos + n <= |s| && at + k <= n
    ensures s[pos..pos + n][at..at + k] == s[pos + at..pos + at + k]
  {
    var u, v := s[pos..pos + n][at..at + k], s[pos + at..pos + at + k];
    assert |u| == |v|;
    forall i | 0 <= i < k
      ensures u[i] == v[i]
    {
      assert u[i] == s[pos..pos + n][at + i] == s[pos + (at + i)];
    }
  }

  lemma OctetsReadBack(bits: seq<bool>, pos: nat, data: seq<Byte>)
    requires At(bits, pos, BytesBits(data))
    ensures OctetsAt(bits, pos, |data|) == data
  {
    hide BytesBits, BitsNat;
    var w := BytesBits(data);
    forall i | 0 <= i < |data|
      ensures OctetsAt(bits, pos, |data|)[i] == data[i]
    {
      OctetAt(data, i);
      SliceOfSlice(bits, pos, |w|, 8 * i, 8);
    }
  }

  /** Eight-bit packs, stopping at the first that fails. */
  method PackOctets(b: BitRef, data: seq<Byte>) returns (ok: bool)
    requires b.Valid()
    modifies b`ptr, b`offset, b.buf
    ensures b.Valid()
    ensures b.C() == Put(old(b.C()), BytesBits(data)) && ok == (8 * |data| <= old(b.C().Room()))
  {
    hide BitRef.C, Put, NatBits, BytesBits;
    ghost var goal := Put(b.C(), BytesBits(data));
    var i := 0;
    assert data[0..] == data;
    while i < |data|
      invariant i <= |data| && b.Valid()
      invariant Put(b.C(), BytesBits(data[i..])) == goal
      invariant b.C().Valid() && |b.C().bits| == |goal.bits|
      invariant b.C().pos == old(b.C().pos) + 8 * i
    {
      ghost var c, rest := b.C(), data[i + 1..];
      assert data[i..] == [data[i]] + rest;
      BytesBitsConcat([data[i]], rest);
      BytesBitsOne(data[i]);
      PutPut(c, NatBits(data[i], 8), BytesBits(rest));
      ok := b.Pack(data[i], 8);
      if !ok {
        PutFull(b.C(), BytesBits(rest));
        return false;
      }
      i := i + 1;
    }
    PutNothing(b.C());
    return true;
  }

  method UnpackOctets(b: BitRef, n: nat) returns (ok: bool, data: seq<Byte>)
    requires b.Valid()
    modifies b`ptr, b`offset
    ensures b.Valid() && b.C().bits == old(b.C().bits)
    ensures ok == (8 * n <= old(b.C().Room()))
    ensures ok ==> data == OctetsAt(b.C().bits, old(b.C().pos), n)
    ensures b.C().pos == old(b.C().pos) + if ok then 8 * n else old(b.C().Room())
  {
    hide BitRef.C, BytesBits, Read, BitsNat, LowBits;
    ghost var bits, pos := b.C().bits, b.C().pos;
    data := [];
    var i := 0;
    while i < n
      invariant i <= n && b.Valid() && b.C() == Cur(bits, pos + 8 * i) && pos + 8 * i <= |bits|
      invariant data == OctetsAt(bits, pos, i)
    {
      var x;
      ok, x := b.Unpack(8, 0, 8);
      if !ok {
        return false, data;
      }
      ReadOctetOf(bits, pos + 8 * i);
      data := data + [x];
      i := i + 1;
    }
    return true, data;
  }

  lemma ReadOctetOf(bits: seq<bool>, pos: nat)
    requires pos + 8 <= |bits|
    ensures Read(bits, pos, 8) == Rd(true, OctetOf(bits[pos..pos + 8]), pos + 8)
  {
    ReadAt(bits, pos, bits[pos..pos + 8]);
  }
}
