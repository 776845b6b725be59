/**
 BIT STRINGs of the unaligned variant (fixed, bounded, unbounded, with or without extension
 marker). The octets of a bit string are stored least significant first; they are written
 from the last, partial octet down to the first.
 */
module BitString {
  import opened Bits
  import opened BitCursor
  import opened BitRefs
  import opened Per

  /** The upper bound that stands for "unbounded". */
  const UNBOUNDED := 0xFFFF_FFFF

  // ----- the bit field -----

  /** How many bits of the last octet are used. */
  function TopBits(n: nat): (k: nat)
    requires n > 0
    ensures 1 <= k <= 8 && n == 8 * (Octets(n) - 1) + k
  {
    (n - 1) % 8 + 1
  }

  /** The octets below `k`, highest first. */
  function LowOctets(data: seq<Byte>, k: nat): (w: seq<bool>)
    requires k <= |data|
    ensures |w| == 8 * k
  {
    if k == 0 then [] else NatBits(data[k - 1], 8) + LowOctets(data, k - 1)
  }

  function EncBitfield(data: seq<Byte>, n: nat): (w: seq<bool>)
    requires n > 0 && |data| == Octets(n)
    ensures |w| == n
  {
    NatBits(data[|data| - 1], TopBits(n)) + LowOctets(data, |data| - 1)
  }

  /** Bits of the last octet beyond the length are zero. */
  ghost predicate Canonical(data: seq<Byte>, n: nat) {
    |data| == Octets(n) && (n > 0 ==> data[|data| - 1] < Pow2(TopBits(n)))
  }

  /** The octets below `k`, read highest first. */
  function DecLow(bits: seq<bool>, pos: nat, k: nat): (data: seq<Byte>)
    requires pos + 8 * k <= |bits|
    ensures |data| == k
    decreases k
  {
    if k == 0 then [] else DecLow(bits, pos + 8, k - 1) + [OctetOf(bits[pos..pos + 8])]
  }

  function DecBitfield(bits: seq<bool>, pos: nat, n: nat): (r: Rd<seq<Byte>>)
    requires pos <= |bits|
    ensures pos <= r.pos <= |bits|
    ensures r.ok ==> r.pos == pos + n
  {
    if n > ASN_64K then Rd(false, [], pos)
    else if n == 0 then Rd(true, [], pos)
    else if pos + n > |bits| then Rd(false, [], |bits|)
    else
      var k := TopBits(n);
      Rd(true, DecLow(bits, pos + k, Octets(n) - 1) + [TopOctet(bits, pos, k)], pos + n)
  }

  function TopOctet(bits: seq<bool>, pos: nat, k: nat): (b: Byte)
    requires pos + k <= |bits| && k <= 8
  {
    ReadBound(bits, pos, k);
    Pow2Words();
    Pow2Mono(k, 8);
    Read(bits, pos, k).v
  }

  lemma {:induction false} LowRoundTrip(bits: seq<bool>, pos: nat, data: seq<Byte>, k: nat)
    requires k <= |data| && At(bits, pos, LowOctets(data, k))
    ensures DecLow(bits, pos, k) == data[..k]
    decreases k
  {
    hide NatBits, BitsNat, LowOctets, DecLow, OctetOf;
    LowStep(bits, pos, data, k);
    if k > 0 {
      AtSplit(bits, pos, NatBits(data[k - 1], 8), LowOctets(data, k - 1));
      LowRoundTrip(bits, pos + 8, data, k - 1);
      OctetOfBits(data[k - 1]);
      LastOctet(data, k);
    }
  }

  lemma LowStep(bits: seq<bool>, pos: nat, data: seq<Byte>, k: nat)
    requires k <= |data| && pos + 8 * k <= |bits|
    ensures k == 0 ==> DecLow(bits, pos, k) == []
    ensures k > 0 ==> LowOctets(data, k) == NatBits(data[k - 1], 8) + LowOctets(data, k - 1)
    ensures k > 0 ==> DecLow(bits, pos, k) == DecLow(bits, pos + 8, k - 1) + [OctetOf(bits[pos..pos + 8])]
  {
    hide NatBits, OctetOf;
  }

  lemma LastOctet(data: seq<Byte>, k: nat)
    requires 0 < k <= |data|
    ensures data[..k] == data[..k - 1] + [data[k - 1]]
  {
  }

  lemma OctetOfBits(b: Byte)
    ensures OctetOf(NatBits(b, 8)) == b
  {
    hide NatBits, BitsNat, LowBits;
    BitsNatOfNatBits(b, 8);
    Pow2Words();
    LowBitsId(b, 8);
  }

  /** The bit field comes back unchanged if and only if its unused bits were zero. */
  lemma BitfieldRoundTrip(bits: seq<bool>, pos: nat, data: seq<Byte>, n: nat)
    requires 0 < n <= ASN_64K && |data| == Octets(n) && At(bits, pos, EncBitfield(data, n))
    ensures var r := DecBitfield(bits, pos, n);
      r.ok && r.pos == pos + n && (r.v == data <==> Canonical(data, n))
  {
    hide NatBits, Read, Pow2, DecLow, LowOctets;
    var k, top, m := TopBits(n), data[|data| - 1], |data| - 1;
    AtSplit(bits, pos, NatBits(top, k), LowOctets(data, m));
    LowRoundTrip(bits, pos + k, data, m);
    ReadTop(bits, pos, top, k);
    assert data == data[..m] + [top];
    var r := DecBitfield(bits, pos, n);
    assert r.v[m] == TopOctet(bits, pos, k);
  }

  lemma ReadTop(bits: seq<bool>, pos: nat, top: Byte, k: nat)
    requires k <= 8 && At(bits, pos, NatBits(top, k))
    ensures Read(bits, pos, k).v == top <==> top < Pow2(k)
  {
    hide NatBits, Read, BitsNat, LowBits;
    ReadAt(bits, pos, NatBits(top, k));
    BitsNatOfNatBits(top, k);
    LowBitsBound(top, k);
    if top < Pow2(k) { LowBitsId(top, k); }
  }

  // ----- numbers as bit strings -----

  /** The octets of `x` cut to `n` bits, least significant first. */
  function NumberOctets(x: nat, n: nat): (data: seq<Byte>)
    ensures |data| == Octets(n)
    decreases n
  {
    if n == 0 then []
    else if n <= 8 then [CutOctet(x, n)]
    else [CutOctet(x, 8)] + NumberOctets(ShiftRight(x, 8), n - 8)
  }

  function CutOctet(x: nat, k: nat): (b: Byte)
    requires k <= 8
    ensures b == LowBits(x, k)
  {
    LowBitsBound(x, k);
    Pow2Words();
    Pow2Mono(k, 8);
    LowBits(x, k)
  }

  /** Packing the bit string of a number emits the same bits as packing the number. */
  lemma {:induction false} NumberBits(x: nat, n: nat)
    requires n > 0
    ensures EncBitfield(NumberOctets(x, n), n) == NatBits(x, n)
    ensures Canonical(NumberOctets(x, n), n)
    decreases n
  {
    hide NatBits, LowBits, Pow2, ShiftRight;
    if n <= 8 {
      assert TopBits(n) == n;
      LowBitsBound(x, n);
      NatBitsLow(x, n);
      assert LowOctets(NumberOctets(x, n), 0) == [];
    } else {
      var low, rest := CutOctet(x, 8), NumberOctets(ShiftRight(x, 8), n - 8);
      NumberBits(ShiftRight(x, 8), n - 8);
      NatBitsSplit(x, n - 8, 8);
      NatBitsLow(x, 8);
      MoreOctets(low, rest, n);
      assert NumberOctets(x, n) == [low] + rest;
    }
  }

  /** A low octet in front of the octets of a bit field comes last in its bits. */
  lemma MoreOctets(low: Byte, rest: seq<Byte>, n: nat)
    requires n > 8 && |rest| == Octets(n - 8)
    ensures Octets(n) == |rest| + 1
    ensures EncBitfield([low] + rest, n) == EncBitfield(rest, n - 8) + NatBits(low, 8)
    ensures Canonical([low] + rest, n) <==> Canonical(rest, n - 8)
  {
    hide NatBits, Pow2, LowOctets;
    assert TopBits(n) == TopBits(n - 8) && Octets(n) == Octets(n - 8) + 1;
    hide TopBits, Octets;
    var k := |rest| - 1;
    LowOctetsShift(low, rest, k);
    assert ([low] + rest)[|rest|] == rest[k];
    var a, m, z := NatBits(rest[k], TopBits(n)), LowOctets(rest, k), NatBits(low, 8);
    assert a + (m + z) == (a + m) + z;
  }

  lemma {:induction false} LowOctetsShift(low: Byte, rest: seq<Byte>, k: nat)
    requires k <= |rest|
    ensures LowOctets([low] + rest, k + 1) == LowOctets(rest, k) + NatBits(low, 8)
  {
    hide NatBits;
    var data := [low] + rest;
    if k == 0 {
      assert LowOctets(data, 1) == NatBits(data[0], 8) + LowOctets(data, 0);
    } else {
      LowOctetsShift(low, rest, k - 1);
      assert LowOctets(data, k + 1) == NatBits(data[k], 8) + LowOctets(data, k);
    }
  }

  // ----- length prefixes -----

  /** A size constraint with its extension marker, of bounds whose float logarithm is exact. */
  datatype Size = Size(lb: nat, ub: nat, ext: bool) {
    predicate Valid() { lb <= ub <= UNBOUNDED && (ub == UNBOUNDED || ub - lb < EXACT_RANGE) }

    predicate Within(len: nat) { lb <= len <= ub }
  }

  /** The prefix behind the extension marker. */
  function SizeBits(len: nat, s: Size): Emit
    requires s.Valid()
  {
    if s.lb == s.ub && s.Within(len) then Emit([], true)
    else if s.ub == UNBOUNDED || !s.Within(len) then EncLength(len, false, 0)
    else Emit(NatBits(len - s.lb, CeilLog2(s.ub - s.lb)), true)
  }

  function EncPrefix(len: nat, s: Size): Emit
    requires s.Valid()
  {
    var within := s.Within(len);
    if (s.ext && s.ub == UNBOUNDED) || (!within && !s.ext) then Emit([], false)
    else
      var z := SizeBits(len, s);
      if s.ext then Emit([!within] + z.w, z.ok) else z
  }

  function DecPrefix(bits: seq<bool>, pos: nat, s: Size): (r: Rd<nat>)
    requires pos <= |bits| && |bits| % 8 == 0 && s.Valid()
    ensures pos <= r.pos <= |bits|
  {
    if s.ext then
      var m := Read(bits, pos, 1);
      if !m.ok then Rd(false, 0, m.pos)
      else if m.v != 0 then DecLength(bits, m.pos, false)
      else DecSized(bits, m.pos, s)
    else DecSized(bits, pos, s)
  }

  /** The prefix behind the extension marker, for a size within the bounds. */
  function DecSized(bits: seq<bool>, pos: nat, s: Size): (r: Rd<nat>)
    requires pos <= |bits| && |bits| % 8 == 0 && s.Valid()
    ensures pos <= r.pos <= |bits|
  {
    if s.ub == UNBOUNDED then DecLength(bits, pos, false)
    else if s.lb == s.ub then Rd(true, s.lb, pos)
    else if s.ub >= ASN_64K then DecLength(bits, pos, false)
    else
      var r := DecNumber(bits, pos, s.ub - s.lb + 1, false);
      Rd(r.ok, s.lb + r.v, r.pos)
  }

  ghost predicate IsPow2(d: nat) {
    exists k: nat :: d == Pow2(k)
  }

  /** The widths computed by encoder and decoder agree exactly when `ub - lb` is no power of two. */
  lemma WidthsAgree(d: nat)
    requires d > 0
    ensures CeilLog2(d) == CeilLog2(d + 1) <==> !IsPow2(d)
    ensures CeilLog2(d) <= CeilLog2(d + 1) <= CeilLog2(d) + 1
  {
    hide CeilLog2;
    var k := CeilLog2(d);
    CeilLog2Least(d, k);
    CeilLog2Least(d + 1, k);
    CeilLog2Least(d + 1, k + 1);
    if CeilLog2(d + 1) < k { CeilLog2Least(d + 1, CeilLog2(d + 1)); CeilLog2Least(d, CeilLog2(d + 1)); }
    if IsPow2(d) {
      var j: nat :| d == Pow2(j);
      CeilLog2Least(d, j);
      Pow2Mono(k, j);
    }
  }

  /** The bounds for which both sides use the same prefix. */
  ghost predicate SamePrefix(len: nat, s: Size) {
    s.Within(len) ==>
      if s.lb == s.ub then s.ub < UNBOUNDED
      else s.ub < UNBOUNDED ==> s.ub < ASN_64K && !IsPow2(s.ub - s.lb)
  }

  /**
   A length prefix that was accepted is decoded to the same length and the same position if and
   only if `SamePrefix` holds of the bounds.
   */
  lemma PrefixRoundTrip(bits: seq<bool>, pos: nat, len: nat, s: Size)
    requires |bits| % 8 == 0 && s.Valid() && EncPrefix(len, s).ok && At(bits, pos, EncPrefix(len, s).w)
    ensures DecPrefix(bits, pos, s) == Rd(true, len, pos + |EncPrefix(len, s).w|) <==> SamePrefix(len, s)
  {
    hide NatBits, Read, CeilLog2, EncLength, DecLength, DecNumber, IsPow2;
    var within := s.Within(len);
    var w := EncPrefix(len, s).w;
    var p := if s.ext then pos + 1 else pos;
    if s.ext {
      AtSplit(bits, pos, [!within], w[1..]);
      assert w == [!within] + w[1..];
      ReadFlag(bits, pos);
      assert bits[pos] == bits[pos..pos + 1][0];
    }
    var rest := if s.ext then w[1..] else w;
    assert At(bits, p, rest) && |w| == p - pos + |rest|;
    if within && s.lb == s.ub {
      if s.ub == UNBOUNDED && DecLength(bits, p, false) == Rd(true, len, p) {
        DeterminantValue(bits, p, len, 0);
      }
    } else if s.ub == UNBOUNDED || !within {
      assert rest == EncLength(len, false, 0).w;
      LengthAnywhere(len, p);
      LengthLimit(len);
      LengthRoundTrip(bits, p, len, false);
    } else {
      assert rest == NatBits(len - s.lb, CeilLog2(s.ub - s.lb));
      SizedRoundTrip(bits, p, len, s);
    }
  }

  /** Bounds 0 and 4: the length is written in two bits and read in three. */
  lemma PowerOfTwoBoundsLost(bits: seq<bool>, pos: nat, len: nat)
    requires |bits| % 8 == 0 && len <= 4
    ensures var s := Size(0, 4, false);
      && EncPrefix(len, s).ok
      && (At(bits, pos, EncPrefix(len, s).w) ==> DecPrefix(bits, pos, s) != Rd(true, len, pos + |EncPrefix(len, s).w|))
  {
    var s := Size(0, 4, false);
    assert IsPow2(4) by { assert Pow2(2) == 4; }
    hide DecPrefix, IsPow2, NatBits;
    if At(bits, pos, EncPrefix(len, s).w) {
      PrefixRoundTrip(bits, pos, len, s);
    }
  }

  lemma LengthAnywhere(n: nat, pos: nat)
    ensures EncLength(n, false, pos) == EncLength(n, false, 0)
  {
  }

  lemma LengthLimit(n: nat)
    requires EncLength(n, false, 0).ok
    ensures n < ASN_16K
  {
  }

  lemma SizedRoundTrip(bits: seq<bool>, pos: nat, len: nat, s: Size)
    requires |bits| % 8 == 0 && s.Valid() && s.Within(len) && s.lb < s.ub < UNBOUNDED
    requires At(bits, pos, NatBits(len - s.lb, CeilLog2(s.ub - s.lb)))
    ensures DecSized(bits, pos, s) == Rd(true, len, pos + CeilLog2(s.ub - s.lb)) <==> SamePrefix(len, s)
  {
    hide NatBits, CeilLog2, DecLength, IsPow2;
    var d, x := s.ub - s.lb, len - s.lb;
    WidthsAgree(d);
    if s.ub >= ASN_64K {
      LargeBoundsDisagree(bits, pos, len, s);
    } else if !IsPow2(d) {
      CeilLog2Bounds(d + 1);
      ReadNat(bits, pos, x, CeilLog2(d));
    }
  }

  /** From an upper bound of 64K on, the decoder takes the prefix for a length determinant. */
  /**
   Whatever width the encoder takes, other than one or two octets, the decoder's determinant does
   not read it. So it is for all bounds further apart than `EXACT_RANGE`, where the float logarithm
   is not exact but above 16 in any case.
   */
  lemma OtherWidthsDisagree(bits: seq<bool>, pos: nat, len: nat, w: nat)
    requires |bits| % 8 == 0 && pos + w <= |bits| && w != 8 && w != 16
    ensures DecLength(bits, pos, false) != Rd(true, len, pos + w)
  {
    hide DecLength;
    if DecLength(bits, pos, false) == Rd(true, len, pos + w) {
      DeterminantValue(bits, pos, len, w);
      assert false;
    }
  }

  lemma LargeBoundsDisagree(bits: seq<bool>, pos: nat, len: nat, s: Size)
    requires |bits| % 8 == 0 && s.Within(len) && ASN_64K <= s.ub && s.lb < s.ub
    requires At(bits, pos, NatBits(len - s.lb, CeilLog2(s.ub - s.lb)))
    ensures DecLength(bits, pos, false) != Rd(true, len, pos + CeilLog2(s.ub - s.lb))
  {
    hide NatBits, CeilLog2, Read, DecLength, LowBits, Pow2, BitsNat;
    var w, x := CeilLog2(s.ub - s.lb), len - s.lb;
    if DecLength(bits, pos, false) == Rd(true, len, pos + w) {
      CeilLog2Least(s.ub - s.lb, w);
      Pow2Words();
      DeterminantValue(bits, pos, len, w);
      BitsNatOfNatBits(x, w);
      if x < Pow2(w) { LowBitsId(x, w); } else { LowBitsOfPow2(w); }
      assert false;
    }
  }

  /** A length determinant read with success was its value in one octet, or 32768 more in two. */
  lemma DeterminantValue(bits: seq<bool>, pos: nat, len: nat, w: nat)
    requires |bits| % 8 == 0 && pos + w <= |bits|
    requires DecLength(bits, pos, false) == Rd(true, len, pos + w)
    ensures (w == 8 && BitsNat(bits[pos..pos + w]) == len) || (w == 16 && BitsNat(bits[pos..pos + w]) == 32768 + len)
  {
    hide Read, BitsNat, ShiftLeft;
    ReadSlice(bits, pos, 1);
    if w >= 8 { ReadSlice(bits, pos + 1, 7); }
    if w >= 16 {
      ReadSlice(bits, pos + 1, 1);
      ReadSlice(bits, pos + 2, 14);
    }
    ReadFlag(bits, pos);
    if w == 8 {
      JoinSlices(bits, pos, 1, 7);
      ShiftLeftZero(7);
    } else if w == 16 {
      ReadFlag(bits, pos + 1);
      JoinSlices(bits, pos, 1, 1);
      JoinSlices(bits, pos, 2, 14);
      ShiftLeftIsMul(1, 1);
      ShiftLeftIsMul(2, 14);
      assert Pow2(14) == 16384 && Pow2(1) == 2;
    }
  }

  lemma ReadSlice(bits: seq<bool>, pos: nat, n: nat)
    requires pos + n <= |bits|
    ensures Read(bits, pos, n) == Rd(true, BitsNat(bits[pos..pos + n]), pos + n)
  {
    ReadAt(bits, pos, bits[pos..pos + n]);
  }

  lemma JoinSlices(bits: seq<bool>, pos: nat, a: nat, b: nat)
    requires pos + a + b <= |bits|
    ensures BitsNat(bits[pos..pos + a + b])
         == ShiftLeft(BitsNat(bits[pos..pos + a]), b) + BitsNat(bits[pos + a..pos + a + b])
  {
    hide BitsNat;
    BitsNatConcat(bits[pos..pos + a], bits[pos + a..pos + a + b]);
    assert bits[pos..pos + a] + bits[pos + a..pos + a + b] == bits[pos..pos + a + b];
  }

  // ----- bit strings -----

  function EncString(data: seq<Byte>, len: nat, s: Size): Emit
    requires s.Valid() && |data| == Octets(len)
  {
    var p := EncPrefix(len, s);
    if !p.ok then p
    else if len == 0 then Emit(p.w, false)
    else Emit(p.w + EncBitfield(data, len), true)
  }

  /** The number of bits and the octets that hold them. */
  function DecString(bits: seq<bool>, pos: nat, s: Size): (r: Rd<(nat, seq<Byte>)>)
    requires pos <= |bits| && |bits| % 8 == 0 && s.Valid()
    ensures pos <= r.pos <= |bits|
  {
    var p := DecPrefix(bits, pos, s);
    if !p.ok then Rd(false, (0, []), p.pos) else
      var f := DecBitfield(bits, p.pos, p.v);
      Rd(f.ok, (p.v, f.v), f.pos)
  }

  lemma LongBitfield(bits: seq<bool>, pos: nat, n: nat)
    requires pos <= |bits|
    ensures n > 65536 ==> !DecBitfield(bits, pos, n).ok
  {
    hide DecLow, TopOctet, Octets, TopBits;
  }

  /**
   Every bit string that the encoder accepts comes back, with the cursor behind it, if and only
   if both sides use the same prefix, the unused bits are zero and it has at most 65536 bits.
   */
  lemma StringRoundTrip(bits: seq<bool>, pos: nat, data: seq<Byte>, len: nat, s: Size)
    requires |bits| % 8 == 0 && s.Valid() && |data| == Octets(len)
    requires EncString(data, len, s).ok && At(bits, pos, EncString(data, len, s).w)
    ensures DecString(bits, pos, s) == Rd(true, (len, data), pos + |EncString(data, len, s).w|) <==>
      SamePrefix(len, s) && Canonical(data, len) && len <= ASN_64K
  {
    hide EncPrefix, DecPrefix, SamePrefix, Canonical, EncBitfield, Octets, DecBitfield;
    var p := EncPrefix(len, s);
    AtSplit(bits, pos, p.w, EncBitfield(data, len));
    LongBitfield(bits, pos + |p.w|, len);
    PrefixRoundTrip(bits, pos, len, s);
    if len <= ASN_64K {
      BitfieldRoundTrip(bits, pos + |p.w|, data, len);
    }
  }

  // ----- the code -----

  method PackPrefix(b: BitRef, len: nat, s: Size) returns (ok: bool)
    requires b.Valid() && s.Valid() && len < UINT32_RANGE
    modifies b`ptr, b`offset, b.buf
    ensures b.Valid()
    ensures var e := EncPrefix(len, s);
      b.C() == Put(old(b.C()), e.w) && ok == (e.ok && |e.w| <= old(b.C().Room()))
  {
    hide BitRef.C, Put, NatBits, SizeBits;
    ghost var c := b.C();
    PutNothing(c);
    var within := s.lb <= len <= s.ub;
    if (s.ext && s.ub == UNBOUNDED) || (!within && !s.ext) {
      return false;
    }
    if s.ext {
      OneBit(!within);
      PutPut(c, [!within], SizeBits(len, s).w);
      ok := b.Pack(if within then 0 else 1, 1);
      if !ok {
        PutStop(c, [!within], SizeBits(len, s).w);
        return;
      }
    }
    ok := PackSize(b, len, s);
  }

  method PackSize(b: BitRef, len: nat, s: Size) returns (ok: bool)
    requires b.Valid() && s.Valid() && len < UINT32_RANGE
    modifies b`ptr, b`offset, b.buf
    ensures b.Valid()
    ensures var e := SizeBits(len, s);
      b.C() == Put(old(b.C()), e.w) && ok == (e.ok && |e.w| <= old(b.C().Room()))
  {
    hide BitRef.C, Put, NatBits, CeilLog2, EncLength;
    var within := s.lb <= len <= s.ub;
    if s.lb == s.ub && within {
      PutNothing(b.C());
      return true;
    }
    if s.ub == UNBOUNDED || !within {
      LengthAnywhere(len, b.C().pos);
      ok := PackLength(b, len, false);
    } else {
      CeilLog2Below(s.ub - s.lb, 32);
      ok := b.Pack(len - s.lb, CeilLog2(s.ub - s.lb));
    }
  }

  method PackBitfield(b: BitRef, data: seq<Byte>, n: nat) returns (ok: bool)
    requires b.Valid() && |data| == Octets(n)
    modifies b`ptr, b`offset, b.buf
    ensures b.Valid()
    ensures n == 0 ==> !ok && b.C() == old(b.C())
    ensures n > 0 ==> b.C() == Put(old(b.C()), EncBitfield(data, n)) && ok == (n <= old(b.C().Room()))
  {
    hide BitRef.C, Put, NatBits;
    if n == 0 {
      return false;
    }
    var k := |data| - 1;
    ghost var c, top := b.C(), NatBits(data[k], TopBits(n));
    ok := b.Pack(data[k], TopBits(n));
    PutPut(c, top, LowOctets(data, k));
    if !ok {
      PutStop(c, top, LowOctets(data, k));
      return;
    }
    ok := PackLow(b, data, k);
  }

  method PackLow(b: BitRef, data: seq<Byte>, n: nat) returns (ok: bool)
    requires b.Valid() && n <= |data|
    modifies b`ptr, b`offset, b.buf
    ensures b.Valid()
    ensures b.C() == Put(old(b.C()), LowOctets(data, n)) && ok == (8 * n <= old(b.C().Room()))
  {
    hide BitRef.C, Put, NatBits;
    ghost var goal := Put(b.C(), LowOctets(data, n));
    var k: nat := n;
    while k > 0
      invariant k <= n && b.Valid()
      invariant Put(b.C(), LowOctets(data, k)) == goal
      invariant b.C().pos == old(b.C().pos) + 8 * (n - k) && |b.C().bits| == |goal.bits|
    {
      PutPut(b.C(), NatBits(data[k - 1], 8), LowOctets(data, k - 1));
      ok := b.Pack(data[k - 1], 8);
      k := k - 1;
      if !ok {
        PutFull(b.C(), LowOctets(data, k));
        return;
      }
    }
    PutNothing(b.C());
    return true;
  }

  method PackBitString(b: BitRef, data: seq<Byte>, len: nat, s: Size) returns (ok: bool)
    requires b.Valid() && s.Valid() && len < UINT32_RANGE && |data| == Octets(len)
    modifies b`ptr, b`offset, b.buf
    ensures b.Valid()
    ensures var e := EncString(data, len, s);
      b.C() == Put(old(b.C()), e.w) && ok == (e.ok && |e.w| <= old(b.C().Room()))
  {
    hide BitRef.C, Put, EncPrefix, EncBitfield, Octets;
    ghost var c, p := b.C(), EncPrefix(len, s);
    ok := PackPrefix(b, len, s);
    if len > 0 {
      PutPut(c, p.w, EncBitfield(data, len));
    }
    if !ok {
      if p.ok && len > 0 { PutStop(c, p.w, EncBitfield(data, len)); }
      return;
    }
    ok := PackBitfield(b, data, len);
  }

  method UnpackPrefix(b: BitRef, s: Size) returns (ok: bool, len: nat)
    requires b.Valid() && s.Valid()
    modifies b`ptr, b`offset
    ensures b.Valid() && b.C().bits == old(b.C().bits)
    ensures var r := DecPrefix(old(b.C().bits), old(b.C().pos), s);
      ok == r.ok && b.C().pos == r.pos && (ok ==> len == r.v)
  {
    hide BitRef.C, Read, DecLength, DecSized;
    if s.ext {
      var marker;
      ok, marker := b.Unpack(8, 0, 1);
      if !ok {
        return false, 0;
      }
      if marker != 0 {
        ok, len := UnpackLength(b, false);
        return;
      }
    }
    ok, len := UnpackSized(b, s);
  }

  method UnpackSized(b: BitRef, s: Size) returns (ok: bool, len: nat)
    requires b.Valid() && s.Valid()
    modifies b`ptr, b`offset
    ensures b.Valid() && b.C().bits == old(b.C().bits)
    ensures var r := DecSized(old(b.C().bits), old(b.C().pos), s);
      ok == r.ok && b.C().pos == r.pos && (ok ==> len == r.v)
  {
    hide BitRef.C, Read, DecLength, DecNumber;
    if s.ub == UNBOUNDED {
      ok, len := UnpackLength(b, false);
    } else if s.lb == s.ub {
      ok, len := true, s.lb;
    } else if s.ub >= ASN_64K {
      ok, len := UnpackLength(b, false);
    } else {
      var n;
      ok, n := UnpackConstrainedWholeNumber(b, s.lb, s.ub, false);
      len := if ok then n else 0;
    }
  }

  method UnpackBitfield(b: BitRef, n: nat) returns (ok: bool, data: seq<Byte>)
    requires b.Valid()
    modifies b`ptr, b`offset
    ensures b.Valid() && b.C().bits == old(b.C().bits)
    ensures var r := DecBitfield(old(b.C().bits), old(b.C().pos), n);
      ok == r.ok && b.C().pos == r.pos && (ok ==> data == r.v)
  {
    hide BitRef.C, Read, BitsNat, DecLow;
    if n > ASN_64K {
      return false, [];
    }
    if n == 0 {
      return true, [];
    }
    ghost var bits, pos := b.C().bits, b.C().pos;
    var top;
    ok, top := b.Unpack(8, 0, TopBits(n));
    if !ok {
      return false, [];
    }
    ok, data := UnpackLow(b, Octets(n) - 1);
    if ok {
      assert top == TopOctet(bits, pos, TopBits(n));
      data := data + [top];
    }
  }

  method UnpackLow(b: BitRef, n: nat) returns (ok: bool, data: seq<Byte>)
    requires b.Valid()
    modifies b`ptr, b`offset
    ensures b.Valid() && b.C().bits == old(b.C().bits)
    ensures ok == (8 * n <= old(b.C().Room()))
    ensures b.C().pos == if ok then old(b.C().pos) + 8 * n else |b.C().bits|
    ensures ok ==> data == DecLow(b.C().bits, old(b.C().pos), n)
    decreases n
  {
    hide BitRef.C, Read, BitsNat;
    if n == 0 {
      return true, [];
    }
    ghost var bits, pos := b.C().bits, b.C().pos;
    var x;
    ok, x := b.Unpack(8, 0, 8);
    if !ok {
      return false, [];
    }
    ReadOctetOf(bits, pos);
    ok, data := UnpackLow(b, n - 1);
    data := data + [x];
  }

  method UnpackBitString(b: BitRef, s: Size) returns (ok: bool, len: nat, data: seq<Byte>)
    requires b.Valid() && s.Valid()
    modifies b`ptr, b`offset
    ensures b.Valid() && b.C().bits == old(b.C().bits)
    ensures var r := DecString(old(b.C().bits), old(b.C().pos), s);
      ok == r.ok && b.C().pos == r.pos && (ok ==> (len, data) == r.v)
  {
    hide BitRef.C, DecPrefix, DecBitfield;
    data := [];
    ok, len := UnpackPrefix(b, s);
    if ok {
      ok, data := UnpackBitfield(b, len);
    }
  }

  /** Writes the octets of a number into an array, then clears what lies beyond the width. */
  method FromNumber(a: array<Byte>, x: nat, n: nat)
    requires n <= 64 ==> Octets(n) <= a.Length
    modifies a
    ensures n > 64 ==> a[..] == old(a[..])
    ensures n <= 64 ==> a[..Octets(n)] == NumberOctets(x, n) && a[Octets(n)..] == old(a[Octets(n)..])
  {
    if n > 64 {
      return;
    }
    hide LowBits, ShiftRight, NumberOctets;
    var m := Octets(n);
    for i := 0 to m
      invariant forall j :: 0 <= j < i ==> a[j] == CutOctet(ShiftRight(x, 8 * j), 8)
      invariant a[m..] == old(a[m..])
    {
      a[i] := CutOctet(ShiftRight(x, 8 * i), 8);
    }
    if n % 8 > 0 {
      a[m - 1] := CutOctet(a[m - 1], n % 8);
    }
    forall j | 0 <= j < m
      ensures a[j] == NumberOctets(x, n)[j]
    {
      NumberOctetAt(x, n, j);
      if j == m - 1 && n % 8 > 0 { CutTwice(ShiftRight(x, 8 * j), n % 8, 8); }
    }
  }

  lemma HalfOf(u: nat, b: nat)
    requires b < 2
    ensures (2 * u + b) / 2 == u && (2 * u + b) % 2 == b
  {
  }

  lemma {:induction false} CutTwice(v: nat, k: nat, w: nat)
    requires k <= w
    ensures LowBits(LowBits(v, w), k) == LowBits(v, k)
  {
    if k > 0 {
      CutTwice(v / 2, k - 1, w - 1);
      var u := LowBits(v / 2, w - 1);
      assert LowBits(v, w) == 2 * u + v % 2;
      HalfOf(u, v % 2);
    }
  }

  lemma {:induction false} NumberOctetAt(x: nat, n: nat, j: nat)
    requires j < Octets(n)
    ensures NumberOctets(x, n)[j]
         == CutOctet(ShiftRight(x, 8 * j), if j == Octets(n) - 1 && n % 8 > 0 then n % 8 else 8)
    decreases j
  {
    hide LowBits, ShiftRight, NumberOctets, Octets, CutOctet;
    NumberStep(x, n);
    if j == 0 {
      ShiftRightNone(x);
    } else {
      NumberOctetAt(ShiftRight(x, 8), n - 8, j - 1);
      ShiftRightTwice(x, 8, 8 * (j - 1));
    }
  }

  lemma NumberStep(x: nat, n: nat)
    requires Octets(n) > 0
    ensures n > 0
    ensures n <= 8 ==> Octets(n) == 1 && NumberOctets(x, n) == [CutOctet(x, n)] && (n < 8 <==> n % 8 > 0)
    ensures n > 8 ==> Octets(n) == 1 + Octets(n - 8) && Octets(n) > 1 && (n - 8) % 8 == n % 8
    ensures n > 8 ==> NumberOctets(x, n) == [CutOctet(x, 8)] + NumberOctets(ShiftRight(x, 8), n - 8)
  {
    hide LowBits, ShiftRight, CutOctet;
  }

  lemma ShiftRightNone(x: nat)
    ensures ShiftRight(x, 0) == x
  {
  }

  lemma {:induction false} ShiftRightTwice(x: nat, j: nat, k: nat)
    ensures ShiftRight(ShiftRight(x, j), k) == ShiftRight(x, j + k)
    decreases j
  {
    if j > 0 { ShiftRightTwice(x / 2, j - 1, k); }
  }
}
