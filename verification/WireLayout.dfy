/**
 The encodings octet by octet, with the codes, widths and places of the standards written out.
 Encoder and decoder are inverse to each other elsewhere; here is what stands on the wire.
 */
module WireLayout {
  import opened Bits
  import opened BitCursor
  import opened BitRefs
  import opened Fields
  import opened Per
  import opened OpenType
  import opened ExtGroups
  import opened BitString
  import Nas
  import opened NasIdentity

  // ----- numbers and lengths (X.691) -----

  /** The octet count of the length-prefixed regime is the least that holds the number. */
  lemma OctetCountLeast(x: nat, m: nat)
    requires m >= 1
    ensures MinOctets(x) <= m <==> x < Pow2(8 * m)
  {
    hide BitLength, Pow2;
    BitLengthLeast(if x == 0 then 1 else x, 8 * m);
    if x == 0 { AboveOne(8 * m); }
  }

  lemma AboveOne(k: nat)
    requires k >= 1
    ensures 1 < Pow2(k)
  {
    Pow2Mono(1, k);
  }

  /** Section 10.5, a range of at most 255 values or the unaligned form: the least width, big endian. */
  lemma BitFieldNumber(x: nat, ra: nat, aligned: bool, pos: nat)
    requires x < ra <= EXACT_RANGE && ra > 1 && (!aligned || ra <= 255)
    ensures var w := EncNumber(x, ra, aligned, pos);
      |w| > 0 && Pow2(|w| - 1) < ra <= Pow2(|w|) && w == NatBits(x, |w|)
  {
    hide NatBits, CeilLog2, Pow2;
    CeilLog2Bounds(ra);
    CeilLog2Least(ra, 0);
    assert Pow2(0) == 1 by { Pow2Zero(); }
  }

  lemma Pow2Zero()
    ensures Pow2(0) == 1
  {
  }

  /** Section 10.5, aligned: up to 256 values one octet and up to 65536 values two, on an octet boundary. */
  lemma OctetNumber(x: nat, ra: nat, pos: nat)
    requires x < ra && 256 <= ra <= 65536
    ensures EncNumber(x, ra, true, pos) == Pad(pos) + NatBits(x, if ra == 256 then 8 else 16)
  {
    hide NatBits, CeilLog2, Pow2;
    Pow2Words();
    CeilLog2Bounds(ra);
    CeilLog2Least(ra, 8);
    CeilLog2Least(ra, 16);
    CeilLog2Least(ra, 7);
    Pow2Seven();
    var k := CeilLog2(ra);
    BitsZeroExtend(x, k, Up8(k) - k);
  }

  lemma Pow2Seven()
    ensures Pow2(7) == 128
  {
  }

  /**
   Section 10.5, aligned, more than 65536 values (and up to 2^20): two bits hold the number of
   octets less one, and as many octets as the number needs follow on an octet boundary.
   */
  lemma PrefixedNumber(x: nat, ra: nat, pos: nat)
    requires x < ra && 65536 < ra <= EXACT_RANGE
    ensures var m := if x < 0x100 then 1 else if x < 0x1_0000 then 2 else 3;
      EncNumber(x, ra, true, pos) == NatBits(m - 1, 2) + Pad(pos + 2) + NatBits(x, 8 * m)
  {
    hide NatBits, CeilLog2, Pow2, MinOctets;
    Pow2Words();
    CeilLog2Least(ra, 16);
    CeilLog2Least(ra, 24);
    TwoBitPrefix();
    OctetCountLeast(x, 1);
    OctetCountLeast(x, 2);
    OctetCountLeast(x, 3);
  }

  lemma TwoBitPrefix()
    ensures CeilLog2(3) == 2
  {
  }

  /** A single value takes no bits. */
  lemma SingleValue(aligned: bool, pos: nat)
    ensures EncNumber(0, 1, aligned, pos) == []
  {
  }

  /** The unaligned decoder returns numbers of the range only; the aligned one does not look. */
  lemma DecodedInRange(bits: seq<bool>, pos: nat, ra: nat)
    requires pos <= |bits| && |bits| % 8 == 0 && ra > 0
    ensures DecNumber(bits, pos, ra, false).ok ==> DecNumber(bits, pos, ra, false).v < ra
    ensures DecNumber(seq(8, i => true), 0, 3, true) == Rd(true, 3, 2)
  {
    hide Read;
    var ones := seq(8, i => true);
    assert CeilLog2(3) == 2;
    assert NatBits(3, 2) == [true, true];
    assert At(ones, 0, NatBits(3, 2));
    assert Pow2(2) == 4;
    ReadNat(ones, 0, 3, 2);
  }

  /** Section 10.6: a zero bit and six bits; a one bit is refused. */
  lemma SmallNumber(n: nat, bits: seq<bool>, pos: nat)
    requires pos < |bits|
    ensures n <= 63 ==> EncSmall(n).w == [false] + NatBits(n, 6)
    ensures n > 63 ==> EncSmall(n).w == [true]
    ensures bits[pos] ==> !DecSmall(bits, pos).ok
  {
    ReadFlag(bits, pos);
    hide Read;
    OneBit(true);
    OneBit(false);
    assert Pow2(6) == 64;
    if n <= 63 { FlaggedBits(n, 6); }
  }

  /**
   Section 10.9: one octet below 128, two octets headed by `10` below 16384, and in the aligned
   variant, up to 65536, an octet headed by `11` with the number of 16K blocks and the rest in two
   octets. The aligned variant starts on an octet boundary.
   */
  lemma LengthOctets(n: nat, aligned: bool, pos: nat)
    ensures var e := EncLength(n, aligned, pos);
      var pad := if aligned then Pad(pos) else [];
      && (e.ok <==> n < 16384 || (aligned && n <= 65536))
      && (n < 128 ==> e.w == pad + NatBits(n, 8))
      && (128 <= n < 16384 ==> e.w == pad + NatBits(0x8000 + n, 16))
      && (e.ok && n >= 16384 ==> e.w == pad + (NatBits(0xC0 + n / 16384, 8) + NatBits(n % 16384, 16)))
      && (!e.ok ==> e.w == [])
  {
    hide NatBits, Pad;
    assert Pow2(14) == 16384 && Pow2(6) == 64;
    ShiftLeftIsMul(2, 14);
    ShiftLeftIsMul(3, 6);
    hide Pow2, ShiftLeft;
    if 128 <= n < 16384 { NatBitsJoin(2, 2, n, 14); }
    if 16384 <= n <= 65536 { NatBitsJoin(3, 2, n / 16384, 6); }
  }

  /** Lengths headed by `11`, those of fragments, are refused by both decoders. */
  lemma FragmentsRefused(bits: seq<bool>, pos: nat)
    requires |bits| % 8 == 0 && pos + 2 <= |bits|
    ensures bits[pos] && bits[pos + 1] ==> !DecLength(bits, pos, false).ok
    ensures pos % 8 == 0 && Read(bits, pos, 8).v >= 192 ==> !DecLength(bits, pos, true).ok
  {
    ReadFlag(bits, pos);
    ReadFlag(bits, pos + 1);
    hide Read;
  }

  // ----- open types and extension groups -----

  /** An open type is its body in whole octets behind their number; what fills the last octet is zero. */
  lemma OpenOctets(body: seq<bool>, aligned: bool, pos: nat)
    ensures var l := EncLength((|body| + 7) / 8, aligned, pos).w;
      var w := EncOpen(body, aligned, pos);
      && |w| == |l| + 8 * ((|body| + 7) / 8) && l + body <= w
      && (forall i :: |l| + |body| <= i < |w| ==> !w[i])
  {
    hide EncLength;
    PaddedSize(|body|);
    var l := EncLength((|body| + 7) / 8, aligned, pos).w;
    assert EncOpen(body, aligned, pos) == l + body + Pad(|body|);
  }

  /** An octet string is its length and its octets, most significant bit first. */
  lemma StringOctets(data: seq<Byte>, aligned: bool, pos: nat)
    ensures Enc(OctetString(data, End), pos, aligned) == EncLength(|data|, aligned, pos).w + BytesBits(data)
  {
    hide EncLength, BytesBits;
    var w := EncLength(|data|, aligned, pos).w + BytesBits(data);
    EncStep(OctetString(data, End), pos, aligned);
    EncStep(End, pos + |w|, aligned);
    assert w + [] == w;
  }

  /** The extension groups: how many flags follow, less one, in seven bits, then a flag for each group. */
  lemma GroupFlags(flags: seq<bool>)
    requires 1 <= Used(flags) <= 64
    ensures var w := EncGroups(flags).w;
      && |w| == 7 + Used(flags) && w[..7] == NatBits(Used(flags) - 1, 7)
      && (forall i :: 0 <= i < Used(flags) ==> w[7 + i] == flags[i])
      && flags[Used(flags) - 1] && forall i :: Used(flags) <= i < |flags| ==> !flags[i]
  {
    hide NatBits;
  }

  // ----- bit strings -----

  /**
   The size prefix of a bit string: with an extension marker, a bit that is set for a size out of
   bounds; then nothing for a fixed size, the size above the lower bound in the least width for
   `ub - lb` within bounds, and a length determinant otherwise. Out of bounds without a marker, and
   a marker without bounds, are refused.
   */
  lemma SizePrefix(len: nat, s: Size)
    requires s.Valid()
    ensures var e, n := EncPrefix(len, s), if s.ext then 1 else 0;
      var within, unbounded := s.lb <= len <= s.ub, s.ub == 0xFFFF_FFFF;
      && ((s.ext && unbounded) || (!within && !s.ext) ==> !e.ok)
      && (e.ok ==>
        && |e.w| >= n && (s.ext ==> e.w[0] == !within)
        && (within && s.lb == s.ub ==> e.w[n..] == [])
        && (within && s.lb < s.ub && !unbounded ==>
          && s.ub - s.lb <= Pow2(|e.w| - n) && (|e.w| > n ==> Pow2(|e.w| - n - 1) < s.ub - s.lb)
          && e.w[n..] == NatBits(len - s.lb, |e.w| - n))
        && (!within || (unbounded && s.lb < s.ub) ==> e.w[n..] == EncLength(len, false, 0).w))
  {
    hide NatBits, CeilLog2, Pow2, EncLength;
    var z := SizeBits(len, s).w;
    assert ([!s.Within(len)] + z)[1..] == z;
    assert z[0..] == z;
    if s.lb < s.ub {
      CeilLog2Bounds(s.ub - s.lb);
      CeilLog2Least(s.ub - s.lb, 0);
      Pow2Zero();
    }
  }

  // ----- S-NSSAI and NSSAI (sections 9.11.2.8 and 9.11.3.37 of TS 24.501) -----

  /** Length octet, slice type, differentiator and mapped values, each in its octets. */
  lemma EntryOctets(e: Nas.SNssai)
    ensures var w := Nas.EncEntry(e);
      && w[..8] == NatBits((|w| - 8) / 8, 8)
      && (e.Sst? ==> |w| == 16 && w[8..] == NatBits(e.sst, 8))
      && (e.SstMapped? ==> |w| == 24 && w[8..16] == NatBits(e.sst, 8) && w[16..] == NatBits(e.mappedSst, 8))
      && (e.SstSd? ==> |w| == 40 && w[8..16] == NatBits(e.sst, 8) && w[16..] == NatBits(e.sd, 24))
      && (e.SstSdMapped? ==>
        && |w| == 72 && w[8..16] == NatBits(e.sst, 8) && w[16..40] == NatBits(e.sd, 24)
        && w[40..48] == NatBits(e.mappedSst, 8) && w[48..] == NatBits(e.mappedSd, 24))
  {
    hide NatBits, FieldBits, Nas.EncEntry;
    Nas.EntryParts(e);
    match e
    case Sst(x) =>
      FieldBits1(Field(x, 8));
      Parts(NatBits(1, 8), NatBits(x, 8), [], []);
    case SstMapped(x, m) =>
      FieldBits2(Field(x, 8), Field(m, 8));
      Parts(NatBits(2, 8), NatBits(x, 8), NatBits(m, 8), []);
    case SstSd(x, d) =>
      FieldBits2(Field(x, 8), Field(d, 24));
      Parts(NatBits(4, 8), NatBits(x, 8), NatBits(d, 24), []);
    case SstSdMapped(x, d, m, md) =>
      FourFields(e);
      Parts(NatBits(8, 8), NatBits(x, 8), NatBits(d, 24), NatBits(m, 8) + NatBits(md, 24));
      var w := Nas.EncEntry(e);
      Stretch(w, 40, 8, 24, NatBits(m, 8), NatBits(md, 24));
    case Unsupported =>
      Parts(NatBits(0, 8), [], [], []);
  }

  /** Four stretches of bits, each found in its place. */
  lemma Parts(a: seq<bool>, b: seq<bool>, c: seq<bool>, d: seq<bool>)
    ensures var w := a + (b + c + d);
      var i, j, k := |a|, |a| + |b|, |a| + |b| + |c|;
      && w[..i] == a && w[i..j] == b && w[j..k] == c && w[k..] == d
      && (c == [] && d == [] ==> w == a + b && w[i..] == b)
      && (d == [] ==> w == a + (b + c) && w[j..] == c)
  {
  }

  lemma FourFields(e: Nas.SNssai)
    requires e.SstSdMapped?
    ensures FieldBits(Nas.EntryFields(e))
         == NatBits(e.sst, 8) + NatBits(e.sd, 24) + (NatBits(e.mappedSst, 8) + NatBits(e.mappedSd, 24))
  {
    hide NatBits, FieldBits;
    var f, g := [Field(e.sst, 8), Field(e.sd, 24)], [Field(e.mappedSst, 8), Field(e.mappedSd, 24)];
    FieldBitsConcat(f, g);
    FieldBits2(f[0], f[1]);
    FieldBits2(g[0], g[1]);
    assert f + g == Nas.EntryFields(e);
  }

  /** The decoder takes an entry of one, two, four or eight octets and no other. */
  lemma EntryLengths(bits: seq<bool>, pos: nat)
    requires pos <= |bits|
    ensures Nas.DecEntry(bits, pos).ok ==> Read(bits, pos, 8).v in {1, 2, 4, 8}
  {
    hide Read, ReadFields;
  }

  /** The list is its entries one after the other behind the number of their octets, modulo 256. */
  lemma NssaiOctets(es: seq<Nas.SNssai>, fs: seq<Nas.SNssai>)
    ensures var w := Nas.EncNssai(es);
      w[..8] == NatBits((|w| - 8) / 8 % 256, 8) && w[8..] == Nas.EncList(es)
    ensures Nas.EncList(es + fs) == Nas.EncList(es) + Nas.EncList(fs)
    ensures es != [] ==> Nas.EncEntry(es[0]) <= Nas.EncList(es)
  {
    hide NatBits, Nas.EncEntry, Nas.EncList;
    Nas.NssaiParts(es);
    ListConcat(es, fs);
    ListUnfold(es);
  }

  lemma ListUnfold(es: seq<Nas.SNssai>)
    ensures Nas.EncList(es) == if es == [] then [] else Nas.EncEntry(es[0]) + Nas.EncList(es[1..])
  {
    hide Nas.EncEntry;
  }

  lemma {:induction false} ListConcat(es: seq<Nas.SNssai>, fs: seq<Nas.SNssai>)
    ensures Nas.EncList(es + fs) == Nas.EncList(es) + Nas.EncList(fs)
  {
    hide Nas.EncEntry, Nas.EncList;
    ListUnfold(es);
    ListUnfold(es + fs);
    if es == [] {
      assert es + fs == fs;
      assert [] + Nas.EncList(fs) == Nas.EncList(fs);
    } else {
      ListConcat(es[1..], fs);
      assert (es + fs)[1..] == es[1..] + fs;
      Reassociate(Nas.EncEntry(es[0]), Nas.EncList(es[1..]), Nas.EncList(fs));
    }
  }

  /** A list of any other length than 2 to 144 octets is refused by the decoder. */
  lemma NssaiLengths(bits: seq<bool>, pos: nat)
    requires pos <= |bits|
    ensures Nas.DecNssai(bits, pos).ok ==> 2 <= Read(bits, pos, 8).v <= 144
  {
    hide Read, Nas.DecList;
  }

  // ----- mobile identities (section 9.11.3.4 of TS 24.501) -----

  /** The bits of field `i` stand behind those of the fields before it. */
  lemma {:induction false} FieldPlace(fs: seq<Field>, i: nat, at: nat)
    requires i < |fs| && at == |FieldBits(fs[..i])|
    ensures at + fs[i].n <= |FieldBits(fs)| && FieldBits(fs)[at..at + fs[i].n] == NatBits(fs[i].v, fs[i].n)
  {
    hide NatBits, FieldBits;
    var before, rest := fs[..i], fs[i..];
    assert fs == before + rest;
    FieldBitsConcat(before, rest);
    FieldBitsStep(rest);
    Middle(FieldBits(before), NatBits(fs[i].v, fs[i].n), FieldBits(rest[1..]));
  }

  lemma Middle(a: seq<bool>, b: seq<bool>, c: seq<bool>)
    ensures (a + (b + c))[|a|..|a| + |b|] == b
  {
  }

  /** The fields behind the length: what leads to `Content`. */
  function AllFields(id: Identity, s: Spare): seq<Field>
    requires WellFormed(id)
  {
    [Field(Shared(id, s.bit), 5), Field(Kind(id), 3)] + RestFields(id, s.nibble)
  }

  /** Field `i` of an identity stands in its content at bit `at`, where the fields before it end. */
  lemma ContentPlace(id: Identity, s: Spare, i: nat, at: nat)
    requires WellFormed(id) && i < |AllFields(id, s)| && at == SumTo(AllFields(id, s), i)
    ensures var f := AllFields(id, s)[i];
      at + f.n <= |Content(id, s)| && Content(id, s)[at..at + f.n] == NatBits(f.v, f.n)
  {
    hide NatBits, FieldBits, BytesBits, RestFields, Shared, Kind;
    var fs := AllFields(id, s);
    SumToBits(fs, i);
    FieldPlace(fs, i, at);
    Front(FieldBits(fs), BytesBits(Output(id)), at, fs[i].n);
  }

  lemma Front(a: seq<bool>, b: seq<bool>, at: nat, n: nat)
    requires at + n <= |a|
    ensures (a + b)[at..at + n] == a[at..at + n]
  {
  }

  /** The widths of the first `i` fields together. */
  function SumTo(fs: seq<Field>, i: nat): nat
    requires i <= |fs|
  {
    if i == 0 then 0 else SumTo(fs, i - 1) + fs[i - 1].n
  }

  lemma {:induction false} SumToBits(fs: seq<Field>, i: nat)
    requires i <= |fs|
    ensures |FieldBits(fs[..i])| == SumTo(fs, i)
  {
    hide NatBits, FieldBits;
    if i == 0 {
      FieldBitsStep(fs[..0]);
    } else {
      SumToBits(fs, i - 1);
      assert fs[..i] == fs[..i - 1] + [fs[i - 1]];
      FieldBitsConcat(fs[..i - 1], [fs[i - 1]]);
      FieldBits1(fs[i - 1]);
    }
  }

  lemma Stretch(w: seq<bool>, at: nat, a: nat, b: nat, u: seq<bool>, v: seq<bool>)
    requires at + a + b <= |w| && |u| == a && |v| == b && w[at..at + a + b] == u + v
    ensures w[at..at + a] == u && w[at + a..at + a + b] == v
  {
    assert w[at..at + a] == w[at..at + a + b][..a];
    assert w[at + a..at + a + b] == w[at..at + a + b][a..];
  }

  /** Behind the length, which counts the octets that follow it modulo 65536, bits 6 to 8 are the type. */
  lemma TypeOfIdentity(id: Identity, s: Spare)
    requires WellFormed(id)
    ensures var w := EncIdentity(id, s);
      w[..16] == NatBits((|w| - 16) / 8 % 65536, 16) && w[16..] == Content(id, s)
    ensures |Content(id, s)| >= 8
    ensures var code := if id.Suci? then 1 else if id.Guti? then 2 else if id.Imei? then 3 else 5;
      Content(id, s)[5..8] == NatBits(code, 3)
  {
    hide NatBits, Content, RestFields, Shared, SumTo;
    ContentLengthOk(id, s);
    AtLeastEight(id);
    LengthAndContent(id, s);
    hide EncIdentity, ContentOctets;
    FirstSums(AllFields(id, s));
    ContentPlace(id, s, 1, 5);
  }

  lemma FirstSums(fs: seq<Field>)
    requires |fs| >= 2
    ensures SumTo(fs, 0) == 0 && SumTo(fs, 1) == fs[0].n
  {
  }

  /**
   IMEI and IMEISV: the first digit and the odd/even flag share the type octet; in octet `k` behind
   it stand digit `2k` in the high and digit `2k - 1` in the low half; the last digit of an IMEISV
   follows a filler of ones.
   */
  lemma DigitOctets(id: Identity, s: Spare, k: nat)
    requires WellFormed(id) && (id.Imei? || id.Imeisv?) && 1 <= k <= 7
    ensures |Content(id, s)| == if id.Imei? then 64 else 72
    ensures Content(id, s)[..4] == NatBits(id.digits[0], 4) && Content(id, s)[4] == id.odd
    ensures Content(id, s)[8 * k..8 * k + 4] == NatBits(id.digits[2 * k], 4)
    ensures Content(id, s)[8 * k + 4..8 * k + 8] == NatBits(id.digits[2 * k - 1], 4)
    ensures id.Imeisv? ==>
      Content(id, s)[64..68] == NatBits(15, 4) && Content(id, s)[68..72] == NatBits(id.digits[15], 4)
  {
    hide Content, NatBits, SumTo, AllFields;
    ContentLengthOk(id, s);
    SharedDigit(id, s);
    DigitSums(id, s, k);
    ContentPlace(id, s, 2 * k, 8 * k);
    ContentPlace(id, s, 2 * k + 1, 8 * k + 4);
    if id.Imeisv? {
      DigitSums(id, s, 8);
      ContentPlace(id, s, 16, 64);
      ContentPlace(id, s, 17, 68);
    }
  }

  /** Behind the type octet of an IMEI or IMEISV all fields are half octets. */
  lemma DigitSums(id: Identity, s: Spare, k: nat)
    requires WellFormed(id) && (id.Imei? || id.Imeisv?) && 1 <= k <= (if id.Imei? then 7 else 8)
    ensures var fs := AllFields(id, s);
      && |fs| == (if id.Imei? then 16 else 18)
      && SumTo(fs, 2 * k) == 8 * k && SumTo(fs, 2 * k + 1) == 8 * k + 4
      && fs[2 * k].n == fs[2 * k + 1].n == 4
      && (k <= 7 ==> fs[2 * k].v == id.digits[2 * k] && fs[2 * k + 1].v == id.digits[2 * k - 1])
      && (k == 8 ==> fs[2 * k].v == 15 && fs[2 * k + 1].v == id.digits[15])
  {
    var fs := AllFields(id, s);
    DigitPlaces(id.digits);
    assert forall j :: 2 <= j < |fs| ==> fs[j] == RestFields(id, s.nibble)[j - 2];
    hide DigitFields;
    HalfOctets(fs, 2 * k);
    HalfOctets(fs, 2 * k + 1);
  }

  lemma DigitPlaces(d: seq<nat>)
    requires |d| >= 15
    ensures |DigitFields(d)| == 14
    ensures forall j :: 0 <= j < 14 ==> DigitFields(d)[j] == Field(if j % 2 == 0 then d[j + 2] else d[j], 4)
  {
  }

  lemma {:induction false} HalfOctets(fs: seq<Field>, i: nat)
    requires 2 <= i <= |fs| && fs[0].n == 5 && fs[1].n == 3 && forall j :: 2 <= j < |fs| ==> fs[j].n == 4
    ensures SumTo(fs, i) == 4 * i
  {
    if i == 2 {
      assert SumTo(fs, 0) == 0 && SumTo(fs, 1) == 5;
    } else {
      HalfOctets(fs, i - 1);
    }
  }

  lemma SharedDigit(id: Identity, s: Spare)
    requires WellFormed(id) && (id.Imei? || id.Imeisv?) && |Content(id, s)| >= 8
    ensures Content(id, s)[..4] == NatBits(id.digits[0], 4) && Content(id, s)[4] == id.odd
  {
    hide Content, RestFields, NatBits;
    assert SumTo(AllFields(id, s), 0) == 0;
    ContentPlace(id, s, 0, 0);
    JoinFlag(id.digits[0], id.odd);
    OneBit(id.odd);
    Stretch(Content(id, s), 0, 4, 1, NatBits(id.digits[0], 4), [id.odd]);
    assert Content(id, s)[4] == Content(id, s)[4..5][0];
  }

  /** SUCI and 5G-GUTI: the digits of country and network code in the three octets behind the type. */
  lemma PlmnOctets(id: Identity, s: Spare)
    requires WellFormed(id) && (id.Suci? || id.Guti?)
    ensures var w, p := Content(id, s), id.plmn;
      && |w| >= 64
      && w[8..12] == NatBits(p.mcc1, 4) && w[12..16] == NatBits(p.mcc0, 4)
      && w[16..20] == NatBits(p.mnc2, 4) && w[20..24] == NatBits(p.mcc2, 4)
      && w[24..28] == NatBits(p.mnc1, 4) && w[28..32] == NatBits(p.mnc0, 4)
  {
    ContentLengthOk(id, s);
    AtLeastEight(id);
    PlmnSums(id, s);
    hide Content, NatBits, SumTo;
    ContentPlace(id, s, 2, 8);
    ContentPlace(id, s, 3, 12);
    ContentPlace(id, s, 4, 16);
    ContentPlace(id, s, 5, 20);
    ContentPlace(id, s, 6, 24);
    ContentPlace(id, s, 7, 28);
  }

  lemma PlmnSums(id: Identity, s: Spare)
    requires WellFormed(id) && (id.Suci? || id.Guti?)
    ensures var fs := AllFields(id, s);
      && |fs| >= 12
      && SumTo(fs, 2) == 8 && SumTo(fs, 3) == 12 && SumTo(fs, 4) == 16 && SumTo(fs, 5) == 20
      && SumTo(fs, 6) == 24 && SumTo(fs, 7) == 28 && SumTo(fs, 8) == 32
  {
    var fs := AllFields(id, s);
    assert SumTo(fs, 0) == 0 && SumTo(fs, 1) == 5 && SumTo(fs, 2) == 8;
    assert SumTo(fs, 3) == 12 && SumTo(fs, 4) == 16 && SumTo(fs, 5) == 20;
  }

  /** SUCI: format in the type octet, routing digits, spare half octet and scheme, key, scheme output. */
  lemma SuciOctets(id: Identity, s: Spare)
    requires WellFormed(id) && id.Suci? && id.format < 8
    ensures var w, r := Content(id, s), id.routing;
      && |w| == 64 + 8 * |id.output|
      && w[0] == s.bit && w[1..4] == NatBits(id.format, 3) && !w[4]
      && w[32..36] == NatBits(r[1], 4) && w[36..40] == NatBits(r[0], 4)
      && w[40..44] == NatBits(r[3], 4) && w[44..48] == NatBits(r[2], 4)
      && w[48..52] == NatBits(s.nibble, 4) && w[52..56] == NatBits(id.scheme, 4) && w[56..64] == NatBits(id.key, 8)
      && w[64..] == BytesBits(id.output)
  {
    ContentLengthOk(id, s);
    SuciFirst(id, s);
    OutputLast(id, s);
    SuciSums(id, s);
    hide Content, NatBits, SumTo, BytesBits;
    ContentPlace(id, s, 8, 32);
    ContentPlace(id, s, 9, 36);
    ContentPlace(id, s, 10, 40);
    ContentPlace(id, s, 11, 44);
    ContentPlace(id, s, 12, 48);
    ContentPlace(id, s, 13, 52);
    ContentPlace(id, s, 14, 56);
  }

  lemma SuciSums(id: Identity, s: Spare)
    requires WellFormed(id) && id.Suci?
    ensures var fs := AllFields(id, s);
      && |fs| == 15 && SumTo(fs, 8) == 32 && SumTo(fs, 9) == 36 && SumTo(fs, 10) == 40 && SumTo(fs, 11) == 44
      && SumTo(fs, 12) == 48 && SumTo(fs, 13) == 52 && SumTo(fs, 14) == 56
  {
    PlmnSums(id, s);
    var fs := AllFields(id, s);
    assert SumTo(fs, 9) == 36 && SumTo(fs, 10) == 40 && SumTo(fs, 11) == 44;
  }

  lemma SuciFirst(id: Identity, s: Spare)
    requires WellFormed(id) && id.Suci? && id.format < 8 && |Content(id, s)| >= 8
    ensures var w := Content(id, s);
      w[0] == s.bit && w[1..4] == NatBits(id.format, 3) && !w[4]
  {
    hide Content, RestFields, NatBits;
    assert SumTo(AllFields(id, s), 0) == 0;
    ContentPlace(id, s, 0, 0);
    SharedBits(s.bit, id.format);
    var w := Content(id, s);
    Stretch(w, 0, 4, 1, [s.bit] + NatBits(id.format, 3), [false]);
    Stretch(w, 0, 1, 3, [s.bit], NatBits(id.format, 3));
    assert w[0] == w[0..1][0] && w[4] == w[4..5][0];
  }

  /** The scheme output stands behind all fields. */
  lemma OutputLast(id: Identity, s: Spare)
    requires WellFormed(id) && id.Suci? && |Content(id, s)| == 64 + 8 * |id.output|
    ensures Content(id, s)[64..] == BytesBits(id.output)
  {
    hide NatBits, FieldBits, BytesBits, RestFields, Shared;
    var f, o := FieldBits(AllFields(id, s)), BytesBits(id.output);
    assert Content(id, s) == f + o;
  }

  /** 5G-GUTI: a zero half octet and flag, AMF region, set, pointer and the temporary identity. */
  lemma GutiOctets(id: Identity, s: Spare)
    requires WellFormed(id) && id.Guti?
    ensures var w := Content(id, s);
      && |w| == 88 && w[..5] == NatBits(0, 5)
      && w[32..40] == NatBits(id.region, 8) && w[40..50] == NatBits(id.set_, 10)
      && w[50..56] == NatBits(id.pointer, 6) && w[56..88] == NatBits(id.tmsi, 32)
  {
    ContentLengthOk(id, s);
    GutiSums(id, s);
    hide Content, NatBits, SumTo;
    ContentPlace(id, s, 0, 0);
    ContentPlace(id, s, 8, 32);
    ContentPlace(id, s, 9, 40);
    ContentPlace(id, s, 10, 50);
    ContentPlace(id, s, 11, 56);
  }

  lemma GutiSums(id: Identity, s: Spare)
    requires WellFormed(id) && id.Guti?
    ensures var fs := AllFields(id, s);
      && |fs| == 12 && SumTo(fs, 0) == 0 && SumTo(fs, 8) == 32 && SumTo(fs, 9) == 40
      && SumTo(fs, 10) == 50 && SumTo(fs, 11) == 56
  {
    PlmnSums(id, s);
    var fs := AllFields(id, s);
    assert SumTo(fs, 9) == 40 && SumTo(fs, 10) == 50;
  }

  /** On any input, the three bits behind the first 21 decide what kind of identity is returned. */
  lemma TypeDecides(bits: seq<bool>, pos: nat)
    requires pos <= |bits|
    ensures var r := DecIdentity(bits, pos);
      r.ok ==>
        && pos + 24 <= |bits|
        && var code := Read(bits, pos + 21, 3).v;
           && (r.v.Suci? <==> code == 1) && (r.v.Guti? <==> code == 2)
           && (r.v.Imei? <==> code == 3) && (r.v.Imeisv? <==> code == 5)
           && (r.v.Other? ==> r.v.kind == code)
  {
    hide Read, RestWidths, OctetsAt;
    assert ReadFields(bits, pos, [16, 5, 3]).ok ==> ReadThree(bits, pos);
  }

  ghost predicate ReadThree(bits: seq<bool>, pos: nat) {
    pos + 24 <= |bits| && ReadFields(bits, pos, [16, 5, 3]).v[2] == Read(bits, pos + 21, 3).v
  }
}
