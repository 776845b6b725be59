/**
 The 5GS mobile identity (section 9.11.3.4 of TS 24.501): a 16-bit length written last, a type
 octet shared with other content, swapped digit nibbles, and for the SUCI spare bits that are
 skipped and keep what the buffer held.
 */
module NasIdentity {
  import opened Bits
  import opened BitCursor
  import opened BitRefs
  import opened Fields
  import opened Per
  import opened OpenType
  import opened Nas

  /** Country and network code digits. */
  datatype Plmn = Plmn(mcc0: nat, mcc1: nat, mcc2: nat, mnc0: nat, mnc1: nat, mnc2: nat)

  /** The identities with a finished packing; `Other` is any further type that was read. */
  datatype Identity =
    | Suci(format: nat, plmn: Plmn, routing: seq<nat>, scheme: nat, key: nat, output: seq<Byte>)
    | Guti(plmn: Plmn, region: nat, set_: nat, pointer: nat, tmsi: nat)
    | Imei(odd: bool, digits: seq<nat>)
    | Imeisv(odd: bool, digits: seq<nat>)
    | Other(kind: nat)

  const SUCI := 1
  const GUTI := 2
  const IMEI := 3
  const S_TMSI := 4
  const IMEISV := 5

  function Bit(b: bool): nat {
    if b then 1 else 0
  }

  function PlmnFields(p: Plmn): seq<Field> {
    [Field(p.mcc1, 4), Field(p.mcc0, 4), Field(p.mnc2, 4), Field(p.mcc2, 4), Field(p.mnc1, 4), Field(p.mnc0, 4)]
  }

  /** Digits 1 to 14 in pairs, the second of a pair first. */
  function DigitFields(d: seq<nat>): seq<Field>
    requires |d| >= 15
  {
    [Field(d[2], 4), Field(d[1], 4), Field(d[4], 4), Field(d[3], 4), Field(d[6], 4), Field(d[5], 4),
     Field(d[8], 4), Field(d[7], 4), Field(d[10], 4), Field(d[9], 4), Field(d[12], 4), Field(d[11], 4),
     Field(d[14], 4), Field(d[13], 4)]
  }

  ghost predicate WellFormed(id: Identity) {
    match id
    case Suci(_, _, routing, _, _, _) => |routing| == 4
    case Guti(_, _, _, _, _) => true
    case Imei(_, digits) => |digits| == 15
    case Imeisv(_, digits) => |digits| == 16
    case Other(_) => false
  }

  function Kind(id: Identity): nat {
    match id
    case Suci(_, _, _, _, _, _) => SUCI
    case Guti(_, _, _, _, _) => GUTI
    case Imei(_, _) => IMEI
    case Imeisv(_, _) => IMEISV
    case Other(k) => k
  }

  /** The five bits before the type; `spare` is the bit that the buffer held before. */
  function Shared(id: Identity, spare: bool): nat
    requires WellFormed(id)
  {
    match id
    case Suci(format, _, _, _, _, _) => 16 * Bit(spare) + 2 * format
    case Guti(_, _, _, _, _) => 0
    case Imei(odd, digits) => 2 * digits[0] + Bit(odd)
    case Imeisv(odd, digits) => 2 * digits[0] + Bit(odd)
  }

  /** The fields behind the type octet; `nibble` is the spare nibble of a SUCI. */
  function RestFields(id: Identity, nibble: nat): seq<Field>
    requires WellFormed(id)
  {
    match id
    case Suci(_, plmn, r, scheme, key, _) =>
      PlmnFields(plmn) + [Field(r[1], 4), Field(r[0], 4), Field(r[3], 4), Field(r[2], 4)]
      + [Field(nibble, 4), Field(scheme, 4), Field(key, 8)]
    case Guti(plmn, region, set_, pointer, tmsi) =>
      PlmnFields(plmn) + [Field(region, 8), Field(set_, 10), Field(pointer, 6), Field(tmsi, 32)]
    case Imei(_, digits) => DigitFields(digits)
    case Imeisv(_, digits) => DigitFields(digits) + [Field(0xf, 4), Field(digits[15], 4)]
  }

  function Output(id: Identity): seq<Byte> {
    if id.Suci? then id.output else []
  }

  /** Octets behind the length. */
  function ContentOctets(id: Identity): nat {
    match id
    case Suci(_, _, _, _, _, output) => 8 + |output|
    case Guti(_, _, _, _, _) => 11
    case Imei(_, _) => 8
    case Imeisv(_, _) => 9
    case Other(_) => 0
  }

  /** What the buffer held in the places that are skipped. */
  datatype Spare = Spare(bit: bool, nibble: nat)

  function Content(id: Identity, s: Spare): seq<bool>
    requires WellFormed(id)
  {
    FieldBits([Field(Shared(id, s.bit), 5), Field(Kind(id), 3)] + RestFields(id, s.nibble)) + BytesBits(Output(id))
  }

  function EncIdentity(id: Identity, s: Spare): seq<bool>
    requires WellFormed(id)
  {
    NatBits(ContentOctets(id) % 65536, 16) + Content(id, s)
  }

  /** Every digit and number fits the bits it is written in. */
  ghost predicate InRange(id: Identity, nibble: nat)
    requires WellFormed(id)
  {
    && (forall i :: 0 <= i < |RestFields(id, nibble)| ==> Exact(RestFields(id, nibble)[i]))
    && (id.Suci? ==> id.format < 8)
    && (id.Imei? || id.Imeisv? ==> id.digits[0] < 16)
  }

  function PlmnWidths(): seq<nat> {
    [4, 4, 4, 4, 4, 4]
  }

  function DigitWidths(): seq<nat> {
    [4, 4, 4, 4, 4, 4, 4, 4, 4, 4, 4, 4, 4, 4]
  }

  function RestWidths(kind: nat): (ws: seq<nat>)
    ensures forall i :: 0 <= i < |ws| ==> ws[i] <= 32
  {
    if kind == SUCI then PlmnWidths() + [4, 4, 4, 4] + [4, 4, 8]
    else if kind == GUTI then PlmnWidths() + [8, 10, 6, 32]
    else if kind == IMEI then DigitWidths()
    else if kind == IMEISV then DigitWidths() + [4, 4]
    else if kind == S_TMSI then [10, 6, 32]
    else []
  }

  function PlmnOf(v: seq<nat>): Plmn
    requires |v| >= 6
  {
    Plmn(v[1], v[0], v[3], v[5], v[4], v[2])
  }

  function DigitsOf(first: nat, v: seq<nat>): seq<nat>
    requires |v| >= 14
  {
    [first, v[1], v[0], v[3], v[2], v[5], v[4], v[7], v[6], v[9], v[8], v[11], v[10], v[13], v[12]]
  }

  function IdentityOf(kind: nat, shared: nat, v: seq<nat>, output: seq<Byte>): Identity
    requires |v| == |RestWidths(kind)|
  {
    if kind == SUCI then Suci(shared / 2 % 8, PlmnOf(v), [v[7], v[6], v[9], v[8]], v[11], v[12], output)
    else if kind == GUTI then Guti(PlmnOf(v), v[6], v[7], v[8], v[9])
    else if kind == IMEI then Imei(shared % 2 == 1, DigitsOf(shared / 2 % 16, v))
    else if kind == IMEISV then Imeisv(shared % 2 == 1, DigitsOf(shared / 2 % 16, v) + [v[15]])
    else Other(kind)
  }

  /** The octets of scheme output that the length announces, as a 32-bit difference. */
  function OutputLength(kind: nat, length: nat): nat {
    if kind != SUCI then 0 else (length + UINT32_RANGE - 8) % UINT32_RANGE
  }

  function DecIdentity(bits: seq<bool>, pos: nat): (r: Rd<Identity>)
    requires pos <= |bits|
    ensures pos <= r.pos <= |bits|
  {
    var h := ReadFields(bits, pos, [16, 5, 3]);
    if !h.ok then Rd(false, Other(0), h.pos)
    else
      var kind := h.v[2];
      var f := ReadFields(bits, h.pos, RestWidths(kind));
      var n := OutputLength(kind, h.v[0]);
      if !f.ok || f.pos + 8 * n > |bits| then Rd(false, Other(kind), f.pos)
      else Rd(true, IdentityOf(kind, h.v[1], f.v, OctetsAt(bits, f.pos, n)), f.pos + 8 * n)
  }

  // ----- round trip -----

  lemma RestRoundTrip(id: Identity, s: Spare)
    requires WellFormed(id) && InRange(id, s.nibble)
    ensures Widths(RestFields(id, s.nibble)) == RestWidths(Kind(id))
    ensures IdentityOf(Kind(id), Shared(id, s.bit), Values(RestFields(id, s.nibble)), Output(id)) == id
    ensures Shared(id, s.bit) < 32
  {
    hide Exact, IdentityOf;
    RestWidthsMatch(id, s.nibble);
    match id
    case Suci(_, _, _, _, _, _) => SuciValues(id, s);
    case Guti(_, _, _, _, _) => GutiValues(id, s);
    case Imei(_, _) => ImeiValues(id, s);
    case Imeisv(_, _) => ImeiValues(id, s);
  }

  lemma RestWidthsMatch(id: Identity, nibble: nat)
    requires WellFormed(id)
    ensures Widths(RestFields(id, nibble)) == RestWidths(Kind(id))
  {
  }

  lemma SuciValues(id: Identity, s: Spare)
    requires WellFormed(id) && id.Suci? && id.format < 8
    ensures |RestFields(id, s.nibble)| == |RestWidths(SUCI)|
    ensures IdentityOf(SUCI, Shared(id, s.bit), Values(RestFields(id, s.nibble)), id.output) == id
  {
    var v := Values(RestFields(id, s.nibble));
    assert [v[7], v[6], v[9], v[8]] == id.routing;
  }

  lemma GutiValues(id: Identity, s: Spare)
    requires WellFormed(id) && id.Guti?
    ensures |RestFields(id, s.nibble)| == |RestWidths(GUTI)|
    ensures IdentityOf(GUTI, Shared(id, s.bit), Values(RestFields(id, s.nibble)), []) == id
  {
  }

  lemma ImeiValues(id: Identity, s: Spare)
    requires WellFormed(id) && (id.Imei? || id.Imeisv?) && id.digits[0] < 16
    ensures |RestFields(id, s.nibble)| == |RestWidths(Kind(id))|
    ensures IdentityOf(Kind(id), Shared(id, s.bit), Values(RestFields(id, s.nibble)), []) == id
  {
    hide DigitsOf, PlmnOf, DigitFields, RestFields;
    var d, v := id.digits, Values(RestFields(id, s.nibble));
    ImeiFields(id, s.nibble);
    if id.Imeisv? {
      assert d == d[..15] + [d[15]];
    } else {
      assert d == d[..15];
    }
    DigitValues(d, v);
  }

  lemma ImeiFields(id: Identity, nibble: nat)
    requires WellFormed(id) && (id.Imei? || id.Imeisv?)
    ensures var v, d := Values(RestFields(id, nibble)), id.digits;
      && |RestFields(id, nibble)| == |v| == (if id.Imei? then 14 else 16)
      && |DigitFields(d)| == 14 && (forall i :: 0 <= i < 14 ==> v[i] == DigitFields(d)[i].v)
      && (id.Imeisv? ==> v[15] == d[15])
  {
    var fs, d := RestFields(id, nibble), id.digits;
    assert |DigitFields(d)| == 14;
    hide DigitFields;
    assert forall i :: 0 <= i < 14 ==> fs[i] == DigitFields(d)[i];
  }

  lemma DigitValues(d: seq<nat>, v: seq<nat>)
    requires |d| >= 15 && |v| >= 14 && forall i :: 0 <= i < 14 ==> v[i] == DigitFields(d)[i].v
    ensures DigitsOf(d[0], v) == d[..15]
  {
  }

  /** The content fills whole octets, as many as the length says. */
  lemma ContentLengthOk(id: Identity, s: Spare)
    requires WellFormed(id)
    ensures |Content(id, s)| == 8 * ContentOctets(id)
  {
    hide NatBits, BytesBits;
    var head := [Field(Shared(id, s.bit), 5), Field(Kind(id), 3)];
    FieldBitsConcat(head, RestFields(id, s.nibble));
    FieldBits2(head[0], head[1]);
    RestLength(id, s.nibble);
  }

  lemma FieldBitsStep(fs: seq<Field>)
    ensures FieldBits(fs) == if fs == [] then [] else NatBits(fs[0].v, fs[0].n) + FieldBits(fs[1..])
  {
    hide NatBits;
  }

  lemma {:induction false} FieldBitsConcat(a: seq<Field>, b: seq<Field>)
    ensures FieldBits(a + b) == FieldBits(a) + FieldBits(b)
  {
    hide NatBits, FieldBits;
    FieldBitsStep(a);
    FieldBitsStep(a + b);
    if a == [] {
      assert a + b == b;
      assert [] + FieldBits(b) == FieldBits(b);
    } else {
      FieldBitsConcat(a[1..], b);
      assert (a + b)[1..] == a[1..] + b;
    }
  }

  lemma RestLength(id: Identity, nibble: nat)
    requires WellFormed(id)
    ensures |FieldBits(RestFields(id, nibble))| + 8 + 8 * |Output(id)| == 8 * ContentOctets(id)
  {
    var ws := Widths(RestFields(id, nibble));
    FieldBitsLength(RestFields(id, nibble));
    RestWidthsMatch(id, nibble);
    hide FieldBits, RestFields, SumWidths;
    SumRest(Kind(id));
  }

  lemma SumRest(kind: nat)
    ensures kind == SUCI ==> SumWidths(RestWidths(kind)) == 56
    ensures kind == GUTI ==> SumWidths(RestWidths(kind)) == 80
    ensures kind == IMEI ==> SumWidths(RestWidths(kind)) == 56
    ensures kind == IMEISV ==> SumWidths(RestWidths(kind)) == 64
  {
    hide SumWidths;
    if kind == SUCI {
      SumFours(PlmnWidths() + [4, 4, 4, 4]);
      SumConcat(PlmnWidths() + [4, 4, 4, 4], [4, 4, 8]);
      SumUpToFour([4, 4, 8]);
    } else if kind == GUTI {
      SumFours(PlmnWidths());
      SumConcat(PlmnWidths(), [8, 10, 6, 32]);
      SumUpToFour([8, 10, 6, 32]);
    } else {
      SumFours(DigitWidths());
      SumFours(DigitWidths() + [4, 4]);
    }
  }

  lemma {:induction false} SumConcat(a: seq<nat>, b: seq<nat>)
    ensures SumWidths(a + b) == SumWidths(a) + SumWidths(b)
  {
    if a == [] {
      assert a + b == b;
    } else {
      SumConcat(a[1..], b);
      assert (a + b)[1..] == a[1..] + b;
    }
  }

  lemma {:induction false} SumFours(ws: seq<nat>)
    requires forall i :: 0 <= i < |ws| ==> ws[i] == 4
    ensures SumWidths(ws) == 4 * |ws|
  {
    if ws != [] { SumFours(ws[1..]); }
  }

  /**
   Every identity in range is returned, with nibble swaps and the shared type octet undone and
   whatever the spare bits are, if and only if its length fits 16 bits. (The decoder counts the
   octets of the scheme output in 32 bits.)
   */
  lemma IdentityRoundTrip(bits: seq<bool>, pos: nat, id: Identity, s: Spare)
    requires WellFormed(id) && InRange(id, s.nibble) && At(bits, pos, EncIdentity(id, s))
    requires ContentOctets(id) < UINT32_RANGE
    ensures DecIdentity(bits, pos) == Rd(true, id, pos + |EncIdentity(id, s)|) <==> ContentOctets(id) < 65536
  {
    hide FieldBits, ReadFields, RestFields, RestWidths, IdentityOf, Shared, OctetsAt, InRange, EncIdentity;
    IdentityRead(bits, pos, id, s);
    RestRoundTrip(id, s);
  }

  /** What the reads of the decoder find in the encoding. */
  lemma IdentityRead(bits: seq<bool>, pos: nat, id: Identity, s: Spare)
    requires WellFormed(id) && InRange(id, s.nibble) && At(bits, pos, EncIdentity(id, s))
    ensures var rest, kind, out := RestFields(id, s.nibble), Kind(id), Output(id);
      var q := pos + 24 + |FieldBits(rest)|;
      && q + 8 * |out| <= |bits| && pos + |EncIdentity(id, s)| == q + 8 * |out|
      && ReadFields(bits, pos, [16, 5, 3])
         == Rd(true, [ContentOctets(id) % 65536, Shared(id, s.bit), kind], pos + 24)
      && ReadFields(bits, pos + 24, RestWidths(kind)) == Rd(true, Values(rest), q)
      && OctetsAt(bits, q, |out|) == out
  {
    hide FieldBits, ReadFields, NatBits, RestFields, RestWidths, IdentityOf, Shared, OctetsAt;
    hide BytesBits, InRange, Content;
    assert forall f :: f in RestFields(id, s.nibble) ==> Exact(f) by { RestExact(id, s.nibble); }
    hide Exact;
    var length := ContentOctets(id) % 65536;
    var head := [Field(length, 16), Field(Shared(id, s.bit), 5), Field(Kind(id), 3)];
    var rest := RestFields(id, s.nibble);
    RestRoundTrip(id, s);
    EncParts(id, s, head, rest);
    hide EncIdentity;
    HeadExact(head);
    AtSplit(bits, pos, FieldBits(head), FieldBits(rest) + BytesBits(Output(id)));
    AtSplit(bits, pos + 24, FieldBits(rest), BytesBits(Output(id)));
    ReadFieldsAt(bits, pos, head);
    assert Widths(head) == [16, 5, 3] && Values(head) == [length, Shared(id, s.bit), Kind(id)];
    ReadFieldsAt(bits, pos + 24, rest);
    OctetsReadBack(bits, pos + 24 + |FieldBits(rest)|, Output(id));
  }

  /** Identities that are packed and do not come back: any scheme output of 65528 octets. */
  lemma LongIdentityLost(bits: seq<bool>, pos: nat, output: seq<Byte>, s: Spare)
    requires |output| == 65528 && s.nibble == 0
    ensures var id := TestSuci(output);
      && WellFormed(id) && InRange(id, s.nibble) && Typed(id) && ContentOctets(id) == 65536
      && (At(bits, pos, EncIdentity(id, s)) ==> DecIdentity(bits, pos) != Rd(true, id, pos + |EncIdentity(id, s)|))
  {
    hide InRange, EncIdentity, DecIdentity, TestSuci, WellFormed, ContentOctets, Typed;
    TestSuciFits(output);
    if At(bits, pos, EncIdentity(TestSuci(output), s)) {
      IdentityRoundTrip(bits, pos, TestSuci(output), s);
    }
  }

  /** A subscriber of the test network 001/01 with the given scheme output. */
  function TestSuci(output: seq<Byte>): Identity {
    Suci(0, Plmn(0, 0, 1, 0, 1, 15), [0, 0, 0, 0], 0, 0, output)
  }

  lemma TestSuciFits(output: seq<Byte>)
    requires |output| < UINT32_RANGE - 8
    ensures var id := TestSuci(output);
      WellFormed(id) && InRange(id, 0) && Typed(id) && ContentOctets(id) == 8 + |output|
  {
    assert Pow2(4) == 16;
    Pow2Mono(4, 8);
    hide Pow2;
  }

  lemma RestExact(id: Identity, nibble: nat)
    requires WellFormed(id) && InRange(id, nibble)
    ensures forall f :: f in RestFields(id, nibble) ==> Exact(f)
  {
    hide RestFields, Exact;
  }

  lemma EncParts(id: Identity, s: Spare, head: seq<Field>, rest: seq<Field>)
    requires WellFormed(id) && rest == RestFields(id, s.nibble)
    requires head == [Field(ContentOctets(id) % 65536, 16), Field(Shared(id, s.bit), 5), Field(Kind(id), 3)]
    ensures EncIdentity(id, s) == FieldBits(head) + (FieldBits(rest) + BytesBits(Output(id)))
    ensures |FieldBits(head)| == 24
  {
    hide NatBits, RestFields, BytesBits, Shared;
    var two := [head[1], head[2]];
    FieldBits3(head[0], head[1], head[2]);
    FieldBits2(head[1], head[2]);
    FieldBitsConcat(two, rest);
    hide FieldBits;
    var a, b, c, d := NatBits(head[0].v, 16), FieldBits(two), FieldBits(rest), BytesBits(Output(id));
    assert a + ((b + c) + d) == (a + b) + (c + d);
  }

  lemma HeadExact(head: seq<Field>)
    requires |head| == 3 && head[0].n == 16 && head[1].n == 5 && head[2].n == 3
    requires head[0].v < 65536 && head[1].v < 32 && head[2].v < 8
    ensures forall f :: f in head ==> Exact(f)
  {
    Pow2Words();
    assert Pow2(5) == 32 && Pow2(3) == 8;
  }

  // ----- the code -----

  /** What a cursor at the start of the content finds in the skipped places. */
  ghost function SpareAt(c: Cur): Spare
    requires c.Valid() && c.Room() >= 52
  {
    Spare(c.bits[c.pos], BitsNat(c.bits[c.pos + 48..c.pos + 52]))
  }

  ghost predicate Typed(id: Identity)
    requires WellFormed(id)
  {
    && (forall i :: 0 <= i < |RestFields(id, 0)| ==> RestFields(id, 0)[i].v < UINT32_RANGE)
    && (id.Suci? ==> id.format < 8 && |id.output| < UINT32_RANGE - 8)
    && (id.Imei? || id.Imeisv? ==> id.digits[0] < 256)
  }

  /** The bits of the type octet as they are packed for the identities without spare bits. */
  function HeadFields(id: Identity): seq<Field>
    requires WellFormed(id) && !id.Suci?
  {
    match id
    case Guti(_, _, _, _, _) => [Field(0, 5), Field(GUTI, 3)]
    case Imei(odd, digits) => [Field(digits[0], 4), Field(Bit(odd), 1), Field(IMEI, 3)]
    case Imeisv(odd, digits) => [Field(digits[0], 4), Field(Bit(odd), 1), Field(IMEISV, 3)]
  }

  lemma PlainContent(id: Identity, s: Spare)
    requires WellFormed(id) && !id.Suci?
    ensures FieldBits(HeadFields(id) + RestFields(id, 0)) == Content(id, s)
  {
    hide NatBits, RestFields;
    var rest := RestFields(id, 0);
    RestIgnoresNibble(id, s.nibble);
    var head := [Field(Shared(id, s.bit), 5), Field(Kind(id), 3)];
    FieldBitsConcat(HeadFields(id), rest);
    FieldBitsConcat(head, rest);
    FieldBits2(head[0], head[1]);
    if !id.Guti? {
      var h := HeadFields(id);
      FieldBits3(h[0], h[1], h[2]);
      JoinFlag(id.digits[0], id.odd);
    }
    assert FieldBits(head + rest) + BytesBits([]) == FieldBits(head + rest);
  }

  lemma RestIgnoresNibble(id: Identity, nibble: nat)
    requires WellFormed(id) && !id.Suci?
    ensures RestFields(id, nibble) == RestFields(id, 0)
  {
  }

  lemma JoinFlag(d: nat, odd: bool)
    ensures NatBits(d, 4) + NatBits(Bit(odd), 1) == NatBits(2 * d + Bit(odd), 5)
  {
    assert Pow2(1) == 2 && ShiftLeft(d, 1) == 2 * d;
    NatBitsJoin(d, 4, Bit(odd), 1);
  }

  /** Leaves `n` bits as they are and packs fields behind them. */
  method SkipAndPack(b: BitRef, n: nat, fs: seq<Field>) returns (ok: bool)
    requires b.Valid() && FieldBits(fs) != []
    requires forall i :: 0 <= i < |fs| ==> fs[i].v < UINT64_RANGE && fs[i].n < 64
    modifies b`ptr, b`offset, b.buf
    ensures b.Valid()
    ensures ok == (n + |FieldBits(fs)| <= old(b.C().Room()))
    ensures ok ==> b.C() == Put(old(b.C()), old(b.C().bits[b.C().pos..b.C().pos + n]) + FieldBits(fs))
  {
    hide BitRef.C, Put, FieldBits;
    ghost var c := b.C();
    ok := b.AdvanceBits(n);
    if ok {
      ok := PackFields(b, fs);
      if ok { SkipPut(c, n, FieldBits(fs)); }
    }
  }

  /** The fields of a SUCI between its two skipped places. */
  function MiddleFields(id: Identity): seq<Field>
    requires WellFormed(id) && id.Suci?
  {
    var r := id.routing;
    [Field(SUCI, 3)] + (PlmnFields(id.plmn) + [Field(r[1], 4), Field(r[0], 4), Field(r[3], 4), Field(r[2], 4)])
  }

  /** Three writes with skips between them are one write of the content. */
  lemma SuciLayout(c: Cur, id: Identity, w1: seq<bool>, w2: seq<bool>, w3: seq<bool>)
    requires c.Valid() && WellFormed(id) && id.Suci? && id.format < 8 && 64 <= c.Room()
    requires w1 == [c.bits[c.pos]] + NatBits(id.format, 3)
    requires w2 == [false] + FieldBits(MiddleFields(id))
    requires w3 == c.bits[c.pos + 48..c.pos + 52] + FieldBits([Field(id.scheme, 4), Field(id.key, 8)])
    ensures w1 + w2 + w3 + BytesBits(id.output) == Content(id, SpareAt(c))
  {
    hide NatBits, BitsNat, PlmnFields, FieldBits, BytesBits;
    var s := SpareAt(c);
    var shared, kind := [Field(Shared(id, s.bit), 5)], [Field(SUCI, 3)];
    var r := id.routing;
    var mid := PlmnFields(id.plmn) + [Field(r[1], 4), Field(r[0], 4), Field(r[3], 4), Field(r[2], 4)];
    var nibble, last := [Field(s.nibble, 4)], [Field(id.scheme, 4), Field(id.key, 8)];
    var nib := c.bits[c.pos + 48..c.pos + 52];
    NatBitsOfBitsNat(nib);
    FieldBits1(nibble[0]);
    FieldBits1(shared[0]);
    SharedBits(s.bit, id.format);
    calc {
      FieldBits([shared[0], kind[0]] + RestFields(id, s.nibble));
      { assert [shared[0], kind[0]] + RestFields(id, s.nibble) == shared + ((kind + mid) + (nibble + last)); }
      FieldBits(shared + ((kind + mid) + (nibble + last)));
      { FieldBitsConcat(shared, (kind + mid) + (nibble + last)); }
      FieldBits(shared) + FieldBits((kind + mid) + (nibble + last));
      { FieldBitsConcat(kind + mid, nibble + last); FieldBitsConcat(nibble, last); }
      FieldBits(shared) + (FieldBits(kind + mid) + (nib + FieldBits(last)));
    }
    SuciConcat([s.bit] + NatBits(id.format, 3), FieldBits(kind + mid), nib + FieldBits(last));
  }

  lemma SuciConcat(a: seq<bool>, m: seq<bool>, z: seq<bool>)
    ensures (a + [false]) + (m + z) == a + ([false] + m) + z
  {
  }

  lemma FieldBits1(f: Field)
    ensures FieldBits([f]) == NatBits(f.v, f.n)
  {
    assert [f][1..] == [];
    assert NatBits(f.v, f.n) + [] == NatBits(f.v, f.n);
  }

  lemma SharedBits(g: bool, format: nat)
    requires format < 8
    ensures NatBits(16 * Bit(g) + 2 * format, 5) == [g] + NatBits(format, 3) + [false]
  {
    hide NatBits, ShiftLeft;
    assert Pow2(3) == 8 && Pow2(1) == 2;
    var x := 8 * Bit(g) + format;
    OneBit(g);
    OneBit(false);
    hide NatBits, ShiftLeft, Pow2;
    assert NatBits(x, 4) == [g] + NatBits(format, 3) by {
      ShiftLeftIsMul(Bit(g), 3);
      NatBitsJoin(Bit(g), 1, format, 3);
    }
    assert NatBits(2 * x, 5) == NatBits(x, 4) + [false] by {
      ShiftLeftIsMul(x, 1);
      NatBitsJoin(x, 4, 0, 1);
    }
  }

  method PackIdentity(b: BitRef, id: Identity) returns (ok: bool)
    requires b.Valid() && b.offset == 0 && WellFormed(id) && Typed(id) && b.buf.Length <= MAX_BUFFER
    modifies b`ptr, b`offset, b.buf
    ensures b.Valid()
    ensures ok == (16 + 8 * ContentOctets(id) + (if Output(id) == [] then 0 else 8) <= old(b.C().Room()))
    ensures ok ==>
      b.C() == Put(old(b.C()), EncIdentity(id, SpareAt(Skip(old(b.C()), 16))))
  {
    hide BitRef.C, Put, NatBits, Content, Typed, WellFormed, SpareAt, Cut, ContentOctets, Output, BytesBits;
    hide EncIdentity;
    OnBoundary(b);
    ghost var c := b.C();
    var saved := new BitRef.Copy(b);
    ok := SkipAndContent(b, id);
    if ok {
      OnBoundary(saved);
      ghost var s := SpareAt(Skip(c, 16));
      LengthValue(8 * b.ptr + b.offset - (8 * saved.ptr + saved.offset), ContentOctets(id));
      var length := ((8 * b.ptr + b.offset - (8 * saved.ptr + saved.offset)) / 8 - 2) % 65536;
      assert length == ContentOctets(id) % 65536;
      ContentLengthOk(id, s);
      PatchLength(b, saved, length, 16, c, Content(id, s));
      LengthAndContent(id, s);
    }
  }

  /** The identity without its length. */
  method SkipAndContent(b: BitRef, id: Identity) returns (ok: bool)
    requires b.Valid() && b.offset == 0 && WellFormed(id) && Typed(id)
    modifies b`ptr, b`offset, b.buf
    ensures b.Valid()
    ensures ok == (16 + 8 * ContentOctets(id) + (if Output(id) == [] then 0 else 8) <= old(b.C().Room()))
    ensures ok ==> 16 + 52 <= old(b.C().Room()) && 16 + 8 * ContentOctets(id) <= old(b.C().Room())
    ensures ok ==> b.C() == Put(Skip(old(b.C()), 16), Content(id, SpareAt(Skip(old(b.C()), 16))))
    ensures ok ==> 8 * b.ptr + b.offset == old(8 * b.ptr + b.offset) + 16 + 8 * ContentOctets(id)
  {
    hide BitRef.C, Put, NatBits, Content, Typed, WellFormed, SpareAt, Cut, ContentOctets, Output, BytesBits;
    AtLeastEight(id);
    Position(b);
    ok := b.AdvanceBits(16);
    if !ok {
      return;
    }
    ghost var d := b.C();
    Position(b);
    ok := PackContent(b, id);
    if ok {
      ContentLengthOk(id, SpareAt(d));
      Position(b);
    }
  }

  lemma LengthAndContent(id: Identity, s: Spare)
    requires WellFormed(id)
    ensures EncIdentity(id, s) == NatBits(ContentOctets(id) % 65536, 16) + Content(id, s)
  {
  }

  method PackContent(b: BitRef, id: Identity) returns (ok: bool)
    requires b.Valid() && b.offset == 0 && WellFormed(id) && Typed(id)
    modifies b`ptr, b`offset, b.buf
    ensures b.Valid()
    ensures ok == (8 * ContentOctets(id) + (if Output(id) == [] then 0 else 8) <= old(b.C().Room()))
    ensures ok ==> b.C() == Put(old(b.C()), Content(id, SpareAt(old(b.C()))))
  {
    hide BitRef.C, Put, NatBits, Content, Typed, RestFields, HeadFields, FieldBits;
    ghost var s := if b.C().Room() >= 52 then SpareAt(b.C()) else Spare(false, 0);
    ContentLengthOk(id, s);
    if id.Suci? {
      ok := PackSuci(b, id);
    } else {
      PlainContent(id, s);
      TypedFields(id);
      ok := PackFields(b, HeadFields(id) + RestFields(id, 0));
    }
  }

  lemma AtLeastEight(id: Identity)
    requires WellFormed(id)
    ensures ContentOctets(id) >= 8
  {
  }

  lemma LengthValue(distance: nat, k: nat)
    requires distance == 16 + 8 * k
    ensures distance / 8 - 2 == k
  {
  }

  lemma TypedFields(id: Identity)
    requires WellFormed(id) && Typed(id) && !id.Suci?
    ensures forall i :: 0 <= i < |HeadFields(id) + RestFields(id, 0)| ==>
      (HeadFields(id) + RestFields(id, 0))[i].v < UINT64_RANGE && (HeadFields(id) + RestFields(id, 0))[i].n < 64
  {
  }

  method PackSuci(b: BitRef, id: Identity) returns (ok: bool)
    requires b.Valid() && b.offset == 0 && WellFormed(id) && id.Suci? && Typed(id)
    modifies b`ptr, b`offset, b.buf
    ensures b.Valid()
    ensures ok == (8 * ContentOctets(id) + (if id.output == [] then 0 else 8) <= old(b.C().Room()))
    ensures ok ==> b.C() == Put(old(b.C()), Content(id, SpareAt(old(b.C()))))
  {
    hide BitRef.C, Put, Content, BytesBits, NatBits, Typed, WellFormed, SpareAt, Cut;
    ghost var c := b.C();
    Position(b);
    ok := PackSuciFirst(b, id);
    if ok {
      ok := PackSuciFields(b, id, c, [c.bits[c.pos]] + NatBits(id.format, 3));
    }
    if ok {
      BytesRoom(b, |id.output|);
      ok := b.PackBytes(id.output);
    }
  }

  method PackSuciFirst(b: BitRef, id: Identity) returns (ok: bool)
    requires b.Valid() && WellFormed(id) && id.Suci? && Typed(id)
    modifies b`ptr, b`offset, b.buf
    ensures b.Valid() && ok == (4 <= old(b.C().Room()))
    ensures ok ==> b.C() == Put(old(b.C()), [old(b.C().bits[b.C().pos])] + NatBits(id.format, 3))
  {
    hide BitRef.C, Put, NatBits, FieldBits;
    ghost var c := b.C();
    FieldBits1(Field(id.format, 3));
    ok := SkipAndPack(b, 1, [Field(id.format, 3)]);
    if ok { assert c.bits[c.pos..c.pos + 1] == [c.bits[c.pos]]; }
  }

  lemma SuciWidths(id: Identity)
    requires WellFormed(id) && id.Suci? && Typed(id)
    ensures |FieldBits(MiddleFields(id))| == 43
    ensures |FieldBits([Field(id.scheme, 4), Field(id.key, 8)])| == 12
    ensures forall i :: 0 <= i < |MiddleFields(id)| ==>
      MiddleFields(id)[i].v < UINT64_RANGE && MiddleFields(id)[i].n < 64
    ensures id.scheme < UINT64_RANGE && id.key < UINT64_RANGE
  {
    hide NatBits, FieldBits, SumWidths;
    FieldBits2(Field(id.scheme, 4), Field(id.key, 8));
    FieldBitsLength(MiddleFields(id));
    var ws := PlmnWidths() + [4, 4, 4, 4];
    assert Widths(MiddleFields(id)) == [3] + ws;
    SumFours(ws);
    SumConcat([3], ws);
    SumUpToFour([3]);
    var all := RestFields(id, 0);
    assert all[11].v == id.scheme && all[12].v == id.key;
    assert forall i :: 1 <= i < |MiddleFields(id)| ==> MiddleFields(id)[i] == all[i - 1];
  }

  /** What the later skips find: a bit just cleared, and a nibble not yet touched. */
  lemma SkippedPlaces(c: Cur, w1: seq<bool>, w: seq<bool>)
    requires c.Valid() && c.pos % 8 == 0 && 64 <= c.Room() && |w1| == 4 && |w| == 48
    ensures !Put(c, w1).bits[c.pos + 4]
    ensures Put(c, w).bits[c.pos + 48..c.pos + 52] == c.bits[c.pos + 48..c.pos + 52]
  {
    assert Up8(c.pos + 4) == c.pos + 8 && Up8(c.pos + 48) == c.pos + 48;
  }

  /** The fields of a SUCI behind the first, with the cursor at the second skipped place. */
  method PackSuciFields(b: BitRef, id: Identity, ghost c: Cur, ghost w1: seq<bool>) returns (ok: bool)
    requires b.Valid() && WellFormed(id) && id.Suci? && Typed(id)
    requires c.Valid() && c.pos % 8 == 0 && 4 <= c.Room() && w1 == [c.bits[c.pos]] + NatBits(id.format, 3)
    requires b.C() == Put(c, w1)
    modifies b`ptr, b`offset, b.buf
    ensures b.Valid() && ok == (64 <= c.Room())
    ensures ok ==> b.C().pos == c.pos + 64 && |b.C().bits| == |c.bits|
    ensures ok ==> Put(b.C(), BytesBits(id.output)) == Put(c, Content(id, SpareAt(c)))
  {
    hide BitRef.C, Put, NatBits, FieldBits, MiddleFields, Content, BytesBits, Typed, WellFormed, SpareAt, Cut;
    SuciWidths(id);
    ok := SkipAndPack(b, 1, MiddleFields(id));
    if !ok {
      return;
    }
    ghost var c2 := b.C();
    ok := SkipAndPack(b, 4, [Field(id.scheme, 4), Field(id.key, 8)]);
    if ok {
      SuciCompose(c, id, w1, c2, b.C());
    }
  }

  /** The bound check of `pack_bytes` on an octet boundary. */
  lemma BytesRoom(b: BitRef, n: nat)
    requires b.Valid() && b.C().pos % 8 == 0
    ensures b.ptr + n < b.buf.Length <==> 8 * n + 8 <= b.C().Room()
  {
  }

  /** The three writes and the octets after them, from the cursor at the start of the content. */
  lemma OneSlice(s: seq<bool>, i: nat)
    requires i < |s|
    ensures s[i..i + 1] == [s[i]]
  {
  }

  lemma PutThree(c: Cur, u: seq<bool>, v: seq<bool>, w: seq<bool>)
    requires c.Valid()
    ensures Put(Put(c, u), v) == Put(c, u + v)
    ensures Put(Put(Put(c, u), v), w) == Put(c, u + v + w)
  {
    hide Put;
    PutPut(c, u, v);
    PutPut(c, u + v, w);
  }

  lemma SuciCompose(c: Cur, id: Identity, w1: seq<bool>, c2: Cur, c3: Cur)
    requires c.Valid() && c.pos % 8 == 0 && 64 <= c.Room() && WellFormed(id) && id.Suci? && Typed(id)
    requires w1 == [c.bits[c.pos]] + NatBits(id.format, 3)
    requires c2.Valid() && c2 == Put(Put(c, w1), Put(c, w1).bits[c.pos + 4..c.pos + 5] + FieldBits(MiddleFields(id)))
    requires c2.pos + 4 <= |c2.bits|
    requires c3 == Put(c2, c2.bits[c2.pos..c2.pos + 4] + FieldBits([Field(id.scheme, 4), Field(id.key, 8)]))
    ensures c3.pos == c.pos + 64 && Put(c3, BytesBits(id.output)) == Put(c, Content(id, SpareAt(c)))
  {
    hide Put, NatBits, FieldBits, MiddleFields, Content, BytesBits, SpareAt;
    SuciWidths(id);
    var w2 := [false] + FieldBits(MiddleFields(id));
    var w3 := c.bits[c.pos + 48..c.pos + 52] + FieldBits([Field(id.scheme, 4), Field(id.key, 8)]);
    SkippedPlaces(c, w1, w1 + w2);
    OneSlice(Put(c, w1).bits, c.pos + 4);
    assert c2 == Put(Put(c, w1), w2);
    PutPut(c, w1, w2);
    assert c3 == Put(c2, w3);
    PutThree(c, w1 + w2, w3, BytesBits(id.output));
    SuciLayout(c, id, w1, w2, w3);
    assert c3.pos == c.pos + 64;
  }

  method UnpackIdentity(b: BitRef) returns (ok: bool, id: Identity)
    requires b.Valid() && b.buf.Length <= MAX_BUFFER
    modifies b`ptr, b`offset
    ensures b.Valid() && b.C().bits == old(b.C().bits)
    ensures var r := DecIdentity(old(b.C().bits), old(b.C().pos));
      ok == r.ok && (ok ==> id == r.v && b.C().pos == r.pos)
  {
    hide BitRef.C, ReadFields, IdentityOf, OctetsAt;
    id := Other(0);
    var head, v, data;
    ok, head := UnpackFields(b, [16, 5, 3]);
    if !ok {
      return;
    }
    var kind := head[2];
    ok, v := UnpackFields(b, RestWidths(kind));
    if !ok {
      return;
    }
    ghost var d := b.C();
    var n := OutputLength(kind, head[0]);
    ok, data := b.UnpackBytes(n);
    if ok {
      OctetsReadBack(d.bits, d.pos, data);
      id := IdentityOf(kind, head[1], v, data);
    }
  }
}
