/**
 5G NAS elements with a length octet that is written last: a copy of the cursor is kept, the
 octet skipped, the body packed, and the length packed through the copy. S-NSSAI (section
 9.11.2.8 of TS 24.501) and the NSSAI list of them (section 9.11.3.37).
 */
module Nas {
  import opened Bits
  import opened BitCursor
  import opened BitRefs
  import opened Fields

  // ----- writing a header late -----

  /** Skip `head`, write `body`, then write `head` through the cursor saved before. */
  function PatchedBits(c: Cur, head: seq<bool>, body: seq<bool>): seq<bool>
    requires c.Valid() && |head| + |body| <= c.Room()
  {
    Splice(Put(Skip(c, |head|), body).bits, c.pos, head)
  }

  /** On an octet boundary the late header changes its own octets only. */
  lemma PatchInPlace(c: Cur, head: seq<bool>, body: seq<bool>)
    requires c.Valid() && |head| + |body| <= c.Room() && c.pos % 8 == 0 && |head| % 8 == 0
    ensures PatchedBits(c, head, body) == Put(c, head + body).bits
  {
    hide Splice;
    SplicePatch(c.bits, c.pos, head, body);
  }

  lemma SplicePatch(bits: seq<bool>, pos: nat, head: seq<bool>, body: seq<bool>)
    requires |bits| % 8 == 0 && pos + |head| + |body| <= |bits| && pos % 8 == 0 && |head| % 8 == 0
    ensures Splice(Splice(bits, pos + |head|, body), pos, head) == Splice(bits, pos, head + body)
  {
    var m := pos + |head|;
    assert Up8(m) == m;
    if body == [] {
      assert head + body == head;
    }
    hide Up8, Octets;
  }

  /** The header clears the octet it ends in: what it spares of the body is what was zero there. */
  ghost predicate ClearBehind(pos: nat, body: seq<bool>) {
    forall i :: 0 <= i < |body| && pos + i < Up8(pos) ==> !body[i]
  }

  /**
   For every position, header and body: writing the header late leaves the body intact, and the
   same buffer as writing both in order, if and only if the body has only zeros up to the end of
   the octet in which the header ends. On an octet boundary there are no such bits.
   */
  lemma PatchSparesBody(c: Cur, head: seq<bool>, body: seq<bool>)
    requires c.Valid() && head != [] && |head| + |body| <= c.Room()
    ensures At(PatchedBits(c, head, body), c.pos + |head|, body) <==> ClearBehind(c.pos + |head|, body)
    ensures PatchedBits(c, head, body) == Put(c, head + body).bits <==> ClearBehind(c.pos + |head|, body)
  {
    hide PatchedBits, Put, Cut, Up8, At, ClearBehind;
    PatchedOutside(c, head, body);
    PatchedInside(c, head, body);
    SparedIff(PatchedBits(c, head, body), Put(c, head + body).bits, c.pos + |head|, body);
  }

  lemma SparedIff(r: seq<bool>, d: seq<bool>, m: nat, body: seq<bool>)
    requires |r| == |d| && m + |body| <= |r|
    requires forall i :: 0 <= i < |r| && !(m <= i < m + |body|) ==> r[i] == d[i]
    requires forall i :: m <= i < m + |body| ==> d[i] == body[i - m]
    requires forall i :: m <= i < m + |body| ==> r[i] == (i >= Up8(m) && body[i - m])
    ensures At(r, m, body) <==> ClearBehind(m, body)
    ensures r == d <==> ClearBehind(m, body)
  {
    hide Up8;
    if ClearBehind(m, body) {
      assert r[m..m + |body|] == body;
      assert r == d;
    } else {
      var i :| 0 <= i < |body| && m + i < Up8(m) && body[i];
      assert r[m..m + |body|][i] == r[m + i] == false;
      assert d[m + i] == body[i];
    }
  }

  lemma PatchedInside(c: Cur, head: seq<bool>, body: seq<bool>)
    requires c.Valid() && head != [] && |head| + |body| <= c.Room()
    ensures var r, m := PatchedBits(c, head, body), c.pos + |head|;
      && |r| == |c.bits|
      && (forall i :: m <= i < m + |body| ==> r[i] == (i >= Up8(m) && body[i - m]))
  {
    hide Up8;
  }

  /** In front of the body and behind it, both orders leave the same bits. */
  lemma PatchedOutside(c: Cur, head: seq<bool>, body: seq<bool>)
    requires c.Valid() && head != [] && |head| + |body| <= c.Room()
    ensures var r, d, m := PatchedBits(c, head, body), Put(c, head + body).bits, c.pos + |head|;
      && |r| == |d|
      && (forall i :: 0 <= i < |r| && !(m <= i < m + |body|) ==> r[i] == d[i])
      && (forall i :: m <= i < m + |body| ==> d[i] == body[i - m])
  {
    hide Put, Splice;
    PutBits(Skip(c, |head|), body);
    PutBits(c, head + body);
    SpliceBehind(c.bits, c.pos, head, body);
    SpliceInFront(c.bits, c.pos, head, body);
  }

  lemma SpliceInFront(bits: seq<bool>, pos: nat, head: seq<bool>, body: seq<bool>)
    requires |bits| % 8 == 0 && pos + |head| + |body| <= |bits| && head != []
    ensures var r, d := Splice(Splice(bits, pos + |head|, body), pos, head), Splice(bits, pos, head + body);
      && (forall i :: 0 <= i < pos + |head| ==> r[i] == d[i])
      && (forall i :: pos + |head| <= i < pos + |head| + |body| ==> d[i] == body[i - (pos + |head|)])
  {
    hide Up8;
    var all := head + body;
    assert forall i :: 0 <= i < |head| ==> all[i] == head[i];
    assert forall i :: |head| <= i < |all| ==> all[i] == body[i - |head|];
  }

  lemma SpliceBehind(bits: seq<bool>, pos: nat, head: seq<bool>, body: seq<bool>)
    requires |bits| % 8 == 0 && pos + |head| + |body| <= |bits| && head != []
    ensures var r, d := Splice(Splice(bits, pos + |head|, body), pos, head), Splice(bits, pos, head + body);
      forall i :: pos + |head| + |body| <= i < |bits| ==> r[i] == d[i]
  {
    var m, e := pos + |head|, pos + |head| + |body|;
    Up8Mono(m, e);
    if body == [] {
      assert head + body == head;
      assert forall i :: 0 <= i < |bits| ==> Splice(bits, m, body)[i] == bits[i];
      hide Up8;
    } else {
      hide Up8;
      assert forall i :: e <= i < |bits| ==> Splice(bits, m, body)[i] == (i >= Up8(e) && bits[i]);
      assert forall i :: e <= i < |bits| ==> Splice(bits, pos, head + body)[i] == (i >= Up8(e) && bits[i]);
    }
  }

  lemma Up8Mono(a: nat, b: nat)
    requires a <= b
    ensures Up8(a) <= Up8(b)
  {
  }

  /**
   And the decoder reads back the size of the body in octets, for a body of any size packed
   behind a length octet on an octet boundary, if and only if that size is at most 255.
   */
  lemma PatchedLengthReadBack(c: Cur, body: seq<bool>)
    requires c.Valid() && c.pos % 8 == 0 && 8 + |body| <= c.Room()
    ensures var n := Octets(|body|);
      var bits := PatchedBits(c, NatBits(n % 256, 8), body);
      && (Read(bits, c.pos, 8) == Rd(true, n, c.pos + 8) <==> n <= 255)
      && At(bits, c.pos + 8, body)
  {
    hide NatBits, Read, Put, PatchedBits;
    var n := Octets(|body|);
    hide Octets;
    var head := NatBits(n % 256, 8);
    PatchInPlace(c, head, body);
    PutAt(c, head + body);
    AtSplit(Put(c, head + body).bits, c.pos, head, body);
    assert Pow2(8) == 256;
    ReadNat(Put(c, head + body).bits, c.pos, n % 256, 8);
  }

  lemma OnesBehind(pos: nat, body: seq<bool>)
    requires pos % 8 == 1 && body != [] && body[0]
    ensures !ClearBehind(pos, body)
  {
    assert pos + 0 < Up8(pos);
  }

  /** One bit off the boundary, a length octet destroys the first bits of an octet of ones. */
  lemma PatchedOffBoundary(c: Cur, head: seq<bool>)
    requires c.Valid() && c.pos % 8 == 1 && |head| == 8 && 16 <= c.Room()
    ensures !At(PatchedBits(c, head, seq(8, i => true)), c.pos + 8, seq(8, i => true))
  {
    hide PatchedBits, Put, ClearBehind;
    var ones := seq(8, i => true);
    OnesBehind(c.pos + 8, ones);
    PatchSparesBody(c, head, ones);
  }

  // ----- S-NSSAI -----

  /** The kinds of content; `Unsupported` stands for the length types that have no packing. */
  datatype SNssai =
    | Sst(sst: nat)
    | SstMapped(sst: nat, mappedSst: nat)
    | SstSd(sst: nat, sd: nat)
    | SstSdMapped(sst: nat, sd: nat, mappedSst: nat, mappedSd: nat)
    | Unsupported

  /** The values fit the widths they are written in. */
  ghost predicate InRange(e: SNssai) {
    forall i :: 0 <= i < |EntryFields(e)| ==> Exact(EntryFields(e)[i])
  }

  ghost predicate Typed(e: SNssai) {
    forall i :: 0 <= i < |EntryFields(e)| ==> EntryFields(e)[i].v < UINT32_RANGE
  }

  function EntryFields(e: SNssai): (fs: seq<Field>)
    ensures forall i :: 0 <= i < |fs| ==> fs[i].n <= 24
  {
    match e
    case Sst(sst) => [Field(sst, 8)]
    case SstMapped(sst, m) => [Field(sst, 8), Field(m, 8)]
    case SstSd(sst, sd) => [Field(sst, 8), Field(sd, 24)]
    case SstSdMapped(sst, sd, m, md) => [Field(sst, 8), Field(sd, 24), Field(m, 8), Field(md, 24)]
    case Unsupported => []
  }

  /** Octets of the content, which is also the value of the length octet and the type. */
  function ContentLength(e: SNssai): nat {
    match e
    case Sst(_) => 1
    case SstMapped(_, _) => 2
    case SstSd(_, _) => 4
    case SstSdMapped(_, _, _, _) => 8
    case Unsupported => 0
  }

  function EncEntry(e: SNssai): (w: seq<bool>)
    ensures |w| == 8 * (1 + ContentLength(e))
  {
    EntryBits(e);
    NatBits(ContentLength(e), 8) + FieldBits(EntryFields(e))
  }

  lemma EntryBits(e: SNssai)
    ensures |FieldBits(EntryFields(e))| == 8 * ContentLength(e)
  {
    hide NatBits;
    var ws := Widths(EntryFields(e));
    FieldBitsLength(EntryFields(e));
    assert ws == WidthsFor(ContentLength(e));
    SumUpToFour(ws);
  }

  function SumWidths(ws: seq<nat>): nat {
    if ws == [] then 0 else ws[0] + SumWidths(ws[1..])
  }

  lemma SumUpToFour(ws: seq<nat>)
    requires |ws| <= 4
    ensures SumWidths(ws) == (if |ws| > 0 then ws[0] else 0) + (if |ws| > 1 then ws[1] else 0)
      + (if |ws| > 2 then ws[2] else 0) + (if |ws| > 3 then ws[3] else 0)
  {
    if |ws| > 1 { assert SumWidths(ws[1..]) == ws[1] + SumWidths(ws[2..]); }
    if |ws| > 2 { assert SumWidths(ws[2..]) == ws[2] + SumWidths(ws[3..]); }
    if |ws| > 3 { assert SumWidths(ws[3..]) == ws[3] + SumWidths(ws[4..]); }
  }

  lemma {:induction false} FieldBitsLength(fs: seq<Field>)
    ensures |FieldBits(fs)| == SumWidths(Widths(fs))
  {
    hide NatBits;
    if fs != [] {
      FieldBitsLength(fs[1..]);
      assert Widths(fs)[1..] == Widths(fs[1..]);
    }
  }

  /** The widths that the decoder reads for a length octet, if it knows the length. */
  function WidthsFor(length: nat): (ws: seq<nat>)
    ensures forall i :: 0 <= i < |ws| ==> ws[i] <= 24
  {
    if length == 1 then [8]
    else if length == 2 then [8, 8]
    else if length == 4 then [8, 24]
    else if length == 8 then [8, 24, 8, 24]
    else []
  }

  function EntryOf(length: nat, vs: seq<nat>): SNssai
    requires |vs| == |WidthsFor(length)|
  {
    if length == 1 then Sst(vs[0])
    else if length == 2 then SstMapped(vs[0], vs[1])
    else if length == 4 then SstSd(vs[0], vs[1])
    else if length == 8 then SstSdMapped(vs[0], vs[1], vs[2], vs[3])
    else Unsupported
  }

  function DecEntry(bits: seq<bool>, pos: nat): (r: Rd<SNssai>)
    requires pos <= |bits|
    ensures pos <= r.pos <= |bits|
  {
    var l := Read(bits, pos, 8);
    if !l.ok || WidthsFor(l.v) == [] then Rd(false, Unsupported, l.pos)
    else
      var f := ReadFields(bits, l.pos, WidthsFor(l.v));
      if !f.ok then Rd(false, Unsupported, f.pos) else Rd(true, EntryOf(l.v, f.v), f.pos)
  }

  /** On any input an entry read with success takes two to nine octets. */
  lemma EntryConsumes(bits: seq<bool>, pos: nat)
    requires pos <= |bits|
    ensures var r := DecEntry(bits, pos); r.ok ==> pos + 16 <= r.pos <= pos + 72
  {
    hide Read;
    var l := Read(bits, pos, 8);
    if l.ok {
      FieldsConsume(bits, l.pos, WidthsFor(l.v));
      SumUpToFour(WidthsFor(l.v));
    }
  }

  lemma {:induction false} FieldsConsume(bits: seq<bool>, pos: nat, ws: seq<nat>)
    requires pos <= |bits|
    ensures var r := ReadFields(bits, pos, ws); r.ok ==> r.pos == pos + SumWidths(ws)
    decreases |ws|
  {
    hide Read;
    if ws != [] && Read(bits, pos, ws[0]).ok {
      FieldsConsume(bits, pos + ws[0], ws[1..]);
    }
  }

  lemma EntryRoundTrip(bits: seq<bool>, pos: nat, e: SNssai)
    requires !e.Unsupported? && InRange(e) && At(bits, pos, EncEntry(e))
    ensures DecEntry(bits, pos) == Rd(true, e, pos + |EncEntry(e)|)
  {
    hide NatBits, Read, FieldBits, ReadFields;
    var n, fs := ContentLength(e), EntryFields(e);
    EntryBits(e);
    AtSplit(bits, pos, NatBits(n, 8), FieldBits(fs));
    assert Pow2(8) == 256;
    ReadNat(bits, pos, n, 8);
    assert forall f :: f in fs ==> Exact(f);
    ReadFieldsAt(bits, pos + 8, fs);
    assert Widths(fs) == WidthsFor(n);
  }

  // ----- NSSAI -----

  function EncList(es: seq<SNssai>): seq<bool> {
    if es == [] then [] else EncEntry(es[0]) + EncList(es[1..])
  }

  /** Octets of the list. */
  function ListLength(es: seq<SNssai>): nat {
    if es == [] then 0 else 1 + ContentLength(es[0]) + ListLength(es[1..])
  }

  lemma {:induction false} ListBits(es: seq<SNssai>)
    ensures |EncList(es)| == 8 * ListLength(es)
  {
    if es != [] { ListBits(es[1..]); }
  }

  /** The entries read until `length` octets are behind `start`; the entries so far on failure. */
  function DecList(bits: seq<bool>, pos: nat, start: nat, length: nat): (r: Rd<seq<SNssai>>)
    requires start <= pos <= |bits|
    ensures pos <= r.pos <= |bits|
    decreases |bits| - pos
  {
    if (pos - start) / 8 >= length then Rd(true, [], pos)
    else
      EntryConsumes(bits, pos);
      var e := DecEntry(bits, pos);
      if !e.ok then Rd(false, [], e.pos)
      else
        var t := DecList(bits, e.pos, start, length);
        Rd(t.ok, [e.v] + t.v, t.pos)
  }

  /** The length that fits its octet, checked against the bounds of the element. */
  predicate LengthAllowed(n: nat) {
    2 <= n <= 144
  }

  function DecNssai(bits: seq<bool>, pos: nat): (r: Rd<seq<SNssai>>)
    requires pos <= |bits|
    ensures pos <= r.pos <= |bits|
  {
    var l := Read(bits, pos, 8);
    if !l.ok || !LengthAllowed(l.v) then Rd(false, [], l.pos) else DecList(bits, l.pos, l.pos, l.v)
  }

  /**
   The length octet holds the number of octets modulo 256 (the cast of a float to `uint8_t`, as
   compilers carry it out).
   */
  function EncNssai(es: seq<SNssai>): seq<bool> {
    NatBits(ListLength(es) % 256, 8) + EncList(es)
  }

  ghost predicate Packable(es: seq<SNssai>) {
    forall i :: 0 <= i < |es| ==> !es[i].Unsupported? && InRange(es[i])
  }

  lemma {:induction false} ListRoundTrip(bits: seq<bool>, pos: nat, start: nat, length: nat, es: seq<SNssai>)
    requires start <= pos && Packable(es) && At(bits, pos, EncList(es))
    requires pos - start + 8 * ListLength(es) == 8 * length
    ensures DecList(bits, pos, start, length) == Rd(true, es, pos + |EncList(es)|)
    decreases |es|
  {
    hide DecEntry, EncEntry, InRange;
    ListBits(es);
    if es != [] {
      assert es == [es[0]] + es[1..];
      ListBits(es[1..]);
      AtSplit(bits, pos, EncEntry(es[0]), EncList(es[1..]));
      EntryRoundTrip(bits, pos, es[0]);
      ListRoundTrip(bits, pos + |EncEntry(es[0])|, start, length, es[1..]);
    }
  }

  /** On any input the decoder ends less than one entry, nine octets, behind the length it was given. */
  lemma {:induction false} ListStops(bits: seq<bool>, pos: nat, start: nat, length: nat)
    requires start <= pos <= |bits| && pos < start + 8 * (length + 9)
    ensures DecList(bits, pos, start, length).ok ==> DecList(bits, pos, start, length).pos < start + 8 * (length + 9)
    decreases |bits| - pos
  {
    hide DecEntry;
    if (pos - start) / 8 < length {
      EntryConsumes(bits, pos);
      var e := DecEntry(bits, pos);
      if e.ok {
        ListStops(bits, e.pos, start, length);
      }
    }
  }

  /**
   Decoding into an empty list returns the same entries in order, behind the whole list, if and
   only if the list takes 2 to 144 octets. The packer itself looks at the octets modulo 256.
   */
  lemma NssaiRoundTrip(bits: seq<bool>, pos: nat, es: seq<SNssai>)
    requires Packable(es) && At(bits, pos, EncNssai(es))
    ensures DecNssai(bits, pos) == Rd(true, es, pos + |EncNssai(es)|) <==> 2 <= ListLength(es) <= 144
  {
    hide NatBits, Read, DecList, EncList, ListLength, Packable, Pow2, EncNssai;
    var n := ListLength(es);
    NssaiParts(es);
    Pow2Words();
    Wrapped(n);
    AtSplit(bits, pos, NatBits(n % 256, 8), EncList(es));
    ReadNat(bits, pos, n % 256, 8);
    if n <= 144 {
      ListRoundTrip(bits, pos + 8, pos + 8, n, es);
    } else if LengthAllowed(n % 256) {
      ListStops(bits, pos + 8, pos + 8, n % 256);
    }
  }

  lemma Wrapped(n: nat)
    ensures n % 256 < 256 && (n < 256 ==> n % 256 == n) && (n >= 256 ==> n % 256 + 256 <= n)
  {
  }

  lemma {:induction false} RepeatedLength(e: SNssai, n: nat)
    ensures ListLength(seq(n, i => e)) == n * (1 + ContentLength(e))
  {
    if n > 0 {
      assert seq(n, i => e)[1..] == seq(n - 1, i => e);
      RepeatedLength(e, n - 1);
      assert n * (1 + ContentLength(e)) == 1 + ContentLength(e) + (n - 1) * (1 + ContentLength(e));
    }
  }

  /** A list that the packer accepts and the decoder does not return: 29 full entries, 261 octets. */
  lemma LongListLost(bits: seq<bool>, pos: nat)
    ensures var es := seq(29, i => SstSdMapped(1, 2, 3, 4));
      && Packable(es) && 2 <= ListLength(es) % 256 <= 144
      && (At(bits, pos, EncNssai(es)) ==> DecNssai(bits, pos) != Rd(true, es, pos + |EncNssai(es)|))
  {
    var e := SstSdMapped(1, 2, 3, 4);
    var es := seq(29, i => e);
    RepeatedLength(e, 29);
    SmallEntry();
    hide InRange, EncNssai, DecNssai, ListLength;
    if At(bits, pos, EncNssai(es)) {
      NssaiRoundTrip(bits, pos, es);
    }
  }

  lemma SmallEntry()
    ensures InRange(SstSdMapped(1, 2, 3, 4))
  {
    hide Pow2;
    Pow2Words();
  }

  // ----- the code -----

  /** Writes the length through the saved cursor, behind which `body` stands by now. */
  method PatchLength(b: BitRef, saved: BitRef, length: nat, n: nat, ghost c: Cur, ghost body: seq<bool>)
    requires b.Valid() && saved.Valid() && saved != b && saved.buf == b.buf
    requires c.Valid() && c.pos % 8 == 0 && saved.C().pos == c.pos && n % 8 == 0 && n < 64
    requires n + |body| <= c.Room() && b.C() == Put(Skip(c, n), body) && length < UINT32_RANGE
    modifies saved`ptr, saved`offset, b.buf
    ensures b.Valid() && b.C() == Put(c, NatBits(length, n) + body)
  {
    hide NatBits, BytesBits, Splice;
    PatchInPlace(c, NatBits(length, n), body);
    var _ := saved.Pack(length, n);
  }

  method PackEntry(b: BitRef, e: SNssai) returns (ok: bool)
    requires b.Valid() && b.offset == 0 && Typed(e)
    modifies b`ptr, b`offset, b.buf
    ensures b.Valid()
    ensures ok == (!e.Unsupported? && |EncEntry(e)| <= old(b.C().Room()))
    ensures ok ==> b.C() == Put(old(b.C()), EncEntry(e)) && b.offset == 0
  {
    hide BitRef.C, Put, Skip, NatBits, FieldBits, BytesBits, EntryFields, Typed, Up8, Octets, EncEntry;
    EntryParts(e);
    ghost var c := b.C();
    var saved := new BitRef.Copy(b);
    SameCursor(saved, b);
    Position(saved);
    ok := SkipAndFields(b, e);
    if ok {
      Position(saved);
      var length := Octets(8 * b.ptr + b.offset - (8 * saved.ptr + saved.offset)) - 1;
      WholeOctets(1 + ContentLength(e));
      if length < 1 || length > 8 {
        return false;
      }
      PatchLength(b, saved, length, 8, c, FieldBits(EntryFields(e)));
      Position(b);
    }
  }

  /** The entry without its length octet. */
  method SkipAndFields(b: BitRef, e: SNssai) returns (ok: bool)
    requires b.Valid() && b.offset == 0 && Typed(e)
    modifies b`ptr, b`offset, b.buf
    ensures b.Valid()
    ensures ok == (!e.Unsupported? && 8 + 8 * ContentLength(e) <= old(b.C().Room()))
    ensures ok ==> 8 <= old(b.C().Room()) && b.C() == Put(Skip(old(b.C()), 8), FieldBits(EntryFields(e)))
    ensures ok ==> 8 * b.ptr + b.offset == old(8 * b.ptr + b.offset) + 8 + 8 * ContentLength(e)
  {
    hide BitRef.C, Put, NatBits, FieldBits, BytesBits, EntryFields, Up8, Octets;
    EntryParts(e);
    Position(b);
    ok := b.AdvanceBits(8);
    if !ok || e.Unsupported? {
      return false;
    }
    ok := PackFields(b, EntryFields(e));
    if ok {
      Position(b);
      PutNoPad(b.C());
      var _ := b.AlignBytesZero();
      Position(b);
    }
  }

  lemma EntryParts(e: SNssai)
    ensures |FieldBits(EntryFields(e))| == 8 * ContentLength(e)
    ensures EncEntry(e) == NatBits(ContentLength(e), 8) + FieldBits(EntryFields(e))
    ensures !e.Unsupported? ==> 1 <= ContentLength(e) <= 8
  {
    hide NatBits, FieldBits;
    EntryBits(e);
  }

  lemma WholeOctets(k: nat)
    ensures Octets(8 * k) == k
  {
  }

  method UnpackEntry(b: BitRef) returns (ok: bool, e: SNssai)
    requires b.Valid()
    modifies b`ptr, b`offset
    ensures b.Valid() && b.C().bits == old(b.C().bits)
    ensures var r := DecEntry(old(b.C().bits), old(b.C().pos));
      ok == r.ok && b.C().pos == r.pos && (ok ==> e == r.v)
  {
    hide BitRef.C, Read, ReadFields;
    e := Unsupported;
    var length, vs;
    ok, length := b.Unpack(8, 0, 8);
    if !ok {
      return;
    }
    if length < 1 || length > 8 || WidthsFor(length) == [] {
      return false, e;
    }
    ok, vs := UnpackFields(b, WidthsFor(length));
    if ok {
      e := EntryOf(length, vs);
    }
  }

  lemma ListStep(bits: seq<bool>, pos: nat, start: nat, length: nat)
    requires start <= pos <= |bits|
    ensures var e := DecEntry(bits, pos);
      DecList(bits, pos, start, length) ==
        if (pos - start) / 8 >= length then Rd(true, [], pos)
        else if !e.ok then Rd(false, [], e.pos)
        else
          var t := DecList(bits, e.pos, start, length);
          Rd(t.ok, [e.v] + t.v, t.pos)
  {
    hide DecEntry;
  }

  lemma Append(es: seq<SNssai>, e: SNssai, rest: seq<SNssai>)
    ensures es + [e] + rest == es + ([e] + rest)
  {
  }

  ghost predicate AllTyped(es: seq<SNssai>) {
    forall i :: 0 <= i < |es| ==> Typed(es[i])
  }

  ghost predicate AllSupported(es: seq<SNssai>) {
    forall i :: 0 <= i < |es| ==> !es[i].Unsupported?
  }

  lemma NssaiParts(es: seq<SNssai>)
    ensures EncNssai(es) == NatBits(ListLength(es) % 256, 8) + EncList(es)
    ensures |EncList(es)| == 8 * ListLength(es) && |EncNssai(es)| == 8 + 8 * ListLength(es)
  {
    hide NatBits;
    ListBits(es);
  }

  class Nssai {
    var list: seq<SNssai>

    method Pack(b: BitRef) returns (ok: bool)
      requires b.Valid() && b.offset == 0 && AllTyped(list)
      modifies b`ptr, b`offset, b.buf
      ensures b.Valid()
      ensures ok == (AllSupported(list) && |EncNssai(list)| <= old(b.C().Room())
        && 2 <= ListLength(list) % 256 <= 144)
      ensures ok ==> b.C() == Put(old(b.C()), EncNssai(list))
    {
      hide BitRef.C, Put, Skip, NatBits, EncList, ListLength, AllTyped, Up8, Octets, AllSupported, EncNssai;
      NssaiParts(list);
      OnBoundary(b);
      ghost var c := b.C();
      var saved := new BitRef.Copy(b);
      ok := SkipAndList(b);
      if ok {
        OnBoundary(saved);
        ok := CloseList(b, saved, c);
      }
    }

    /** The length octet of the list that stands behind the saved cursor. */
    method CloseList(b: BitRef, saved: BitRef, ghost c: Cur) returns (ok: bool)
      requires b.Valid() && saved.Valid() && saved != b && saved.buf == b.buf
      requires c.Valid() && c.pos % 8 == 0 && saved.C().pos == c.pos == 8 * saved.ptr + saved.offset
      requires 8 + |EncList(list)| <= c.Room() && b.C() == Put(Skip(c, 8), EncList(list))
      requires 8 * b.ptr + b.offset == c.pos + 8 + 8 * ListLength(list)
      modifies saved`ptr, saved`offset, b.buf
      ensures b.Valid() && ok == (2 <= ListLength(list) % 256 <= 144)
      ensures ok ==> b.C() == Put(c, EncNssai(list))
    {
      hide BitRef.C, Put, Skip, NatBits, EncList, ListLength, Up8, Octets, EncNssai;
      NssaiParts(list);
      var length := (Octets(8 * b.ptr + b.offset - (8 * saved.ptr + saved.offset)) - 1) % 256;
      WholeOctets(1 + ListLength(list));
      ok := LengthAllowed(length);
      if ok {
        PatchLength(b, saved, length, 8, c, EncList(list));
      }
    }

    /** The list without its length octet. */
    method SkipAndList(b: BitRef) returns (ok: bool)
      requires b.Valid() && b.offset == 0 && AllTyped(list)
      modifies b`ptr, b`offset, b.buf
      ensures b.Valid()
      ensures ok == (AllSupported(list) && 8 + |EncList(list)| <= old(b.C().Room()))
      ensures ok ==> 8 <= old(b.C().Room()) && b.C() == Put(Skip(old(b.C()), 8), EncList(list))
      ensures ok ==> 8 * b.ptr + b.offset == old(8 * b.ptr + b.offset) + 8 + 8 * ListLength(list)
    {
      hide BitRef.C, Put, NatBits, EncList, ListLength, AllTyped, Up8, Octets, AllSupported;
      ListBits(list);
      Position(b);
      ok := b.AdvanceBits(8);
      if !ok {
        return;
      }
      Position(b);
      ok := PackList(b);
      if ok {
        Position(b);
        PutNoPad(b.C());
        var _ := b.AlignBytesZero();
        Position(b);
      }
    }

    method PackList(b: BitRef) returns (ok: bool)
      requires b.Valid() && b.offset == 0 && AllTyped(list)
      modifies b`ptr, b`offset, b.buf
      ensures b.Valid()
      ensures ok == (AllSupported(list) && |EncList(list)| <= old(b.C().Room()))
      ensures ok ==> b.C() == Put(old(b.C()), EncList(list)) && b.offset == 0
    {
      hide BitRef.C, Put, EncEntry, Typed;
      ghost var c := b.C();
      var i := 0;
      assert list[0..] == list;
      while i < |list|
        invariant i <= |list| && b.Valid() && b.offset == 0
        invariant Put(b.C(), EncList(list[i..])) == Put(c, EncList(list))
        invariant b.C().pos + |EncList(list[i..])| == c.pos + |EncList(list)| && |b.C().bits| == |c.bits|
        invariant forall j :: 0 <= j < i ==> !list[j].Unsupported?
      {
        assert list[i..][1..] == list[i + 1..];
        PutPut(b.C(), EncEntry(list[i]), EncList(list[i + 1..]));
        ok := PackEntry(b, list[i]);
        if !ok {
          return;
        }
        i := i + 1;
      }
      PutNothing(b.C());
      return true;
    }

    method Unpack(b: BitRef) returns (ok: bool)
      requires b.Valid()
      modifies this, b`ptr, b`offset
      ensures b.Valid() && b.C().bits == old(b.C().bits)
      ensures var r := DecNssai(old(b.C().bits), old(b.C().pos));
        ok == r.ok && b.C().pos == r.pos && list == old(list) + r.v
    {
      hide BitRef.C, Read, DecList;
      var length;
      ok, length := b.Unpack(8, 0, 8);
      if !ok || !LengthAllowed(length) {
        return false;
      }
      ok := UnpackList(b, length);
    }

    /** Reads entries while fewer than `length` octets are behind the start. */
    method UnpackList(b: BitRef, length: nat) returns (ok: bool)
      requires b.Valid()
      modifies this, b`ptr, b`offset
      ensures b.Valid() && b.C().bits == old(b.C().bits)
      ensures var r := DecList(old(b.C().bits), old(b.C().pos), old(b.C().pos), length);
        ok == r.ok && b.C().pos == r.pos && list == old(list) + r.v
    {
      hide BytesBits, DecEntry, DecList, BitRef.C;
      Position(b);
      ghost var bits, first, goal := b.C().bits, list, DecList(b.C().bits, b.C().pos, b.C().pos, length);
      var start := 8 * b.ptr + b.offset;
      while (8 * b.ptr + b.offset - start) / 8 < length
        invariant b.Valid() && start <= b.C().pos == 8 * b.ptr + b.offset && b.C().bits == bits
        invariant var r := DecList(bits, b.C().pos, start, length);
          r.ok == goal.ok && r.pos == goal.pos && list + r.v == first + goal.v
        decreases |bits| - b.C().pos
      {
        EntryConsumes(bits, b.C().pos);
        ListStep(bits, b.C().pos, start, length);
        ghost var before := list;
        var e;
        ok, e := UnpackEntry(b);
        if !ok {
          assert before + [] == before;
          return;
        }
        list := list + [e];
        Position(b);
        Append(before, e, DecList(bits, b.C().pos, start, length).v);
      }
      ListStep(bits, b.C().pos, start, length);
      assert list + [] == list;
      return true;
    }
  }
}
