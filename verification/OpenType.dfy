/**
 Messages with open-type fields nested to any depth. Packing an open type redirects the
 caller's cursor into a side buffer and splices the octets back behind their length;
 unpacking stays in the main stream and skips what the body did not read.
 */
module OpenType {
  import opened Bits
  import opened BitCursor
  import opened BitRefs
  import opened Per

  /** Octets of the side buffer of `varlength_field_pack_guard`. */
  const SIDE_BUFFER := 4096

  /** `distance` counts bits in an `int`. */
  const MAX_BUFFER := 0x1000_0000

  /** A message: its fields in order, an open type holding a message of its own. */
  datatype Msg =
    | End
    | BitField(n: nat, v: nat, next: Msg)
    | Number(lb: int, ub: int, x: int, next: Msg)
    | OctetString(data: seq<Byte>, next: Msg)
    | Open(body: Msg, next: Msg)

  /** What the decoder knows of a message before it reads it. */
  datatype Shape =
    | SEnd
    | SBitField(n: nat, next: Shape)
    | SNumber(lb: int, ub: int, next: Shape)
    | SOctetString(next: Shape)
    | SOpen(body: Shape, next: Shape)

  function ShapeOf(m: Msg): Shape {
    match m
    case End => SEnd
    case BitField(n, _, next) => SBitField(n, ShapeOf(next))
    case Number(lb, ub, _, next) => SNumber(lb, ub, ShapeOf(next))
    case OctetString(_, next) => SOctetString(ShapeOf(next))
    case Open(body, next) => SOpen(ShapeOf(body), ShapeOf(next))
  }

  function WithNext(m: Msg, next: Msg): Msg {
    match m
    case End => next
    case BitField(n, v, _) => BitField(n, v, next)
    case Number(lb, ub, x, _) => Number(lb, ub, x, next)
    case OctetString(data, _) => OctetString(data, next)
    case Open(body, _) => Open(body, next)
  }

  /** The values fit the C++ types that carry them. */
  ghost predicate Typed(m: Msg) {
    match m
    case End => true
    case BitField(n, v, next) => v < UINT64_RANGE && Typed(next)
    case Number(lb, ub, x, next) => ub - lb < EXACT_RANGE && Typed(next)
    case OctetString(data, next) => |data| < UINT32_RANGE && Typed(next)
    case Open(body, next) => Typed(body) && Typed(next)
  }

  // ----- encoding -----

  /** An open type: length in octets, the body, and zeros up to the octet. */
  function EncOpen(body: seq<bool>, aligned: bool, pos: nat): seq<bool> {
    EncLength(Octets(|body|), aligned, pos).w + (body + Pad(|body|))
  }

  /** The first field; `body` is the encoding of the body of an open type. */
  function EncHead(m: Msg, body: seq<bool>, pos: nat, aligned: bool): seq<bool>
    requires !m.End?
  {
    match m
    case BitField(n, v, _) => NatBits(v, n)
    case Number(lb, ub, x, _) => if lb <= x <= ub then EncNumber(x - lb, ub - lb + 1, aligned, pos) else []
    case OctetString(data, _) => EncLength(|data|, aligned, pos).w + BytesBits(data)
    case Open(_, _) => EncOpen(body, aligned, pos)
  }

  /** The ideal encoding, for a message whose values are in range, in a buffer without end. */
  function Enc(m: Msg, pos: nat, aligned: bool): seq<bool>
    decreases m
  {
    if m.End? then [] else
      var w := EncHead(m, EncBody(m, aligned), pos, aligned);
      w + Enc(m.next, pos + |w|, aligned)
  }

  /** The body of an open type is laid out from offset zero of a side buffer. */
  function EncBody(m: Msg, aligned: bool): seq<bool>
    decreases m, 0
  {
    if m.Open? then Enc(m.body, 0, aligned) else []
  }

  /** Every value is in the range of its encoding. */
  ghost predicate ValuesFit(m: Msg) {
    !m.End? ==>
      && ValuesFit(m.next)
      && (m.BitField? ==> m.n <= 32 && m.v < Pow2(m.n))
      && (m.Number? ==> m.lb <= m.x <= m.ub && m.ub - m.lb < EXACT_RANGE)
      && (m.OctetString? ==> |m.data| < ASN_16K)
      && (m.Open? ==> ValuesFit(m.body))
  }

  /** The body of every open type fits its side buffer. */
  ghost predicate SidesFit(m: Msg, aligned: bool) {
    !m.End? ==>
      && SidesFit(m.next, aligned)
      && (m.Open? ==> SidesFit(m.body, aligned) && |EncBody(m, aligned)| <= 8 * SIDE_BUFFER)
  }

  ghost predicate Encodable(m: Msg, aligned: bool) {
    ValuesFit(m) && SidesFit(m, aligned)
  }

  /**
   The bits written for the first field in `room` bits, and whether packing goes on after it;
   `inner` is what packing the body of an open type did to the side buffer.
   */
  function PackHead(m: Msg, inner: Emit, room: nat, pos: nat, aligned: bool): (e: Emit)
    requires !m.End?
    ensures |e.w| <= room
  {
    match m
    case BitField(n, v, _) =>
      if n >= 64 then Emit([], false) else Emit(Cut(NatBits(v, n), room), n <= room)
    case Number(lb, ub, x, _) =>
      if !(lb <= x <= ub) then Emit([], false) else
        var w := EncNumber(x - lb, ub - lb + 1, aligned, pos);
        Emit(Cut(w, room), !aligned || |w| <= room)
    case OctetString(data, _) =>
      var l := EncLength(|data|, aligned, pos);
      if !l.ok then Emit(Cut(l.w, room), false) else
        Emit(Cut(l.w + BytesBits(data), room), |l.w + BytesBits(data)| <= room)
    case Open(_, _) =>
      Emit(Cut(EncOpen(inner.w, aligned, pos), room), inner.ok)
  }

  /**
   What packing writes in every case: full buffers, values out of range, and the return
   codes that the code drops (an unaligned number, the splice of an open type).
   */
  function PackAll(m: Msg, room: nat, pos: nat, aligned: bool): (e: Emit)
    ensures |e.w| <= room
    decreases m
  {
    if m.End? then Emit([], true) else
      var h := PackHead(m, PackBody(m, aligned), room, pos, aligned);
      if !h.ok then h else
        var t := PackAll(m.next, room - |h.w|, pos + |h.w|, aligned);
        Emit(h.w + t.w, t.ok)
  }

  function PackBody(m: Msg, aligned: bool): (e: Emit)
    ensures |e.w| <= 8 * SIDE_BUFFER
    decreases m, 0
  {
    if m.Open? then PackAll(m.body, 8 * SIDE_BUFFER, 0, aligned) else Emit([], true)
  }

  /** A message that is encodable and fits is packed as its ideal encoding. */
  lemma {:induction false} PackAllIsEnc(m: Msg, room: nat, pos: nat, aligned: bool)
    requires Encodable(m, aligned) && |Enc(m, pos, aligned)| <= room
    ensures PackAll(m, room, pos, aligned) == Emit(Enc(m, pos, aligned), true)
    decreases m
  {
    hide PackAll, Enc, PackHead, EncHead;
    EncStep(m, pos, aligned);
    PackStep(m, room, pos, aligned);
    if !m.End? {
      var body := EncBody(m, aligned);
      var w := EncHead(m, body, pos, aligned);
      if m.Open? {
        PackAllIsEnc(m.body, 8 * SIDE_BUFFER, 0, aligned);
      }
      HeadIsEnc(m, body, room, pos, aligned);
      PackAllIsEnc(m.next, room - |w|, pos + |w|, aligned);
    }
  }

  lemma HeadOfOpen(m: Msg, body: seq<bool>, pos: nat, aligned: bool)
    requires m.Open?
    ensures EncHead(m, body, pos, aligned) == EncOpen(body, aligned, pos)
  {
  }

  lemma EncStep(m: Msg, pos: nat, aligned: bool)
    ensures m.End? ==> Enc(m, pos, aligned) == []
    ensures !m.End? ==>
      var w := EncHead(m, EncBody(m, aligned), pos, aligned);
      Enc(m, pos, aligned) == w + Enc(m.next, pos + |w|, aligned)
  {
  }

  lemma PackStep(m: Msg, room: nat, pos: nat, aligned: bool)
    ensures m.End? ==> PackAll(m, room, pos, aligned) == Emit([], true)
    ensures !m.End? ==>
      var h := PackHead(m, PackBody(m, aligned), room, pos, aligned);
      PackAll(m, room, pos, aligned) == if !h.ok then h else
        var t := PackAll(m.next, room - |h.w|, pos + |h.w|, aligned);
        Emit(h.w + t.w, t.ok)
  {
  }

  lemma HeadIsEnc(m: Msg, body: seq<bool>, room: nat, pos: nat, aligned: bool)
    requires !m.End? && Encodable(m, aligned) && |EncHead(m, body, pos, aligned)| <= room
    ensures PackHead(m, Emit(body, true), room, pos, aligned) == Emit(EncHead(m, body, pos, aligned), true)
  {
    hide NatBits, BytesBits, EncNumber, EncOpen, EncBody;
  }

  // ----- alignment at every depth -----

  /**
   The encoding depends on the start position only through its phase, and in the unaligned
   variant not at all. So what is laid out from offset zero of a side buffer is laid out
   right for the stream it is spliced into, at every depth.
   */
  lemma {:induction false} EncPhase(m: Msg, p: nat, q: nat, aligned: bool)
    requires aligned ==> p % 8 == q % 8
    ensures Enc(m, p, aligned) == Enc(m, q, aligned)
    decreases m
  {
    hide Enc, EncHead;
    EncStep(m, p, aligned);
    EncStep(m, q, aligned);
    if !m.End? {
      var body := EncBody(m, aligned);
      HeadPhase(m, body, p, q, aligned);
      var w := EncHead(m, body, p, aligned);
      if aligned { ModShift(p, q, |w|); }
      EncPhase(m.next, p + |w|, q + |w|, aligned);
    }
  }

  lemma HeadPhase(m: Msg, body: seq<bool>, p: nat, q: nat, aligned: bool)
    requires !m.End? && (aligned ==> p % 8 == q % 8)
    ensures EncHead(m, body, p, aligned) == EncHead(m, body, q, aligned)
  {
    hide NatBits, BytesBits, EncNumber, EncLength, Octets;
    match m
    case BitField(_, _, _) =>
    case Number(lb, ub, x, _) => if lb <= x <= ub { NumberPhase(x - lb, ub - lb + 1, p, q, aligned); }
    case OctetString(data, _) => LengthPhase(|data|, p, q, aligned);
    case Open(_, _) => LengthPhase(Octets(|body|), p, q, aligned);
  }

  lemma NumberPhase(x: nat, ra: nat, p: nat, q: nat, aligned: bool)
    requires x < ra && (aligned ==> p % 8 == q % 8)
    ensures EncNumber(x, ra, aligned, p) == EncNumber(x, ra, aligned, q)
  {
    hide NatBits, Pad, PrefixWidth, MinOctets, CeilLog2, Up8;
    if aligned {
      PadPhase(p, q);
      var k := PrefixWidth(ra);
      ModShift(p, q, k);
      PadPhase(p + k, q + k);
    }
  }

  lemma ModShift(p: nat, q: nat, k: nat)
    requires p % 8 == q % 8
    ensures (p + k) % 8 == (q + k) % 8
  {
  }

  lemma LengthPhase(n: nat, p: nat, q: nat, aligned: bool)
    requires aligned ==> p % 8 == q % 8
    ensures EncLength(n, aligned, p) == EncLength(n, aligned, q)
  {
    hide NatBits, Pad;
    if aligned { PadPhase(p, q); }
  }

  lemma PadPhase(p: nat, q: nat)
    requires p % 8 == q % 8
    ensures Pad(p) == Pad(q)
  {
    hide Up8;
    GapToOctet(p);
    GapToOctet(q);
  }

  lemma GapToOctet(p: nat)
    ensures Up8(p) - p == if p % 8 == 0 then 0 else 8 - p % 8
  {
  }

  /** The length of an aligned open type ends on an octet boundary. */
  lemma LengthEndsAligned(n: nat, pos: nat)
    requires n < ASN_16K
    ensures (pos + |EncLength(n, true, pos).w|) % 8 == 0
  {
    hide NatBits;
  }

  // ----- decoding -----

  /** The skip at the end of an open type: at most the 32 bits of its variable, else no move. */
  function SkipRest(bits: seq<bool>, pos: nat, left: int): (p: nat)
    requires pos <= |bits|
    ensures pos <= p <= |bits|
  {
    if 0 <= left <= 32 then Read(bits, pos, left).pos else pos
  }

  /** The first field, if it is not an open type, as a message of that field alone. */
  function DecLeaf(s: Shape, bits: seq<bool>, pos: nat, aligned: bool): (r: Rd<Msg>)
    requires pos <= |bits| && |bits| % 8 == 0 && !s.SEnd? && !s.SOpen?
    ensures pos <= r.pos <= |bits| && (r.ok ==> !r.v.End?)
  {
    match s
    case SBitField(n, _) =>
      if n > 32 then Rd(false, End, pos) else
        var r := Read(bits, pos, n);
        Rd(r.ok, BitField(n, r.v, End), r.pos)
    case SNumber(lb, ub, _) =>
      if ub < lb then Rd(false, End, pos) else
        var r := DecNumber(bits, pos, ub - lb + 1, aligned);
        Rd(r.ok, Number(lb, ub, lb + r.v, End), r.pos)
    case SOctetString(_) =>
      var l := DecLength(bits, pos, aligned);
      if !l.ok then Rd(false, End, l.pos)
      else if l.pos + 8 * l.v > |bits| then Rd(false, End, |bits|)
      else Rd(true, OctetString(OctetsAt(bits, l.pos, l.v), End), l.pos + 8 * l.v)
  }

  /** Total on every stream: the length of an open type is used even if reading it failed. */
  function Dec(s: Shape, bits: seq<bool>, pos: nat, aligned: bool): (r: Rd<Msg>)
    requires pos <= |bits| && |bits| % 8 == 0
    ensures pos <= r.pos <= |bits|
    decreases s
  {
    if s.SEnd? then Rd(true, End, pos) else
      var h := if s.SOpen? then DecOpen(s, bits, pos, aligned) else DecLeaf(s, bits, pos, aligned);
      if !h.ok then Rd(false, End, h.pos) else
        var t := Dec(s.next, bits, h.pos, aligned);
        Rd(t.ok, WithNext(h.v, t.v), t.pos)
  }

  function DecOpen(s: Shape, bits: seq<bool>, pos: nat, aligned: bool): (r: Rd<Msg>)
    requires pos <= |bits| && |bits| % 8 == 0 && s.SOpen?
    ensures pos <= r.pos <= |bits| && !r.v.End?
    decreases s, 0
  {
    var l := DecLength(bits, pos, aligned);
    var r := Dec(s.body, bits, l.pos, aligned);
    Rd(r.ok, Open(r.v, End), SkipRest(bits, r.pos, 8 * l.v - (r.pos - l.pos)))
  }

  /**
   Unpacking inverts packing, for every message tree and both variants: the same tree comes
   back and the cursor ends where the encoding ends.
   */
  lemma {:induction false} DecodeEncoded(m: Msg, bits: seq<bool>, pos: nat, aligned: bool)
    requires |bits| % 8 == 0 && Encodable(m, aligned)
    requires At(bits, pos, Enc(m, pos, aligned))
    ensures Dec(ShapeOf(m), bits, pos, aligned) == Rd(true, m, pos + |Enc(m, pos, aligned)|)
    decreases m
  {
    hide Enc, EncHead, Dec, DecLeaf, DecOpen, EncOpen, EncLength, DecLength;
    EncStep(m, pos, aligned);
    DecStep(ShapeOf(m), bits, pos, aligned);
    if !m.End? {
      var body := EncBody(m, aligned);
      var w := EncHead(m, body, pos, aligned);
      AtSplit(bits, pos, w, Enc(m.next, pos + |w|, aligned));
      DecodeEncoded(m.next, bits, pos + |w|, aligned);
      if m.Open? {
        HeadOfOpen(m, body, pos, aligned);
        OpenAt(bits, pos, body, aligned);
        var p := pos + |EncLength(Octets(|body|), aligned, pos).w|;
        EncPhase(m.body, 0, p, aligned);
        DecodeEncoded(m.body, bits, p, aligned);
        DecodeOpen(m, body, bits, pos, aligned, p);
      } else {
        DecodeLeaf(m, body, bits, pos, aligned);
      }
    }
  }

  lemma DecStep(s: Shape, bits: seq<bool>, pos: nat, aligned: bool)
    requires pos <= |bits| && |bits| % 8 == 0
    ensures s.SEnd? ==> Dec(s, bits, pos, aligned) == Rd(true, End, pos)
    ensures !s.SEnd? ==>
      var h := if s.SOpen? then DecOpen(s, bits, pos, aligned) else DecLeaf(s, bits, pos, aligned);
      Dec(s, bits, pos, aligned) == if !h.ok then Rd(false, End, h.pos) else
        var t := Dec(s.next, bits, h.pos, aligned);
        Rd(t.ok, WithNext(h.v, t.v), t.pos)
  {
  }

  lemma DecodeOpen(m: Msg, body: seq<bool>, bits: seq<bool>, pos: nat, aligned: bool, p: nat)
    requires |bits| % 8 == 0 && m.Open? && |body| <= 8 * SIDE_BUFFER
    requires At(bits, pos, EncOpen(body, aligned, pos))
    requires p == pos + |EncLength(Octets(|body|), aligned, pos).w| <= |bits|
    requires Dec(ShapeOf(m.body), bits, p, aligned) == Rd(true, m.body, p + |body|)
    ensures DecOpen(ShapeOf(m), bits, pos, aligned)
         == Rd(true, Open(m.body, End), pos + |EncOpen(body, aligned, pos)|)
  {
    hide Dec, DecLength, EncLength, EncOpen, Octets, SkipRest;
    OpenAt(bits, pos, body, aligned);
    OpenRead(bits, p, body);
  }

  lemma DecodeLeaf(m: Msg, body: seq<bool>, bits: seq<bool>, pos: nat, aligned: bool)
    requires |bits| % 8 == 0 && Encodable(m, aligned) && !m.End? && !m.Open?
    requires At(bits, pos, EncHead(m, body, pos, aligned))
    ensures DecLeaf(ShapeOf(m), bits, pos, aligned)
         == Rd(true, WithNext(m, End), pos + |EncHead(m, body, pos, aligned)|)
  {
    hide NatBits, BytesBits, Read, Pow2, EncNumber, DecNumber, EncLength, DecLength, OctetsAt, EncBody;
    match m
    case BitField(n, v, _) => ReadNat(bits, pos, v, n);
    case Number(lb, ub, x, _) => NumberRoundTrip(bits, pos, x - lb, ub - lb + 1, aligned);
    case OctetString(data, _) =>
      var l := EncLength(|data|, aligned, pos).w;
      AtSplit(bits, pos, l, BytesBits(data));
      LengthOk(|data|, aligned, pos);
      LengthRoundTrip(bits, pos, |data|, aligned);
      OctetsReadBack(bits, pos + |l|, data);
  }

  lemma LengthOk(n: nat, aligned: bool, pos: nat)
    requires n < ASN_16K
    ensures EncLength(n, aligned, pos).ok
  {
  }

  lemma OpenRead(bits: seq<bool>, p: nat, body: seq<bool>)
    requires p + 8 * Octets(|body|) <= |bits|
    ensures SkipRest(bits, p + |body|, 8 * Octets(|body|) - |body|) == p + 8 * Octets(|body|)
  {
  }

  /** Where the parts of an open type stand, and what its length decodes to. */
  lemma OpenAt(bits: seq<bool>, pos: nat, body: seq<bool>, aligned: bool)
    requires |bits| % 8 == 0 && |body| <= 8 * SIDE_BUFFER
    requires At(bits, pos, EncOpen(body, aligned, pos))
    ensures var n := Octets(|body|);
      var p := pos + |EncLength(n, aligned, pos).w|;
      && DecLength(bits, pos, aligned) == Rd(true, n, p)
      && At(bits, p, body)
      && pos + |EncOpen(body, aligned, pos)| == p + 8 * n
      && (aligned ==> p % 8 == 0)
  {
    var n := Octets(|body|);
    PaddedSize(|body|);
    LengthOk(n, aligned, pos);
    hide EncLength, DecLength, Pad, Octets;
    var l := EncLength(n, aligned, pos).w;
    AtSplit(bits, pos, l, body + Pad(|body|));
    AtSplit(bits, pos + |l|, body, Pad(|body|));
    LengthRoundTrip(bits, pos, n, aligned);
    if aligned { LengthEndsAligned(n, pos); }
  }

  lemma PaddedSize(n: nat)
    ensures 8 * Octets(n) == n + |Pad(n)|
  {
  }

  /** The skip behind the body reaches the end if and only if at most 32 bits were left unread. */
  lemma SkipReachesEnd(bits: seq<bool>, pos: nat, body: seq<bool>, aligned: bool, s: Shape)
    requires |bits| % 8 == 0 && |body| <= 8 * SIDE_BUFFER && s.SOpen?
    requires At(bits, pos, EncOpen(body, aligned, pos))
    ensures var end := pos + |EncOpen(body, aligned, pos)|;
      var stop := Dec(s.body, bits, DecLength(bits, pos, aligned).pos, aligned).pos;
      stop <= end ==> (DecOpen(s, bits, pos, aligned).pos == end <==> end - stop <= 32)
  {
    hide Dec, DecLength, EncOpen, EncLength, Octets;
    OpenAt(bits, pos, body, aligned);
  }

  /**
   A decoder that knows only the first fields `m` of the body returns them and resynchronises
   behind the open type if and only if what it does not know, with the padding, has at most 32 bits.
   */
  lemma UnknownTailSkipped(bits: seq<bool>, pos: nat, m: Msg, more: seq<bool>, aligned: bool)
    requires |bits| % 8 == 0 && Encodable(m, aligned)
    requires var body := Enc(m, 0, aligned) + more;
      |body| <= 8 * SIDE_BUFFER && At(bits, pos, EncOpen(body, aligned, pos))
    ensures var body := Enc(m, 0, aligned) + more;
      var end := pos + |EncOpen(body, aligned, pos)|;
      DecOpen(SOpen(ShapeOf(m), SEnd), bits, pos, aligned) == Rd(true, Open(m, End), end)
      <==> |more| + |Pad(|body|)| <= 32
  {
    hide Enc, Dec, DecLength, EncLength, EncOpen, Octets, SkipRest, Encodable;
    var known := Enc(m, 0, aligned);
    var body := known + more;
    PaddedSize(|body|);
    hide Pad;
    OpenAt(bits, pos, body, aligned);
    var p := pos + |EncLength(Octets(|body|), aligned, pos).w|;
    AtSplit(bits, p, known, more);
    EncPhase(m, 0, p, aligned);
    DecodeEncoded(m, bits, p, aligned);
    SkipReachesEnd(bits, pos, body, aligned, SOpen(ShapeOf(m), SEnd));
  }

  // ----- the code -----

  /** `varlength_field_pack_guard`: construction redirects the cursor, `Close` is the destructor. */
  class PackGuard {
    const start: BitRef
    const tracker: BitRef
    const side: array<Byte>
    const align: bool

    constructor (b: BitRef, align: bool)
      requires b.Valid()
      modifies b
      ensures fresh(start) && fresh(side) && side.Length == 4096 && tracker == b && this.align == align
      ensures start.Valid() && start.buf == old(b.buf) && start.C() == old(b.C())
      ensures b.Valid() && b.buf == side && b.C().pos == 0 && |b.C().bits| == 8 * SIDE_BUFFER
    {
      start := new BitRef.Copy(b);
      side := new Byte[SIDE_BUFFER];
      tracker, this.align := b, align;
      new;
      b.buf, b.ptr, b.offset := side, 0, 0;
    }

    /** Pads the side buffer to octets, writes length and octets at the old place, restores the cursor. */
    method Close()
      requires start.Valid() && tracker.Valid() && tracker.buf == side && side.Length == SIDE_BUFFER
      requires start != tracker && start.buf != side && (align ==> start.C().Clean())
      modifies tracker, start, start.buf, side
      ensures tracker.Valid() && tracker.buf == old(start.buf)
      ensures var body := old(tracker.C().bits[..tracker.C().pos]);
        tracker.C() == Put(old(start.C()), EncOpen(body, align, old(start.C().pos)))
    {
      hide BitRef.C, Put, EncLength, BytesBits, Octets;
      ghost var c, body := start.C(), tracker.C().bits[..tracker.C().pos];
      var data := PadSide();
      assert start.C() == c;
      var _ := PackLength(start, |data|, align);
      start.PackEach(data);
      PutPut(c, EncLength(|data|, align, c.pos).w, BytesBits(data));
      tracker.buf, tracker.ptr, tracker.offset := start.buf, start.ptr, start.offset;
      SameCursor(tracker, start);
    }

    /** Fills the last octet of the side buffer and returns the octets in use. */
    method PadSide() returns (data: seq<Byte>)
      requires tracker.Valid() && tracker.buf == side && side.Length == SIDE_BUFFER
      modifies tracker`ptr, tracker`offset, side
      ensures tracker.Valid() && |data| == Octets(old(tracker.C().pos)) <= SIDE_BUFFER
      ensures var body := old(tracker.C().bits[..tracker.C().pos]);
        BytesBits(data) == body + Pad(|body|)
    {
      hide Put, BytesBits, NatBits;
      ghost var d := tracker.C();
      var distance := 8 * tracker.ptr + tracker.offset;
      var leftover := 7 - (distance + UINT32_RANGE - 1) % 8;
      LeftoverIsPad(distance);
      hide Pad, Octets, Up8;
      var _ := tracker.Pack(0, leftover);
      PutAt(d, Pad(d.pos));
      var octets := (8 * tracker.ptr + tracker.offset) / 8;
      data := side[..octets];
      BytesBitsPrefix(side[..], octets);
      assert side[..][..octets] == data;
      PrefixAt(BytesBits(side[..]), d.pos, Pad(d.pos));
    }
  }

  /** The bits up to the next octet, from the distance by unsigned arithmetic. */
  lemma LeftoverIsPad(pos: nat)
    ensures NatBits(0, 7 - (pos + UINT32_RANGE - 1) % 8) == Pad(pos)
    ensures (pos + |Pad(pos)|) / 8 == Octets(pos) && pos + |Pad(pos)| == 8 * Octets(pos)
  {
    hide NatBits;
    NatBitsZero(7 - (pos + UINT32_RANGE - 1) % 8);
  }

  lemma PrefixAt(bits: seq<bool>, pos: nat, w: seq<bool>)
    requires At(bits, pos, w)
    ensures bits[..pos + |w|] == bits[..pos] + w
  {
  }

  method PackMessage(b: BitRef, m: Msg, aligned: bool) returns (ok: bool)
    requires b.Valid() && Typed(m) && (aligned ==> b.C().Clean())
    modifies b, b.buf
    ensures b.Valid() && b.buf == old(b.buf)
    ensures var e := PackAll(m, old(b.C().Room()), old(b.C().pos), aligned);
      b.C() == Put(old(b.C()), e.w) && ok == e.ok
    decreases m, 2
  {
    hide BitRef.C, Put, PackAll, PackHead, PackBody, NatBits, Cut, Up8;
    ghost var c := b.C();
    PackStep(m, c.Room(), c.pos, aligned);
    if m.End? {
      PutNothing(c);
      return true;
    }
    ok := PackFirst(b, m, aligned);
    if ok {
      ghost var h := PackHead(m, PackBody(m, aligned), c.Room(), c.pos, aligned);
      ok := PackMessage(b, m.next, aligned);
      PutPut(c, h.w, PackAll(m.next, c.Room() - |h.w|, c.pos + |h.w|, aligned).w);
    }
  }

  method PackFirst(b: BitRef, m: Msg, aligned: bool) returns (ok: bool)
    requires b.Valid() && Typed(m) && !m.End? && (aligned ==> b.C().Clean())
    modifies b, b.buf
    ensures b.Valid() && b.buf == old(b.buf) && (aligned ==> b.C().Clean())
    ensures var h := PackHead(m, PackBody(m, aligned), old(b.C().Room()), old(b.C().pos), aligned);
      b.C() == Put(old(b.C()), h.w) && ok == h.ok
    decreases m, 1
  {
    hide BitRef.C, Put, PackAll, NatBits, EncNumber, EncLength, EncOpen, BytesBits;
    ghost var c := b.C();
    match m {
      case BitField(n, v, _) =>
        ok := b.Pack(v, n);
        PutNothing(c);
        PutCut(c, NatBits(v, n));
      case Number(lb, ub, x, _) =>
        ok := PackConstrainedWholeNumber(b, x, lb, ub, aligned);
        PutNothing(c);
        if lb <= x <= ub { PutCut(c, EncNumber(x - lb, ub - lb + 1, aligned, c.pos)); }
      case OctetString(data, _) =>
        ok := PackOctetString(b, data, aligned);
      case Open(_, _) =>
        ok := PackOpen(b, m, aligned);
    }
    if aligned {
      PutClean(c, PackHead(m, PackBody(m, aligned), c.Room(), c.pos, aligned).w);
    }
  }

  method PackOctetString(b: BitRef, data: seq<Byte>, aligned: bool) returns (ok: bool)
    requires b.Valid() && |data| < UINT32_RANGE && (aligned ==> b.C().Clean())
    modifies b`ptr, b`offset, b.buf
    ensures b.Valid()
    ensures var h := PackHead(OctetString(data, End), Emit([], true), old(b.C().Room()), old(b.C().pos), aligned);
      b.C() == Put(old(b.C()), h.w) && ok == h.ok
  {
    hide BitRef.C, Put, EncLength, BytesBits;
    ghost var c := b.C();
    ghost var l := EncLength(|data|, aligned, c.pos);
    ok := PackLength(b, |data|, aligned);
    PutPut(c, l.w, BytesBits(data));
    PutCut(c, l.w);
    PutCut(c, l.w + BytesBits(data));
    if ok {
      ok := PackOctets(b, data);
    } else if l.ok {
      PutStop(c, l.w, BytesBits(data));
    }
  }

  method PackOpen(b: BitRef, m: Msg, aligned: bool) returns (ok: bool)
    requires b.Valid() && Typed(m) && m.Open? && (aligned ==> b.C().Clean())
    modifies b, b.buf
    ensures b.Valid() && b.buf == old(b.buf)
    ensures var h := PackHead(m, PackBody(m, aligned), old(b.C().Room()), old(b.C().pos), aligned);
      b.C() == Put(old(b.C()), h.w) && ok == h.ok
    decreases m, 0
  {
    hide BitRef.C, Put, PackAll, EncOpen;
    ghost var c := b.C();
    var guard := new PackGuard(b, aligned);
    ghost var d := b.C();
    ok := PackMessage(b, m.body, aligned);
    ghost var inner := PackAll(m.body, 8 * SIDE_BUFFER, 0, aligned);
    PutAt(d, inner.w);
    assert b.C().bits[..b.C().pos] == inner.w;
    guard.Close();
    PutCut(c, EncOpen(inner.w, aligned, c.pos));
  }

  method UnpackMessage(b: BitRef, s: Shape, aligned: bool) returns (ok: bool, m: Msg)
    requires b.Valid() && TypedShape(s) && b.buf.Length <= MAX_BUFFER
    modifies b`ptr, b`offset
    ensures b.Valid() && b.C().bits == old(b.C().bits)
    ensures var r := Dec(s, old(b.C().bits), old(b.C().pos), aligned);
      ok == r.ok && b.C().pos == r.pos && (ok ==> m == r.v)
    decreases s, 1
  {
    hide BitRef.C, Dec, DecLeaf, DecOpen;
    DecStep(s, b.C().bits, b.C().pos, aligned);
    if s.SEnd? {
      return true, End;
    }
    if s.SOpen? {
      ok, m := UnpackOpen(b, s, aligned);
    } else {
      ok, m := UnpackLeaf(b, s, aligned);
    }
    if ok {
      var rest;
      ok, rest := UnpackMessage(b, s.next, aligned);
      m := WithNext(m, rest);
    }
  }

  ghost predicate TypedShape(s: Shape) {
    match s
    case SEnd => true
    case SBitField(_, next) => TypedShape(next)
    case SNumber(lb, ub, next) => ub - lb < EXACT_RANGE && TypedShape(next)
    case SOctetString(next) => TypedShape(next)
    case SOpen(body, next) => TypedShape(body) && TypedShape(next)
  }

  method UnpackLeaf(b: BitRef, s: Shape, aligned: bool) returns (ok: bool, m: Msg)
    requires b.Valid() && TypedShape(s) && !s.SEnd? && !s.SOpen?
    modifies b`ptr, b`offset
    ensures b.Valid() && b.C().bits == old(b.C().bits)
    ensures var r := DecLeaf(s, old(b.C().bits), old(b.C().pos), aligned);
      ok == r.ok && b.C().pos == r.pos && (ok ==> m == r.v)
  {
    hide BitRef.C, Read, DecNumber, DecLength;
    match s
    case SBitField(n, _) =>
      var v;
      ok, v := b.Unpack(32, 0, n);
      m := BitField(n, v, End);
    case SNumber(lb, ub, _) =>
      var x;
      ok, x := UnpackConstrainedWholeNumber(b, lb, ub, aligned);
      m := Number(lb, ub, x, End);
    case SOctetString(_) =>
      var n, data;
      m := End;
      ok, n := UnpackLength(b, aligned);
      if ok {
        ok, data := UnpackOctets(b, n);
        m := OctetString(data, End);
      }
  }

  /** `varlength_field_unpack_guard` around the body; both its return codes are dropped. */
  method UnpackOpen(b: BitRef, s: Shape, aligned: bool) returns (ok: bool, m: Msg)
    requires b.Valid() && TypedShape(s) && s.SOpen? && b.buf.Length <= MAX_BUFFER
    modifies b`ptr, b`offset
    ensures b.Valid() && b.C().bits == old(b.C().bits)
    ensures var r := DecOpen(s, old(b.C().bits), old(b.C().pos), aligned);
      ok == r.ok && b.C().pos == r.pos && (ok ==> m == r.v)
    decreases s, 0
  {
    hide Dec, DecLength, Read, BytesBits;
    var _, len := UnpackLength(b, aligned);
    assert 0 <= len;
    var start := 8 * b.ptr + b.offset;
    var body;
    ok, body := UnpackMessage(b, s.body, aligned);
    m := Open(body, End);
    var left := 8 * len - (8 * b.ptr + b.offset - start);
    if left < 0 {
      left := left + UINT32_RANGE;
    }
    var _, _ := b.Unpack(32, 0, left);
  }
}
