/**
 An open type inside an open type that is too large for the side buffer of the outer one. Its
 splice drops the return codes of its writes there, so packing reports success in any room.
 */
module NestedSplice {
  import opened Bits
  import opened BitCursor
  import opened Per
  import opened OpenType
  import opened OpenCut

  /**
   A message that packing accepts and unpacking does not return, whatever the room: an octet string
   of 4094 octets in two open types. The inner open type takes 4098 octets, two more than the side
   buffer of the outer one, and its splice does not report that. The decoder takes the two octets
   missing from behind the message.
   */
  lemma NestedSpliceLost(c: Cur, data: seq<Byte>, aligned: bool)
    requires c.Valid() && c.pos == 0 && 40000 <= c.Room() && |data| == 4094
    ensures var m := Nested(data);
      var e := PackAll(m, c.Room(), 0, aligned);
      var d := Put(c, e.w);
      && ValuesFit(m) && !SidesFit(m, aligned) && e.ok
      && Needed(m, 0, aligned) <= c.Room()
      && Dec(ShapeOf(m), d.bits, 0, aligned) != Rd(true, m, d.pos)
  {
    var m := Nested(data);
    NestedSizes(data, aligned);
    NestedPacked(data, c.Room(), aligned);
    hide Enc, Needed, PackAll, Dec, Put, ValuesFit, SidesFit, Cut, NestedText;
    var w := NestedText(data, aligned);
    PutAt(c, w);
    NestedDecoded(Put(c, w).bits, data, aligned);
  }

  function Nested(data: seq<Byte>): Msg {
    Open(Open(OctetString(data, End), End), End)
  }

  /** The octet string as it is laid out. */
  function OctetsText(data: seq<Byte>, aligned: bool): seq<bool> {
    EncLength(|data|, aligned, 0).w + BytesBits(data)
  }

  /** What is left of the inner open type in the side buffer of the outer one. */
  function InnerText(data: seq<Byte>, aligned: bool): seq<bool> {
    Cut(EncOpen(OctetsText(data, aligned), aligned, 0), 8 * SIDE_BUFFER)
  }

  function NestedText(data: seq<Byte>, aligned: bool): seq<bool> {
    EncOpen(InnerText(data, aligned), aligned, 0)
  }

  lemma LongForm(n: nat, aligned: bool)
    requires 128 <= n < ASN_16K
    ensures EncLength(n, aligned, 0).ok && |EncLength(n, aligned, 0).w| == 16
  {
    hide NatBits;
  }

  /** The body of an open type that needs the two-octet length and ends on an octet boundary. */
  lemma LongOpen(body: seq<bool>, aligned: bool)
    requires |body| % 8 == 0 && 1024 <= |body| < 8 * ASN_16K
    ensures EncOpen(body, aligned, 0) == EncLength(|body| / 8, aligned, 0).w + body
    ensures |EncOpen(body, aligned, 0)| == 16 + |body|
  {
    hide NatBits, EncLength;
    LongForm(|body| / 8, aligned);
    assert Pad(|body|) == [];
    assert body + [] == body;
  }

  lemma NestedLengths(data: seq<Byte>, aligned: bool)
    requires |data| == 4094
    ensures |OctetsText(data, aligned)| == 8 * SIDE_BUFFER
    ensures |EncOpen(OctetsText(data, aligned), aligned, 0)| == 8 * SIDE_BUFFER + 16
    ensures |InnerText(data, aligned)| == 8 * SIDE_BUFFER
    ensures |NestedText(data, aligned)| == 8 * SIDE_BUFFER + 16
  {
    hide EncLength, BytesBits, EncOpen;
    LongForm(|data|, aligned);
    LongOpen(OctetsText(data, aligned), aligned);
    LongOpen(InnerText(data, aligned), aligned);
  }

  lemma NestedPacked(data: seq<Byte>, room: nat, aligned: bool)
    requires |data| == 4094 && 40000 <= room
    ensures PackAll(Nested(data), room, 0, aligned) == Emit(NestedText(data, aligned), true)
  {
    hide EncLength, BytesBits, EncOpen, PackAll, Cut;
    NestedLengths(data, aligned);
    LongForm(|data|, aligned);
    var side := 8 * SIDE_BUFFER;
    LastPacked(OctetString(data, End), side, aligned);
    LastPacked(Open(OctetString(data, End), End), side, aligned);
    LastPacked(Nested(data), room, aligned);
  }

  /** A message of one field. */
  lemma LastPacked(m: Msg, room: nat, aligned: bool)
    requires !m.End? && m.next == End
    ensures PackAll(m, room, 0, aligned) == PackHead(m, PackBody(m, aligned), room, 0, aligned)
    ensures m.Open? ==> PackBody(m, aligned) == PackAll(m.body, 8 * SIDE_BUFFER, 0, aligned)
  {
    hide PackAll, PackHead;
    var h := PackHead(m, PackBody(m, aligned), room, 0, aligned);
    PackStep(m, room, 0, aligned);
    PackStep(End, room - |h.w|, |h.w|, aligned);
    assert h.w + [] == h.w;
  }

  lemma NestedSizes(data: seq<Byte>, aligned: bool)
    requires |data| == 4094
    ensures var m := Nested(data);
      ValuesFit(m) && !SidesFit(m, aligned) && Needed(m, 0, aligned) <= 40000
  {
    hide EncLength, BytesBits, EncOpen, Enc, Needed;
    var leaf := OctetString(data, End);
    var inner, m := Open(leaf, End), Nested(data);
    NestedLengths(data, aligned);
    LastEncoded(leaf, aligned);
    LastEncoded(inner, aligned);
    LastEncoded(m, aligned);
    assert ValuesFit(End) && ValuesFit(leaf) && ValuesFit(inner);
    assert !SidesFit(m, aligned);
    NotSilent(data);
    hide Silent, SilentHead;
    NeededStep(leaf, 0, aligned);
    NeededStep(inner, 0, aligned);
    NeededStep(m, 0, aligned);
    LengthBound(Octets(|EncBody(m, aligned)|), aligned);
    LengthBound(Octets(|EncBody(inner, aligned)|), aligned);
  }

  lemma NotSilent(data: seq<Byte>)
    ensures var leaf := OctetString(data, End);
      var inner := Open(leaf, End);
      Silent(End) && !Silent(leaf) && !Silent(inner) && !Silent(Nested(data))
  {
    hide Silent;
    var leaf := OctetString(data, End);
    SilentStep(End);
    SilentStep(leaf);
    SilentStep(Open(leaf, End));
    SilentStep(Nested(data));
  }

  lemma LengthBound(n: nat, aligned: bool)
    ensures |EncLength(n, aligned, 0).w| <= 24
  {
    hide NatBits;
  }

  lemma LastEncoded(m: Msg, aligned: bool)
    requires !m.End? && m.next == End
    ensures Enc(m, 0, aligned) == EncHead(m, EncBody(m, aligned), 0, aligned)
    ensures m.Open? ==> EncBody(m, aligned) == Enc(m.body, 0, aligned)
  {
    hide Enc, EncHead;
    EncStep(m, 0, aligned);
    var w := EncHead(m, EncBody(m, aligned), 0, aligned);
    EncStep(End, |w|, aligned);
    assert w + [] == w;
  }

  lemma NestedDecoded(bits: seq<bool>, data: seq<Byte>, aligned: bool)
    requires |bits| % 8 == 0 && 40000 <= |bits| && |data| == 4094
    requires At(bits, 0, NestedText(data, aligned))
    ensures Dec(ShapeOf(Nested(data)), bits, 0, aligned).pos > |NestedText(data, aligned)|
  {
    hide EncLength, BytesBits, EncOpen, Dec, DecLength, Cut, NestedText, InnerText, OctetsText;
    NestedLengths(data, aligned);
    LengthsThere(bits, data, aligned);
    var leaf := SOctetString(SEnd);
    DecStep(SEnd, bits, 32800, aligned);
    DecStep(leaf, bits, 32, aligned);
    assert DecLeaf(leaf, bits, 32, aligned).ok && DecLeaf(leaf, bits, 32, aligned).pos == 32800;
    assert Dec(leaf, bits, 32, aligned).pos == 32800;
    NegativeSkip(bits, 16, leaf, aligned);
    var inner := SOpen(leaf, SEnd);
    assert ShapeOf(OctetString(data, End)) == leaf && ShapeOf(Open(OctetString(data, End), End)) == inner;
    assert ShapeOf(Nested(data)) == SOpen(inner, SEnd);
    DecStep(inner, bits, 16, aligned);
    assert Dec(inner, bits, 16, aligned).pos == 32800;
    NegativeSkip(bits, 0, inner, aligned);
    DecStep(SOpen(inner, SEnd), bits, 0, aligned);
  }

  /** The skip does not move when the body read as much as its length says, or more. */
  lemma NegativeSkip(bits: seq<bool>, pos: nat, s: Shape, aligned: bool)
    requires pos <= |bits| && |bits| % 8 == 0
    requires var l := DecLength(bits, pos, aligned); 8 * l.v <= Dec(s, bits, l.pos, aligned).pos - l.pos
    ensures var r := Dec(s, bits, DecLength(bits, pos, aligned).pos, aligned);
      var d := DecOpen(SOpen(s, SEnd), bits, pos, aligned);
      d.pos == r.pos && d.ok == r.ok
  {
    hide Dec, DecLength;
  }

  /** The three lengths that the decoder reads one after the other. */
  lemma LengthsThere(bits: seq<bool>, data: seq<Byte>, aligned: bool)
    requires |bits| % 8 == 0 && |data| == 4094 && At(bits, 0, NestedText(data, aligned))
    ensures DecLength(bits, 0, aligned) == Rd(true, 4096, 16)
    ensures DecLength(bits, 16, aligned) == Rd(true, 4096, 32)
    ensures DecLength(bits, 32, aligned) == Rd(true, 4094, 48)
  {
    hide EncLength, BytesBits, EncOpen, DecLength;
    NestedLengths(data, aligned);
    var inner, text := InnerText(data, aligned), OctetsText(data, aligned);
    var l, k := EncLength(4096, aligned, 0).w, EncLength(4094, aligned, 0).w;
    LongOpen(inner, aligned);
    LongOpen(text, aligned);
    LongForm(4096, aligned);
    LongForm(4094, aligned);
    AtSplit(bits, 0, l, inner);
    assert l + k <= inner by {
      assert EncOpen(text, aligned, 0) == l + text && k <= text;
      assert |l + k| <= |inner|;
    }
    var rest := inner[32..];
    assert inner == l + k + rest;
    AtSplit(bits, 16, l + k, rest);
    AtSplit(bits, 16, l, k);
    LengthPhase(4096, 0, 16, aligned);
    LengthPhase(4094, 0, 32, aligned);
    LengthRoundTrip(bits, 0, 4096, aligned);
    LengthRoundTrip(bits, 16, 4096, aligned);
    LengthRoundTrip(bits, 32, 4094, aligned);
  }
}
