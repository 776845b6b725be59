/**
 Messages in buffers that are too small. The splice of an open type and the unaligned number
 drop the return code of their last write, so packing may report success on a message that was
 cut off at the end of the buffer. `Needed` is the room from which on such a message can still
 be read back.
 */
module OpenCut {
  import opened Bits
  import opened BitCursor
  import opened Per
  import opened OpenType

  // ----- how much of an encoding matters -----

  /**
   A message that carries nothing: fields of no bits, numbers of a single value and open types
   of such. The decoder returns it at the end of a buffer, because it drops the failure to read
   the length of an open type.
   */
  predicate Silent(m: Msg)
    decreases m, 1
  {
    m.End? || (SilentHead(m) && Silent(m.next))
  }

  predicate SilentHead(m: Msg)
    requires !m.End?
    decreases m, 0
  {
    match m
    case BitField(n, _, _) => n == 0
    case Number(lb, ub, _, _) => lb == ub
    case OctetString(_, _) => false
    case Open(body, _) => Silent(body)
  }

  /** Bits of the length determinant of an open type. */
  function LengthSize(m: Msg, pos: nat, aligned: bool): nat {
    |EncLength(Octets(|EncBody(m, aligned)|), aligned, pos).w|
  }

  function HeadSize(m: Msg, pos: nat, aligned: bool): nat
    requires !m.End?
  {
    |EncHead(m, EncBody(m, aligned), pos, aligned)|
  }

  /** The bits of the encoding up to the last that carries something. */
  function Needed(m: Msg, pos: nat, aligned: bool): nat
    decreases m
  {
    if Silent(m) then 0
    else if !Silent(m.next) then
      HeadSize(m, pos, aligned) + Needed(m.next, pos + HeadSize(m, pos, aligned), aligned)
    else if m.Open? then LengthSize(m, pos, aligned) + Needed(m.body, 0, aligned)
    else HeadSize(m, pos, aligned)
  }

  lemma NeededStep(m: Msg, pos: nat, aligned: bool)
    ensures Silent(m) ==> Needed(m, pos, aligned) == 0
    ensures !Silent(m) ==>
      var h := HeadSize(m, pos, aligned);
      Needed(m, pos, aligned) == if !Silent(m.next) then h + Needed(m.next, pos + h, aligned)
        else if m.Open? then LengthSize(m, pos, aligned) + Needed(m.body, 0, aligned)
        else h
  {
    hide HeadSize, LengthSize;
  }

  lemma SilentStep(m: Msg)
    ensures Silent(m) <==> m.End? || (SilentHead(m) && Silent(m.next))
    ensures m.Open? ==> (SilentHead(m) <==> Silent(m.body))
  {
  }

  lemma OpenSizes(m: Msg, pos: nat, aligned: bool)
    requires m.Open?
    ensures var b := |EncBody(m, aligned)|;
      HeadSize(m, pos, aligned) == LengthSize(m, pos, aligned) + b + |Pad(b)|
    ensures |EncBody(m, aligned)| <= 8 * SIDE_BUFFER ==> LengthSize(m, pos, aligned) > 0
  {
    hide EncBody, Pad, NatBits;
  }

  /** Never more than the whole encoding; and something, unless the message is silent. */
  lemma {:induction false} NeededBounds(m: Msg, pos: nat, aligned: bool)
    requires Encodable(m, aligned)
    ensures Needed(m, pos, aligned) <= |Enc(m, pos, aligned)|
    ensures Needed(m, pos, aligned) == 0 <==> Silent(m)
    decreases m
  {
    hide Needed, Enc, EncHead, Silent, SilentHead, LengthSize;
    NeededStep(m, pos, aligned);
    SilentStep(m);
    EncStep(m, pos, aligned);
    if !m.End? {
      NeededBounds(m.next, pos + HeadSize(m, pos, aligned), aligned);
      if m.Open? {
        OpenSizes(m, pos, aligned);
        NeededBounds(m.body, 0, aligned);
      } else {
        LeafSize(m, pos, aligned);
      }
    }
  }

  /** A field of its own has bits exactly when it carries something. */
  lemma LeafSize(m: Msg, pos: nat, aligned: bool)
    requires Encodable(m, aligned) && !m.End? && !m.Open?
    ensures HeadSize(m, pos, aligned) == 0 <==> SilentHead(m)
  {
    hide NatBits, Enc, EncBody;
    if m.Number? {
      NumberSize(m.x - m.lb, m.ub - m.lb + 1, aligned, pos);
    }
  }

  lemma NumberSize(x: nat, ra: nat, aligned: bool, pos: nat)
    requires x < ra
    ensures EncNumber(x, ra, aligned, pos) == [] <==> ra == 1
  {
    hide NatBits;
    CeilLog2Least(ra, 0);
  }

  lemma {:induction false} NeededPhase(m: Msg, p: nat, q: nat, aligned: bool)
    requires aligned ==> p % 8 == q % 8
    ensures Needed(m, p, aligned) == Needed(m, q, aligned)
    decreases m
  {
    hide Needed, HeadSize, LengthSize, Silent;
    NeededStep(m, p, aligned);
    NeededStep(m, q, aligned);
    if !m.End? {
      SizePhase(m, p, q, aligned);
      var h := HeadSize(m, p, aligned);
      if aligned { ModShift(p, q, h); }
      NeededPhase(m.next, p + h, q + h, aligned);
    } else {
      SilentStep(m);
    }
  }

  lemma SizePhase(m: Msg, p: nat, q: nat, aligned: bool)
    requires !m.End? && (aligned ==> p % 8 == q % 8)
    ensures HeadSize(m, p, aligned) == HeadSize(m, q, aligned)
    ensures LengthSize(m, p, aligned) == LengthSize(m, q, aligned)
  {
    hide EncHead, EncLength, EncBody, Octets;
    HeadPhase(m, EncBody(m, aligned), p, q, aligned);
    LengthPhase(Octets(|EncBody(m, aligned)|), p, q, aligned);
  }

  // ----- packing into any room -----

  lemma CutConcat(u: seq<bool>, w: seq<bool>, room: nat)
    ensures |u| <= room ==> Cut(u + w, room) == u + Cut(w, room - |u|)
    ensures |u| > room ==> Cut(u + w, room) == Cut(u, room)
  {
  }

  /**
   In any room, packing that reports success has written the encoding as far as it fits, and
   packing reports success whenever there is room for what matters.
   */
  lemma {:induction false} PackBounded(m: Msg, room: nat, pos: nat, aligned: bool)
    requires Encodable(m, aligned)
    ensures var e := PackAll(m, room, pos, aligned);
      && (e.ok ==> e.w == Cut(Enc(m, pos, aligned), room))
      && (Needed(m, pos, aligned) <= room ==> e.ok)
    decreases m
  {
    hide PackAll, Enc, PackHead, EncHead, Needed, Silent, SilentHead, LengthSize, Cut;
    PackStep(m, room, pos, aligned);
    EncStep(m, pos, aligned);
    if !m.End? {
      var body := EncBody(m, aligned);
      var w := EncHead(m, body, pos, aligned);
      CutConcat(w, Enc(m.next, pos + |w|, aligned), room);
      if m.Open? {
        PackAllIsEnc(m.body, 8 * SIDE_BUFFER, 0, aligned);
      }
      NeededStep(m, pos, aligned);
      SilentStep(m);
      if |w| <= room {
        HeadIsEnc(m, body, room, pos, aligned);
        PackBounded(m.next, room - |w|, pos + |w|, aligned);
        NeededStep(m.next, pos + |w|, aligned);
      } else {
        HeadCut(m, body, room, pos, aligned);
        PackBounded(m.next, 0, pos + room, aligned);
        NeededStep(m.next, pos + room, aligned);
        if !m.Open? {
          LeafSize(m, pos, aligned);
        }
      }
    }
  }

  /** A first field that does not fit: what is written fills the room. */
  lemma HeadCut(m: Msg, body: seq<bool>, room: nat, pos: nat, aligned: bool)
    requires !m.End? && Encodable(m, aligned) && |EncHead(m, body, pos, aligned)| > room
    ensures var h := PackHead(m, Emit(body, true), room, pos, aligned);
      && (h.ok ==> h.w == Cut(EncHead(m, body, pos, aligned), room) && |h.w| == room)
      && (m.Open? ==> h.ok)
  {
    hide NatBits, BytesBits, EncNumber, EncOpen, EncBody;
  }

  // ----- decoding what was cut -----

  /** A length that is cut off leaves the cursor at the end of the buffer. */
  lemma LengthCut(bits: seq<bool>, pos: nat, n: nat, aligned: bool)
    requires |bits| % 8 == 0 && pos <= |bits| && n < ASN_16K
    requires var l := EncLength(n, aligned, pos).w; |bits| - pos < |l| && At(bits, pos, Cut(l, |bits| - pos))
    ensures !DecLength(bits, pos, aligned).ok && DecLength(bits, pos, aligned).pos == |bits|
  {
    hide EncLength, DecLength;
    if aligned {
      LengthCutAligned(bits, pos, n);
    } else {
      UnalignedBody(n, pos);
      LengthFlags(n);
      LengthCutUnaligned(bits, pos, LengthBody(n));
    }
  }

  lemma UnalignedBody(n: nat, pos: nat)
    requires n < ASN_16K
    ensures EncLength(n, false, pos).w == LengthBody(n)
  {
    hide NatBits;
    assert [] + LengthBody(n) == LengthBody(n);
  }

  lemma LengthCutUnaligned(bits: seq<bool>, pos: nat, l: seq<bool>)
    requires |bits| % 8 == 0 && pos <= |bits| && |bits| - pos < |l| && At(bits, pos, Cut(l, |bits| - pos))
    requires (|l| == 8 && !l[0]) || (|l| == 16 && l[0] && !l[1])
    ensures !DecLength(bits, pos, false).ok && DecLength(bits, pos, false).pos == |bits|
  {
    hide Read;
    var room := |bits| - pos;
    if room > 0 {
      assert bits[pos] == bits[pos..pos + room][0];
      ReadFlag(bits, pos);
    }
    if room > 1 {
      assert bits[pos + 1] == bits[pos..pos + room][1];
      ReadFlag(bits, pos + 1);
    }
  }

  lemma LengthFlags(n: nat)
    requires n < ASN_16K
    ensures |LengthBody(n)| == if n < 128 then 8 else 16
    ensures LengthBody(n)[0] == (n >= 128)
    ensures n >= 128 ==> !LengthBody(n)[1]
  {
    if n < 128 {
      assert Pow2(7) == 128;
      FlaggedBits(n, 7);
    } else {
      assert NatBits(2, 2) == [true, false];
    }
  }

  lemma LengthCutAligned(bits: seq<bool>, pos: nat, n: nat)
    requires |bits| % 8 == 0 && pos <= |bits| && n < ASN_16K
    requires var l := EncLength(n, true, pos).w; |bits| - pos < |l| && At(bits, pos, Cut(l, |bits| - pos))
    ensures !DecLength(bits, pos, true).ok && DecLength(bits, pos, true).pos == |bits|
  {
    hide NatBits, Read, LengthBody, Up8, Octets, DecLength, EncLength, Pad, Cut, Aligned;
    var p := Aligned(bits, pos);
    var room := |bits| - p;
    AlignedBody(n, pos);
    CutConcat(Pad(pos), LengthBody(n), |bits| - pos);
    AtSplit(bits, pos, Pad(pos), Cut(LengthBody(n), room));
    LengthFlags(n);
    if room > 0 {
      FirstOctet(bits, p, n);
    }
    OctetsCutShort(bits, pos, room);
  }

  lemma AlignedBody(n: nat, pos: nat)
    requires n < ASN_16K
    ensures EncLength(n, true, pos).w == Pad(pos) + LengthBody(n)
  {
    hide NatBits;
  }

  /** The first of two octets of a length, standing at the end of the buffer. */
  lemma FirstOctet(bits: seq<bool>, p: nat, n: nat)
    requires |bits| % 8 == 0 && p % 8 == 0 && p < |bits| && n < ASN_16K
    requires |bits| - p < |LengthBody(n)| && At(bits, p, Cut(LengthBody(n), |bits| - p))
    ensures |bits| == p + 8 && 128 <= Read(bits, p, 8).v < 192
  {
    hide Read, NatBits, Cut, Pow2, LengthBody;
    LengthFlags(n);
    var hi, lo := TwoOctets(n);
    CutConcat(NatBits(128 + hi, 8), NatBits(lo, 8), 8);
    assert NatBits(128 + hi, 8) + [] == NatBits(128 + hi, 8);
    Pow2Words();
    ReadNat(bits, p, 128 + hi, 8);
  }

  lemma TwoOctets(n: nat) returns (hi: nat, lo: nat)
    requires n < ASN_16K && |LengthBody(n)| > 8
    ensures hi < 64 && LengthBody(n) == NatBits(128 + hi, 8) + NatBits(lo, 8)
  {
    hide NatBits;
    hi, lo := MediumOctets(n);
  }

  lemma OctetsCutShort(bits: seq<bool>, pos: nat, room: nat)
    requires |bits| % 8 == 0 && pos <= |bits| && room == |bits| - Aligned(bits, pos)
    requires room == 0 || (room == 8 && 128 <= Read(bits, Aligned(bits, pos), 8).v < 192)
    ensures !DecLength(bits, pos, true).ok && DecLength(bits, pos, true).pos == |bits|
  {
    hide Read, Up8, Octets;
  }

  lemma NumberCut(bits: seq<bool>, pos: nat, x: nat, ra: nat, aligned: bool)
    requires |bits| % 8 == 0 && pos <= |bits| && x < ra
    requires var w := EncNumber(x, ra, aligned, pos); |bits| - pos < |w| && At(bits, pos, Cut(w, |bits| - pos))
    ensures !DecNumber(bits, pos, ra, aligned).ok
  {
    hide NatBits, MinOctets, PrefixWidth, CeilLog2, Read;
    if aligned && ra > ASN_64K {
      PrefixedCut(bits, pos, x, ra);
    }
  }

  lemma PrefixedCut(bits: seq<bool>, pos: nat, x: nat, ra: nat)
    requires |bits| % 8 == 0 && pos <= |bits| && x < ra && ra > ASN_64K
    requires var w := EncNumber(x, ra, true, pos); |bits| - pos < |w| && At(bits, pos, Cut(w, |bits| - pos))
    ensures !DecNumber(bits, pos, ra, true).ok
  {
    hide NatBits, MinOctets, PrefixWidth, CeilLog2, Read, Pad, Up8, Octets, EncNumber, DecNumber, Cut, Pow2;
    var p, m := PrefixWidth(ra), MinOctets(x);
    var prefix, gap, body := NatBits(m - 1, p), Pad(pos + p), NatBits(x, 8 * m);
    PrefixedParts(x, ra, pos);
    if pos + p <= |bits| {
      CutConcat(prefix, gap + body, |bits| - pos);
      AtSplit(bits, pos, prefix, Cut(gap + body, |bits| - pos - p));
      NumberFits(x, ra);
      ReadNat(bits, pos, m - 1, p);
    }
    PrefixedShort(bits, pos, ra, m);
  }

  /** The prefix or the octets that it announces are missing. */
  lemma PrefixedShort(bits: seq<bool>, pos: nat, ra: nat, m: nat)
    requires |bits| % 8 == 0 && pos <= |bits| && ra > ASN_64K && m > 0
    requires var p := PrefixWidth(ra);
      pos + p <= |bits| ==> Read(bits, pos, p) == Rd(true, m - 1, pos + p) && |bits| < Up8(pos + p) + 8 * m
    ensures !DecNumber(bits, pos, ra, true).ok
  {
    hide Read, PrefixWidth, CeilLog2, Up8, Octets;
  }

  /** A field of its own that is cut off is not read. */
  lemma LeafCut(m: Msg, bits: seq<bool>, pos: nat, aligned: bool)
    requires |bits| % 8 == 0 && pos <= |bits| && Encodable(m, aligned) && !m.End? && !m.Open?
    requires |bits| - pos < HeadSize(m, pos, aligned)
    requires At(bits, pos, Cut(EncHead(m, EncBody(m, aligned), pos, aligned), |bits| - pos))
    ensures !DecLeaf(ShapeOf(m), bits, pos, aligned).ok
  {
    hide NatBits, BytesBits, Read, EncNumber, DecNumber, EncLength, DecLength, OctetsAt, EncBody, Cut;
    match m
    case BitField(n, v, _) =>
    case Number(lb, ub, x, _) => NumberCut(bits, pos, x - lb, ub - lb + 1, aligned);
    case OctetString(data, _) => OctetsCut(bits, pos, data, aligned);
  }

  lemma OctetsCut(bits: seq<bool>, pos: nat, data: seq<Byte>, aligned: bool)
    requires |bits| % 8 == 0 && pos <= |bits| && |data| < ASN_16K
    requires var w := EncLength(|data|, aligned, pos).w + BytesBits(data);
      |bits| - pos < |w| && At(bits, pos, Cut(w, |bits| - pos))
    ensures var l := DecLength(bits, pos, aligned); l.ok ==> l.pos + 8 * l.v > |bits|
  {
    hide BytesBits, EncLength, DecLength, Cut;
    var l, room := EncLength(|data|, aligned, pos).w, |bits| - pos;
    CutConcat(l, BytesBits(data), room);
    LengthOk(|data|, aligned, pos);
    if |l| <= room {
      AtSplit(bits, pos, l, Cut(BytesBits(data), room - |l|));
      LengthRoundTrip(bits, pos, |data|, aligned);
    } else {
      LengthCut(bits, pos, |data|, aligned);
    }
  }

  /** The first field, standing in the buffer as a whole. */
  lemma HeadAt(m: Msg, bits: seq<bool>, pos: nat, aligned: bool)
    requires |bits| % 8 == 0 && Encodable(m, aligned) && !m.End?
    requires At(bits, pos, EncHead(m, EncBody(m, aligned), pos, aligned))
    ensures var s := ShapeOf(m);
      var h := if m.Open? then DecOpen(s, bits, pos, aligned) else DecLeaf(s, bits, pos, aligned);
      h == Rd(true, WithNext(m, End), pos + HeadSize(m, pos, aligned))
  {
    hide Enc, EncHead, Dec, DecLeaf, DecOpen, EncOpen, EncLength, DecLength;
    var body := EncBody(m, aligned);
    if m.Open? {
      HeadOfOpen(m, body, pos, aligned);
      OpenAt(bits, pos, body, aligned);
      var p := pos + |EncLength(Octets(|body|), aligned, pos).w|;
      EncPhase(m.body, 0, p, aligned);
      DecodeEncoded(m.body, bits, p, aligned);
      DecodeOpen(m, body, bits, pos, aligned, p);
    } else {
      DecodeLeaf(m, body, bits, pos, aligned);
    }
  }

  /** What the decoder of a message does in a buffer that ends inside its encoding. */
  ghost predicate DecodesCut(m: Msg, bits: seq<bool>, pos: nat, aligned: bool)
    requires |bits| % 8 == 0 && pos <= |bits|
  {
    var room := |bits| - pos;
    var r := Dec(ShapeOf(m), bits, pos, aligned);
    if Needed(m, pos, aligned) <= room then r == Rd(true, m, pos + |Cut(Enc(m, pos, aligned), room)|) else !r.ok
  }

  /** At the very end of a buffer exactly the silent messages are returned. */
  lemma CutToNothing(m: Msg, bits: seq<bool>, aligned: bool)
    requires |bits| % 8 == 0 && Encodable(m, aligned) && DecodesCut(m, bits, |bits|, aligned)
    ensures var r := Dec(ShapeOf(m), bits, |bits|, aligned);
      if Silent(m) then r == Rd(true, m, |bits|) else !r.ok
  {
    hide Dec, Enc, Needed, Silent;
    NeededBounds(m, |bits|, aligned);
  }

  /**
   An encoding that stands in the buffer as far as the buffer goes is decoded, to the message and
   the end of what stands there, if and only if what matters of it stands there.
   */
  lemma {:induction false} DecodeBounded(m: Msg, bits: seq<bool>, pos: nat, aligned: bool)
    requires |bits| % 8 == 0 && pos <= |bits| && Encodable(m, aligned)
    requires At(bits, pos, Cut(Enc(m, pos, aligned), |bits| - pos))
    ensures DecodesCut(m, bits, pos, aligned)
    decreases m, 1
  {
    hide Enc, EncHead, Dec, DecLeaf, DecOpen, Needed, Silent, SilentHead, LengthSize, Cut, OpensCut;
    var room := |bits| - pos;
    if |Enc(m, pos, aligned)| <= room {
      DecodeEncoded(m, bits, pos, aligned);
      NeededBounds(m, pos, aligned);
    } else {
      EncStep(m, pos, aligned);
      var w := EncHead(m, EncBody(m, aligned), pos, aligned);
      var tail := Enc(m.next, pos + |w|, aligned);
      CutConcat(w, tail, room);
      if |w| <= room {
        AtSplit(bits, pos, w, Cut(tail, room - |w|));
        DecodeBounded(m.next, bits, pos + |w|, aligned);
        NextCut(m, bits, pos, aligned);
      } else if m.Open? {
        assert Cut(Enc(m.next, |bits|, aligned), 0) == [];
        DecodeBounded(m.next, bits, |bits|, aligned);
        BodyCut(m, bits, pos, aligned);
        OpenCutOff(m, bits, pos, aligned);
      } else {
        LeafCut(m, bits, pos, aligned);
        LeafLost(m, bits, pos, aligned);
      }
    }
  }

  /** The first field stands there as a whole: the rest decides. */
  lemma NextCut(m: Msg, bits: seq<bool>, pos: nat, aligned: bool)
    requires |bits| % 8 == 0 && Encodable(m, aligned) && !m.End?
    requires At(bits, pos, EncHead(m, EncBody(m, aligned), pos, aligned))
    requires |Enc(m, pos, aligned)| > |bits| - pos
    requires DecodesCut(m.next, bits, pos + HeadSize(m, pos, aligned), aligned)
    ensures DecodesCut(m, bits, pos, aligned)
  {
    hide Enc, EncHead, Dec, DecLeaf, DecOpen, Needed, Silent, SilentHead, LengthSize;
    var h := HeadSize(m, pos, aligned);
    HeadAt(m, bits, pos, aligned);
    EncStep(m, pos, aligned);
    DecStep(ShapeOf(m), bits, pos, aligned);
    NeededStep(m, pos, aligned);
    NeededStep(m.next, pos + h, aligned);
    SilentStep(m);
    if m.Open? {
      OpenSizes(m, pos, aligned);
      NeededBounds(m.body, 0, aligned);
    }
  }

  lemma LeafLost(m: Msg, bits: seq<bool>, pos: nat, aligned: bool)
    requires |bits| % 8 == 0 && pos <= |bits| && Encodable(m, aligned) && !m.End? && !m.Open?
    requires |bits| - pos < HeadSize(m, pos, aligned) && !DecLeaf(ShapeOf(m), bits, pos, aligned).ok
    ensures DecodesCut(m, bits, pos, aligned)
  {
    hide Enc, EncHead, Dec, DecLeaf, DecOpen, Needed, Silent, SilentHead;
    DecStep(ShapeOf(m), bits, pos, aligned);
    NeededStep(m, pos, aligned);
    SilentStep(m);
    LeafSize(m, pos, aligned);
  }

  /** An open type that is cut off is returned exactly when what matters of its body is there. */
  ghost predicate OpensCut(m: Msg, bits: seq<bool>, pos: nat, aligned: bool)
    requires |bits| % 8 == 0 && pos <= |bits| && m.Open?
  {
    var d := DecOpen(ShapeOf(m), bits, pos, aligned);
    if Silent(m.body) || LengthSize(m, pos, aligned) + Needed(m.body, 0, aligned) <= |bits| - pos then
      d == Rd(true, WithNext(m, End), |bits|)
    else !d.ok
  }

  lemma {:induction false} BodyCut(m: Msg, bits: seq<bool>, pos: nat, aligned: bool)
    requires |bits| % 8 == 0 && pos <= |bits| && Encodable(m, aligned) && m.Open?
    requires |bits| - pos < HeadSize(m, pos, aligned)
    requires At(bits, pos, Cut(EncHead(m, EncBody(m, aligned), pos, aligned), |bits| - pos))
    ensures OpensCut(m, bits, pos, aligned)
    decreases m, 0
  {
    hide Enc, Dec, DecLength, Needed, Silent, EncLength, Cut, SkipRest, Pad, Octets, DecodesCut, OpensCut, EncHead;
    hide ValuesFit, HeadSize, Encodable, SidesFit;
    var body, room := EncBody(m, aligned), |bits| - pos;
    var n := Octets(|body|);
    var l := EncLength(n, aligned, pos).w;
    OpenFits(m, aligned);
    OpenStands(m, bits, pos, aligned);
    if |l| > room {
      LengthCut(bits, pos, n, aligned);
      assert Cut(Enc(m.body, |bits|, aligned), 0) == [];
      DecodeBounded(m.body, bits, |bits|, aligned);
      LengthLost(m, bits, pos, aligned);
    } else {
      var p := pos + |l|;
      LengthStands(bits, pos, n, aligned);
      EncPhase(m.body, 0, p, aligned);
      if |body| <= room - |l| {
        DecodeEncoded(m.body, bits, p, aligned);
        WholeBody(m, bits, pos, aligned, p);
      } else {
        DecodeBounded(m.body, bits, p, aligned);
        PartOfBody(m, bits, pos, aligned, p);
      }
    }
  }

  lemma OpenFits(m: Msg, aligned: bool)
    requires m.Open? && Encodable(m, aligned)
    ensures Encodable(m.body, aligned) && EncBody(m, aligned) == Enc(m.body, 0, aligned)
    ensures |EncBody(m, aligned)| <= 8 * SIDE_BUFFER && Octets(|EncBody(m, aligned)|) < ASN_16K
  {
    hide Enc;
    SmallBody(|EncBody(m, aligned)|);
  }

  /** Of an open type cut off by the buffer, length and body stand there as far as they go. */
  lemma OpenStands(m: Msg, bits: seq<bool>, pos: nat, aligned: bool)
    requires m.Open? && pos <= |bits|
    requires At(bits, pos, Cut(EncHead(m, EncBody(m, aligned), pos, aligned), |bits| - pos))
    ensures var body, room := EncBody(m, aligned), |bits| - pos;
      var l := EncLength(Octets(|body|), aligned, pos).w;
      && At(bits, pos, Cut(l, room))
      && (|l| <= room ==> At(bits, pos, l) && At(bits, pos + |l|, Cut(body, room - |l|)))
  {
    hide EncLength, Cut, Pad, Octets, EncBody;
    var body, room := EncBody(m, aligned), |bits| - pos;
    var l, rest := EncLength(Octets(|body|), aligned, pos).w, body + Pad(|body|);
    HeadOfOpen(m, body, pos, aligned);
    hide EncHead, At;
    CutConcat(l, rest, room);
    if |l| <= room {
      AtSplit(bits, pos, l, Cut(rest, room - |l|));
      CutWhole(l, room);
      BodyStands(bits, pos + |l|, body);
    }
  }

  lemma CutWhole(w: seq<bool>, room: nat)
    requires |w| <= room
    ensures Cut(w, room) == w
  {
  }

  lemma LengthStands(bits: seq<bool>, pos: nat, n: nat, aligned: bool)
    requires |bits| % 8 == 0 && n < ASN_16K && At(bits, pos, EncLength(n, aligned, pos).w)
    ensures var p := pos + |EncLength(n, aligned, pos).w|;
      DecLength(bits, pos, aligned) == Rd(true, n, p) && (aligned ==> p % 8 == 0)
  {
    hide EncLength, DecLength;
    LengthOk(n, aligned, pos);
    LengthRoundTrip(bits, pos, n, aligned);
    if aligned { LengthEndsAligned(n, pos); }
  }

  /** Of a body and its padding cut off by the buffer, the body stands there as far as it goes. */
  lemma BodyStands(bits: seq<bool>, p: nat, body: seq<bool>)
    requires p <= |bits| && At(bits, p, Cut(body + Pad(|body|), |bits| - p))
    ensures At(bits, p, Cut(body, |bits| - p))
  {
    hide Pad, Cut;
    var room := |bits| - p;
    CutConcat(body, Pad(|body|), room);
    if |body| <= room {
      AtSplit(bits, p, body, Cut(Pad(|body|), room - |body|));
    }
  }

  /** Without its length, an open type is returned exactly if its body is silent. */
  lemma LengthLost(m: Msg, bits: seq<bool>, pos: nat, aligned: bool)
    requires |bits| % 8 == 0 && pos <= |bits| && Encodable(m, aligned) && m.Open?
    requires |bits| - pos < LengthSize(m, pos, aligned) && DecLength(bits, pos, aligned).pos == |bits|
    requires DecodesCut(m.body, bits, |bits|, aligned)
    ensures OpensCut(m, bits, pos, aligned)
  {
    hide Enc, Dec, DecLength, Needed, Silent, LengthSize, SkipRest;
    CutToNothing(m.body, bits, aligned);
    SkipAtEnd(bits, 8 * DecLength(bits, pos, aligned).v);
  }

  lemma SmallBody(n: nat)
    requires n <= 8 * SIDE_BUFFER
    ensures Octets(n) < ASN_16K
  {
  }

  /** The length and the whole body stand there: only padding is missing. */
  lemma WholeBody(m: Msg, bits: seq<bool>, pos: nat, aligned: bool, p: nat)
    requires |bits| % 8 == 0 && pos <= |bits| && Encodable(m, aligned) && m.Open? && (aligned ==> p % 8 == 0)
    requires |bits| - pos < HeadSize(m, pos, aligned) && p == pos + LengthSize(m, pos, aligned) <= |bits|
    requires DecLength(bits, pos, aligned) == Rd(true, Octets(|EncBody(m, aligned)|), p)
    requires p + |EncBody(m, aligned)| <= |bits|
    requires Dec(ShapeOf(m.body), bits, p, aligned) == Rd(true, m.body, p + |EncBody(m, aligned)|)
    ensures OpensCut(m, bits, pos, aligned)
  {
    hide Enc, EncHead, Dec, DecLength, Needed, Silent, LengthSize, HeadSize, SkipRest, Pad, Octets, EncBody;
    BodySizes(m, pos, aligned, p);
    SkipPastEnd(bits, p, |EncBody(m, aligned)|);
  }

  /** The length stands there, and the body as far as the buffer goes. */
  lemma PartOfBody(m: Msg, bits: seq<bool>, pos: nat, aligned: bool, p: nat)
    requires |bits| % 8 == 0 && pos <= |bits| && Encodable(m, aligned) && m.Open? && (aligned ==> p % 8 == 0)
    requires |bits| - pos < HeadSize(m, pos, aligned) && p == pos + LengthSize(m, pos, aligned) <= |bits|
    requires DecLength(bits, pos, aligned) == Rd(true, Octets(|EncBody(m, aligned)|), p)
    requires p + |EncBody(m, aligned)| > |bits| && DecodesCut(m.body, bits, p, aligned)
    ensures OpensCut(m, bits, pos, aligned)
  {
    hide Enc, EncHead, Dec, DecLength, Needed, Silent, LengthSize, HeadSize, SkipRest, Pad, Octets, EncBody;
    BodySizes(m, pos, aligned, p);
    SkipAtEnd(bits, 8 * Octets(|EncBody(m, aligned)|) - (|bits| - p));
  }

  lemma BodySizes(m: Msg, pos: nat, aligned: bool, p: nat)
    requires Encodable(m, aligned) && m.Open? && (aligned ==> p % 8 == 0)
    ensures var n := |EncBody(m, aligned)|;
      && HeadSize(m, pos, aligned) == LengthSize(m, pos, aligned) + n + |Pad(n)|
      && |Enc(m.body, p, aligned)| == n
      && Needed(m.body, p, aligned) == Needed(m.body, 0, aligned) <= n
      && (Needed(m.body, 0, aligned) == 0 <==> Silent(m.body))
  {
    hide Enc, EncHead, Needed, Silent, LengthSize, HeadSize, Pad, Octets;
    OpenSizes(m, pos, aligned);
    EncPhase(m.body, 0, p, aligned);
    NeededPhase(m.body, 0, p, aligned);
    NeededBounds(m.body, 0, aligned);
  }

  lemma SkipAtEnd(bits: seq<bool>, left: int)
    ensures SkipRest(bits, |bits|, left) == |bits|
  {
  }

  lemma SkipPastEnd(bits: seq<bool>, p: nat, n: nat)
    requires p + n <= |bits| <= p + n + |Pad(n)|
    ensures SkipRest(bits, p + n, 8 * Octets(n) - n) == |bits|
  {
  }

  lemma OpenCutOff(m: Msg, bits: seq<bool>, pos: nat, aligned: bool)
    requires |bits| % 8 == 0 && pos <= |bits| && Encodable(m, aligned) && m.Open?
    requires |bits| - pos < HeadSize(m, pos, aligned)
    requires OpensCut(m, bits, pos, aligned) && DecodesCut(m.next, bits, |bits|, aligned)
    ensures DecodesCut(m, bits, pos, aligned)
  {
    hide Enc, EncHead, Dec, DecOpen, DecLeaf, Needed, Silent, SilentHead, LengthSize;
    EncStep(m, pos, aligned);
    DecStep(ShapeOf(m), bits, pos, aligned);
    CutToNothing(m.next, bits, aligned);
    NeededStep(m, pos, aligned);
    SilentStep(m);
  }

  // ----- the whole way -----

  /**
   Packing reports success and unpacking returns the message, at the cursor where packing ended,
   if and only if there is room for what matters of the encoding: for every message whose values
   can be encoded, every buffer and every position. All earlier bits are kept in any case.
   */
  lemma MessageRoundTrip(c: Cur, m: Msg, aligned: bool)
    requires c.Valid() && Encodable(m, aligned) && (aligned ==> c.Clean())
    ensures var e := PackAll(m, c.Room(), c.pos, aligned);
      var d := Put(c, e.w);
      && (e.ok && Dec(ShapeOf(m), d.bits, c.pos, aligned) == Rd(true, m, d.pos)
          <==> Needed(m, c.pos, aligned) <= c.Room())
      && d.bits[..c.pos] == c.bits[..c.pos]
  {
    hide Enc, Dec, PackAll, Needed, Put;
    var e := PackAll(m, c.Room(), c.pos, aligned);
    PackBounded(m, c.Room(), c.pos, aligned);
    PutAt(c, e.w);
    if e.ok {
      DecodeBounded(m, Put(c, e.w).bits, c.pos, aligned);
    }
  }

  /**
   A message that packing accepts and unpacking does not return: an open type around one octet,
   in a buffer of one octet. Its length fills the buffer.
   */
  lemma AcceptedButLost(v: Byte, aligned: bool)
    ensures var m := Open(BitField(8, v, End), End);
      var e := PackAll(m, 8, 0, aligned);
      && Encodable(m, aligned) && e.ok
      && Dec(ShapeOf(m), Put(Cur(Zeros(8), 0), e.w).bits, 0, aligned) != Rd(true, m, 8)
  {
    var m := Open(BitField(8, v, End), End);
    OctetNeeded(v, aligned);
    OctetAccepted(v, aligned);
    hide Encodable, PackAll, Dec, Enc, Needed, Put, Cut;
    PackBounded(m, 8, 0, aligned);
    assert Cur(Zeros(8), 0).Clean();
    MessageRoundTrip(Cur(Zeros(8), 0), m, aligned);
  }

  lemma OctetAccepted(v: Byte, aligned: bool)
    ensures PackAll(Open(BitField(8, v, End), End), 8, 0, aligned).ok
  {
    hide NatBits, EncLength, Cut;
    var field := BitField(8, v, End);
    assert PackAll(field, 8 * SIDE_BUFFER, 0, aligned).ok by { PackStep(field, 8 * SIDE_BUFFER, 0, aligned); }
    PackStep(Open(field, End), 8, 0, aligned);
  }

  lemma OctetNeeded(v: Byte, aligned: bool)
    ensures var m := Open(BitField(8, v, End), End);
      Encodable(m, aligned) && Needed(m, 0, aligned) == 16 && |Enc(m, 0, aligned)| == 16
  {
    hide NatBits, Needed;
    var field := BitField(8, v, End);
    var m := Open(field, End);
    EncStep(field, 0, aligned);
    EncStep(m, 0, aligned);
    assert |EncBody(m, aligned)| == 8;
    assert Pow2(8) == 256;
    assert ValuesFit(End) && SidesFit(End, aligned);
    assert Encodable(field, aligned);
    hide Enc, Pow2;
    assert Silent(End) && !Silent(field) && !Silent(m);
    NeededStep(field, 0, aligned);
    assert HeadSize(field, 0, aligned) == 8;
    NeededStep(m, 0, aligned);
    assert LengthSize(m, 0, aligned) == 8;
  }
}
