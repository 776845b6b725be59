/**
 Extension groups: the presence flags of a message's extension additions, and the decoder
 of an older version that skips the groups it does not know.
 */
module ExtGroups {
  import opened Bits
  import opened BitCursor
  import opened BitRefs
  import opened Per
  import opened OpenType

  /** One more than the index of the last flag that is set; zero if none is. */
  function Used(flags: seq<bool>): (k: nat)
    ensures k <= |flags| && (k > 0 ==> flags[k - 1])
    ensures forall i :: k <= i < |flags| ==> !flags[i]
  {
    if flags == [] then 0
    else if flags[|flags| - 1] then |flags|
    else Used(flags[..|flags| - 1])
  }

  /** The count is written less one: as a 32-bit number, no group at all wraps to the largest. */
  function CountLessOne(k: nat): nat {
    if k == 0 then UINT32_RANGE - 1 else k - 1
  }

  function EncGroups(flags: seq<bool>): Emit {
    var k := Used(flags);
    var e := EncSmall(CountLessOne(k));
    if e.ok then Emit(e.w + flags[..k], true) else e
  }

  /** The decoded groups, padded with false to the number supported, and how many were sent. */
  datatype Groups = Groups(flags: seq<bool>, sent: nat)

  function DecGroups(bits: seq<bool>, pos: nat, supported: nat): (r: Rd<Groups>)
    requires pos <= |bits|
    ensures pos <= r.pos <= |bits|
    ensures r.ok ==> r.v.sent <= |r.v.flags| && supported <= |r.v.flags|
  {
    var n := DecSmall(bits, pos);
    if !n.ok then Rd(false, Groups(Zeros(supported), n.v), n.pos)
    else
      var sent := n.v + 1;
      var size := if supported > sent then supported else sent;
      var got := Cut(bits[n.pos..], sent);
      Rd(|got| == sent, Groups(got + Zeros(size - |got|), sent), n.pos + |got|)
  }

  /**
   The decoder may leave a count above the size of its vector, which the skip of unknown groups
   then runs over, if and only if the buffer ends inside the six bits of a count whose bits before
   the end already stand for more than the groups supported.
   */
  lemma CountWithinVector(bits: seq<bool>, pos: nat, supported: nat)
    requires pos <= |bits|
    ensures var g := DecGroups(bits, pos, supported).v;
      g.sent > |g.flags| <==>
        && pos < |bits| < pos + 7 && !bits[pos]
        && BitsNat(bits[pos + 1..] + Zeros(pos + 7 - |bits|)) > supported
  {
    hide BitsNat;
    if pos < |bits| { ReadFlag(bits, pos); }
  }

  /** A buffer that ends behind the first bit of a count, in a decoder that supports one group. */
  lemma CountBeyondVector()
    ensures var g := DecGroups(Zeros(7) + [true], 6, 1).v;
      g.sent == 32 && |g.flags| == 1
  {
    var bits, count := Zeros(7) + [true], [true] + Zeros(5);
    assert BitsNat(count) == 32 by {
      assert NatBits(32, 6) == count;
      BitsNatOfNatBits(32, 6);
      assert Pow2(6) == 64;
      LowBitsId(32, 6);
    }
    ReadFlag(bits, 6);
    assert bits[7..] == [true];
  }

  /**
   A flag vector is accepted if and only if some flag is set and the last is among the first
   64; then the decoder recovers it, padded with false, whatever number it supports.
   */
  lemma GroupsRoundTrip(bits: seq<bool>, pos: nat, flags: seq<bool>, supported: nat)
    requires At(bits, pos, EncGroups(flags).w) && |flags| <= UINT32_RANGE - 1
    ensures EncGroups(flags).ok <==> 1 <= Used(flags) <= 64
    ensures EncGroups(flags).ok ==>
      var r := DecGroups(bits, pos, supported);
      && r.ok && r.pos == pos + |EncGroups(flags).w| && r.v.sent == Used(flags)
      && (forall i :: 0 <= i < |r.v.flags| ==> r.v.flags[i] == (i < |flags| && flags[i]))
      && (forall i :: 0 <= i < |flags| && flags[i] ==> i < |r.v.flags|)
  {
    hide NatBits, Read, EncSmall, DecSmall;
    CountAccepted(flags);
    if EncGroups(flags).ok {
      GroupsRead(bits, pos, flags, supported);
    }
  }

  lemma CountAccepted(flags: seq<bool>)
    requires |flags| <= UINT32_RANGE - 1
    ensures EncGroups(flags).ok <==> 1 <= Used(flags) <= 64
  {
    hide NatBits;
  }

  lemma GroupsRead(bits: seq<bool>, pos: nat, flags: seq<bool>, supported: nat)
    requires EncGroups(flags).ok && 1 <= Used(flags) <= 64 && At(bits, pos, EncGroups(flags).w)
    ensures var k := Used(flags);
      var size := if supported > k then supported else k;
      DecGroups(bits, pos, supported)
      == Rd(true, Groups(flags[..k] + Zeros(size - k), k), pos + |EncGroups(flags).w|)
  {
    hide NatBits, Read, DecSmall, Zeros, Used;
    var k := Used(flags);
    var e := EncSmall(k - 1);
    assert EncGroups(flags).w == e.w + flags[..k];
    AtSplit(bits, pos, e.w, flags[..k]);
    SmallRoundTrip(bits, pos, k - 1);
    hide EncSmall;
    CutAt(bits, pos + |e.w|, flags[..k]);
  }

  lemma CutAt(bits: seq<bool>, pos: nat, w: seq<bool>)
    requires At(bits, pos, w)
    ensures Cut(bits[pos..], |w|) == w
  {
    assert bits[pos..][..|w|] == bits[pos..pos + |w|];
  }

  // ----- skipping unknown groups -----

  /** One open type read with an empty body. */
  function SkipGroup(bits: seq<bool>, pos: nat): (p: nat)
    requires pos <= |bits| && |bits| % 8 == 0
    ensures pos <= p <= |bits|
  {
    var l := DecLength(bits, pos, false);
    SkipRest(bits, l.pos, 8 * l.v)
  }

  /** The groups from `i` on that were sent but are not supported. */
  function SkipGroups(bits: seq<bool>, pos: nat, g: Groups, i: nat): (p: nat)
    requires pos <= |bits| && |bits| % 8 == 0 && g.sent <= |g.flags|
    ensures pos <= p <= |bits|
    decreases g.sent - i
  {
    if i >= g.sent then pos
    else SkipGroups(bits, if g.flags[i] then SkipGroup(bits, pos) else pos, g, i + 1)
  }

  /** The bodies of the groups from `i` on, one open type for every flag set. */
  function EncUnknown(bodies: seq<seq<bool>>, g: Groups, i: nat, pos: nat): seq<bool>
    requires |bodies| == g.sent <= |g.flags|
    decreases g.sent - i
  {
    if i >= g.sent then []
    else
      var w := if g.flags[i] then EncOpen(bodies[i], false, pos) else [];
      w + EncUnknown(bodies, g, i + 1, pos + |w|)
  }

  /** A group is skipped if and only if its body is at most four octets, the width of the skip. */
  lemma SkipGroupIff(bits: seq<bool>, pos: nat, body: seq<bool>)
    requires |bits| % 8 == 0 && |body| <= 8 * SIDE_BUFFER
    requires At(bits, pos, EncOpen(body, false, pos))
    ensures SkipGroup(bits, pos) == pos + |EncOpen(body, false, pos)| <==> Octets(|body|) <= 4
  {
    hide DecLength, EncLength, EncOpen;
    OpenAt(bits, pos, body, false);
  }

  /** An older decoder passes every unknown group of up to four octets and lands behind the last. */
  lemma {:induction false} SkipGroupsLands(bits: seq<bool>, pos: nat, bodies: seq<seq<bool>>, g: Groups, i: nat)
    requires |bits| % 8 == 0 && |bodies| == g.sent <= |g.flags|
    requires forall j :: i <= j < g.sent && g.flags[j] ==> Octets(|bodies[j]|) <= 4
    requires At(bits, pos, EncUnknown(bodies, g, i, pos))
    ensures SkipGroups(bits, pos, g, i) == pos + |EncUnknown(bodies, g, i, pos)|
    decreases g.sent - i
  {
    hide EncOpen, SkipGroup, EncUnknown, SkipGroups, Octets;
    UnknownStep(bodies, g, i, pos);
    SkipStep(bits, pos, g, i);
    if i < g.sent {
      var w := if g.flags[i] then EncOpen(bodies[i], false, pos) else [];
      AtSplit(bits, pos, w, EncUnknown(bodies, g, i + 1, pos + |w|));
      if g.flags[i] {
        ShortBody(|bodies[i]|);
        SkipGroupIff(bits, pos, bodies[i]);
      }
      SkipGroupsLands(bits, pos + |w|, bodies, g, i + 1);
    }
  }

  /** A group of five octets: the decoder stays behind its length. */
  lemma FiveOctetsNotSkipped(bits: seq<bool>, pos: nat)
    requires |bits| % 8 == 0 && At(bits, pos, EncOpen(Zeros(40), false, pos))
    ensures SkipGroup(bits, pos) != pos + |EncOpen(Zeros(40), false, pos)|
  {
    SkipGroupIff(bits, pos, Zeros(40));
  }

  /** Only the flags of the groups sent matter. */
  lemma {:induction false} SameSkips(bits: seq<bool>, pos: nat, g: Groups, h: Groups, i: nat)
    requires pos <= |bits| && |bits| % 8 == 0 && g.sent == h.sent <= |g.flags| && h.sent <= |h.flags|
    requires forall j :: 0 <= j < g.sent ==> g.flags[j] == h.flags[j]
    ensures SkipGroups(bits, pos, g, i) == SkipGroups(bits, pos, h, i)
    decreases g.sent - i
  {
    hide SkipGroup, SkipGroups;
    SkipStep(bits, pos, g, i);
    SkipStep(bits, pos, h, i);
    if i < g.sent {
      SameSkips(bits, if g.flags[i] then SkipGroup(bits, pos) else pos, g, h, i + 1);
    }
  }

  /**
   From the flags packed to the end of the extensions: a decoder that supports any number of
   groups recovers the flags, reads the groups it knows up to `q`, and its destructor then passes
   all other groups present, if they have at most four octets each, and lands behind the last.
   */
  lemma ExtensionsPassed(bits: seq<bool>, pos: nat, flags: seq<bool>, supported: nat, q: nat,
                         bodies: seq<seq<bool>>)
    requires |bits| % 8 == 0 && |flags| < UINT32_RANGE && 1 <= Used(flags) <= 64 && |bodies| == Used(flags)
    requires At(bits, pos, EncGroups(flags).w)
    requires At(bits, q, EncUnknown(bodies, Groups(flags, Used(flags)), supported, q))
    requires forall j :: supported <= j < Used(flags) && flags[j] ==> Octets(|bodies[j]|) <= 4
    ensures var r := DecGroups(bits, pos, supported);
      && r.ok && r.pos == pos + |EncGroups(flags).w|
      && SkipGroups(bits, q, r.v, supported)
         == q + |EncUnknown(bodies, Groups(flags, Used(flags)), supported, q)|
  {
    hide EncGroups, DecGroups, EncUnknown, SkipGroups, Octets;
    var sent := Groups(flags, Used(flags));
    GroupsRoundTrip(bits, pos, flags, supported);
    SkipGroupsLands(bits, q, bodies, sent, supported);
    SameSkips(bits, q, sent, DecGroups(bits, pos, supported).v, supported);
  }

  lemma ShortBody(n: nat)
    requires Octets(n) <= 4
    ensures n <= 32
  {
  }

  lemma UnknownStep(bodies: seq<seq<bool>>, g: Groups, i: nat, pos: nat)
    requires |bodies| == g.sent <= |g.flags|
    ensures i >= g.sent ==> EncUnknown(bodies, g, i, pos) == []
    ensures i < g.sent ==>
      var w := if g.flags[i] then EncOpen(bodies[i], false, pos) else [];
      EncUnknown(bodies, g, i, pos) == w + EncUnknown(bodies, g, i + 1, pos + |w|)
  {
  }

  lemma SkipStep(bits: seq<bool>, pos: nat, g: Groups, i: nat)
    requires pos <= |bits| && |bits| % 8 == 0 && g.sent <= |g.flags|
    ensures SkipGroups(bits, pos, g, i) == if i >= g.sent then pos else
      SkipGroups(bits, if g.flags[i] then SkipGroup(bits, pos) else pos, g, i + 1)
  {
  }

  // ----- the code -----

  /** Flags that the vector of the code holds without memory of its own. */
  const SMALL_VECTOR := 16

  class GroupsPacker {
    var groups: seq<bool>
    var capacity: nat

    constructor ()
      ensures groups == [] && capacity == 16
    {
      groups, capacity := [], SMALL_VECTOR;
    }

    /**
     Assignment through `operator[]`, which grows the vector with false as needed. All other flags
     are kept if the vector has the capacity or still is the small one; a vector that already has
     memory of its own is filled from the small one when it grows, and its flags are lost.
     */
    method Set(idx: nat, present: bool)
      modifies this
      ensures |groups| == if idx < old(|groups|) then old(|groups|) else idx + 1
      ensures groups[idx] == present && forall i :: old(|groups|) <= i < idx ==> !groups[i]
      ensures capacity == if idx < old(|groups|) || idx < old(capacity) then old(capacity) else idx + 6
      ensures idx < old(|groups|) || idx < old(capacity) || old(capacity) == 16 ==>
        forall i :: 0 <= i < |groups| && i != idx ==> groups[i] == (i < old(|groups|) && old(groups)[i])
    {
      if idx >= |groups| {
        if idx < capacity || capacity == SMALL_VECTOR {
          groups := groups + Zeros(idx + 1 - |groups|);
        } else {
          var lost: seq<bool> :| |lost| == |groups|;
          groups := lost + Zeros(idx + 1 - |groups|);
        }
        if idx >= capacity {
          capacity := idx + 6;
        }
      }
      groups := groups[idx := present];
    }

    method Pack(b: BitRef) returns (ok: bool)
      requires b.Valid() && |groups| < UINT32_RANGE
      modifies b`ptr, b`offset, b.buf
      ensures b.Valid()
      ensures var e := EncGroups(groups);
        b.C() == Put(old(b.C()), e.w) && ok == (e.ok && |e.w| <= old(b.C().Room()))
    {
      hide BitRef.C, Put, NatBits, EncSmall, Used;
      ghost var c := b.C();
      var n := Count();
      ghost var e := EncSmall(CountLessOne(n));
      PutPut(c, e.w, groups[..n]);
      LessOne(n);
      ok := PackNormSmall(b, (n + UINT32_RANGE - 1) % UINT32_RANGE);
      if ok {
        ok := PackFlags(b, n);
      } else if e.ok {
        PutStop(c, e.w, groups[..n]);
      }
    }

    /** Looks for the last flag set, from the end. */
    method Count() returns (n: nat)
      ensures n == Used(groups)
    {
      var i := |groups| - 1;
      UsedPrefix(groups, |groups|);
      while i >= 0 && !groups[i]
        invariant -1 <= i < |groups|
        invariant Used(groups[..i + 1]) == Used(groups)
      {
        UsedPrefix(groups[..i + 1], i);
        assert groups[..i + 1][..i] == groups[..i];
        i := i - 1;
      }
      UsedPrefix(groups[..i + 1], i + 1);
      n := i + 1;
    }

    method PackFlags(b: BitRef, n: nat) returns (ok: bool)
      requires b.Valid() && n <= |groups|
      modifies b`ptr, b`offset, b.buf
      ensures b.Valid()
      ensures b.C() == Put(old(b.C()), groups[..n]) && ok == (n <= old(b.C().Room()))
    {
      hide BitRef.C, Put, NatBits, Cut;
      ghost var goal := Put(b.C(), groups[..n]);
      var j := 0;
      assert groups[0..n] == groups[..n];
      while j < n
        invariant j <= n && b.Valid()
        invariant Put(b.C(), groups[j..n]) == goal
        invariant b.C().pos == old(b.C().pos) + j && |b.C().bits| == |goal.bits|
      {
        OneBit(groups[j]);
        HeadAndTail(groups, j, n);
        PutPut(b.C(), [groups[j]], groups[j + 1..n]);
        ok := b.Pack(if groups[j] then 1 else 0, 1);
        if !ok {
          PutFull(b.C(), groups[j + 1..n]);
          return;
        }
        j := j + 1;
      }
      PutNothing(b.C());
      return true;
    }
  }

  lemma HeadAndTail(s: seq<bool>, j: nat, n: nat)
    requires j < n <= |s|
    ensures [s[j]] + s[j + 1..n] == s[j..n]
  {
  }

  lemma LessOne(k: nat)
    requires k < UINT32_RANGE
    ensures (k + UINT32_RANGE - 1) % UINT32_RANGE == CountLessOne(k)
  {
  }

  /** A flag vector that ends in false is used as far as its prefix. */
  lemma UsedPrefix(flags: seq<bool>, n: nat)
    requires n <= |flags|
    ensures n == |flags| ==> flags[..n] == flags
    ensures n + 1 == |flags| && !flags[n] ==> Used(flags) == Used(flags[..n])
    ensures n == |flags| && (n == 0 || flags[n - 1]) ==> Used(flags) == n
  {
  }

  /** `bref.unpack(flag, 1)`. */
  method UnpackFlag(b: BitRef) returns (ok: bool, f: bool)
    requires b.Valid()
    modifies b`ptr, b`offset
    ensures b.Valid() && ok == (old(b.C().Room()) > 0)
    ensures b.C() == Cur(old(b.C().bits), if ok then old(b.C().pos) + 1 else old(b.C().pos))
    ensures ok ==> f == old(b.C().bits[b.C().pos])
  {
    hide BitRef.C, Read;
    ghost var c := b.C();
    var v;
    ok, v := b.Unpack(8, 0, 1);
    if ok { ReadFlag(c.bits, c.pos); }
    f := v != 0;
  }

  /** The vector of `n` flags after the first `i` were read from `pos`. */
  ghost function FlagsSoFar(bits: seq<bool>, pos: nat, i: nat, n: nat): (f: seq<bool>)
    requires pos + i <= |bits| && i <= n
    ensures |f| == n
  {
    bits[pos..pos + i] + Zeros(n - i)
  }

  lemma NoFlag(bits: seq<bool>, pos: nat, n: nat)
    requires pos <= |bits|
    ensures FlagsSoFar(bits, pos, 0, n) == Zeros(n)
  {
  }

  lemma NextFlag(bits: seq<bool>, pos: nat, i: nat, n: nat)
    requires pos + i < |bits| && i < n
    ensures FlagsSoFar(bits, pos, i, n)[i := bits[pos + i]] == FlagsSoFar(bits, pos, i + 1, n)
  {
  }

  lemma AllFlags(bits: seq<bool>, pos: nat, i: nat, n: nat)
    requires pos + i <= |bits| && i <= n
    ensures FlagsSoFar(bits, pos, i, n) == bits[pos..pos + i] + Zeros(n - i)
  {
  }

  class GroupsUnpacker {
    const supported: nat
    var groups: seq<bool>
    var sent: nat

    constructor (n: nat)
      ensures supported == n && groups == Zeros(n) && sent == 0
    {
      supported, groups, sent := n, Zeros(n), 0;
    }

    method Unpack(b: BitRef) returns (ok: bool)
      requires b.Valid() && b as object != this && groups == Zeros(supported) && sent == 0
      modifies this, b`ptr, b`offset
      ensures b.Valid() && b.C().bits == old(b.C().bits)
      ensures Rd(ok, Groups(groups, sent), b.C().pos) == DecGroups(b.C().bits, old(b.C().pos), supported)
    {
      hide BitRef.C, Read;
      ok, sent := UnpackNormSmall(b);
      if ok {
        sent := sent + 1;
        groups := Zeros(if sent > supported then sent else supported);
        ok := UnpackFlags(b);
      }
    }

    /** Reads the flags of all groups that were sent. */
    method UnpackFlags(b: BitRef) returns (ok: bool)
      requires b.Valid() && sent <= |groups| && groups == Zeros(|groups|)
      modifies `groups, b`ptr, b`offset
      ensures b.Valid() && b.C().bits == old(b.C().bits)
      ensures ok == (sent <= old(b.C().Room()))
      ensures var got := Cut(old(b.C().bits[b.C().pos..]), sent);
        groups == got + Zeros(old(|groups|) - |got|) && b.C().pos == old(b.C().pos) + |got|
    {
      hide BitRef.C, Read, FlagsSoFar, Zeros;
      ghost var bits, pos := b.C().bits, b.C().pos;
      NoFlag(bits, pos, |groups|);
      var i := 0;
      while i < sent
        invariant i <= sent <= |groups| == old(|groups|)
        invariant b.Valid() && b.C() == Cur(bits, pos + i) && pos + i <= |bits|
        invariant groups == FlagsSoFar(bits, pos, i, |groups|)
      {
        var f;
        ok, f := UnpackFlag(b);
        if !ok {
          AllFlags(bits, pos, i, |groups|);
          assert bits[pos..pos + i] == bits[pos..];
          return;
        }
        NextFlag(bits, pos, i, |groups|);
        groups := groups[i := f];
        i := i + 1;
      }
      AllFlags(bits, pos, sent, |groups|);
      assert bits[pos..pos + sent] == bits[pos..][..sent];
      return true;
    }

    /** The destructor: consumes the groups it does not support. */
    method Close(b: BitRef)
      requires b.Valid() && sent <= |groups|
      modifies b`ptr, b`offset
      ensures b.Valid() && b.C().bits == old(b.C().bits)
      ensures b.C().pos == SkipGroups(b.C().bits, old(b.C().pos), Groups(groups, sent), supported)
    {
      hide BitRef.C, DecLength, Read;
      ghost var g, bits, pos := Groups(groups, sent), b.C().bits, b.C().pos;
      var i := supported;
      while i < sent
        invariant b.Valid() && b.C().bits == bits
        invariant SkipGroups(bits, b.C().pos, g, i) == SkipGroups(bits, pos, g, supported)
        decreases sent - i
      {
        if groups[i] {
          var _, len := UnpackLength(b, false);
          var _, _ := b.Unpack(32, 0, 8 * len);
        }
        i := i + 1;
      }
    }
  }
}
