/**
 The bit cursor of the ASN.1 codec (`bit_ref` / `cbit_ref`): a byte buffer with an octet
 index and a bit offset. `Cur`, `Put` and `Read` say on bit sequences what the byte-wise,
 mask-and-shift loops of class `BitRef` compute.
 */
module BitCursor {
  import opened Bits

  // ----- specification on bit sequences -----

  /** A buffer seen as bits, and a position in it. */
  datatype Cur = Cur(bits: seq<bool>, pos: nat) {
    ghost predicate Valid() {
      |bits| % 8 == 0 && pos <= |bits|
    }

    function Room(): nat
      requires pos <= |bits|
    {
      |bits| - pos
    }

    /** The unused low bits of the current octet are zero. */
    ghost predicate Clean() {
      Valid() && forall i :: pos <= i < Up8(pos) && i < |bits| ==> !bits[i]
    }
  }

  /** Overwrites `bits` from `pos` with `w` and clears the rest of the last octet touched. */
  function Splice(bits: seq<bool>, pos: nat, w: seq<bool>): (r: seq<bool>)
    requires |bits| % 8 == 0 && pos + |w| <= |bits|
    ensures |r| == |bits|
  {
    var e := pos + |w|;
    var end := if w == [] then e else Up8(e);
    seq(|bits|, i requires 0 <= i < |bits| =>
      if pos <= i < e then w[i - pos] else if e <= i < end then false else bits[i])
  }

  /** The part of `w` that fits in `room` bits. */
  function Cut(w: seq<bool>, room: nat): (r: seq<bool>)
    ensures |r| <= room && r <= w
    ensures |w| <= room ==> r == w
    ensures |w| >= room ==> |r| == room
  {
    if |w| <= room then w else w[..room]
  }

  /** Writes as much of `w` as the buffer holds. */
  function Put(c: Cur, w: seq<bool>): (r: Cur)
    requires c.Valid()
    ensures r.Valid() && |r.bits| == |c.bits|
    ensures r.pos == c.pos + |Cut(w, c.Room())|
  {
    var u := Cut(w, c.Room());
    Cur(Splice(c.bits, c.pos, u), c.pos + |u|)
  }

  function Skip(c: Cur, n: nat): (r: Cur)
    requires c.Valid() && n <= c.Room()
    ensures r.Valid()
  {
    Cur(c.bits, c.pos + n)
  }

  /** The zeros that lead from bit position `pos` to the next octet boundary. */
  function Pad(pos: nat): (s: seq<bool>)
    ensures |s| < 8 && (pos + |s|) == Up8(pos)
  {
    Zeros(Up8(pos) - pos)
  }

  /** The next octet boundary of a buffer. */
  function Aligned(bits: seq<bool>, pos: nat): (r: nat)
    requires pos <= |bits| && |bits| % 8 == 0
    ensures pos <= r <= |bits| && r % 8 == 0 && r == Up8(pos)
  {
    Up8(pos)
  }

  /** The outcome of a decoding step: success, the value left behind, the new position. */
  datatype Rd<T> = Rd(ok: bool, v: T, pos: nat)

  /** Reads `n` bits; bits missing at the end of the buffer count as zero and fail the read. */
  function Read(bits: seq<bool>, pos: nat, n: nat): (r: Rd<nat>)
    requires pos <= |bits|
    ensures pos <= r.pos <= |bits| && r.pos <= pos + n
    ensures r.ok <==> pos + n <= |bits|
    ensures r.pos == if r.ok then pos + n else |bits|
  {
    var w := Cut(bits[pos..], n);
    Rd(|w| == n, BitsNat(w + Zeros(n - |w|)), pos + |w|)
  }

  /** The bits `w` stand in `bits` at position `pos`. */
  ghost predicate At(bits: seq<bool>, pos: nat, w: seq<bool>) {
    pos + |w| <= |bits| && bits[pos..pos + |w|] == w
  }

  // ----- algebra of writing -----

  lemma SpliceParts(bits: seq<bool>, pos: nat, w: seq<bool>)
    requires |bits| % 8 == 0 && pos + |w| <= |bits|
    ensures Splice(bits, pos, w)[..pos] == bits[..pos]
    ensures Splice(bits, pos, w)[pos..pos + |w|] == w
  {
    hide Up8, Octets;
  }

  /** Two writes in a row are one write of the concatenation. */
  lemma SpliceSplice(bits: seq<bool>, pos: nat, u: seq<bool>, w: seq<bool>)
    requires |bits| % 8 == 0 && pos + |u| + |w| <= |bits|
    ensures Splice(Splice(bits, pos, u), pos + |u|, w) == Splice(bits, pos, u + w)
  {
  }

  /** Composition holds even when the buffer fills up half-way. */
  lemma PutPut(c: Cur, u: seq<bool>, w: seq<bool>)
    requires c.Valid()
    ensures Put(Put(c, u), w) == Put(c, u + w)
    ensures Put(c, u).Room() >= |w| && |u| <= c.Room() <==> |u + w| <= c.Room()
  {
    var room := c.Room();
    var d := Put(c, u);
    if |u| > room {
      assert Cut(u + w, room) == Cut(u, room);
      assert Cut(w, d.Room()) == [];
    } else {
      var t := Cut(w, d.Room());
      assert Cut(u + w, room) == u + t;
      SpliceSplice(c.bits, c.pos, u, t);
    }
  }

  lemma PutNothing(c: Cur)
    requires c.Valid()
    ensures Put(c, []) == c
  {
  }

  lemma PutNoPad(c: Cur)
    requires c.Valid() && c.pos % 8 == 0
    ensures Put(c, Pad(c.pos)) == c
  {
    assert Pad(c.pos) == [];
  }

  lemma PutCut(c: Cur, w: seq<bool>)
    requires c.Valid()
    ensures Put(c, Cut(w, c.Room())) == Put(c, w)
  {
  }

  lemma PutFull(c: Cur, w: seq<bool>)
    requires c.Valid() && c.Room() == 0
    ensures Put(c, w) == c
  {
  }

  /** A write that already overflows hides whatever would follow it. */
  lemma PutStop(c: Cur, u: seq<bool>, w: seq<bool>)
    requires c.Valid() && |u| > c.Room()
    ensures Put(c, u + w) == Put(c, u)
  {
    assert Cut(u + w, c.Room()) == Cut(u, c.Room());
  }

  lemma PutClean(c: Cur, w: seq<bool>)
    requires c.Clean() || (w != [] && c.Valid())
    ensures Put(c, w).Clean()
  {
    var u := Cut(w, c.Room());
    if u != [] {
      SpliceClean(c.bits, c.pos, u);
    }
  }

  lemma SpliceClean(bits: seq<bool>, pos: nat, w: seq<bool>)
    requires |bits| % 8 == 0 && w != [] && pos + |w| <= |bits|
    ensures Cur(Splice(bits, pos, w), pos + |w|).Clean()
  {
  }

  /** On a clean cursor, stepping to the next octet writes the padding zeros. */
  lemma SkipIsPad(c: Cur)
    requires c.Clean()
    ensures |Pad(c.pos)| <= c.Room()
    ensures Put(c, Pad(c.pos)) == Skip(c, |Pad(c.pos)|)
  {
    var e := Up8(c.pos);
    assert c.bits[c.pos..e] == Pad(c.pos);
    assert c.bits == c.bits[..c.pos] + c.bits[c.pos..e] + c.bits[e..];
    assert Up8(e) == e;
    assert Zeros(0) == [];
  }

  /** Skipping and then writing keeps the bits skipped. */
  lemma SkipPut(c: Cur, n: nat, w: seq<bool>)
    requires c.Valid() && n <= c.Room() && w != [] && n + |w| <= c.Room()
    ensures Put(Skip(c, n), w) == Put(c, c.bits[c.pos..c.pos + n] + w)
  {
    hide Splice, Cut;
    PutBits(Skip(c, n), w);
    PutBits(c, c.bits[c.pos..c.pos + n] + w);
    SpliceKeeps(c.bits, c.pos, n, w);
  }

  lemma PutBits(c: Cur, w: seq<bool>)
    requires c.Valid() && |w| <= c.Room()
    ensures Put(c, w) == Cur(Splice(c.bits, c.pos, w), c.pos + |w|)
  {
    hide Splice;
  }

  lemma SpliceKeeps(bits: seq<bool>, pos: nat, n: nat, w: seq<bool>)
    requires |bits| % 8 == 0 && w != [] && pos + n + |w| <= |bits|
    ensures Splice(bits, pos + n, w) == Splice(bits, pos, bits[pos..pos + n] + w)
  {
    var u := bits[pos..pos + n] + w;
    assert forall i :: 0 <= i < n ==> u[i] == bits[pos + i];
    assert forall i :: n <= i < n + |w| ==> u[i] == w[i - n];
    hide Up8;
  }

  // ----- algebra of reading -----

  lemma AtSplit(bits: seq<bool>, pos: nat, u: seq<bool>, w: seq<bool>)
    ensures At(bits, pos, u + w) <==> At(bits, pos, u) && At(bits, pos + |u|, w)
  {
    var m, e := pos + |u|, pos + |u| + |w|;
    if e <= |bits| {
      SlicesJoin(bits, pos, m, e);
      ConcatParts(bits[pos..m], bits[m..e], u, w);
    }
  }

  lemma SlicesJoin(s: seq<bool>, a: nat, b: nat, c: nat)
    requires a <= b <= c <= |s|
    ensures s[a..c] == s[a..b] + s[b..c]
  {
  }

  lemma ConcatParts(a: seq<bool>, b: seq<bool>, u: seq<bool>, w: seq<bool>)
    requires |a| == |u| && |b| == |w|
    ensures a + b == u + w <==> a == u && b == w
  {
    if a + b == u + w {
      assert a == (a + b)[..|a|] && u == (u + w)[..|u|];
      assert b == (a + b)[|a|..] && w == (u + w)[|u|..];
    }
  }

  /** A write that fits can be read back, and nothing before it changes. */
  lemma PutAt(c: Cur, w: seq<bool>)
    requires c.Valid() && |w| <= c.Room()
    ensures At(Put(c, w).bits, c.pos, w)
    ensures Put(c, w).bits[..c.pos] == c.bits[..c.pos]
  {
    SpliceParts(c.bits, c.pos, w);
  }

  lemma ReadAt(bits: seq<bool>, pos: nat, w: seq<bool>)
    requires At(bits, pos, w)
    ensures Read(bits, pos, |w|) == Rd(true, BitsNat(w), pos + |w|)
  {
    assert bits[pos..][..|w|] == bits[pos..pos + |w|];
    assert Cut(bits[pos..], |w|) == w;
    assert w + Zeros(0) == w;
  }

  lemma ReadNat(bits: seq<bool>, pos: nat, v: nat, n: nat)
    requires At(bits, pos, NatBits(v, n)) && v < Pow2(n)
    ensures Read(bits, pos, n) == Rd(true, v, pos + n)
  {
    ReadAt(bits, pos, NatBits(v, n));
    BitsNatOfNatBits(v, n);
    LowBitsId(v, n);
  }

  lemma ReadBound(bits: seq<bool>, pos: nat, n: nat)
    requires pos <= |bits|
    ensures Read(bits, pos, n).v < Pow2(n)
  {
    var w := Cut(bits[pos..], n);
    BitsNatBound(w + Zeros(n - |w|));
  }

  lemma ReadFlag(bits: seq<bool>, pos: nat)
    requires pos < |bits|
    ensures Read(bits, pos, 1) == Rd(true, if bits[pos] then 1 else 0, pos + 1)
  {
    OneBit(bits[pos]);
    assert bits[pos..pos + 1] == [bits[pos]];
    ReadNat(bits, pos, if bits[pos] then 1 else 0, 1);
  }
}
