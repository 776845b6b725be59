/**
 Runs of the cursor operations: sequences of bit fields, the octet fast paths, and what
 every run leaves behind in the current octet.
 */
module Fields {
  import opened Bits
  import opened BitCursor
  import opened BitRefs

  /** A value and the number of bits it is written in. */
  datatype Field = Field(v: nat, n: nat)

  /** A value that its width holds, in a width that the decoder reads exactly. */
  ghost predicate Exact(f: Field) {
    f.n <= 32 && f.v < Pow2(f.n)
  }

  function FieldBits(fs: seq<Field>): seq<bool> {
    if fs == [] then [] else NatBits(fs[0].v, fs[0].n) + FieldBits(fs[1..])
  }

  function Widths(fs: seq<Field>): (ws: seq<nat>)
    ensures |ws| == |fs|
  {
    seq(|fs|, i requires 0 <= i < |fs| => fs[i].n)
  }

  function Values(fs: seq<Field>): (vs: seq<nat>)
    ensures |vs| == |fs|
  {
    seq(|fs|, i requires 0 <= i < |fs| => fs[i].v)
  }

  /** Reads one field after the other and stops at the first that fails. */
  function ReadFields(bits: seq<bool>, pos: nat, ws: seq<nat>): (r: Rd<seq<nat>>)
    requires pos <= |bits|
    ensures pos <= r.pos <= |bits| && (r.ok ==> |r.v| == |ws|)
    decreases |ws|
  {
    if ws == [] then Rd(true, [], pos) else
      var r := Read(bits, pos, ws[0]);
      if !r.ok then Rd(false, [], r.pos) else
        var s := ReadFields(bits, r.pos, ws[1..]);
        Rd(s.ok, [r.v] + s.v, s.pos)
  }

  // ----- field sequences -----

  /** Every field that is standing in the buffer is read back, wherever it starts. */
  lemma {:induction false} ReadFieldsAt(bits: seq<bool>, pos: nat, fs: seq<Field>)
    requires At(bits, pos, FieldBits(fs))
    requires forall f :: f in fs ==> Exact(f)
    ensures ReadFields(bits, pos, Widths(fs)) == Rd(true, Values(fs), pos + |FieldBits(fs)|)
    decreases |fs|
  {
    hide NatBits, Read, Pow2;
    if fs == [] {
      assert Values(fs) == [];
    } else {
      var f, rest := fs[0], fs[1..];
      assert Exact(f);
      AtSplit(bits, pos, NatBits(f.v, f.n), FieldBits(rest));
      ReadNat(bits, pos, f.v, f.n);
      assert Widths(fs)[0] == f.n && Widths(fs)[1..] == Widths(rest);
      assert Values(fs) == [f.v] + Values(rest);
      ReadFieldsAt(bits, pos + f.n, rest);
    }
  }

  /** Packing fields from any bit offset and unpacking the same widths returns every value. */
  lemma FieldsRoundTrip(c: Cur, fs: seq<Field>)
    requires c.Valid() && |FieldBits(fs)| <= c.Room()
    requires forall f :: f in fs ==> Exact(f)
    ensures ReadFields(Put(c, FieldBits(fs)).bits, c.pos, Widths(fs))
         == Rd(true, Values(fs), Put(c, FieldBits(fs)).pos)
  {
    PutAt(c, FieldBits(fs));
    ReadFieldsAt(Put(c, FieldBits(fs)).bits, c.pos, fs);
  }

  /**
   Above 32 bits the decoder's 32-bit intermediate decides: exactly the small values survive, in
   every width that the encoder writes and that the decoder reads with defined shifts.
   */
  lemma WideFieldRoundTrip(c: Cur, f: Field)
    requires c.Valid() && f.n <= c.Room() && f.v < Pow2(f.n) && f.n < 64 && f.n + c.pos % 8 < 40
    ensures LowBits(Read(Put(c, NatBits(f.v, f.n)).bits, c.pos, f.n).v, 32) == f.v <==> f.v < Pow2(32)
  {
    hide LowBits, NatBits, Put, Read, Pow2;
    PutAt(c, NatBits(f.v, f.n));
    ReadNat(Put(c, NatBits(f.v, f.n)).bits, c.pos, f.v, f.n);
    LowBitsBound(f.v, 32);
    if f.v < Pow2(32) { LowBitsId(f.v, 32); }
  }

  /** A value of 33 bits that does not come back. */
  lemma WideFieldLost(c: Cur)
    requires c.Valid() && 33 <= c.Room() && c.pos % 8 < 7
    ensures var v := 0x1_0000_0000;
      v < Pow2(33) && LowBits(Read(Put(c, NatBits(v, 33)).bits, c.pos, 33).v, 32) != v
  {
    Pow2Words();
    assert Pow2(33) == 2 * Pow2(32);
    hide Pow2, NatBits, LowBits, Read, Put;
    WideFieldRoundTrip(c, Field(0x1_0000_0000, 33));
  }

  /** `HANDLE_CODE(bref.pack(v, n))` for each field in turn. */
  method PackFields(b: BitRef, fs: seq<Field>) returns (ok: bool)
    requires b.Valid() && forall i :: 0 <= i < |fs| ==> fs[i].v < UINT64_RANGE && fs[i].n < 64
    modifies b`ptr, b`offset, b.buf
    ensures b.Valid()
    ensures ok == (|FieldBits(fs)| <= old(b.C().Room()))
    ensures b.C() == Put(old(b.C()), FieldBits(fs))
  {
    hide Put, NatBits, BytesBits;
    ghost var goal := Put(b.C(), FieldBits(fs));
    var i := 0;
    assert fs[0..] == fs;
    while i < |fs|
      invariant i <= |fs| && b.Valid()
      invariant Put(b.C(), FieldBits(fs[i..])) == goal
      invariant b.C().pos + |FieldBits(fs[i..])| == old(b.C().pos) + |FieldBits(fs)|
    {
      ghost var c, w, rest := b.C(), NatBits(fs[i].v, fs[i].n), FieldBits(fs[i + 1..]);
      assert fs[i..][1..] == fs[i + 1..];
      PutPut(c, w, rest);
      var done := b.Pack(fs[i].v, fs[i].n);
      if !done {
        PutFull(b.C(), rest);
        return false;
      }
      i := i + 1;
    }
    PutNothing(b.C());
    return true;
  }

  method UnpackFields(b: BitRef, ws: seq<nat>) returns (ok: bool, vs: seq<nat>)
    requires b.Valid() && forall i :: 0 <= i < |ws| ==> ws[i] <= 32
    modifies b`ptr, b`offset
    ensures b.Valid()
    ensures Rd(ok, vs, b.C().pos) == ReadFields(old(b.C().bits), old(b.C().pos), ws)
    ensures b.C().bits == old(b.C().bits)
    decreases |ws|
  {
    if ws == [] {
      return true, [];
    }
    hide Read, BytesBits, LowBits;
    var done, v := b.Unpack(32, 0, ws[0]);
    if !done {
      return false, [];
    }
    ok, vs := UnpackFields(b, ws[1..]);
    vs := [v] + vs;
  }

  // ----- octet fast paths -----

  /** Eight-bit packs of each octet in turn. */
  ghost function PutEach(c: Cur, data: seq<Byte>): Cur
    requires c.Valid()
    decreases |data|
  {
    if data == [] then c else PutEach(Put(c, NatBits(data[0], 8)), data[1..])
  }

  /** Both branches of `pack_bytes` leave what the octet-by-octet form leaves. */
  lemma {:induction false} PutEachIsPut(c: Cur, data: seq<Byte>)
    requires c.Valid()
    ensures PutEach(c, data) == Put(c, BytesBits(data))
    decreases |data|
  {
    if data == [] {
      PutNothing(c);
    } else {
      PutEachIsPut(Put(c, NatBits(data[0], 8)), data[1..]);
      BytesBitsConcat([data[0]], data[1..]);
      BytesBitsOne(data[0]);
      assert [data[0]] + data[1..] == data;
      PutPut(c, NatBits(data[0], 8), BytesBits(data[1..]));
    }
  }

  /**
   The bound check of `pack_bytes` agrees with the room needed except for the one case of
   octet-aligned data that would fill the buffer to its last octet, which is refused.
   */
  lemma PackBytesBound(ptr: nat, offset: nat, length: nat, n: nat)
    requires ptr <= length && offset < 8 && (ptr == length ==> offset == 0)
    ensures (n == 0 || ptr + n < length) <==>
      8 * ptr + offset + 8 * n <= 8 * length && !(n > 0 && offset == 0 && ptr + n == length)
  {
  }

  // ----- what a run leaves in the current octet -----

  datatype Op = PackOp(v: nat, n: nat) | BytesOp(data: seq<Byte>) | AlignOp | AlignZeroOp

  /** The effect of one writing operation, whether it succeeds or not. */
  function Step(c: Cur, op: Op): (r: Cur)
    requires c.Valid()
    ensures r.Valid() && |r.bits| == |c.bits|
  {
    match op
    case PackOp(v, n) => if n < 64 then Put(c, NatBits(v, n)) else c
    case BytesOp(data) =>
      if data == [] || c.pos / 8 + |data| < |c.bits| / 8 then Put(c, BytesBits(data)) else c
    case AlignOp => Cur(c.bits, Up8(c.pos))
    case AlignZeroOp => Put(c, Pad(c.pos))
  }

  function Run(c: Cur, ops: seq<Op>): (r: Cur)
    requires c.Valid()
    ensures r.Valid()
    decreases |ops|
  {
    if ops == [] then c else Run(Step(c, ops[0]), ops[1..])
  }

  /**
   Without `advance_bits`, every run from an octet boundary leaves the unused bits of the
   current octet zero, so that aligning with and without clearing come to the same.
   */
  lemma {:induction false} RunStaysClean(c: Cur, ops: seq<Op>)
    requires c.Valid() && (c.pos % 8 == 0 || c.Clean())
    ensures Run(c, ops).Clean()
    ensures Step(Run(c, ops), AlignOp) == Step(Run(c, ops), AlignZeroOp)
    decreases |ops|
  {
    if ops == [] {
      SkipIsPad(c);
    } else {
      StepStaysClean(c, ops[0]);
      RunStaysClean(Step(c, ops[0]), ops[1..]);
    }
  }

  lemma StepStaysClean(c: Cur, op: Op)
    requires c.Clean()
    ensures Step(c, op).Clean()
  {
    match op
    case PackOp(v, n) => PutClean(c, NatBits(v, n));
    case BytesOp(data) => PutClean(c, BytesBits(data));
    case AlignOp =>
    case AlignZeroOp => PutClean(c, Pad(c.pos));
  }

  /** After `advance_bits` the two ways to align differ: the skipped bits may be ones. */
  lemma AdvanceSpoilsClean()
    ensures var c := Cur(seq(8, i => true), 0);
      c.Clean() && Step(Skip(c, 3), AlignOp) != Step(Skip(c, 3), AlignZeroOp)
  {
    var c := Cur(seq(8, i => true), 0);
    assert Step(Skip(c, 3), AlignOp).bits[5];
    assert Pad(3) == Zeros(5);
    assert !Step(Skip(c, 3), AlignZeroOp).bits[5];
  }
}
