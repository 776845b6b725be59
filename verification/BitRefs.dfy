/**
 Class `BitRef`: the mutable cursor itself, with the byte-at-a-time loops of `bit_ref`.
 A buffer `[start_ptr, max_ptr)` is an array, so that `max_ptr` is its length. `bit_ref`
 (writer) and `cbit_ref` (reader) differ only in the operations used on them.
 Masks and shifts are written with powers of two: `x & (2^k - 1)` is `x % Pow2(k)`,
 `x >> k` is `ShiftRight(x, k)` and `x << k` is `x * Pow2(k)`, cut to the width of its type.
 */
module BitRefs {
  import opened Bits
  import opened BitCursor

  const UINT64_RANGE := 0x1_0000_0000_0000_0000
  const UINT32_RANGE := 0x1_0000_0000

  /** `b & keepmask`: the first `o` bits of an octet stay, the others are cleared. */
  function Keep(b: Byte, o: nat): nat
    requires o <= 8
  {
    ShiftLeft(ShiftRight(b, 8 - o), 8 - o)
  }

  /** Placing the `k` bits of `x` at offset `o` of an octet. */
  lemma OctetBits(b: Byte, o: nat, x: nat, k: nat)
    requires o + k <= 8 && x < Pow2(k)
    ensures Keep(b, o) + ShiftLeft(x, 8 - o - k) < 256
    ensures NatBits(Keep(b, o) + ShiftLeft(x, 8 - o - k), 8)
         == NatBits(b, 8)[..o] + NatBits(x, k) + Zeros(8 - o - k)
  {
    hide NatBits, ShiftLeft, ShiftRight;
    var m, s := 8 - o, 8 - o - k;
    var hi, low := ShiftRight(b, m), ShiftLeft(x, s);
    assert Pow2(8) == 256;
    ShiftRightBound(b, o, m);
    ShiftLeftBound(hi, o, m);
    ShiftLeftBound(x, k, s);
    NatBitsJoin(hi, o, low, m);
    NatBitsJoin(x, k, 0, s);
    NatBitsZero(s);
    assert NatBits(b, 8)[..o] == NatBits(hi, o) by { NatBitsSplit(b, o, m); }
  }

  /** Writing that octet into a buffer is one write of the bits of `x`. */
  lemma PutOctet(bs: seq<Byte>, i: nat, o: nat, x: nat, k: nat)
    requires i < |bs| && o + k <= 8 && 0 < k && x < Pow2(k)
    ensures Keep(bs[i], o) + ShiftLeft(x, 8 - o - k) < 256
    ensures Cur(BytesBits(bs[i := Keep(bs[i], o) + ShiftLeft(x, 8 - o - k)]), 8 * i + o + k)
         == Put(Cur(BytesBits(bs), 8 * i + o), NatBits(x, k))
  {
    hide Keep, NatBits, ShiftLeft, BytesBits, Splice, Pow2;
    OctetBits(bs[i], o, x, k);
    ReplaceOctet(bs, i, o, Keep(bs[i], o) + ShiftLeft(x, 8 - o - k), NatBits(x, k));
  }

  lemma ReplaceOctet(bs: seq<Byte>, i: nat, o: nat, nb: Byte, w: seq<bool>)
    requires i < |bs| && o + |w| <= 8 && w != []
    requires NatBits(nb, 8) == NatBits(bs[i], 8)[..o] + w + Zeros(8 - o - |w|)
    ensures BytesBits(bs[i := nb]) == Splice(BytesBits(bs), 8 * i + o, w)
  {
    hide NatBits, BytesBits;
    var bits, next := BytesBits(bs), BytesBits(bs[i := nb]);
    assert Up8(8 * i + o + |w|) == 8 * i + 8;
    hide Up8;
    forall k | 0 <= k < |bits|
      ensures next[k] == if 8 * i <= k < 8 * i + 8 then NatBits(nb, 8)[k - 8 * i] else bits[k]
      ensures 8 * i <= k < 8 * i + 8 ==> bits[k] == NatBits(bs[i], 8)[k - 8 * i]
    {
      ReplacedBit(bs, i, [nb], bs[i := nb], k);
      ReplacedBit(bs, i, [bs[i]], bs, k);
      if 8 * i <= k < 8 * i + 8 {
        OctetBit(nb, k, i);
        OctetBit(bs[i], k, i);
      }
    }
    assert next == Splice(bits, 8 * i + o, w);
  }

  lemma OctetBit(b: Byte, k: nat, i: nat)
    requires 8 * i <= k < 8 * i + 8
    ensures BytesBits([b])[k - 8 * i] == NatBits(b, 8)[k - 8 * i]
  {
    hide NatBits;
  }

  /** The top `k` of `n` bits are those of the number shifted right. */
  lemma ChunkBits(v: nat, n: nat, k: nat)
    requires k <= n && v < Pow2(n)
    ensures ShiftRight(v, n - k) < Pow2(k)
    ensures NatBits(v, n) == NatBits(ShiftRight(v, n - k), k) + NatBits(v, n - k)
  {
    NatBitsSplit(v, k, n - k);
    ShiftRightBound(v, k, n - k);
  }

  /** The bits from `o` to `o + k` of an octet, as the masks of `unpack_bits` extract them. */
  lemma OctetRead(b: Byte, o: nat, k: nat)
    requires o + k <= 8
    ensures NatBits(b, 8)[o..o + k] == NatBits(ShiftRight(LowBits(b, 8 - o), 8 - o - k), k)
    ensures ShiftRight(LowBits(b, 8 - o), 8 - o - k) < Pow2(k)
  {
    var m, s := 8 - o, 8 - o - k;
    var low := LowBits(b, m);
    NatBitsSplit(b, o, m);
    NatBitsLow(b, m);
    NatBitsSplit(low, k, s);
    LowBitsBound(b, m);
    ShiftRightBound(low, k, s);
    assert NatBits(b, 8)[o..] == NatBits(low, m);
    assert NatBits(b, 8)[o..o + k] == NatBits(b, 8)[o..][..k];
  }

  lemma BufferRead(bs: seq<Byte>, i: nat, o: nat, k: nat)
    requires i < |bs| && o + k <= 8
    ensures BytesBits(bs)[8 * i + o..8 * i + o + k] == NatBits(bs[i], 8)[o..o + k]
  {
    hide NatBits;
  }

  /** Replacing whole octets in the middle of a buffer is one write of their bits. */
  lemma ReplaceOctets(bs: seq<Byte>, i: nat, data: seq<Byte>, bs': seq<Byte>)
    requires i + |data| <= |bs| == |bs'|
    requires forall j :: 0 <= j < |bs| ==> bs'[j] == if i <= j < i + |data| then data[j - i] else bs[j]
    ensures BytesBits(bs') == Splice(BytesBits(bs), 8 * i, BytesBits(data))
  {
    hide BytesBits, Splice;
    forall k | 0 <= k < 8 * |bs|
      ensures BytesBits(bs')[k]
           == if 8 * i <= k < 8 * i + 8 * |data| then BytesBits(data)[k - 8 * i] else BytesBits(bs)[k]
    {
      ReplacedBit(bs, i, data, bs', k);
    }
    WholeSplice(BytesBits(bs), 8 * i, BytesBits(data), BytesBits(bs'));
  }

  /** A write that ends on an octet boundary clears nothing. */
  lemma WholeSplice(bits: seq<bool>, pos: nat, w: seq<bool>, r: seq<bool>)
    requires |bits| % 8 == 0 && pos + |w| <= |bits| == |r| && (pos + |w|) % 8 == 0
    requires forall k :: 0 <= k < |bits| ==> r[k] == if pos <= k < pos + |w| then w[k - pos] else bits[k]
    ensures r == Splice(bits, pos, w)
  {
    assert Up8(pos + |w|) == pos + |w|;
    hide Up8;
  }

  lemma ReplacedBit(bs: seq<Byte>, i: nat, data: seq<Byte>, bs': seq<Byte>, k: nat)
    requires i + |data| <= |bs| == |bs'| && k < 8 * |bs|
    requires bs'[k / 8] == if i <= k / 8 < i + |data| then data[k / 8 - i] else bs[k / 8]
    ensures BytesBits(bs')[k]
         == if 8 * i <= k < 8 * i + 8 * |data| then BytesBits(data)[k - 8 * i] else BytesBits(bs)[k]
  {
    hide NatBits;
    OctetIndex(k, i);
    OctetIndex(k, i + |data|);
  }

  lemma OctetIndex(k: nat, i: nat)
    ensures 8 * i <= k ==> (k - 8 * i) / 8 == k / 8 - i && (k - 8 * i) % 8 == k % 8
    ensures 8 * i <= k <==> i <= k / 8
  {
  }

  /** Copying whole octets out of a buffer gives the bits that stand there. */
  lemma CopyOctets(bs: seq<Byte>, i: nat, n: nat)
    requires i + n <= |bs|
    ensures At(BytesBits(bs), 8 * i, BytesBits(bs[i..i + n]))
  {
    hide NatBits;
  }

  lemma {:induction false} ShiftLeftZero(k: nat)
    ensures ShiftLeft(0, k) == 0
  {
    if k > 0 { ShiftLeftZero(k - 1); }
  }

  /** The 32-bit sum after the bits from `pos` to `now`, with `n` bits still missing. */
  ghost function Sum32(bits: seq<bool>, pos: nat, now: nat, n: nat): nat
    requires pos <= now <= |bits|
  {
    LowBits(ShiftLeft(BitsNat(bits[pos..now]), n), 32)
  }

  lemma SumStart(bits: seq<bool>, pos: nat, n: nat)
    requires pos <= |bits|
    ensures Sum32(bits, pos, pos, n) == 0
  {
    ShiftLeftZero(n);
    LowBitsId(0, 32);
  }

  /** A read that is complete, or stopped by the end of the buffer, has the value `Read` says. */
  lemma SumEnd(bits: seq<bool>, pos: nat, n: nat)
    requires pos <= |bits|
    ensures var e := if pos + n <= |bits| then pos + n else |bits|;
      var r := Read(bits, pos, n);
      r.ok == (pos + n <= |bits|) && r.pos == e && LowBits(r.v, 32) == Sum32(bits, pos, e, pos + n - e)
  {
    hide LowBits;
    var e := if pos + n <= |bits| then pos + n else |bits|;
    var w := bits[pos..e];
    assert Cut(bits[pos..], n) == w;
    BitsNatConcat(w, Zeros(pos + n - e));
    BitsNatZeros(pos + n - e);
  }

  /** Accumulating the next `k` bits, when `n` bits were still missing before them. */
  lemma SumStep(bits: seq<bool>, pos: nat, now: nat, k: nat, n: nat)
    requires pos <= now && now + k <= |bits| && k <= n && (n <= 32 || now == pos)
    ensures Sum32(bits, pos, now, n) + LowBits(ShiftLeft(BitsNat(bits[now..now + k]), n - k), 32)
         == Sum32(bits, pos, now + k, n - k)
  {
    hide LowBits, ShiftLeft, Pow2, BitsNat;
    var read, chunk, rest := bits[pos..now], bits[now..now + k], n - k;
    assert read + chunk == bits[pos..now + k];
    BitsNatConcat(read, chunk);
    ShiftLeftAdd(ShiftLeft(BitsNat(read), k), BitsNat(chunk), rest);
    ShiftLeftTwice(BitsNat(read), k, rest);
    if n <= 32 {
      var y := ShiftLeft(BitsNat(chunk), rest);
      BitsNatBound(chunk);
      ShiftLeftBound(BitsNat(chunk), k, rest);
      Pow2Mono(n, 32);
      LowBitsId(y, 32);
      LowBitsAdd(BitsNat(read), y, n, 32);
    } else {
      SumStart(bits, pos, n);
      BitsNatOfNatBits(0, 0);
      ShiftLeftZero(n);
    }
  }

  /** Reading eight bits gives the octet that stands there. */
  lemma ReadOctet(bits: seq<bool>, pos: nat)
    requires pos + 8 <= |bits|
    ensures var x := LowBits(Read(bits, pos, 8).v, 32);
      x < 256 && At(bits, pos, BytesBits([x]))
  {
    var w := bits[pos..pos + 8];
    assert At(bits, pos, w);
    ReadAt(bits, pos, w);
    BitsNatBound(w);
    assert Pow2(8) == 256;
    Pow2Mono(8, 32);
    LowBitsId(BitsNat(w), 32);
    NatBitsOfBitsNat(w);
    BytesBitsOne(BitsNat(w));
  }

  lemma RestOfOctet(ptr: nat, offset: nat)
    requires offset < 8
    ensures Pad(8 * ptr + offset) == if offset == 0 then [] else NatBits(0, 8 - offset)
  {
    hide NatBits;
    NatBitsZero(8 - offset);
    assert Up8(8 * ptr + offset) == if offset == 0 then 8 * ptr else 8 * ptr + 8;
  }

  class BitRef {
    var buf: array<Byte>
    var ptr: nat
    var offset: nat

    /** A bit offset inside an octet needs that octet to exist. */
    ghost predicate Valid()
      reads this
    {
      ptr <= buf.Length && offset < 8 && (ptr == buf.Length ==> offset == 0)
    }

    ghost function C(): (c: Cur)
      requires Valid()
      reads this, buf
      ensures c.Valid()
    {
      Cur(BytesBits(buf[..]), 8 * ptr + offset)
    }

    constructor (buffer: array<Byte>)
      ensures Valid() && buf == buffer && ptr == 0 && offset == 0
    {
      buf, ptr, offset := buffer, 0, 0;
    }

    /** Copying a `bit_ref` gives a second cursor into the same buffer. */
    constructor Copy(other: BitRef)
      requires other.Valid()
      ensures Valid() && buf == other.buf && ptr == other.ptr && offset == other.offset
    {
      buf, ptr, offset := other.buf, other.ptr, other.offset;
    }

    /** One turn of the packing loop: `k` bits into the current octet. */
    method PackOctet(x: nat, k: nat)
      requires Valid() && ptr < buf.Length && 0 < k && offset + k <= 8 && x < Pow2(k)
      modifies this`ptr, this`offset, buf
      ensures Valid() && C() == Put(old(C()), NatBits(x, k))
    {
      hide Put, NatBits, BytesBits, Keep, ShiftLeft, Pow2;
      ghost var bs := buf[..];
      PutOctet(bs, ptr, offset, x, k);
      var bit := ShiftLeft(x, 8 - offset - k) % 256;
      buf[ptr] := Keep(buf[ptr], offset) + bit;
      assert buf[..] == bs[ptr := buf[ptr]];
      if 8 - offset > k {
        offset := offset + k;
      } else {
        offset := 0;
        ptr := ptr + 1;
      }
    }

    /** Writes the low `nBits` bits of `val`, octet by octet. */
    method Pack(val: nat, nBits: nat) returns (ok: bool)
      requires Valid() && val < UINT64_RANGE
      modifies this`ptr, this`offset, buf
      ensures Valid()
      ensures ok == (nBits < 64 && nBits <= old(C().Room()))
      ensures C() == if nBits < 64 then Put(old(C()), NatBits(val, nBits)) else old(C())
    {
      if nBits >= 64 {
        return false;
      }
      ok := PackLoop(val, nBits);
    }

    method PackLoop(val: nat, nBits: nat) returns (ok: bool)
      requires Valid() && nBits < 64
      modifies this`ptr, this`offset, buf
      ensures Valid()
      ensures ok == (nBits <= old(C().Room()))
      ensures C() == Put(old(C()), NatBits(val, nBits))
    {
      hide BytesBits, NatBits, LowBits, ShiftRight, Pow2, Put;
      ghost var goal := Put(C(), NatBits(val, nBits));
      var v: nat, n: nat := val, nBits;
      while n > 0
        invariant Valid()
        invariant Put(C(), NatBits(v, n)) == goal
        invariant 8 * ptr + offset + n == old(8 * ptr + offset) + nBits
      {
        if ptr >= buf.Length {
          PutFull(C(), NatBits(v, n));
          return false;
        }
        NatBitsLow(v, n);
        LowBitsBound(v, n);
        v := LowBits(v, n);
        var k := if 8 - offset > n then n else 8 - offset;
        ChunkBits(v, n, k);
        PutPut(C(), NatBits(ShiftRight(v, n - k), k), NatBits(v, n - k));
        PackOctet(ShiftRight(v, n - k), k);
        n := n - k;
      }
      PutNothing(C());
      return true;
    }

    /** One turn of the unpacking loop: the next `k` bits of the current octet. */
    method UnpackOctet(k: nat) returns (x: nat)
      requires Valid() && ptr < buf.Length && 0 < k && offset + k <= 8
      modifies this`ptr, this`offset
      ensures Valid() && 8 * ptr + offset == old(8 * ptr + offset) + k
      ensures x == BitsNat(C().bits[old(C().pos)..C().pos])
    {
      hide NatBits, BytesBits, LowBits, ShiftRight, Pow2, BitsNat;
      x := ShiftRight(LowBits(buf[ptr], 8 - offset), 8 - offset - k);
      OctetRead(buf[ptr], offset, k);
      BufferRead(buf[..], ptr, offset, k);
      BitsNatOfNatBits(x, k);
      LowBitsId(x, k);
      if 8 - offset > k {
        offset := offset + k;
      } else {
        offset := 0;
        ptr := ptr + 1;
      }
    }

    /**
     Reads `nBits` bits into a variable of `width` bits that holds `v0` before. The octets are
     shifted as 32-bit numbers, so the sum is cut to 32 bits; a shift of 32 or more, which C++
     leaves undefined, is excluded.
     */
    method Unpack(width: nat, v0: nat, nBits: nat) returns (ok: bool, v: nat)
      requires Valid() && (nBits <= width ==> nBits + offset < 40)
      modifies this`ptr, this`offset
      ensures Valid()
      ensures nBits > width ==> !ok && v == v0 && C() == old(C())
      ensures nBits <= width ==>
        var r := Read(old(C()).bits, old(C()).pos, nBits);
        ok == r.ok && v == LowBits(r.v, 32) && C() == Cur(old(C()).bits, r.pos)
      ensures nBits <= width && nBits <= 32 ==> v == Read(old(C().bits), old(C().pos), nBits).v
    {
      if nBits > width {
        return false, v0;
      }
      hide Read, LowBits, BytesBits;
      ghost var c := C();
      if nBits <= 32 {
        ReadBound(c.bits, c.pos, nBits);
        Pow2Mono(nBits, 32);
        LowBitsId(Read(c.bits, c.pos, nBits).v, 32);
      }
      ok, v := UnpackLoop(nBits);
    }

    method UnpackLoop(nBits: nat) returns (ok: bool, v: nat)
      requires Valid() && nBits + offset < 40
      modifies this`ptr, this`offset
      ensures Valid()
      ensures ok == (nBits <= old(C().Room()))
      ensures 8 * ptr + offset == if ok then old(8 * ptr + offset) + nBits else 8 * buf.Length
      ensures v == LowBits(Read(old(C().bits), old(C().pos), nBits).v, 32)
    {
      hide BytesBits, LowBits, ShiftLeft, BitsNat, Read, Sum32, Pow2;
      ghost var bits, pos := C().bits, C().pos;
      v := 0;
      var n: nat := nBits;
      SumStart(bits, pos, n);
      while n > 0
        invariant Valid() && n + offset < 40
        invariant pos <= 8 * ptr + offset == pos + nBits - n
        invariant n <= 32 || n == nBits
        invariant v == Sum32(bits, pos, 8 * ptr + offset, n)
      {
        if ptr >= buf.Length {
          SumEnd(bits, pos, nBits);
          return false, v;
        }
        var k := if 8 - offset > n then n else 8 - offset;
        SumStep(bits, pos, 8 * ptr + offset, k, n);
        var x := UnpackOctet(k);
        n := n - k;
        v := v + LowBits(ShiftLeft(x, n), 32);
      }
      SumEnd(bits, pos, nBits);
      return true, v;
    }

    /** `memcpy` on an octet boundary, eight-bit packs elsewhere, after one bound check. */
    method PackBytes(data: seq<Byte>) returns (ok: bool)
      requires Valid()
      modifies this`ptr, this`offset, buf
      ensures Valid()
      ensures ok == (data == [] || old(ptr) + |data| < buf.Length)
      ensures C() == if ok then Put(old(C()), BytesBits(data)) else old(C())
    {
      if data == [] {
        PutNothing(C());
        return true;
      }
      if ptr + |data| >= buf.Length {
        return false;
      }
      if offset == 0 {
        CopyIn(data);
      } else {
        PackEach(data);
      }
      return true;
    }

    method CopyIn(data: seq<Byte>)
      requires Valid() && offset == 0 && ptr + |data| <= buf.Length
      modifies this`ptr, buf
      ensures Valid() && C() == Put(old(C()), BytesBits(data))
    {
      hide BytesBits, Splice;
      ghost var bs := buf[..];
      forall i | 0 <= i < |data| {
        buf[ptr + i] := data[i];
      }
      ReplaceOctets(bs, ptr, data, buf[..]);
      ptr := ptr + |data|;
    }

    /** The loop of eight-bit packs that ignores every return code. */
    method PackEach(data: seq<Byte>)
      requires Valid()
      modifies this`ptr, this`offset, buf
      ensures Valid() && C() == Put(old(C()), BytesBits(data))
    {
      hide BytesBits, Put, NatBits;
      PutNothing(C());
      ghost var c0 := C();
      assert data[..0] == [] && data[..|data|] == data;
      BytesBitsConcat([], []);
      for i := 0 to |data|
        invariant Valid()
        invariant C() == Put(c0, BytesBits(data[..i]))
      {
        var _ := Pack(data[i], 8);
        PutPut(c0, BytesBits(data[..i]), NatBits(data[i], 8));
        BytesBitsConcat(data[..i], [data[i]]);
        BytesBitsOne(data[i]);
        assert data[..i] + [data[i]] == data[..i + 1];
      }
    }

    /** The reading counterpart; a failed bound check leaves the cursor where it was. */
    method UnpackBytes(n: nat) returns (ok: bool, data: seq<Byte>)
      requires Valid()
      modifies this`ptr, this`offset
      ensures Valid()
      ensures ok == (8 * n <= old(C().Room()))
      ensures ok ==> |data| == n && At(C().bits, old(C().pos), BytesBits(data)) && C().pos == old(C().pos) + 8 * n
      ensures C().bits == old(C().bits) && (!ok ==> C() == old(C()))
    {
      hide BytesBits;
      data := [];
      if n == 0 {
        return true, [];
      }
      if offset == 0 {
        if ptr + n > buf.Length {
          return false, [];
        }
        data := buf[ptr..ptr + n];
        CopyOctets(buf[..], ptr, n);
        assert buf[..][ptr..ptr + n] == data;
        ptr := ptr + n;
      } else {
        if ptr + n >= buf.Length {
          return false, [];
        }
        data := UnpackEach(n);
      }
      return true, data;
    }

    method UnpackEach(n: nat) returns (data: seq<Byte>)
      requires Valid() && 8 * n <= C().Room()
      modifies this`ptr, this`offset
      ensures Valid() && |data| == n && C().pos == old(C().pos) + 8 * n
      ensures At(C().bits, old(C().pos), BytesBits(data))
    {
      hide BytesBits, Read, LowBits;
      ghost var bits, pos := C().bits, C().pos;
      data := [];
      for i := 0 to n
        invariant Valid() && |data| == i && 8 * ptr + offset == pos + 8 * i
        invariant At(bits, pos, BytesBits(data))
      {
        var ok, x := Unpack(8, 0, 8);
        ReadOctet(bits, pos + 8 * i);
        AtSplit(bits, pos, BytesBits(data), BytesBits([x]));
        BytesBitsConcat(data, [x]);
        data := data + [x];
      }
    }

    method AlignBytes() returns (ok: bool)
      requires Valid()
      modifies this`ptr, this`offset
      ensures Valid() && ok
      ensures C() == Cur(old(C().bits), Aligned(old(C().bits), old(C().pos)))
    {
      if offset == 0 {
        return true;
      }
      if ptr >= buf.Length {
        return false;
      }
      offset := 0;
      ptr := ptr + 1;
      return true;
    }

    /** Clears the rest of the octet: the same as writing the padding. */
    method AlignBytesZero() returns (ok: bool)
      requires Valid()
      modifies this`ptr, this`offset, buf
      ensures Valid() && ok
      ensures C() == Put(old(C()), Pad(old(C().pos)))
    {
      hide NatBits, Put, BytesBits, Pow2, Pad, Up8, Octets;
      RestOfOctet(ptr, offset);
      if offset == 0 {
        PutNothing(C());
        return true;
      }
      if ptr >= buf.Length {
        return false;
      }
      PackOctet(0, 8 - offset);
      return true;
    }

    method AdvanceBits(n: nat) returns (ok: bool)
      requires Valid()
      modifies this`ptr, this`offset
      ensures Valid()
      ensures ok == (n <= old(C().Room()))
      ensures C() == if ok then Skip(old(C()), n) else old(C())
    {
      var required := Octets(offset + n);
      if ptr + required > buf.Length {
        return false;
      }
      ptr, offset := ptr + (offset + n) / 8, (offset + n) % 8;
      return true;
    }
  }

  lemma Position(b: BitRef)
    requires b.Valid()
    ensures b.C().pos == 8 * b.ptr + b.offset && |b.C().bits| == 8 * b.buf.Length
  {
  }

  lemma OnBoundary(b: BitRef)
    requires b.Valid() && b.offset == 0
    ensures b.C().pos == 8 * b.ptr && b.C().pos % 8 == 0
  {
  }

  lemma SameCursor(a: BitRef, b: BitRef)
    requires a.Valid() && b.Valid() && a.buf == b.buf && a.ptr == b.ptr && a.offset == b.offset
    ensures a.C() == b.C()
  {
  }
}
