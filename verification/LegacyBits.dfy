/**
 The older bit packers, which hold one bit per array element: numbers to bits and back, and
 bit arrays to byte arrays and back. A last group of fewer than eight bits gets a byte of
 its own with the bits at the low end.
 */
module LegacyBits {
  import opened Bits

  // ----- one number -----

  method ValueToBits(value: nat, bits: array<bool>, at: nat, n: nat) returns (next: nat)
    requires at + n <= bits.Length && n <= 32
    modifies bits
    ensures next == at + n
    ensures bits[at..next] == NatBits(value, n)
    ensures bits[..at] == old(bits[..at]) && bits[next..] == old(bits[next..])
  {
    for i := 0 to n
      invariant bits[at..at + i] == NatBits(value, n)[..i]
      invariant bits[..at] == old(bits[..at]) && bits[at + n..] == old(bits[at + n..])
    {
      NatBitsAt(value, n, i);
      var bit := ShiftRight(value, n - i - 1) % 2 == 1;
      bits[at + i] := bit;
      assert bits[at..at + i + 1] == bits[at..at + i] + [bit];
      assert NatBits(value, n)[..i + 1] == NatBits(value, n)[..i] + [bit];
    }
    next := at + n;
  }

  lemma {:induction false} NatBitsAt(v: nat, n: nat, i: nat)
    requires i < n
    ensures NatBits(v, n)[i] == (ShiftRight(v, n - i - 1) % 2 == 1)
  {
    if i < n - 1 { NatBitsAt(v / 2, n - 1, i); }
  }

  /** Each bit falls on a place of its own, so the `|=` of the shifted bits is their sum. */
  method BitsToValue(bits: array<bool>, at: nat, n: nat) returns (value: nat, next: nat)
    requires at + n <= bits.Length && n <= 32
    ensures next == at + n && value == BitsNat(bits[at..next]) && value < Pow2(n)
  {
    hide ShiftLeft, BitsNat, Pow2;
    value := 0;
    NoBits(bits[at..at], n);
    for i := 0 to n
      invariant value == ShiftLeft(BitsNat(bits[at..at + i]), n - i)
    {
      var bit := if bits[at + i] then 1 else 0;
      assert bits[at..at + i + 1] == bits[at..at + i] + [bits[at + i]];
      NextBit(bits[at..at + i], bits[at + i], n - i - 1);
      value := value + ShiftLeft(bit, n - i - 1);
    }
    NoShift(BitsNat(bits[at..at + n]));
    next := at + n;
    BitsNatBound(bits[at..next]);
  }

  lemma NoBits(s: seq<bool>, n: nat)
    requires s == []
    ensures ShiftLeft(BitsNat(s), n) == 0
  {
    ShiftLeftIsMul(0, n);
  }

  lemma NoShift(v: nat)
    ensures ShiftLeft(v, 0) == v
  {
  }

  /** One more bit behind `s`, at the place `k`. */
  lemma NextBit(s: seq<bool>, b: bool, k: nat)
    ensures ShiftLeft(BitsNat(s + [b]), k) == ShiftLeft(BitsNat(s), k + 1) + ShiftLeft(if b then 1 else 0, k)
  {
    hide ShiftLeft;
    var t := s + [b];
    assert t[..|t| - 1] == s;
    ShiftStep(BitsNat(s), k);
    ShiftLeftAdd(2 * BitsNat(s), if b then 1 else 0, k);
  }

  lemma {:induction false} ShiftStep(v: nat, k: nat)
    ensures ShiftLeft(v, k + 1) == ShiftLeft(2 * v, k)
  {
    if k > 0 { ShiftStep(v, k - 1); }
  }

  // ----- arrays -----

  /** The bytes of a bit string: eight bits each, and one for what is left. */
  function Packed(b: seq<bool>): seq<Byte> {
    if b == [] then []
    else if |b| < 8 then [GroupByte(b)]
    else [GroupByte(b[..8])] + Packed(b[8..])
  }

  function GroupByte(b: seq<bool>): (r: Byte)
    requires |b| <= 8
    ensures r == BitsNat(b)
  {
    BitsNatBound(b);
    Pow2Words();
    Pow2Mono(|b|, 8);
    BitsNat(b)
  }

  /** The length of the whole groups. */
  function Whole(n: nat): (w: nat)
    ensures w <= n < w + 8 && w % 8 == 0
  {
    8 * (n / 8)
  }

  /** The bits left over, at the low end of a byte. */
  function InByte(b: seq<bool>): seq<bool>
    requires |b| < 8
  {
    if b == [] then [] else Zeros(8 - |b|) + b
  }

  /** The whole groups, and what is left over in a byte of its own. */
  function Spread(b: seq<bool>): seq<bool> {
    b[..Whole(|b|)] + InByte(b[Whole(|b|)..])
  }

  lemma SpreadStep(b: seq<bool>)
    requires |b| >= 8
    ensures Spread(b) == b[..8] + Spread(b[8..])
  {
    hide InByte;
    var tail, w := b[8..], Whole(|b| - 8);
    assert Whole(|b|) == w + 8;
    hide Whole;
    assert b[w + 8..] == tail[w..];
    assert b[..w + 8] == b[..8] + tail[..w];
  }

  lemma GroupBits(b: seq<bool>)
    requires 0 < |b| <= 8
    ensures BytesBits([GroupByte(b)]) == Zeros(8 - |b|) + b
  {
    hide NatBits, BitsNat, Zeros, Pow2, BytesBits, ShiftLeft;
    var v := BitsNat(b);
    BytesBitsOne(GroupByte(b));
    BitsNatBound(b);
    NatBitsOfBitsNat(b);
    NatBitsJoin(0, 8 - |b|, v, |b|);
    NatBitsZero(8 - |b|);
    ShiftLeftIsMul(0, |b|);
  }

  /**
   For a bit string of length `8k + r`, packing and unpacking gives the first `8k` bits back,
   then, when `r > 0`, `8 - r` zeros and the last `r` bits.
   */
  lemma {:induction false} PackThenUnpack(b: seq<bool>)
    ensures BytesBits(Packed(b)) == Spread(b)
    decreases |b|
  {
    hide BytesBits, Zeros;
    if b == [] {
      assert BytesBits([]) == [];
    } else if |b| < 8 {
      GroupBits(b);
    } else {
      SpreadStep(b);
      hide Spread;
      PackThenUnpack(b[8..]);
      GroupBits(b[..8]);
      BytesBitsConcat([GroupByte(b[..8])], Packed(b[8..]));
      assert Zeros(0) + b[..8] == b[..8];
    }
  }

  /** So the bits come back exactly when their number is a multiple of eight. */
  lemma PackedBackIff(b: seq<bool>)
    ensures BytesBits(Packed(b)) == b <==> |b| % 8 == 0
  {
    PackThenUnpack(b);
  }

  /** Bytes survive unpacking and packing. */
  lemma {:induction false} UnpackThenPack(x: seq<Byte>)
    ensures Packed(BytesBits(x)) == x
    decreases |x|
  {
    if x != [] {
      var bits := BytesBits(x);
      assert x == [x[0]] + x[1..];
      BytesBitsConcat([x[0]], x[1..]);
      BytesBitsOne(x[0]);
      assert bits[..8] == NatBits(x[0], 8) && bits[8..] == BytesBits(x[1..]);
      BitsNatOfNatBits(x[0], 8);
      Pow2Words();
      LowBitsId(x[0], 8);
      UnpackThenPack(x[1..]);
    }
  }

  lemma PackedStep(b: seq<bool>)
    ensures b == [] ==> Packed(b) == []
    ensures |b| >= 8 ==> Packed(b) == [GroupByte(b[..8])] + Packed(b[8..])
  {
    hide GroupByte;
  }

  lemma {:induction false} PackedAppend(a: seq<bool>, b: seq<bool>)
    requires |a| % 8 == 0
    ensures Packed(a + b) == Packed(a) + Packed(b)
    decreases |a|
  {
    hide Packed, GroupByte;
    PackedStep(a);
    PackedStep(a + b);
    if a == [] {
      assert a + b == b;
      assert [] + Packed(b) == Packed(b);
    } else {
      PackedAppend(a[8..], b);
      assert (a + b)[..8] == a[..8] && (a + b)[8..] == a[8..] + b;
    }
  }

  method Pack(bits: array<bool>, nBits: nat, bytes: array<Byte>) returns (nBytes: nat)
    requires nBits <= bits.Length && Octets(nBits) <= bytes.Length
    modifies bytes
    ensures nBytes == Octets(nBits) && bytes[..nBytes] == Packed(bits[..nBits])
    ensures bytes[nBytes..] == old(bytes[nBytes..])
  {
    var at := 0;
    for i := 0 to nBits / 8
      invariant at == 8 * i && bytes[..i] == Packed(bits[..at])
      invariant bytes[Octets(nBits)..] == old(bytes[Octets(nBits)..])
    {
      at := PackOne(bits, at, 8, bytes, i);
    }
    nBytes := nBits / 8;
    if nBits % 8 > 0 {
      at := PackOne(bits, at, nBits % 8, bytes, nBytes);
      nBytes := nBytes + 1;
    }
  }

  /** The next group goes into byte `i`. */
  method PackOne(bits: array<bool>, at: nat, n: nat, bytes: array<Byte>, i: nat) returns (next: nat)
    requires at == 8 * i && 0 < n <= 8 && at + n <= bits.Length && i < bytes.Length
    requires bytes[..i] == Packed(bits[..at])
    modifies bytes
    ensures next == at + n && bytes[..i + 1] == Packed(bits[..next])
    ensures bytes[i + 1..] == old(bytes[i + 1..])
  {
    var value;
    value, next := BitsToValue(bits, at, n);
    ghost var group := bits[at..next];
    assert bits[..next] == bits[..at] + group;
    PackedAppend(bits[..at], group);
    OneGroup(group);
    bytes[i] := value;
    assert bytes[..i + 1] == bytes[..i] + [value];
  }

  lemma OneGroup(b: seq<bool>)
    requires 0 < |b| <= 8
    ensures Packed(b) == [BitsNat(b)] && BitsNat(b) < 256
  {
    assert GroupByte(b) == BitsNat(b);
    if |b| == 8 {
      assert b[..8] == b && b[8..] == [];
    }
  }

  method Unpack(bytes: array<Byte>, nBytes: nat, bits: array<bool>) returns (nBits: nat)
    requires nBytes <= bytes.Length && 8 * nBytes <= bits.Length
    modifies bits
    ensures nBits == 8 * nBytes && bits[..nBits] == BytesBits(bytes[..nBytes])
    ensures bits[nBits..] == old(bits[nBits..])
  {
    var at := 0;
    for i := 0 to nBytes
      invariant at == 8 * i && bits[..at] == BytesBits(bytes[..i])
      invariant bits[8 * nBytes..] == old(bits[8 * nBytes..])
    {
      ghost var before := bits[..at];
      ghost var tail := bits[8 * nBytes..];
      var next := ValueToBits(bytes[i], bits, at, 8);
      assert bits[8 * nBytes..] == tail by { assert bits[8 * nBytes..] == bits[next..][8 * nBytes - next..]; }
      assert bits[..next] == before + bits[at..next];
      assert bytes[..i + 1] == bytes[..i] + [bytes[i]];
      BytesBitsConcat(bytes[..i], [bytes[i]]);
      BytesBitsOne(bytes[i]);
      at := next;
    }
    nBits := nBytes * 8;
  }
}
