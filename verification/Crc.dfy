/**
 The two checksums of the link: `crc24q`, whose bit loop is modelled as it stands, and
 the IEEE 802.3 CRC-32 that `crc32_ieee` takes from zlib, written out from section 8
 of RFC 1952.  Both are tied to the polynomial arithmetic of PolynomialRegister.
 */
module Crc {
  import opened Bytes
  import opened PolynomialRegister
  import opened Words

  // ---- Bytes as coefficients -------------------------------------------------------

  /** The order in which a checksum takes the bits of a byte. */
  datatype BitOrder = HighFirst | LowFirst

  function ByteBits(order: BitOrder, b: byte): (p: Poly)
    ensures |p| == 8
  {
    match order
    case HighFirst => TopBits((b as bv32) << 16, 8)
    case LowFirst => LowBits(b as bv32, 8)
  }

  function Bits(order: BitOrder, data: seq<byte>): (p: Poly)
    ensures |p| == 8 * |data|
  {
    if data == [] then [] else ByteBits(order, data[0]) + Bits(order, data[1..])
  }

  lemma {:induction false} BitsConcat(order: BitOrder, a: seq<byte>, b: seq<byte>)
    ensures Bits(order, a + b) == Bits(order, a) + Bits(order, b)
  {
    if a == [] {
      assert a + b == b;
    } else {
      assert (a + b)[1..] == a[1..] + b;
      BitsConcat(order, a[1..], b);
    }
  }

  lemma SameTopByte(a: byte, b: byte, x: bv32)
    requires x == ((a as bv32) << 16) ^ ((b as bv32) << 16) && x & 0xFF0000 == 0
    ensures a == b
  {
  }

  lemma ByteBitsInjective(order: BitOrder, a: byte, b: byte)
    requires ByteBits(order, a) == ByteBits(order, b)
    ensures a == b
  {
    match order
    case HighFirst =>
      TopMasks();
      TopBitsEqual((a as bv32) << 16, (b as bv32) << 16, ((a as bv32) << 16) ^ ((b as bv32) << 16), 8);
      SameTopByte(a, b, ((a as bv32) << 16) ^ ((b as bv32) << 16));
    case LowFirst =>
      LowBitsOfByteInjective(a, b, (a as bv32) ^ (b as bv32));
  }

  /** No two messages have the same coefficients. */
  lemma {:induction false} BitsInjective(order: BitOrder, a: seq<byte>, b: seq<byte>)
    requires Bits(order, a) == Bits(order, b)
    ensures a == b
  {
    assert |a| == |b|;
    if a != [] {
      var p, q := Bits(order, a), Bits(order, b);
      assert p[..8] == ByteBits(order, a[0]) && q[..8] == ByteBits(order, b[0]);
      assert p[8..] == Bits(order, a[1..]) && q[8..] == Bits(order, b[1..]);
      ByteBitsInjective(order, a[0], b[0]);
      BitsInjective(order, a[1..], b[1..]);
    }
  }

  function XorBytes(a: seq<byte>, b: seq<byte>): (c: seq<byte>)
    requires |a| == |b|
    ensures |c| == |a|
  {
    if a == [] then [] else [a[0] ^ b[0]] + XorBytes(a[1..], b[1..])
  }

  lemma {:induction false} XorBytesAt(a: seq<byte>, b: seq<byte>, i: nat)
    requires i < |a| == |b|
    ensures XorBytes(a, b)[i] == a[i] ^ b[i]
  {
    if i > 0 {
      XorBytesAt(a[1..], b[1..], i - 1);
    }
  }

  lemma ZeroByteBits(order: BitOrder)
    ensures ByteBits(order, 0) == Zeros(8)
  {
    TopBitsOfZero(8);
    LowBitsOfZero(8);
  }

  lemma {:induction false} ZeroBits(order: BitOrder, s: seq<byte>)
    requires forall i :: 0 <= i < |s| ==> s[i] == 0
    ensures Bits(order, s) == Zeros(8 * |s|)
  {
    hide ByteBits;
    if s != [] {
      ZeroByteBits(order);
      ZeroBits(order, s[1..]);
    }
  }

  lemma XorOfByte(a: byte, b: byte, c: byte)
    requires c == a ^ b
    ensures (c as bv32) == (a as bv32) ^ (b as bv32)
    ensures (c as bv32) << 16 == ((a as bv32) << 16) ^ ((b as bv32) << 16)
  {
  }

  lemma ByteBitsOfXor(order: BitOrder, a: byte, b: byte, c: byte)
    requires c == a ^ b
    ensures ByteBits(order, c) == Add(ByteBits(order, a), ByteBits(order, b))
  {
    match order
    case HighFirst => TopXorOfByte(a, b, c);
    case LowFirst => LowXorOfByte(a, b, c);
  }

  lemma TopXorOfByte(a: byte, b: byte, c: byte)
    requires c == a ^ b
    ensures TopBits((c as bv32) << 16, 8) == Add(TopBits((a as bv32) << 16, 8), TopBits((b as bv32) << 16, 8))
  {
    XorOfByte(a, b, c);
    TopBitsXor((a as bv32) << 16, (b as bv32) << 16, (c as bv32) << 16, 8);
  }

  lemma LowXorOfByte(a: byte, b: byte, c: byte)
    requires c == a ^ b
    ensures LowBits(c as bv32, 8) == Add(LowBits(a as bv32, 8), LowBits(b as bv32, 8))
  {
    XorOfByte(a, b, c);
    LowBitsXor(a as bv32, b as bv32, c as bv32, 8);
  }

  lemma AddConcat(a: Poly, b: Poly, c: Poly, d: Poly)
    requires |a| == |c| && |b| == |d|
    ensures Add(a + b, c + d) == Add(a, c) + Add(b, d)
  {
  }

  lemma JoinXorBits(order: BitOrder, a: seq<byte>, b: seq<byte>, c: seq<byte>)
    requires |a| == |b| == |c| && a != []
    requires ByteBits(order, c[0]) == Add(ByteBits(order, a[0]), ByteBits(order, b[0]))
    requires Bits(order, c[1..]) == Add(Bits(order, a[1..]), Bits(order, b[1..]))
    ensures Bits(order, c) == Add(Bits(order, a), Bits(order, b))
  {
    AddConcat(ByteBits(order, a[0]), Bits(order, a[1..]), ByteBits(order, b[0]), Bits(order, b[1..]));
  }

  lemma {:induction false} BitsOfXor(order: BitOrder, a: seq<byte>, b: seq<byte>, c: seq<byte>)
    requires |a| == |b| && c == XorBytes(a, b)
    ensures Bits(order, c) == Add(Bits(order, a), Bits(order, b))
    decreases |a|
  {
    if a != [] {
      assert c[1..] == XorBytes(a[1..], b[1..]);
      BitsOfXor(order, a[1..], b[1..], c[1..]);
      ByteBitsOfXor(order, a[0], b[0], c[0]);
      JoinXorBits(order, a, b, c);
    }
  }

  // ---- CRC24Q ------------------------------------------------------------------------

  function Shift24(c: bv32): bv32 {
    if c & 0x800000 != 0 then ((c << 1) ^ 0x1864CFB) & 0xFFFFFF else (c << 1) & 0xFFFFFF
  }

  function Shift24Times(c: bv32, k: nat): bv32
    decreases k
  {
    if k == 0 then c else Shift24(Shift24Times(c, k - 1))
  }

  function Absorb24(c: bv32, b: byte): bv32 {
    Shift24Times(c ^ ((b as bv32) << 16), 8)
  }

  function Crc24qFrom(c: bv32, data: seq<byte>): bv32
    decreases |data|
  {
    if data == [] then c else Crc24qFrom(Absorb24(c, data[0]), data[1..])
  }

  function Crc24q(data: seq<byte>): bv32 {
    Crc24qFrom(0, data)
  }

  /** The 24 coefficients of a register value, highest power first. */
  function Bits24(c: bv32): (p: Poly)
    ensures |p| == 24
  {
    TopBits(c, 24)
  }

  /** The generator 0x1864CFB without its leading term. */
  const G24: Poly := Bits24(0x864CFB)

  /** The big-endian 24-bit field at the end of an RTCM message. */
  function FromBE24(a: byte, b: byte, c: byte): bv32 {
    ((a as bv32) << 16) | ((b as bv32) << 8) | (c as bv32)
  }

  /** The bit loop of the source. */
  method ComputeCrc24q(data: seq<byte>) returns (crc: bv32)
    ensures crc == Crc24q(data)
    ensures crc <= 0xFFFFFF
    ensures IsRemainder(G24, Bits(HighFirst, data), Bits24(crc))
  {
    hide Absorb24, Crc24qFrom, IsRemainder, Bits, Bits24;
    crc := 0;
    assert data[0..] == data;
    for i := 0 to |data|
      invariant Crc24qFrom(crc, data[i..]) == Crc24q(data)
    {
      UnfoldCrc24q(crc, data[i..]);
      assert data[i..][1..] == data[i + 1..];
      crc := AbsorbByte(crc, data[i]);
    }
    NothingLeft24(crc, data[|data|..]);
    Crc24qMasked(0, data);
    Crc24qIsRemainder(data);
  }

  /** The inner loop: the byte enters at the top and eight bits are shifted out. */
  method AbsorbByte(c: bv32, b: byte) returns (crc: bv32)
    ensures crc == Absorb24(c, b)
  {
    hide Shift24, Shift24Times;
    crc := c ^ ((b as bv32) << 16);
    ghost var loaded := crc;
    NoShift24(loaded);
    for bit := 0 to 8
      invariant crc == Shift24Times(loaded, bit)
    {
      NextShift24(loaded, bit);
      crc := Shift24(crc);
    }
  }

  lemma UnfoldCrc24q(c: bv32, data: seq<byte>)
    requires data != []
    ensures Crc24qFrom(c, data) == Crc24qFrom(Absorb24(c, data[0]), data[1..])
  {
    hide Absorb24;
  }

  lemma NothingLeft24(c: bv32, data: seq<byte>)
    requires data == []
    ensures Crc24qFrom(c, data) == c
  {
    hide Absorb24;
  }

  lemma NoShift24(c: bv32)
    ensures Shift24Times(c, 0) == c
  {
  }

  lemma NextShift24(c: bv32, k: nat)
    ensures Shift24Times(c, k + 1) == Shift24(Shift24Times(c, k))
  {
    hide Shift24;
  }

  lemma Masked24Bits(c: bv32, d: bv32, x: bv32)
    requires d == c & 0xFFFFFF && x == d ^ c
    ensures Bits24(d) == Bits24(c)
  {
    TopBitsMasked(d, c, x);
  }

  lemma MaskBits24(c: bv32)
    ensures Bits24(c & 0xFFFFFF) == Bits24(c)
  {
    Masked24Bits(c, c & 0xFFFFFF, (c & 0xFFFFFF) ^ c);
  }

  lemma AddGenerator24(c: bv32, x: bv32, g: bv32)
    requires x == c ^ g && (g ^ 0x864CFB) & 0xFFFFFF == 0
    ensures Bits24(x) == Add(Bits24(c), G24)
  {
    TopBitsXor(c, g, x, 24);
    TopBitsMasked(g, 0x864CFB, g ^ 0x864CFB);
  }

  lemma Shift24Bits(c: bv32)
    ensures Bits24(Shift24(c)) == if c & 0x800000 == 0 then Bits24(c << 1) else Add(Bits24(c << 1), G24)
  {
    if c & 0x800000 == 0 {
      MaskBits24(c << 1);
    } else {
      MaskBits24((c << 1) ^ 0x1864CFB);
      AddGenerator24(c << 1, (c << 1) ^ 0x1864CFB, 0x1864CFB);
    }
  }

  lemma Shift24IsStep(c: bv32)
    ensures Bits24(Shift24(c)) == Step(G24, Bits24(c), false)
  {
    TopBitsShift(c);
    assert Bits24(c)[0] == (c & 0x800000 != 0);
    Shift24Bits(c);
  }

  lemma {:induction false} Shift24TimesIsFeed(c: bv32, k: nat)
    ensures Bits24(Shift24Times(c, k)) == Feed(G24, Bits24(c), Zeros(k))
    decreases k
  {
    hide Shift24, Shift24Times, Bits24, Feed, Step, Zeros;
    if k == 0 {
      NoShift24(c);
      FeedUnfold(G24, Bits24(c), Zeros(k));
    } else {
      Shift24TimesIsFeed(c, k - 1);
      NextShift24(c, k - 1);
      Shift24IsStep(Shift24Times(c, k - 1));
      FeedOneMoreZero(G24, Bits24(c), k - 1);
    }
  }

  /** The constant term is there, and with the leading term there are 14: an even number. */
  lemma G24Facts()
    ensures Odd(G24) && Parity(G24)
  {
    TopBitsAt(0x864CFB, 24, 23);
    Shl23(0x864CFB, 0x864CFB00, 0x4CFB0000);
    assert !TopParity(0x3EC00000, 2);
    assert TopParity(0xCFB00000, 4);
    assert TopParity(0x33EC0000, 6);
    assert TopParity(0x4CFB0000, 8);
    assert TopParity(0x933EC000, 10);
    assert TopParity(0x64CFB000, 12);
    assert TopParity(0x1933EC00, 14);
    assert !TopParity(0x864CFB00, 16);
    assert TopParity(0x21933EC0, 18);
    assert !TopParity(0x864CFB0, 20);
    assert !TopParity(0x21933EC, 22);
    TopBitsParity(0x864CFB, 24);
  }

  lemma TopByteOnly(b: byte)
    ensures TopBits((b as bv32) << 16 << 8, 16) == Zeros(16)
  {
    hide TopBits;
    GoneByte(b, (b as bv32) << 16 << 8);
    TopBitsMasked((b as bv32) << 16 << 8, 0, (b as bv32) << 16 << 8);
    FirstOfZeros((b as bv32) << 16 << 8);
  }

  lemma GoneByte(b: byte, x: bv32)
    requires x == (b as bv32) << 16 << 8
    ensures x ^ 0 == x && x & 0xFFFFFF == 0
  {
  }

  lemma FirstOfZeros(x: bv32)
    requires TopBits(x, 24) == TopBits(0, 24)
    ensures TopBits(x, 16) == Zeros(16)
  {
    hide TopBits, Shl;
    TopBitsOfZero(24);
    TopBitsSplit(x, 16, 8);
    assert TopBits(x, 16) == TopBits(x, 24)[..16];
  }

  lemma TopByteIsPadded(b: byte)
    ensures Bits24((b as bv32) << 16) == PadRight(ByteBits(HighFirst, b), 24)
  {
    TopBitsSplit8((b as bv32) << 16, 16);
    TopByteOnly(b);
  }

  lemma XorTopByte(c: bv32, b: byte, y: bv32)
    requires y == c ^ ((b as bv32) << 16)
    ensures Bits24(y) == Add(Bits24(c), PadRight(ByteBits(HighFirst, b), 24))
  {
    TopBitsXor(c, (b as bv32) << 16, y, 24);
    TopByteIsPadded(b);
  }

  lemma ShiftOutByte24(c: bv32, b: byte, y: bv32)
    requires Bits24(y) == Add(Bits24(c), PadRight(ByteBits(HighFirst, b), 24))
    ensures Bits24(Shift24Times(y, 8)) == Feed(G24, Bits24(c), ByteBits(HighFirst, b))
  {
    G24Facts();
    Shift24TimesIsFeed(y, 8);
    FeedFromTop(G24, Bits24(c), ByteBits(HighFirst, b));
  }

  lemma Absorb24IsFeed(c: bv32, b: byte)
    ensures Bits24(Absorb24(c, b)) == Feed(G24, Bits24(c), ByteBits(HighFirst, b))
  {
    XorTopByte(c, b, c ^ ((b as bv32) << 16));
    ShiftOutByte24(c, b, c ^ ((b as bv32) << 16));
  }

  lemma {:induction false} Crc24qIsFeed(c: bv32, data: seq<byte>)
    ensures Bits24(Crc24qFrom(c, data)) == Feed(G24, Bits24(c), Bits(HighFirst, data))
    decreases |data|
  {
    if data != [] {
      Absorb24IsFeed(c, data[0]);
      Crc24qIsFeed(Absorb24(c, data[0]), data[1..]);
      FeedConcat(G24, Bits24(c), ByteBits(HighFirst, data[0]), Bits(HighFirst, data[1..]));
    }
  }

  /** crc24q computes the remainder of data(x) * x^24 modulo 0x1864CFB. */
  lemma Crc24qIsRemainder(data: seq<byte>)
    ensures IsRemainder(G24, Bits(HighFirst, data), Bits24(Crc24q(data)))
  {
    TopBitsOfZero(24);
    Crc24qIsFeed(0, data);
    FeedIsRemainder(G24, Bits(HighFirst, data), Bits24(Crc24q(data)));
  }

  lemma Shift24Masked(c: bv32)
    ensures Shift24(c) <= 0xFFFFFF
  {
  }

  lemma {:induction false} Crc24qMasked(c: bv32, data: seq<byte>)
    requires c <= 0xFFFFFF
    ensures Crc24qFrom(c, data) <= 0xFFFFFF
    decreases |data|
  {
    if data != [] {
      Shift24Masked(Shift24Times(c ^ ((data[0] as bv32) << 16), 7));
      Crc24qMasked(Absorb24(c, data[0]), data[1..]);
    }
  }

  lemma Masked24(a: bv32, b: bv32, x: bv32)
    requires a <= 0xFFFFFF && b <= 0xFFFFFF && x == a ^ b
    ensures x & 0xFFFFFF == 0 ==> a == b
    ensures x <= 0xFFFFFF
  {
  }

  lemma Bits24Injective(a: bv32, b: bv32)
    requires a <= 0xFFFFFF && b <= 0xFFFFFF && Bits24(a) == Bits24(b)
    ensures a == b
  {
    TopMasks();
    TopBitsEqual(a, b, a ^ b, 24);
    Masked24(a, b, a ^ b);
  }

  lemma Crc24qOfXorBits(a: seq<byte>, b: seq<byte>)
    requires |a| == |b|
    ensures Bits24(Crc24q(XorBytes(a, b))) == Add(Bits24(Crc24q(a)), Bits24(Crc24q(b)))
  {
    Crc24qIsFeed(0, a);
    Crc24qIsFeed(0, b);
    Crc24qIsFeed(0, XorBytes(a, b));
    TopBitsOfZero(24);
    BitsOfXor(HighFirst, a, b, XorBytes(a, b));
    FeedIsLinear(G24, Zeros(24), Zeros(24), Bits(HighFirst, a), Bits(HighFirst, b));
    SumWithZeros(Zeros(24));
  }

  lemma SumOfBits24(x: bv32, y: bv32, z: bv32, w: bv32)
    requires x <= 0xFFFFFF && y <= 0xFFFFFF && z <= 0xFFFFFF && w == x ^ y
    requires Bits24(z) == Add(Bits24(x), Bits24(y))
    ensures z == w
  {
    Masked24(x, y, w);
    TopBitsXor(x, y, w, 24);
    Bits24Injective(z, w);
  }

  /** XOR-linearity on inputs of equal length. */
  lemma Crc24qIsLinear(a: seq<byte>, b: seq<byte>)
    requires |a| == |b|
    ensures Crc24q(XorBytes(a, b)) == Crc24q(a) ^ Crc24q(b)
  {
    Crc24qMasked(0, a);
    Crc24qMasked(0, b);
    Crc24qMasked(0, XorBytes(a, b));
    Crc24qOfXorBits(a, b);
    SumOfBits24(Crc24q(a), Crc24q(b), Crc24q(XorBytes(a, b)), Crc24q(a) ^ Crc24q(b));
  }

  lemma Fields24(a: byte, b: byte, c: byte, v: bv32)
    requires v == FromBE24(a, b, c)
    ensures v <= 0xFFFFFF
    ensures (v ^ ((a as bv32) << 16)) & 0xFF0000 == 0
    ensures ((v << 8) ^ ((b as bv32) << 16)) & 0xFF0000 == 0
    ensures ((v << 8 << 8) ^ ((c as bv32) << 16)) & 0xFF0000 == 0
  {
  }

  lemma TopByteIs(v: bv32, b: byte)
    requires (v ^ ((b as bv32) << 16)) & 0xFF0000 == 0
    ensures TopBits(v, 8) == ByteBits(HighFirst, b)
  {
    TopMasks();
    TopBitsEqual(v, (b as bv32) << 16, v ^ ((b as bv32) << 16), 8);
  }

  lemma FieldBits24(a: byte, b: byte, c: byte, v: bv32)
    requires v == FromBE24(a, b, c)
    ensures TopBits(v, 8) == ByteBits(HighFirst, a) && TopBits(v << 8, 8) == ByteBits(HighFirst, b)
    ensures TopBits(v << 8 << 8, 8) == ByteBits(HighFirst, c)
    ensures v <= 0xFFFFFF
  {
    Fields24(a, b, c, v);
    TopByteIs(v, a);
    TopByteIs(v << 8, b);
    TopByteIs(v << 8 << 8, c);
  }

  lemma ThreeBytes(order: BitOrder, s: seq<byte>)
    requires |s| == 3
    ensures Bits(order, s) == ByteBits(order, s[0]) + (ByteBits(order, s[1]) + ByteBits(order, s[2]))
  {
    assert s[1..][1..] == [s[2]];
    assert Bits(order, [s[2]]) == ByteBits(order, s[2]) + [];
    assert Bits(order, s[1..]) == ByteBits(order, s[1]) + ByteBits(order, s[2]);
  }

  lemma TrailerBits24(s: seq<byte>, v: bv32)
    requires |s| == 3 && v == FromBE24(s[0], s[1], s[2])
    ensures v <= 0xFFFFFF && Bits24(v) == Bits(HighFirst, s)
  {
    FieldBits24(s[0], s[1], s[2], v);
    TopBitsOfThree(v);
    ThreeBytes(HighFirst, s);
  }

  lemma ChecksumMatches24(data: seq<byte>, trailer: seq<byte>, v: bv32)
    requires |trailer| == 3 && v <= 0xFFFFFF && Bits24(v) == Bits(HighFirst, trailer)
    ensures Crc24q(data) == v <==> Crc24q(data + trailer) == 0
  {
    hide Crc24qFrom, Bits, Words.TopBits, Feed;
    var all := Crc24q(data + trailer);
    Crc24qMasked(0, data);
    Crc24qMasked(0, data + trailer);
    assert Bits24(Crc24q(data)) == Bits24(v) <==> Bits24(all) == Bits24(0) by {
      G24Facts();
      TopBitsOfZero(24);
      Crc24qIsFeed(0, data);
      Crc24qIsFeed(0, data + trailer);
      BitsConcat(HighFirst, data, trailer);
      ZeroResidue(G24, Zeros(24), Bits(HighFirst, data), Bits(HighFirst, trailer));
    }
    if Bits24(all) == Bits24(0) {
      Bits24Injective(Crc24q(data), v);
      Bits24Injective(all, 0);
    }
  }

  /**
   Comparing the computed checksum with the received one is the same as asking whether
   the residue over data and trailer together is zero.
   */
  lemma TrailerMatchesIffZeroResidue(data: seq<byte>, trailer: seq<byte>)
    requires |trailer| == 3
    ensures Crc24q(data) == FromBE24(trailer[0], trailer[1], trailer[2]) <==> Crc24q(data + trailer) == 0
  {
    TrailerBits24(trailer, FromBE24(trailer[0], trailer[1], trailer[2]));
    ChecksumMatches24(data, trailer, FromBE24(trailer[0], trailer[1], trailer[2]));
  }

  /** The trailer that the check accepts behind some data. */
  function ToBE24(v: bv32): (s: seq<byte>)
    ensures |s| == 3
  {
    [((v >> 16) & 0xFF) as byte, ((v >> 8) & 0xFF) as byte, (v & 0xFF) as byte]
  }

  lemma RoundTripBE24(v: bv32, s: seq<byte>)
    requires v <= 0xFFFFFF && s == ToBE24(v)
    ensures FromBE24(s[0], s[1], s[2]) == v
  {
  }

  /** The generator as bytes, its leading coefficient the last bit of the first one. */
  const GENERATOR24: seq<byte> := [0x01, 0x86, 0x4C, 0xFB]

  lemma LastTopBitOfByte()
    ensures TopBits(0x10000, 8) == Zeros(7) + [true]
  {
    assert TopBits(0x400000, 2) == [false, true];
    assert TopBits(0x100000, 4) == Zeros(3) + [true];
    assert TopBits(0x40000, 6) == Zeros(5) + [true];
  }

  lemma Generator24Bits()
    ensures Bits(HighFirst, GENERATOR24) == Zeros(7) + ([true] + G24)
  {
    hide TopBits;
    var low := [0x86, 0x4C, 0xFB];
    assert GENERATOR24 == [0x01] + low;
    assert GENERATOR24[1..] == low;
    TrailerBits24(low, 0x864CFB);
    LastTopBitOfByte();
  }

  // ---- CRC-32 --------------------------------------------------------------------------

  function Shift32(c: bv32): bv32 {
    if c & 1 != 0 then (c >> 1) ^ 0xEDB88320 else c >> 1
  }

  function Shift32Times(c: bv32, k: nat): bv32
    decreases k
  {
    if k == 0 then c else Shift32(Shift32Times(c, k - 1))
  }

  function Absorb32(c: bv32, b: byte): bv32 {
    Shift32Times(c ^ (b as bv32), 8)
  }

  function Crc32From(c: bv32, data: seq<byte>): bv32
    decreases |data|
  {
    if data == [] then c else Crc32From(Absorb32(c, data[0]), data[1..])
  }

  /** The register starts at all ones... */
  function Register32(data: seq<byte>): bv32 {
    Crc32From(0xFFFF_FFFF, data)
  }

  /** ...and is inverted at the end. */
  function Crc32(data: seq<byte>): bv32 {
    Inverted(Register32(data))
  }

  function Inverted(c: bv32): bv32 {
    c ^ 0xFFFF_FFFF
  }

  /** The 32 coefficients of the reflected register, highest power first. */
  function Bits32(c: bv32): (p: Poly)
    ensures |p| == 32
  {
    LowBits(c, 32)
  }

  const G32: Poly := Bits32(0xEDB88320)

  lemma G32IsOdd()
    ensures Odd(G32)
  {
    LowBitsAt(0xEDB88320, 32, 31);
    Shr31(0xEDB88320);
  }

  lemma Shift32IsStep(c: bv32)
    ensures Bits32(Shift32(c)) == Step(G32, Bits32(c), false)
  {
    LowBitsXor(c >> 1, 0xEDB88320, (c >> 1) ^ 0xEDB88320, 32);
    LowBitsShift(c);
    JoinLow(c, c, 32);
  }

  lemma NoShift32(c: bv32)
    ensures Shift32Times(c, 0) == c
  {
  }

  lemma NextShift32(c: bv32, k: nat)
    ensures Shift32Times(c, k + 1) == Shift32(Shift32Times(c, k))
  {
    hide Shift32;
  }

  lemma {:induction false} Shift32TimesIsFeed(c: bv32, k: nat)
    ensures Bits32(Shift32Times(c, k)) == Feed(G32, Bits32(c), Zeros(k))
    decreases k
  {
    hide Shift32, Shift32Times, Bits32, Feed, Step, Zeros;
    if k == 0 {
      NoShift32(c);
      FeedUnfold(G32, Bits32(c), Zeros(k));
    } else {
      Shift32TimesIsFeed(c, k - 1);
      NextShift32(c, k - 1);
      Shift32IsStep(Shift32Times(c, k - 1));
      FeedOneMoreZero(G32, Bits32(c), k - 1);
    }
  }

  lemma LowByteIsPadded(b: byte)
    ensures Bits32(b as bv32) == PadRight(ByteBits(LowFirst, b), 32)
  {
    LowBitsSplit8(b as bv32, 24);
    assert (b as bv32) >> 8 == 0;
    LowBitsOfZero(24);
  }

  lemma XorLowByte(c: bv32, x: bv32, y: bv32, p: Poly)
    requires y == c ^ x && Bits32(x) == p
    ensures Bits32(y) == Add(Bits32(c), p)
  {
    LowBitsXor(c, x, y, 32);
  }

  lemma ShiftOutByte32(c: bv32, b: byte, y: bv32)
    requires Bits32(y) == Add(Bits32(c), PadRight(ByteBits(LowFirst, b), 32))
    ensures Bits32(Shift32Times(y, 8)) == Feed(G32, Bits32(c), ByteBits(LowFirst, b))
  {
    G32IsOdd();
    Shift32TimesIsFeed(y, 8);
    FeedFromTop(G32, Bits32(c), ByteBits(LowFirst, b));
  }

  lemma Absorb32IsFeed(c: bv32, b: byte)
    ensures Bits32(Absorb32(c, b)) == Feed(G32, Bits32(c), ByteBits(LowFirst, b))
  {
    LowByteIsPadded(b);
    XorLowByte(c, b as bv32, c ^ (b as bv32), PadRight(ByteBits(LowFirst, b), 32));
    ShiftOutByte32(c, b, c ^ (b as bv32));
  }

  lemma {:induction false} Crc32IsFeed(c: bv32, data: seq<byte>)
    ensures Bits32(Crc32From(c, data)) == Feed(G32, Bits32(c), Bits(LowFirst, data))
    decreases |data|
  {
    if data != [] {
      Absorb32IsFeed(c, data[0]);
      Crc32IsFeed(Absorb32(c, data[0]), data[1..]);
      FeedConcat(G32, Bits32(c), ByteBits(LowFirst, data[0]), Bits(LowFirst, data[1..]));
    }
  }

  lemma FourBytes(order: BitOrder, s: seq<byte>)
    requires |s| == 4
    ensures Bits(order, s)
         == ByteBits(order, s[0]) + (ByteBits(order, s[1]) + (ByteBits(order, s[2]) + ByteBits(order, s[3])))
  {
    assert s[1..][1..][1..] == [s[3]] && s[1..][1..] == [s[2], s[3]];
    assert Bits(order, [s[3]]) == ByteBits(order, s[3]) + [];
    assert Bits(order, s[1..][1..]) == ByteBits(order, s[2]) + ByteBits(order, s[3]);
  }

  lemma LowByteIs(v: bv32, b: byte)
    requires (v ^ (b as bv32)) & 0xFF == 0
    ensures LowBits(v, 8) == ByteBits(LowFirst, b)
  {
    LowMasks(8);
    LowBitsEqual(v, b as bv32, v ^ (b as bv32), 8);
  }

  lemma FieldBits32(v: bv32, d: bv32, s: seq<byte>)
    requires s == LE32(v) && d == v >> 8
    ensures LowBits(v, 8) == ByteBits(LowFirst, s[0]) && LowBits(d, 8) == ByteBits(LowFirst, s[1])
    ensures LowBits(d >> 8, 8) == ByteBits(LowFirst, s[2]) && LowBits(d >> 8 >> 8, 8) == ByteBits(LowFirst, s[3])
  {
    Fields32(v, s);
    LowByteIs(v, s[0]);
    LowByteIs(d, s[1]);
    LowByteIs(d >> 8, s[2]);
    LowByteIs(d >> 8 >> 8, s[3]);
  }

  lemma JoinFields32(v: bv32, d: bv32, s: seq<byte>)
    requires s == LE32(v) && d == v >> 8
    ensures Bits(LowFirst, s) == Bits32(v)
  {
    FieldBits32(v, d, s);
    LowBitsOfFour(v, d);
    FourBytes(LowFirst, s);
  }

  /** The little-endian trailer, taken low bit first, is the register itself. */
  lemma TrailerBits32(v: bv32)
    ensures Bits(LowFirst, LE32(v)) == Bits32(v)
  {
    JoinFields32(v, v >> 8, LE32(v));
  }

  /** The residue of data followed by its own checksum. */
  function Residue32(data: seq<byte>): (p: Poly)
    ensures |p| == 32
  {
    Feed(G32, Bits32(0xFFFF_FFFF), Bits(LowFirst, data + LE32(Crc32(data))))
  }

  lemma ZerosPlus(p: Poly)
    ensures Add(Zeros(|p|), p) == p
  {
  }

  /** That residue is the same for all data. */
  lemma Residue32IsConstant(data: seq<byte>)
    ensures Residue32(data) == Feed(G32, Zeros(32), Bits32(0xFFFF_FFFF))
  {
    var reg := Crc32From(0xFFFF_FFFF, data);
    var r, ones := Bits32(reg), Bits32(0xFFFF_FFFF);
    assert Bits(LowFirst, LE32(Crc32(data))) == Add(r, ones) by {
      TrailerBits32(Crc32(data));
      LowBitsXor(reg, 0xFFFF_FFFF, Crc32(data), 32);
    }
    BitsConcat(LowFirst, data, LE32(Crc32(data)));
    FeedConcat(G32, ones, Bits(LowFirst, data), Add(r, ones));
    Crc32IsFeed(0xFFFF_FFFF, data);
    FeedIsLinear(G32, r, Zeros(32), r, ones);
    SumWithZeros(r);
    G32IsOdd();
    FeedReachesZero(G32, r, r);
    assert PadRight(r, 32) == r;
    ZerosPlus(Feed(G32, Zeros(32), ones));
  }

  lemma Crc32Determines(a: bv32, b: bv32)
    requires Bits32(a) == Bits32(b)
    ensures a == b
  {
    hide Bits, LE32;
    TrailerBits32(a);
    TrailerBits32(b);
    BitsInjective(LowFirst, LE32(a), LE32(b));
    RoundTrip32(a);
    RoundTrip32(b);
  }

  /** The generator as bytes, its leading coefficient the last bit taken of the first one. */
  const GENERATOR32: seq<byte> := [0x80, 0x20, 0x83, 0xB8, 0xED]

  lemma LastLowBitOfByte()
    ensures LowBits(0x80, 8) == Zeros(7) + [true]
  {
    assert LowBits(2, 2) == [false, true];
    assert LowBits(8, 4) == Zeros(3) + [true];
    assert LowBits(0x20, 6) == Zeros(5) + [true];
  }

  lemma Generator32Bits()
    ensures Bits(LowFirst, GENERATOR32) == Zeros(7) + ([true] + G32)
  {
    hide LowBits;
    assert GENERATOR32[1..] == LE32(0xEDB88320);
    TrailerBits32(0xEDB88320);
    LastLowBitOfByte();
  }
}
