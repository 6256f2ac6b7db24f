/** The RTCM check of `handle_rtcm`, and what its 24-bit checksum guarantees. */
module Rtcm {
  import opened Bytes
  import opened PolynomialRegister
  import opened Crc
  import Words

  const PREAMBLE: byte := 0xD3

  /** Preamble and the 10-bit length field, as section 4 of RTCM 10403.x frames a message. */
  predicate WellFramed(p: seq<byte>) {
    && |p| >= 6
    && p[0] == PREAMBLE
    && |p| == 3 + FromLE16(p[2], p[1] & 0x03) + 3
  }

  function Received(p: seq<byte>): bv32
    requires |p| >= 3
  {
    FromBE24(p[|p| - 3], p[|p| - 2], p[|p| - 1])
  }

  /** The payloads that are published. */
  predicate Passes(p: seq<byte>) {
    WellFramed(p) && Crc24q(p[..|p| - 3]) == Received(p)
  }

  method Check(p: seq<byte>) returns (ok: bool)
    ensures ok == Passes(p)
  {
    if |p| < 6 || p[0] != PREAMBLE {
      return false;
    }
    var expectedLength := 3 + FromLE16(p[2], p[1] & 0x03) + 3;
    if |p| != expectedLength {
      return false;
    }
    var computed := ComputeCrc24q(p[..|p| - 3]);
    ok := computed == Received(p);
  }

  /** The comparison with the trailer is the test for zero residue over the whole payload. */
  lemma PassesIffZeroResidue(p: seq<byte>)
    ensures Passes(p) <==> WellFramed(p) && Crc24q(p) == 0
  {
    hide Crc24q, FromBE24;
    if |p| >= 6 {
      var n := |p| - 3;
      TrailerMatchesIffZeroResidue(p[..n], p[n..]);
      assert p[..n] + p[n..] == p;
    }
  }

  lemma LowTwoBits(c: bv32, d: bv32)
    requires d == c & 3
    ensures (d & 1 != 0) == (c & 1 != 0) && ((d >> 1) & 1 != 0) == ((c >> 1) & 1 != 0) && d >> 1 >> 1 == 0
  {
  }

  lemma {:induction false} ValueOfZero(n: nat)
    ensures Words.Value(0, n) == 0
  {
    if n > 0 {
      ValueOfZero(n - 1);
    }
  }

  /** The mask keeps the number modulo four. */
  lemma MaskedLength(c: bv32, d: bv32)
    requires d == c & 3
    ensures Words.Value(d, 8) == Words.Value(c, 8) % 4
  {
    hide Words.Value;
    LowTwoBits(c, d);
    TwoSteps(c, c >> 1, d & 1 != 0, (d >> 1) & 1 != 0);
    TwoSteps(d, d >> 1, d & 1 != 0, (d >> 1) & 1 != 0);
    ValueOfZero(6);
  }

  lemma TwoSteps(c: bv32, h: bv32, low: bool, next: bool)
    requires h == c >> 1 && low == (c & 1 != 0) && next == (h & 1 != 0)
    ensures Words.Value(c, 8) == (if low then 1 else 0) + (if next then 2 else 0) + 4 * Words.Value(h >> 1, 6)
  {
    hide Words.Value;
    Words.ValueStep(c, 8);
    Words.ValueStep(h, 7);
  }

  lemma MaskedByte(b: byte)
    ensures (b & 0x03) as bv32 == (b as bv32) & 3
  {
  }

  /** The ten-bit length: two bits of one byte above the eight of the next. */
  lemma LengthField(hi: byte, lo: byte)
    ensures FromLE16(lo, hi & 0x03) == ByteValue(hi) % 4 * 0x100 + ByteValue(lo)
  {
    hide Words.Value;
    MaskedByte(hi);
    MaskedLength(hi as bv32, (hi & 0x03) as bv32);
  }

  /**
   Which payloads are published, in full: those that begin with D3, count the bytes between
   header and trailer in the ten bits behind it, and leave no residue.
   */
  lemma PassesExactly(p: seq<byte>)
    ensures Passes(p) <==>
      && 6 <= |p| <= 1029 && p[0] == 0xD3
      && ByteValue(p[1]) % 4 * 0x100 + ByteValue(p[2]) == |p| - 6
      && Crc24q(p) == 0
  {
    hide Crc24q, Received, FromLE16, ByteValue;
    PassesIffZeroResidue(p);
    if |p| >= 6 {
      LengthField(p[1], p[2]);
    }
  }

  /** Seen as polynomials: the payload passes exactly when the generator divides it. */
  lemma PassesIffDivisible(p: seq<byte>)
    ensures Passes(p) <==> WellFramed(p) && IsRemainder(G24, Bits(HighFirst, p), Zeros(24))
  {
    hide *;
    PassesIffZeroResidue(p);
    ZeroResidueBits(p);
    FeedIsRemainder(G24, Bits(HighFirst, p), Zeros(24));
  }

  lemma ZeroResidueBits(p: seq<byte>)
    ensures |G24| == 24
    ensures Crc24q(p) == 0 <==> Feed(G24, Zeros(24), Bits(HighFirst, p)) == Zeros(24)
  {
    hide Bits, Words.TopBits, Feed, Crc24qFrom;
    Crc24qIsFeed(0, p);
    Words.TopBitsOfZero(24);
    Crc24qMasked(0, p);
    if Bits24(Crc24q(p)) == Bits24(0) {
      Bits24Injective(Crc24q(p), 0);
    }
  }

  /**
   Guaranteed burst detection.  If a payload passes, no other payload of the same length
   passes whose differing bits, trailer included, lie within 24 consecutive bits.
   */
  lemma BurstIsDropped(a: seq<byte>, b: seq<byte>)
    requires Passes(a) && a != b && |a| == |b|
    requires DifferWithin(Bits(HighFirst, a), Bits(HighFirst, b), 24)
    ensures !Passes(b)
  {
    hide *;
    if Passes(b) {
      PassesIffZeroResidue(a);
      PassesIffZeroResidue(b);
      ZeroResidueBits(a);
      ZeroResidueBits(b);
      G24Facts();
      BurstIsDetected(G24, Zeros(24), Bits(HighFirst, a), Bits(HighFirst, b));
      BitsInjective(HighFirst, a, b);
      assert false;
    }
  }

  /** The generator has an even number of terms: any odd number of bit errors is caught too. */
  lemma OddErrorIsDropped(a: seq<byte>, b: seq<byte>)
    requires Passes(a) && |a| == |b|
    requires Parity(Add(Bits(HighFirst, a), Bits(HighFirst, b)))
    ensures !Passes(b)
  {
    hide *;
    PassesIffZeroResidue(a);
    PassesIffZeroResidue(b);
    ZeroResidueBits(a);
    ZeroResidueBits(b);
    G24Facts();
    OddErrorIsDetected(G24, Zeros(24), Bits(HighFirst, a), Bits(HighFirst, b));
  }

  /**
   The 25-bit pattern of the generator, anywhere behind the header, turns a payload that
   passes into another one that passes.
   */
  lemma GeneratorErrorPasses(a: seq<byte>, b: seq<byte>, before: nat, after: nat)
    requires Passes(a) && |a| == |b| && a[..3] == b[..3] && before + 25 + after == 8 * |a|
    requires Bits(HighFirst, b) == Add(Bits(HighFirst, a), Zeros(before) + ([true] + G24) + Zeros(after))
    ensures Passes(b)
  {
    hide Bits, Feed, Crc24q, Parity, Zeros, Add, FromLE16, Received;
    PassesIffZeroResidue(a);
    PassesIffZeroResidue(b);
    ZeroResidueBits(a);
    ZeroResidueBits(b);
    G24Facts();
    GeneratorBurstIsMissed(G24, Zeros(24), Bits(HighFirst, a), before, after);
    assert b[0] == b[..3][0] && b[1] == b[..3][1] && b[2] == b[..3][2];
    assert a[0] == a[..3][0] && a[1] == a[..3][1] && a[2] == a[..3][2];
  }

  /** `data` framed as a message: header, data, and the checksum of both. */
  function Message(data: seq<byte>): (p: seq<byte>)
    requires |data| <= 1023
    ensures |p| == 6 + |data|
  {
    var front := [0xD3, ByteOf(|data| / 0x100), ByteOf(|data| % 0x100)] + data;
    front + ToBE24(Crc24q(front))
  }

  /** Every message of up to 1023 data bytes, correctly framed, is published. */
  lemma MessagePasses(data: seq<byte>)
    requires |data| <= 1023
    ensures Passes(Message(data))
  {
    hide Crc24q, ToBE24, FromBE24, FromLE16, ByteValue, ByteOf;
    var p := Message(data);
    var front := [0xD3, ByteOf(|data| / 0x100), ByteOf(|data| % 0x100)] + data;
    assert p[..|p| - 3] == front;
    assert p[|p| - 3..] == ToBE24(Crc24q(front));
    assert Received(p) == FromBE24(p[|p| - 3..][0], p[|p| - 3..][1], p[|p| - 3..][2]);
    CrcFitsIn24(front);
    RoundTripBE24(Crc24q(front), p[|p| - 3..]);
    LengthField(p[1], p[2]);
    ValueOfByte(|data| / 0x100);
    ValueOfByte(|data| % 0x100);
  }

  lemma CrcFitsIn24(data: seq<byte>)
    ensures Crc24q(data) <= 0xFFFFFF
  {
    Crc24qMasked(0, data);
  }

  /** No payload that passes is ever damaged into another one that passes by a burst of n bits. */
  ghost predicate BurstsAreCaught(n: nat) {
    forall a, b ::
      Passes(a) && a != b && |a| == |b| && DifferWithin(Bits(HighFirst, a), Bits(HighFirst, b), n) ==> !Passes(b)
  }

  /** Where the generator is added to a message of four zero bytes. */
  const NOISE: seq<byte> := [0, 0, 0] + GENERATOR24 + [0, 0, 0]

  lemma NoiseBits()
    ensures Bits(HighFirst, NOISE) == Zeros(31) + ([true] + G24) + Zeros(24)
  {
    hide ByteBits, Bits, Words.TopBits;
    BitsConcat(HighFirst, [0, 0, 0] + GENERATOR24, [0, 0, 0]);
    BitsConcat(HighFirst, [0, 0, 0], GENERATOR24);
    ZeroBits(HighFirst, [0, 0, 0]);
    Generator24Bits();
    assert Zeros(24) + (Zeros(7) + ([true] + G24)) == Zeros(31) + ([true] + G24);
  }

  lemma NoisyHeader(a: seq<byte>, b: seq<byte>)
    requires |a| == 10 && b == XorBytes(a, NOISE)
    ensures b[..3] == a[..3]
  {
    hide XorBytes;
    XorBytesAt(a, NOISE, 0);
    XorBytesAt(a, NOISE, 1);
    XorBytesAt(a, NOISE, 2);
  }

  /** 25 bits are too many: here are two such payloads. */
  lemma GeneratorBurstPasses() returns (a: seq<byte>, b: seq<byte>)
    ensures Passes(a) && Passes(b) && a != b && |a| == |b|
    ensures DifferWithin(Bits(HighFirst, a), Bits(HighFirst, b), 25)
  {
    hide Message, Bits, Words.TopBits, Passes, DifferWithin, Add, Zeros, XorBytes;
    a := Message([0, 0, 0, 0]);
    b := XorBytes(a, NOISE);
    MessagePasses([0, 0, 0, 0]);
    NoisyHeader(a, b);
    BitsOfXor(HighFirst, a, NOISE, b);
    NoiseBits();
    GeneratorIsOneBurst(Bits(HighFirst, a), Bits(HighFirst, b), G24, 31, 24);
    GeneratorErrorPasses(a, b, 31, 24);
  }

  /** The guarantee ends at exactly 24 bits. */
  lemma BurstBoundIsExact(n: nat)
    ensures BurstsAreCaught(n) <==> n <= 24
  {
    hide Passes, Bits, DifferWithin;
    if n <= 24 {
      forall a, b | Passes(a) && a != b && |a| == |b| && DifferWithin(Bits(HighFirst, a), Bits(HighFirst, b), n)
        ensures !Passes(b)
      {
        WiderWindow(Bits(HighFirst, a), Bits(HighFirst, b), n, 24);
        BurstIsDropped(a, b);
      }
    } else {
      var a, b := GeneratorBurstPasses();
      WiderWindow(Bits(HighFirst, a), Bits(HighFirst, b), 25, n);
    }
  }
}
