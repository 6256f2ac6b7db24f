/** Bytes, and the little-endian integers the protocol packs into them. */
module Bytes {
  import opened Words

  type byte = bv8

  function ByteValue(b: byte): (n: nat)
    ensures n < 0x100
  {
    ByteValueBound(b);
    Value(b as bv32, 8)
  }

  function ByteOf(n: nat): byte {
    (Word(n, 8) & 0xFF) as byte
  }

  lemma ByteValueBound(b: byte)
    ensures Value(b as bv32, 8) < 0x100
  {
    ValueBound(b as bv32, 8);
    Pow2Of8();
  }

  /** It is the number that the byte is. */
  lemma ByteValueIsTheByte(b: byte)
    ensures ByteValue(b) == b as int
  {
  }

  lemma Pow2Of8()
    ensures Pow2(8) == 0x100
  {
    assert Pow2(4) == 16;
  }

  /** The low 16 bits of n: a size cast to uint16_t before it is written. */
  function LE16(n: nat): (s: seq<byte>)
    ensures |s| == 2
  {
    [ByteOf(n % 0x1_0000 % 0x100), ByteOf(n % 0x1_0000 / 0x100)]
  }

  function FromLE16(lo: byte, hi: byte): (n: nat)
    ensures n < 0x1_0000
  {
    ByteValue(lo) + 0x100 * ByteValue(hi)
  }

  function LE32(v: bv32): (s: seq<byte>)
    ensures |s| == 4
  {
    [(v & 0xFF) as byte, ((v >> 8) & 0xFF) as byte, ((v >> 16) & 0xFF) as byte, ((v >> 24) & 0xFF) as byte]
  }

  function FromLE32(s: seq<byte>): bv32
    requires |s| == 4
  {
    (s[0] as bv32) | ((s[1] as bv32) << 8) | ((s[2] as bv32) << 16) | ((s[3] as bv32) << 24)
  }

  function LE64(v: bv64): (s: seq<byte>)
    ensures |s| == 8
  {
    LE32((v & 0xFFFF_FFFF) as bv32) + LE32(((v >> 32) & 0xFFFF_FFFF) as bv32)
  }

  function FromLE64(s: seq<byte>): bv64
    requires |s| == 8
  {
    (FromLE32(s[..4]) as bv64) | ((FromLE32(s[4..]) as bv64) << 32)
  }

  /** The floats the payloads carry, as opaque bit patterns. */
  datatype Float32 = Float32(bits: bv32)
  datatype Float64 = Float64(bits: bv64)

  function LEF32(x: Float32): (s: seq<byte>)
    ensures |s| == 4
  {
    LE32(x.bits)
  }

  function FromLEF32(s: seq<byte>): Float32
    requires |s| == 4
  {
    Float32(FromLE32(s))
  }

  function LEF64(x: Float64): (s: seq<byte>)
    ensures |s| == 8
  {
    LE64(x.bits)
  }

  function FromLEF64(s: seq<byte>): Float64
    requires |s| == 8
  {
    Float64(FromLE64(s))
  }

  // ---- Round trips ---------------------------------------------------------------

  lemma LowByte(c: bv32, b: byte)
    requires b == (c & 0xFF) as byte && c <= 0xFF
    ensures b as bv32 == c
  {
  }

  lemma ValueOfByte(n: nat)
    requires n < 0x100
    ensures ByteValue(ByteOf(n)) == n
  {
    Pow2Of8();
    ValueOfWord(n, 8);
    WordBound(n, 8);
    LowMasks(8);
    LowByte(Word(n, 8), ByteOf(n));
  }

  lemma SmallXor(a: byte, b: byte, x: bv32)
    requires x == (a as bv32) ^ (b as bv32) && x & 0xFF == 0
    ensures a == b
  {
  }

  lemma LowBitsOfByteInjective(a: byte, b: byte, x: bv32)
    requires x == (a as bv32) ^ (b as bv32) && LowBits(a as bv32, 8) == LowBits(b as bv32, 8)
    ensures a == b
  {
    LowMasks(8);
    LowBitsEqual(a as bv32, b as bv32, x, 8);
    SmallXor(a, b, x);
  }

  lemma ValueIsInjective(a: byte, b: byte)
    requires ByteValue(a) == ByteValue(b)
    ensures a == b
  {
    ValueDetermines(a as bv32, b as bv32, 8);
    LowBitsOfByteInjective(a, b, (a as bv32) ^ (b as bv32));
  }

  lemma ByteOfValue(n: nat, b: byte)
    requires n == ByteValue(b)
    ensures ByteOf(n) == b
  {
    ValueOfByte(n);
    ValueIsInjective(ByteOf(n), b);
  }

  lemma RoundTrip16(n: nat)
    ensures FromLE16(LE16(n)[0], LE16(n)[1]) == n % 0x1_0000
  {
    ValueOfByte(n % 0x1_0000 % 0x100);
    ValueOfByte(n % 0x1_0000 / 0x100);
  }

  lemma Digits16(lo: nat, hi: nat)
    requires lo < 0x100 && hi < 0x100
    ensures (lo + 0x100 * hi) % 0x1_0000 % 0x100 == lo && (lo + 0x100 * hi) % 0x1_0000 / 0x100 == hi
  {
    var n := lo + 0x100 * hi;
    assert n % 0x1_0000 == n;
    assert n / 0x100 == hi;
  }

  lemma BytesOfValue(n: nat, l: nat, h: nat, lo: byte, hi: byte)
    requires l == ByteValue(lo) && h == ByteValue(hi)
    requires n % 0x1_0000 % 0x100 == l && n % 0x1_0000 / 0x100 == h
    ensures LE16(n) == [lo, hi]
  {
    ByteOfValue(l, lo);
    ByteOfValue(h, hi);
  }

  lemma DigitsOfField(n: nat, lo: byte, hi: byte)
    requires n == FromLE16(lo, hi)
    ensures n % 0x1_0000 % 0x100 == ByteValue(lo) && n % 0x1_0000 / 0x100 == ByteValue(hi)
  {
    hide ByteValue;
    Digits16(ByteValue(lo), ByteValue(hi));
  }

  lemma RoundTrip16Bytes(n: nat, lo: byte, hi: byte)
    requires n == FromLE16(lo, hi)
    ensures LE16(n) == [lo, hi]
  {
    DigitsOfField(n, lo, hi);
    BytesOfValue(n, ByteValue(lo), ByteValue(hi), lo, hi);
  }

  lemma RoundTrip32(v: bv32)
    ensures FromLE32(LE32(v)) == v
  {
  }

  lemma RoundTrip32Bytes(s: seq<byte>)
    requires |s| == 4
    ensures LE32(FromLE32(s)) == s
  {
  }

  lemma RoundTrip64(v: bv64)
    ensures FromLE64(LE64(v)) == v
  {
    var lo, hi := (v & 0xFFFF_FFFF) as bv32, ((v >> 32) & 0xFFFF_FFFF) as bv32;
    assert LE64(v)[..4] == LE32(lo) && LE64(v)[4..] == LE32(hi);
    RoundTrip32(lo);
    RoundTrip32(hi);
  }

  // ---- The byte order, position by position --------------------------------------------

  lemma LowByteValue(v: bv32, b: byte)
    requires (v ^ (b as bv32)) & 0xFF == 0
    ensures Value(v, 8) == ByteValue(b)
  {
    hide LowBits, Value;
    LowMasks(8);
    LowBitsEqual(v, b as bv32, v ^ (b as bv32), 8);
    ValueDetermines(v, b as bv32, 8);
  }

  lemma Fields32(v: bv32, s: seq<byte>)
    requires s == LE32(v)
    ensures (v ^ (s[0] as bv32)) & 0xFF == 0
    ensures ((v >> 8) ^ (s[1] as bv32)) & 0xFF == 0
    ensures ((v >> 8 >> 8) ^ (s[2] as bv32)) & 0xFF == 0
    ensures ((v >> 8 >> 8 >> 8) ^ (s[3] as bv32)) & 0xFF == 0
  {
  }

  lemma ValueOfBytes(c: bv32, d: bv32, e: bv32, f: bv32)
    requires d == c >> 8 && e == d >> 8 && f == e >> 8
    ensures Value(c, 32) == Value(c, 8) + 0x100 * Value(d, 8) + 0x1_0000 * Value(e, 8) + 0x100_0000 * Value(f, 8)
  {
    hide Value, Shr, Pow2;
    Pow2Of8();
    ValueSplit(c, 8, 24);
    ValueSplit(d, 8, 16);
    ValueSplit(e, 8, 8);
    Shr8(c);
    Shr8(d);
    Shr8(e);
  }

  lemma FieldValues(v: bv32, d: bv32, s: seq<byte>)
    requires s == LE32(v) && d == v >> 8
    ensures Value(v, 8) == ByteValue(s[0]) && Value(d, 8) == ByteValue(s[1])
    ensures Value(d >> 8, 8) == ByteValue(s[2]) && Value(d >> 8 >> 8, 8) == ByteValue(s[3])
  {
    hide LE32, Value, ByteValue;
    Fields32(v, s);
    LowByteValue(v, s[0]);
    LowByteValue(d, s[1]);
    LowByteValue(d >> 8, s[2]);
    LowByteValue(d >> 8 >> 8, s[3]);
  }

  /** The lowest byte comes first. */
  lemma LittleEndian32(v: bv32)
    ensures var s := LE32(v);
            Value(v, 32) == ByteValue(s[0]) + 0x100 * ByteValue(s[1]) + 0x1_0000 * ByteValue(s[2])
                            + 0x100_0000 * ByteValue(s[3])
  {
    hide Value, LE32, ByteValue;
    var d := v >> 8;
    var e := d >> 8;
    var f := e >> 8;
    FieldValues(v, d, LE32(v));
    ValueOfBytes(v, d, e, f);
  }

  lemma LittleEndian16(n: nat)
    ensures ByteValue(LE16(n)[0]) + 0x100 * ByteValue(LE16(n)[1]) == n % 0x1_0000
  {
    hide ByteValue, ByteOf;
    ValueOfByte(n % 0x1_0000 % 0x100);
    ValueOfByte(n % 0x1_0000 / 0x100);
  }

  lemma LittleEndian64(v: bv64)
    ensures var s := LE64(v);
            && s[0] == (v & 0xFF) as byte && s[1] == ((v >> 8) & 0xFF) as byte
            && s[2] == ((v >> 16) & 0xFF) as byte && s[3] == ((v >> 24) & 0xFF) as byte
            && s[4] == ((v >> 32) & 0xFF) as byte && s[5] == ((v >> 40) & 0xFF) as byte
            && s[6] == ((v >> 48) & 0xFF) as byte && s[7] == ((v >> 56) & 0xFF) as byte
  {
  }

  lemma RoundTripF32(x: Float32)
    ensures FromLEF32(LEF32(x)) == x
  {
    hide LE32, FromLE32;
    RoundTrip32(x.bits);
  }

  lemma RoundTripF64(x: Float64)
    ensures FromLEF64(LEF64(x)) == x
  {
    hide LE64, FromLE64;
    RoundTrip64(x.bits);
  }

  // ---- The growing byte vector -----------------------------------------------------

  /** The std::vector<uint8_t> that the encoders append to. */
  class ByteVector {
    var bytes: seq<byte>

    constructor ()
      ensures bytes == []
    {
      bytes := [];
    }

    method PushBack(b: byte)
      modifies this
      ensures bytes == old(bytes) + [b]
    {
      bytes := bytes + [b];
    }

    method Append(more: seq<byte>)
      modifies this
      ensures bytes == old(bytes) + more
    {
      bytes := bytes + more;
    }

    method PushU16le(n: nat)
      modifies this
      ensures bytes == old(bytes) + LE16(n)
    {
      PushBack(ByteOf(n % 0x1_0000 % 0x100));
      PushBack(ByteOf(n % 0x1_0000 / 0x100));
    }

    method PushU32le(value: bv32)
      modifies this
      ensures bytes == old(bytes) + LE32(value)
    {
      var rest := value;
      for i := 0 to 4
        invariant old(bytes) + LE32(value) == bytes + LE32(rest)[..4 - i]
      {
        NextByte32(rest, 4 - i);
        MoveByte(bytes, (rest & 0xFF) as byte, LE32(rest >> 8)[..3 - i]);
        PushBack((rest & 0xFF) as byte);
        rest := rest >> 8;
      }
    }

    method PushF32le(value: Float32)
      modifies this
      ensures bytes == old(bytes) + LEF32(value)
    {
      PushU32le(value.bits);
    }

    method PushF64le(value: Float64)
      modifies this
      ensures bytes == old(bytes) + LEF64(value)
    {
      var rest := value.bits;
      for i := 0 to 8
        invariant old(bytes) + LEF64(value) == bytes + LE64(rest)[..8 - i]
      {
        NextByte64(rest, 8 - i);
        MoveByte(bytes, (rest & 0xFF) as byte, LE64(rest >> 8)[..7 - i]);
        PushBack((rest & 0xFF) as byte);
        rest := rest >> 8;
      }
    }
  }

  lemma MoveByte(front: seq<byte>, b: byte, rest: seq<byte>)
    ensures front + ([b] + rest) == (front + [b]) + rest
  {
  }

  lemma NextByte32(v: bv32, k: nat)
    requires 0 < k <= 4
    ensures LE32(v)[..k] == [(v & 0xFF) as byte] + LE32(v >> 8)[..k - 1]
  {
  }

  lemma NextByte64(v: bv64, k: nat)
    requires 0 < k <= 8
    ensures LE64(v)[..k] == [(v & 0xFF) as byte] + LE64(v >> 8)[..k - 1]
  {
    BytesMoveUp(v, v >> 8);
    hide LE64;
    var s, t := LE64(v), LE64(v >> 8);
    forall i | 0 <= i < k ensures s[..k][i] == ([(v & 0xFF) as byte] + t[..k - 1])[i] {
    }
  }

  lemma BytesMoveUp(v: bv64, w: bv64)
    requires w == v >> 8
    ensures LE64(v)[0] == (v & 0xFF) as byte
    ensures forall i :: 0 <= i < 7 ==> LE64(v)[i + 1] == LE64(w)[i]
  {
    hide LE64;
    LittleEndian64(v);
    LittleEndian64(w);
    SameBytes(v, w);
  }

  lemma SameBytes(v: bv64, w: bv64)
    requires w == v >> 8
    ensures (w & 0xFF) == ((v >> 8) & 0xFF) && ((w >> 8) & 0xFF) == ((v >> 16) & 0xFF)
    ensures ((w >> 16) & 0xFF) == ((v >> 24) & 0xFF) && ((w >> 24) & 0xFF) == ((v >> 32) & 0xFF)
    ensures ((w >> 32) & 0xFF) == ((v >> 40) & 0xFF) && ((w >> 40) & 0xFF) == ((v >> 48) & 0xFF)
    ensures ((w >> 48) & 0xFF) == ((v >> 56) & 0xFF)
  {
  }
}
