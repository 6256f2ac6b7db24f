/** What the CRC-32 of the frame envelope guarantees. */
module Envelope {
  import opened Bytes
  import opened PolynomialRegister
  import opened Words
  import opened Crc
  import opened Protocol
  import opened Scanner

  lemma FrameResidue(f: Frame)
    ensures |G32| == 32
    ensures Feed(G32, Bits32(0xFFFF_FFFF), Bits(LowFirst, Encode(f))) == Feed(G32, Zeros(32), Bits32(0xFFFF_FFFF))
  {
    hide Bits, LowBits, Feed, Crc32, LE32, Header;
    Residue32IsConstant(Body(f));
  }

  lemma SameLengthField(f: Frame, g: Frame, e: seq<byte>, s: seq<byte>)
    requires Sendable(f) && Sendable(g) && e <= s && |e| == FrameSize(f)
    requires e[8..10] == Encode(f)[8..10] && Encode(g) <= s
    ensures FrameSize(f) == FrameSize(g) && e == Encode(g)
  {
    hide Encode, LE16, FromLE16, Body;
    HeaderFields(f, Encode(f));
    HeaderFields(g, s);
    assert s[8..10] == e[8..10];
    RoundTrip16(|f.payload|);
    RoundTrip16(|g.payload|);
    assert s[..|e|] == e;
  }

  /** Two printed frames that differ at all differ in more than 32 consecutive bits. */
  lemma FramesAreFarApart(f: Frame, g: Frame)
    requires DifferWithin(Bits(LowFirst, Encode(f)), Bits(LowFirst, Encode(g)), 32)
    ensures Encode(f) == Encode(g)
  {
    hide *;
    FrameResidue(f);
    FrameResidue(g);
    G32IsOdd();
    BurstIsDetected(G32, Bits32(0xFFFF_FFFF), Bits(LowFirst, Encode(f)), Bits(LowFirst, Encode(g)));
    BitsInjective(LowFirst, Encode(f), Encode(g));
  }

  /**
   Flip any nonzero pattern within 32 consecutive bits of an encoded frame, lowest bit of
   each byte first, sparing the length field: whatever follows, nothing is accepted there.
   */
  lemma BurstIsRejected(f: Frame, e: seq<byte>, s: seq<byte>)
    requires Sendable(f) && |e| == FrameSize(f) && e != Encode(f) && e <= s
    requires e[8..10] == Encode(f)[8..10]
    requires DifferWithin(Bits(LowFirst, Encode(f)), Bits(LowFirst, e), 32)
    ensures !Classify(s).Accept?
  {
    hide Encode, Bits, Classify;
    match Classify(s)
    case Wait =>
    case Skip(_) =>
    case Accept(g) =>
      SameLengthField(f, g, e, s);
      FramesAreFarApart(f, g);
      assert false;
  }

  /** So the scan of any stream never emits a frame at the position of the damaged one. */
  lemma BurstIsNeverEmitted(s: seq<byte>, p: nat, f: Frame, e: seq<byte>, g: Frame)
    requires Sendable(f) && |e| == FrameSize(f) && e != Encode(f) && p <= |s| && e <= s[p..]
    requires e[8..10] == Encode(f)[8..10]
    requires DifferWithin(Bits(LowFirst, Encode(f)), Bits(LowFirst, e), 32)
    ensures !EmitsAt(s, p, g)
  {
    hide Encode, Bits, Classify, EmitsAt, DifferWithin;
    if EmitsAt(s, p, g) {
      var _ := EmittedAtIsEmitted(s, p, g);
      PrinterIsAccepted(s[p..], g);
      BurstIsRejected(f, e, s[p..]);
    }
  }

  lemma SameCrc(f: Frame, g: Frame, before: nat, after: nat)
    requires |f.payload| == |g.payload| && before + 33 + after == 8 * |Body(f)|
    requires |G32| == 32
    requires Bits(LowFirst, Body(g)) == Add(Bits(LowFirst, Body(f)), Zeros(before) + ([true] + G32) + Zeros(after))
    ensures Crc32(Body(f)) == Crc32(Body(g))
  {
    hide Body, Feed, Add, Bits, Bits32, Crc32;
    G32IsOdd();
    GeneratorBurstIsMissed(G32, Bits32(0xFFFF_FFFF), Bits(LowFirst, Body(f)), before, after);
    SameFinal(Body(f), Body(g));
  }

  lemma SameFinal(a: seq<byte>, b: seq<byte>)
    requires |G32| == 32
    requires Feed(G32, Bits32(0xFFFF_FFFF), Bits(LowFirst, a)) == Feed(G32, Bits32(0xFFFF_FFFF), Bits(LowFirst, b))
    ensures Crc32(a) == Crc32(b)
  {
    hide Bits, Bits32, Feed, Inverted, Crc32From;
    SameRegister(0xFFFF_FFFF, a, b, Bits(LowFirst, a), Bits(LowFirst, b));
    assert Register32(a) == Register32(b);
  }

  lemma SameRegister(c: bv32, a: seq<byte>, b: seq<byte>, p: Poly, q: Poly)
    requires |G32| == 32 && p == Bits(LowFirst, a) && q == Bits(LowFirst, b)
    requires Feed(G32, Bits32(c), p) == Feed(G32, Bits32(c), q)
    ensures Crc32From(c, a) == Crc32From(c, b)
  {
    hide Bits, Bits32, Feed, Crc32From;
    Crc32IsFeed(c, a);
    Crc32IsFeed(c, b);
    Crc32Determines(Crc32From(c, a), Crc32From(c, b));
  }

  /**
   The 33-bit pattern of the generator, anywhere between magic and trailer, turns a frame
   into the encoding of another one, which is accepted in its place.
   */
  lemma GeneratorErrorIsAccepted(f: Frame, g: Frame, before: nat, after: nat)
    requires Sendable(g) && |f.payload| == |g.payload| && before + 33 + after == 8 * |Body(f)|
    requires |G32| == 32
    requires Bits(LowFirst, Body(g)) == Add(Bits(LowFirst, Body(f)), Zeros(before) + ([true] + G32) + Zeros(after))
    ensures Encode(g) != Encode(f) && DifferWithin(Bits(LowFirst, Encode(f)), Bits(LowFirst, Encode(g)), 33)
    ensures Classify(Encode(g)) == Accept(g)
  {
    SameCrc(f, g, before, after);
    BurstInBody(Body(f), Body(g), LE32(Crc32(Body(f))), before, after);
    hide Bits, DifferWithin, LE32, Body, Classify;
    PrinterIsAccepted(Encode(g), g);
  }

  lemma BurstInBody(a: seq<byte>, b: seq<byte>, trailer: seq<byte>, before: nat, after: nat)
    requires |a| == |b| && before + 33 + after == 8 * |a| && |G32| == 32
    requires Bits(LowFirst, b) == Add(Bits(LowFirst, a), Zeros(before) + ([true] + G32) + Zeros(after))
    ensures DifferWithin(Bits(LowFirst, a + trailer), Bits(LowFirst, b + trailer), 33)
    ensures a + trailer != b + trailer
  {
    hide Bits, DifferWithin, Add, Zeros;
    var p, q, t := Bits(LowFirst, a), Bits(LowFirst, b), Bits(LowFirst, trailer);
    BitsConcat(LowFirst, a, trailer);
    BitsConcat(LowFirst, b, trailer);
    SumWithZeros(t);
    AddConcat(p, t, Zeros(before) + ([true] + G32) + Zeros(after), Zeros(|t|));
    MoreZeros(before, [true] + G32, after, |t|);
    GeneratorIsOneBurst(p + t, q + t, G32, before, after + |t|);
  }

  lemma MoreZeros(before: nat, w: Poly, after: nat, k: nat)
    ensures (Zeros(before) + w + Zeros(after)) + Zeros(k) == Zeros(before) + w + Zeros(after + k)
  {
  }

  /** No burst of n bits, length field spared, ever leaves a frame at the place of a damaged one. */
  ghost predicate BurstsAreCaught(n: nat) {
    forall f, e, s ::
      && Sendable(f) && |e| == FrameSize(f) && e != Encode(f) && e <= s
      && e[8..10] == Encode(f)[8..10]
      && DifferWithin(Bits(LowFirst, Encode(f)), Bits(LowFirst, e), n)
      ==> !Classify(s).Accept?
  }

  const QUIET: Frame := Frame(0, 0, [0, 0, 0, 0, 0])
  const NOISY: Frame := Frame(0, 0, GENERATOR32)

  lemma NoisyBits()
    ensures |G32| == 32
    ensures Bits(LowFirst, Body(NOISY)) == Add(Bits(LowFirst, Body(QUIET)), Zeros(87) + ([true] + G32) + Zeros(0))
  {
    hide Bits, ByteBits, Bits32, Header, Add, Zeros;
    assert Header(NOISY) == Header(QUIET) by { SameHeader(); }
    var h := Bits(LowFirst, Header(QUIET));
    BitsConcat(LowFirst, Header(QUIET), QUIET.payload);
    BitsConcat(LowFirst, Header(QUIET), GENERATOR32);
    ZeroBits(LowFirst, QUIET.payload);
    Generator32Bits();
    var w := Zeros(7) + ([true] + G32);
    ZerosPlus(w);
    SumWithZeros(h);
    AddConcat(h, Zeros(40), Zeros(80), w);
    ZerosJoin(80, 7, [true] + G32);
  }

  lemma SameHeader()
    ensures Header(NOISY) == Header(QUIET)
  {
    hide LE32, LE16;
    assert |NOISY.payload| == |QUIET.payload|;
  }

  lemma ZerosJoin(m: nat, n: nat, w: Poly)
    ensures Zeros(m) + (Zeros(n) + w) == Zeros(m + n) + w + Zeros(0)
  {
  }

  lemma GeneratorBurstIsAccepted()
    ensures Encode(NOISY) != Encode(QUIET) && Encode(NOISY)[8..10] == Encode(QUIET)[8..10]
    ensures DifferWithin(Bits(LowFirst, Encode(QUIET)), Bits(LowFirst, Encode(NOISY)), 33)
    ensures Classify(Encode(NOISY)) == Accept(NOISY)
  {
    hide Bits, DifferWithin, Encode, Body, Classify, Bits32, LE16, Add, Zeros;
    NoisyBits();
    GeneratorErrorIsAccepted(QUIET, NOISY, 87, 0);
    HeaderFields(QUIET, Encode(QUIET));
    HeaderFields(NOISY, Encode(NOISY));
  }

  /** The guarantee ends at exactly 32 bits. */
  lemma BurstBoundIsExact(n: nat)
    ensures BurstsAreCaught(n) <==> n <= 32
  {
    hide Bits, DifferWithin, Encode, Classify;
    if n <= 32 {
      forall f, e, s |
        && Sendable(f) && |e| == FrameSize(f) && e != Encode(f) && e <= s
        && e[8..10] == Encode(f)[8..10]
        && DifferWithin(Bits(LowFirst, Encode(f)), Bits(LowFirst, e), n)
        ensures !Classify(s).Accept?
      {
        WiderWindow(Bits(LowFirst, Encode(f)), Bits(LowFirst, e), n, 32);
        BurstIsRejected(f, e, s);
      }
    } else {
      GeneratorBurstIsAccepted();
      WiderWindow(Bits(LowFirst, Encode(QUIET)), Bits(LowFirst, Encode(NOISY)), 33, n);
      assert |Encode(NOISY)| == FrameSize(QUIET);
    }
  }
}
