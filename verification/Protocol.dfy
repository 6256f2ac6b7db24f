/** The frame envelope and the printer `encode_frame`. */
module Protocol {
  import opened Bytes
  import opened Crc

  const MAGIC0: byte := 0xAA
  const MAGIC1: byte := 0x55
  const PROTOCOL_VERSION: byte := 2
  const HEADER_SIZE := 10
  const CRC_SIZE := 4
  const MIN_FRAME_SIZE := HEADER_SIZE + CRC_SIZE
  const MAX_PAYLOAD := 8192
  const MAX_FRAME_SIZE := HEADER_SIZE + MAX_PAYLOAD + CRC_SIZE

  /** A parsed frame.  Any byte can stand in the packet-type field. */
  datatype Frame = Frame(packetType: byte, sequence: bv32, payload: seq<byte>)

  /** Payloads that the length field and the parser admit. */
  predicate Sendable(f: Frame) {
    |f.payload| <= MAX_PAYLOAD
  }

  function FrameSize(f: Frame): nat {
    HEADER_SIZE + |f.payload| + CRC_SIZE
  }

  /** The length field holds the low 16 bits of the payload size; nothing checks the size. */
  function Header(f: Frame): (h: seq<byte>)
    ensures |h| == HEADER_SIZE
  {
    [MAGIC0, MAGIC1, PROTOCOL_VERSION, f.packetType] + LE32(f.sequence) + LE16(|f.payload|)
  }

  function Body(f: Frame): (b: seq<byte>)
    ensures |b| == HEADER_SIZE + |f.payload|
  {
    Header(f) + f.payload
  }

  function Encode(f: Frame): (e: seq<byte>)
    ensures |e| == FrameSize(f)
  {
    Body(f) + LE32(Crc32(Body(f)))
  }

  method EncodeFrame(packetType: byte, sequence: bv32, payload: seq<byte>) returns (frame: seq<byte>)
    ensures frame == Encode(Frame(packetType, sequence, payload))
  {
    var buf := new ByteVector();
    buf.PushBack(MAGIC0);
    buf.PushBack(MAGIC1);
    buf.PushBack(PROTOCOL_VERSION);
    buf.PushBack(packetType);
    buf.PushU32le(sequence);
    buf.PushU16le(|payload|);
    assert buf.bytes == Header(Frame(packetType, sequence, payload));
    buf.Append(payload);
    buf.PushU32le(Crc32(buf.bytes));
    frame := buf.bytes;
  }

  // ---- Reading the envelope ------------------------------------------------------------

  /** What the parser decides about the bytes in front of it. */
  datatype Verdict =
    | Wait                  // undecided until more bytes arrive
    | Skip(bad: bool)       // no frame starts here; `bad` if the magic was there
    | Accept(frame: Frame)

  function PayloadLength(s: seq<byte>): (n: nat)
    requires |s| >= MIN_FRAME_SIZE
    ensures n < 0x1_0000
  {
    FromLE16(s[8], s[9])
  }

  predicate HeaderOk(s: seq<byte>)
    requires |s| >= MIN_FRAME_SIZE
  {
    s[2] == PROTOCOL_VERSION && PayloadLength(s) <= MAX_PAYLOAD
  }

  /** `raw` is one frame's worth of bytes, trailer included. */
  predicate CrcOk(raw: seq<byte>)
    requires |raw| >= MIN_FRAME_SIZE
  {
    var n := |raw| - CRC_SIZE;
    Crc32(raw[..n]) == FromLE32(raw[n..])
  }

  function Decode(raw: seq<byte>): Frame
    requires |raw| >= MIN_FRAME_SIZE
  {
    Frame(raw[3], FromLE32(raw[4..8]), raw[HEADER_SIZE..|raw| - CRC_SIZE])
  }

  /** The bytes of f stand at the front of s, and f is one that the parser admits. */
  predicate StartsWithFrame(s: seq<byte>, f: Frame) {
    Sendable(f) && Encode(f) <= s
  }

  /** What passes the parser's checks is exactly what the printer writes. */
  lemma DecodedIsPrinted(raw: seq<byte>)
    requires |raw| >= MIN_FRAME_SIZE && raw[0] == MAGIC0 && raw[1] == MAGIC1
    requires HeaderOk(raw) && |raw| == MIN_FRAME_SIZE + PayloadLength(raw) && CrcOk(raw)
    ensures Encode(Decode(raw)) == raw
  {
    hide Crc32, LE32, FromLE32, LE16, FromLE16;
    var f, n := Decode(raw), |raw| - CRC_SIZE;
    RoundTrip16Bytes(|f.payload|, raw[8], raw[9]);
    RoundTrip32Bytes(raw[4..8]);
    RoundTrip32Bytes(raw[n..]);
    assert raw[..10] == [raw[0], raw[1], raw[2], raw[3]] + raw[4..8] + [raw[8], raw[9]];
    assert raw[..n] == raw[..10] + raw[10..n];
    assert raw == raw[..n] + raw[n..];
  }

  function Classify(s: seq<byte>): (v: Verdict)
    ensures v.Skip? ==> |s| > 0
    ensures v.Wait? ==> |s| < MAX_FRAME_SIZE
    ensures v.Accept? ==> StartsWithFrame(s, v.frame)
  {
    if |s| == 0 then Wait
    else if s[0] != MAGIC0 then Skip(false)
    else if |s| == 1 then Wait
    else if s[1] != MAGIC1 then Skip(false)
    else if |s| < MIN_FRAME_SIZE then Wait
    else if !HeaderOk(s) then Skip(true)
    else
      var total := MIN_FRAME_SIZE + PayloadLength(s);
      if |s| < total then Wait
      else if !CrcOk(s[..total]) then Skip(true)
      else
        CheckedIsPrinted(s, total);
        Accept(Decode(s[..total]))
  }

  lemma CheckedIsPrinted(s: seq<byte>, total: nat)
    requires |s| >= total >= MIN_FRAME_SIZE && s[0] == MAGIC0 && s[1] == MAGIC1
    requires HeaderOk(s) && total == MIN_FRAME_SIZE + PayloadLength(s) && CrcOk(s[..total])
    ensures |s[..total]| == total && StartsWithFrame(s, Decode(s[..total]))
  {
    hide CrcOk, FromLE16, FromLE32, Encode;
    DecodedIsPrinted(s[..total]);
    assert |Decode(s[..total]).payload| == PayloadLength(s);
  }

  lemma HeaderFields(f: Frame, s: seq<byte>)
    requires Encode(f) <= s
    ensures |s| >= MIN_FRAME_SIZE
    ensures s[0] == 0xAA && s[1] == 0x55 && s[2] == 2 && s[3] == f.packetType
    ensures s[4..8] == LE32(f.sequence) && s[8..10] == LE16(|f.payload|)
    ensures s[10..10 + |f.payload|] == f.payload
    ensures s[..10 + |f.payload|] == Body(f)
    ensures s[10 + |f.payload|..14 + |f.payload|] == LE32(Crc32(Body(f)))
  {
    hide Crc32, LE32, LE16;
    var e, h, n := Encode(f), Header(f), 10 + |f.payload|;
    assert e[..n] == Body(f) && e[n..] == LE32(Crc32(Body(f)));
    assert Body(f)[..10] == h && Body(f)[10..] == f.payload;
    assert h[4..8] == LE32(f.sequence) && h[8..10] == LE16(|f.payload|);
    assert s[..|e|] == e;
    assert s[..10] == h;
    assert s[4..8] == h[4..8] && s[8..10] == h[8..10];
    assert s[10..n] == e[10..n] == Body(f)[10..];
    assert s[n..n + 4] == e[n..];
  }

  lemma PrinterIsAccepted(s: seq<byte>, f: Frame)
    requires StartsWithFrame(s, f)
    ensures Classify(s) == Accept(f)
  {
    hide Crc32, LE32, FromLE32, LE16, FromLE16, Encode, Body;
    HeaderFields(f, s);
    RoundTrip16(|f.payload|);
    assert s[8] == s[8..10][0] && s[9] == s[8..10][1];
    assert PayloadLength(s) == |f.payload|;
    var raw, n := s[..14 + |f.payload|], 10 + |f.payload|;
    RoundTrip32(f.sequence);
    RoundTrip32(Crc32(Body(f)));
    assert raw[4..8] == s[4..8];
    assert raw[..n] == Body(f) && raw[n..] == LE32(Crc32(Body(f)));
    assert raw[10..n] == s[10..n];
  }

  /** The parser's test is exactly the inverse of the printer. */
  lemma AcceptsExactlyThePrinted(s: seq<byte>, f: Frame)
    ensures Classify(s) == Accept(f) <==> StartsWithFrame(s, f)
  {
    hide Classify;
    if StartsWithFrame(s, f) {
      PrinterIsAccepted(s, f);
    }
  }

  /** A decision never changes when more bytes arrive. */
  lemma DecisionIsFinal(s: seq<byte>, t: seq<byte>)
    requires !Classify(s).Wait?
    ensures Classify(s + t) == Classify(s)
  {
    hide Crc32, FromLE32, FromLE16, Encode;
    if |s| >= MIN_FRAME_SIZE {
      var total := MIN_FRAME_SIZE + PayloadLength(s);
      assert PayloadLength(s + t) == PayloadLength(s);
      if total <= |s| {
        assert (s + t)[..total] == s[..total];
      }
    }
  }

  /** A skipped position can never turn out to start a frame. */
  lemma SkippedForever(s: seq<byte>, t: seq<byte>, f: Frame)
    requires Classify(s).Skip?
    ensures !StartsWithFrame(s + t, f)
  {
    hide Classify, Encode;
    DecisionIsFinal(s, t);
    AcceptsExactlyThePrinted(s + t, f);
  }
}
