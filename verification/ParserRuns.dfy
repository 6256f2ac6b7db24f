/**
 Whole runs of `feed`.  The incremental parser is one uncapped scan of everything fed to
 it, however the bytes were chunked, as long as the cap does not bite; and the largest
 chunk size for which that holds is determined exactly.
 */
module ParserRuns {
  import opened Bytes
  import opened Protocol
  import opened Scanner
  import opened FrameParser
  import Crc
  import Words

  // ---- One call ------------------------------------------------------------------------------

  lemma {:induction false} ShortStreamHasNoFrame(s: seq<byte>)
    requires |s| < MIN_FRAME_SIZE
    ensures Scan(s).frames == [] && Scan(s).bad == 0
    decreases |s|
  {
    hide Encode;
    ScanStep(s);
    if Classify(s).Skip? {
      ShortStreamHasNoFrame(s[1..]);
    }
  }

  lemma NoMagicIsSkipped(s: seq<byte>)
    requires |s| >= 2 && !MagicAt(s, 0)
    ensures Classify(s) == Skip(false)
  {
  }

  lemma MagicIsNotPassed(s: seq<byte>)
    requires MagicAt(s, 0) && Classify(s).Skip?
    ensures Classify(s) == Skip(true)
  {
    hide Encode;
  }

  /** Positions before the magic are passed over one by one. */
  lemma {:induction false} ScanSkipsToMagic(b: seq<byte>, k: nat)
    requires k < |b| && forall i :: 0 <= i < k ==> !MagicAt(b, i)
    ensures Scan(b) == Then(Scanned([], 0, k, []), Scan(b[k..]))
    decreases k
  {
    hide Classify;
    if k == 0 {
      assert b[0..] == b;
      assert [] + Scan(b).frames == Scan(b).frames;
    } else {
      assert !MagicAt(b, 0);
      NoMagicIsSkipped(b);
      ScanStep(b);
      forall i | 0 <= i < k - 1 ensures !MagicAt(b[1..], i) {
        assert !MagicAt(b, i + 1);
      }
      ScanSkipsToMagic(b[1..], k - 1);
      assert b[1..][k - 1..] == b[k..];
      ThenIsAssociative(PassOver(false), Scanned([], 0, k - 1, []), Scan(b[k..]));
    }
  }

  /** Draining a buffer is scanning it, except that magic-free bytes may be left standing. */
  lemma {:induction false} DrainRefinesScan(b: seq<byte>)
    ensures Scan(b) == Then(Drain(b), Scan(Drain(b).rest))
    ensures Scan(Drain(b).rest).frames == [] && Scan(Drain(b).rest).bad == 0
    decreases |b|
  {
    hide Classify, Encode, MagicAt, FirstMagic, Scan;
    if |b| < MIN_FRAME_SIZE {
      ShortStreamHasNoFrame(b);
      assert [] + Scan(b).frames == Scan(b).frames;
    } else if FirstMagic(b) == |b| {
      ScanSkipsToMagic(b, |b| - 1);
      ShortStreamHasNoFrame(b[|b| - 1..]);
    } else {
      var start := FirstMagic(b);
      var c := b[start..];
      ScanSkipsToMagic(b, start);
      ScanStep(c);
      match Classify(c)
      case Wait =>
      case Skip(_) =>
        MagicMoves(b, start);
        MagicIsNotPassed(c);
        DrainRefinesScan(c[1..]);
        ThenIsAssociative(Scanned([], 0, start, []), PassOver(true), Scan(c[1..]));
        ThenIsAssociative(Scanned([], 1, start + 1, []), Drain(c[1..]), Scan(Drain(b).rest));
      case Accept(f) =>
        DrainRefinesScan(c[FrameSize(f)..]);
        ThenIsAssociative(Scanned([], 0, start, []), Emit(f), Scan(c[FrameSize(f)..]));
        ThenIsAssociative(Scanned([f], 0, start, []), Drain(c[FrameSize(f)..]), Scan(Drain(b).rest));
    }
  }

  lemma MagicMoves(b: seq<byte>, start: nat)
    requires start < |b| && MagicAt(b, start)
    ensures MagicAt(b[start..], 0)
  {
  }

  lemma {:induction false} DrainConservesBytes(b: seq<byte>)
    ensures |b| == FrameBytes(Drain(b).frames) + Drain(b).skipped + |Drain(b).rest|
    ensures Drain(b).bad <= Drain(b).skipped
    decreases |b|
  {
    hide Classify, Encode, MagicAt, FirstMagic;
    if |b| >= MIN_FRAME_SIZE && FirstMagic(b) < |b| {
      var start := FirstMagic(b);
      var c := b[start..];
      match Classify(c)
      case Wait =>
      case Skip(_) =>
        DrainConservesBytes(c[1..]);
        assert Drain(b).frames == Drain(c[1..]).frames;
      case Accept(f) =>
        DrainConservesBytes(c[FrameSize(f)..]);
        FrameBytesConcat([f], Drain(c[FrameSize(f)..]).frames);
    }
  }

  // ---- Runs ------------------------------------------------------------------------------------

  /** What a run of calls returned and left behind; `cut` counts bytes the cap dropped. */
  datatype Outcome = Outcome(frames: seq<Frame>, bad: nat, skipped: nat, cut: nat, buffer: seq<byte>)

  function Run(buffer: seq<byte>, chunks: seq<seq<byte>>): Outcome
    decreases |chunks|
  {
    if chunks == [] then Outcome([], 0, 0, 0, buffer)
    else
      var whole := buffer + chunks[0];
      var r := Drain(Capped(whole));
      var later := Run(r.rest, chunks[1..]);
      Outcome(r.frames + later.frames, r.bad + later.bad, r.skipped + later.skipped,
              |whole| - |Capped(whole)| + later.cut, later.buffer)
  }

  function Flatten(chunks: seq<seq<byte>>): seq<byte> {
    if chunks == [] then [] else chunks[0] + Flatten(chunks[1..])
  }

  predicate AllWithin(chunks: seq<seq<byte>>, n: nat) {
    forall i :: 0 <= i < |chunks| ==> |chunks[i]| <= n
  }

  /** However large the chunks, the buffer stays below the largest frame. */
  lemma {:induction false} BufferIsBounded(buffer: seq<byte>, chunks: seq<seq<byte>>)
    requires |buffer| < MAX_FRAME_SIZE
    ensures |Run(buffer, chunks).buffer| < MAX_FRAME_SIZE
    decreases |chunks|
  {
    if chunks != [] {
      BufferIsBounded(Drain(Capped(buffer + chunks[0])).rest, chunks[1..]);
    }
  }

  /** Every byte fed is in a frame, passed over, cut, or held; each rejection passes one over. */
  lemma {:induction false} RunConservesBytes(buffer: seq<byte>, chunks: seq<seq<byte>>)
    ensures var r := Run(buffer, chunks);
            && |buffer| + |Flatten(chunks)| == FrameBytes(r.frames) + r.skipped + r.cut + |r.buffer|
            && r.bad <= r.skipped
    decreases |chunks|
  {
    if chunks != [] {
      var r := Drain(Capped(buffer + chunks[0]));
      DrainConservesBytes(Capped(buffer + chunks[0]));
      RunConservesBytes(r.rest, chunks[1..]);
      FrameBytesConcat(r.frames, Run(r.rest, chunks[1..]).frames);
    }
  }

  function Parsed(o: Outcome): Scanned {
    Scanned(o.frames, o.bad, o.skipped, o.buffer)
  }

  /** The induction behind chunking independence. */
  lemma {:induction false} RunIsScan(buffer: seq<byte>, chunks: seq<seq<byte>>)
    requires |buffer| < MAX_FRAME_SIZE && AllWithin(chunks, MAX_BUFFERED - MAX_FRAME_SIZE + 1)
    requires Scan(buffer).frames == [] && Scan(buffer).bad == 0
    ensures var r := Run(buffer, chunks);
            && r.cut == 0
            && Scan(buffer + Flatten(chunks)) == Then(Parsed(r), Scan(r.buffer))
            && Scan(r.buffer).frames == [] && Scan(r.buffer).bad == 0
    decreases |chunks|
  {
    hide Scan, Drain;
    if chunks == [] {
      assert buffer + Flatten(chunks) == buffer;
      assert [] + Scan(buffer).frames == Scan(buffer).frames;
    } else {
      var whole, later := buffer + chunks[0], Flatten(chunks[1..]);
      var r := Drain(whole);
      assert Capped(whole) == whole;
      DrainRefinesScan(whole);
      RunIsScan(r.rest, chunks[1..]);
      assert buffer + Flatten(chunks) == whole + later;
      ScanAppend(whole, later);
      ScanAppend(r.rest, later);
      RunStep(whole, r, later, Run(r.rest, chunks[1..]));
    }
  }

  lemma RunStep(whole: seq<byte>, r: Scanned, later: seq<byte>, o: Outcome)
    requires Scan(whole) == Then(r, Scan(r.rest))
    requires Scan(whole + later) == Then(Scan(whole), Scan(Scan(whole).rest + later))
    requires Scan(r.rest + later) == Then(Scan(r.rest), Scan(Scan(r.rest).rest + later))
    requires Scan(r.rest + later) == Then(Parsed(o), Scan(o.buffer))
    ensures Scan(whole + later) == Then(Then(r, Parsed(o)), Scan(o.buffer))
  {
    hide Scan;
    ThenIsAssociative(r, Scan(r.rest), Scan(Scan(whole).rest + later));
    ThenIsAssociative(r, Parsed(o), Scan(o.buffer));
  }

  /**
   Chunks of at most 4097 bytes: frames and bad-frame count are those of one scan of the
   whole stream, nothing is cut, and the buffers agree once magic-free bytes are dropped.
   */
  lemma ChunkingIndependence(chunks: seq<seq<byte>>)
    requires AllWithin(chunks, 4097)
    ensures var r, whole := Run([], chunks), Scan(Flatten(chunks));
            && r.frames == whole.frames && r.bad == whole.bad && r.cut == 0
            && r.skipped <= whole.skipped
            && Scan(r.buffer) == Scanned([], 0, whole.skipped - r.skipped, whole.rest)
  {
    hide Run, Classify;
    assert Scan([]) == Scanned([], 0, 0, []) by { NothingToScan(); }
    RunIsScan([], chunks);
    assert [] + Flatten(chunks) == Flatten(chunks);
    var r := Run([], chunks);
    assert r.frames + [] == r.frames;
  }

  lemma NothingToScan()
    ensures Scan([]) == Scanned([], 0, 0, [])
  {
  }

  /** Two ways of chunking one stream cannot be told apart by frames or bad-frame count. */
  lemma ReadBoundariesDoNotMatter(a: seq<seq<byte>>, b: seq<seq<byte>>)
    requires AllWithin(a, 4097) && AllWithin(b, 4097) && Flatten(a) == Flatten(b)
    ensures Run([], a).frames == Run([], b).frames && Run([], a).bad == Run([], b).bad
  {
    ChunkingIndependence(a);
    ChunkingIndependence(b);
  }

  /** The frames a run returns are the leftmost-greedy reading of the bytes it was fed. */
  lemma RunReadsLeftmostGreedy(chunks: seq<seq<byte>>) returns (pieces: seq<Piece>, tail: seq<byte>)
    requires AllWithin(chunks, 4097)
    ensures FramesOf(pieces) == Run([], chunks).frames
    ensures ReadsAs(Flatten(chunks), pieces, tail, Scan(Run([], chunks).buffer).rest)
    ensures Run([], chunks).bad == FalseStarts(Flatten(chunks), pieces, tail, Scan(Run([], chunks).buffer).rest)
  {
    hide Run, Scan, Flatten, ReadsAs, FramesOf;
    ChunkingIndependence(chunks);
    pieces, tail := LeftmostGreedy(Flatten(chunks));
  }

  /** After any garbage, a frame that nothing straddles is returned, for the position it stands at. */
  lemma RunResynchronises(chunks: seq<seq<byte>>, p: nat, f: Frame) returns (k: nat)
    requires AllWithin(chunks, 4097) && p + RESYNC_BYTES <= |Flatten(chunks)|
    requires StartsWithFrame(Flatten(chunks)[p..], f) && !Straddled(Flatten(chunks), p)
    ensures EmitsAt(Flatten(chunks), p, f)
    ensures k < |Run([], chunks).frames| && Run([], chunks).frames[k] == f
  {
    hide Run, Scan, Flatten, Encode, Straddled, EmitsAt;
    ChunkingIndependence(chunks);
    Resynchronises(Flatten(chunks), p, f);
    k := EmittedAtIsEmitted(Flatten(chunks), p, f);
  }

  /** Encoded frames with nothing in between come back as they were, and leave nothing behind. */
  lemma RunRoundTrip(frames: seq<Frame>, chunks: seq<seq<byte>>)
    requires AllSendable(frames) && AllWithin(chunks, 4097) && Flatten(chunks) == EncodeAll(frames)
    ensures Run([], chunks) == Outcome(frames, 0, 0, 0, [])
  {
    hide Run, Scan, Flatten, EncodeAll, Encode;
    ChunkingIndependence(chunks);
    ScanOfEncoded(frames);
    ScanConservesBytes(Run([], chunks).buffer);
  }

  // ---- The exact chunk bound -----------------------------------------------------------------------

  /** No stream cut into chunks of at most n bytes loses, gains or changes a frame. */
  ghost predicate ChunksAreSafe(n: nat) {
    forall chunks :: AllWithin(chunks, n) ==> Run([], chunks).frames == Scan(Flatten(chunks)).frames
  }

  /** A proper prefix of a frame keeps the parser waiting. */
  lemma PrefixWaits(f: Frame, k: nat)
    requires Sendable(f) && k < FrameSize(f)
    ensures Classify(Encode(f)[..k]).Wait?
  {
    hide Classify, Encode;
    var e := Encode(f);
    PrinterIsAccepted(e, f);
    assert e == e[..k] + e[k..];
    if !Classify(e[..k]).Wait? {
      DecisionIsFinal(e[..k], e[k..]);
    }
  }

  lemma FrameStartsWithMagic(f: Frame, k: nat)
    requires 2 <= k <= FrameSize(f)
    ensures MagicAt(Encode(f)[..k], 0) && FirstMagic(Encode(f)[..k]) == 0
  {
    hide Crc.Crc32, LE32, LE16;
    assert MagicAt(Encode(f)[..k], 0);
  }

  lemma PrefixIsKept(f: Frame, k: nat)
    requires Sendable(f) && MIN_FRAME_SIZE <= k < FrameSize(f)
    ensures Drain(Encode(f)[..k]) == Scanned([], 0, 0, Encode(f)[..k])
  {
    hide Classify, Encode, MagicAt, FirstMagic;
    var b := Encode(f)[..k];
    FrameStartsWithMagic(f, k);
    assert b[0..] == b;
    PrefixWaits(f, k);
  }

  /** A frame is emitted at some position of the stream. */
  lemma {:induction false} FrameHasPosition(s: seq<byte>, i: nat) returns (p: nat)
    requires i < |Scan(s).frames|
    ensures p <= |s| && StartsWithFrame(s[p..], Scan(s).frames[i])
    decreases |s|
  {
    hide Classify, Encode, Scan;
    ScanStep(s);
    match Classify(s)
    case Wait =>
    case Skip(_) =>
      p := FrameHasPosition(s[1..], i);
      assert s[1..][p..] == s[p + 1..];
      p := p + 1;
    case Accept(f) =>
      if i == 0 {
        p := 0;
        assert s[0..] == s;
      } else {
        var n := FrameSize(f);
        p := FrameHasPosition(s[n..], i - 1);
        assert s[n..][p..] == s[p + n..];
        p := p + n;
      }
  }

  /** The largest frame there is, with nothing in it. */
  const LARGEST: Frame := Frame(0, 0, ZeroBytes(8192))

  lemma LargestHasOneMagic(w: seq<byte>, i: nat)
    requires w == Encode(LARGEST)[1..] + ZeroBytes(4097) && i <= 4096
    ensures !MagicAt(w, i)
  {
    hide Crc.Crc32, ZeroBytes, ByteOf, Encode, Body;
    var e := Encode(LARGEST);
    HeaderFields(LARGEST, e);
    assert LE32(0) == [0, 0, 0, 0];
    ByteOfZero();
    assert w[i] == e[i + 1];
    if 3 <= i < 7 {
      assert e[i + 1] == e[4..8][i - 3];
    } else if i == 7 {
      assert e[8] == e[8..10][0] == ByteOf(8192 % 0x1_0000 % 0x100) == ByteOf(0);
    } else if i == 8 {
      assert w[9] == e[10] == e[10..10 + 8192][0];
    } else if i >= 9 {
      assert e[i + 1] == e[10..10 + 8192][i - 9];
    }
  }

  lemma ByteOfZero()
    ensures ByteOf(0) == 0
  {
    Words.WordOfZero(8);
  }

  lemma LargestIsLost()
    ensures LARGEST !in Scan(Encode(LARGEST)[1..] + ZeroBytes(4097)).frames
  {
    hide Encode, Scan, Classify, ZeroBytes, MagicAt;
    var w := Encode(LARGEST)[1..] + ZeroBytes(4097);
    if LARGEST in Scan(w).frames {
      var i :| 0 <= i < |Scan(w).frames| && Scan(w).frames[i] == LARGEST;
      var p := FrameHasPosition(w, i);
      StartsWithMagic(w[p..], LARGEST);
      MagicInSuffix(w, p);
      LargestHasOneMagic(w, p);
      assert false;
    }
  }

  lemma StartsWithMagic(s: seq<byte>, f: Frame)
    requires StartsWithFrame(s, f)
    ensures MagicAt(s, 0) && |s| >= FrameSize(f)
  {
    HeaderFields(f, s);
  }

  lemma MagicInSuffix(s: seq<byte>, p: nat)
    requires p <= |s| && MagicAt(s[p..], 0)
    ensures MagicAt(s, p)
  {
  }

  lemma LargestIsFirst(t: seq<byte>)
    ensures |Scan(Encode(LARGEST) + t).frames| > 0 && Scan(Encode(LARGEST) + t).frames[0] == LARGEST
  {
    hide Encode, Scan, Classify, ZeroBytes;
    PrinterIsAccepted(Encode(LARGEST) + t, LARGEST);
    ScanStep(Encode(LARGEST) + t);
  }

  lemma RunWithinFrame(f: Frame, i: nat, j: nat, later: seq<seq<byte>>)
    requires Sendable(f) && i <= j && MIN_FRAME_SIZE <= j < FrameSize(f)
    ensures Run(Encode(f)[..i], [Encode(f)[i..j]] + later).frames == Run(Encode(f)[..j], later).frames
  {
    hide Encode, Drain;
    var e := Encode(f);
    assert e[..i] + e[i..j] == e[..j];
    PrefixIsKept(f, j);
    assert ([e[i..j]] + later)[1..] == later;
    assert Run(e[..i], [e[i..j]] + later).frames == [] + Run(e[..j], later).frames;
  }

  lemma RunOneChunk(buffer: seq<byte>, chunk: seq<byte>)
    ensures Run(buffer, [chunk]).frames == Drain(Capped(buffer + chunk)).frames
  {
    hide Drain;
    var r := Drain(Capped(buffer + chunk));
    assert Run(r.rest, []).frames == [];
    assert r.frames + [] == r.frames;
  }

  /** The first 8205 bytes of a frame are held back whole. */
  lemma PrefixIsHeld(f: Frame, last: seq<byte>)
    requires FrameSize(f) == 8206
    ensures var e := Encode(f);
            Run([], [e[..4098]] + ([e[4098..8196]] + ([e[8196..8205]] + [last]))).frames
            == Run(e[..8205], [last]).frames
  {
    hide Encode, Run;
    var e := Encode(f);
    assert e[..0] == [] && e[0..4098] == e[..4098];
    RunWithinFrame(f, 0, 4098, [e[4098..8196]] + ([e[8196..8205]] + [last]));
    RunWithinFrame(f, 4098, 8196, [e[8196..8205]] + [last]);
    RunWithinFrame(f, 8196, 8205, [last]);
  }

  /** One byte too many cuts the magic off. */
  lemma FrontIsCut(e: seq<byte>, z: seq<byte>)
    requires |e| == 8206 && |z| == 4097
    ensures Run(e[..8205], [e[8205..] + z]).frames == Drain(e[1..] + z).frames
  {
    hide Drain, Run;
    RunOneChunk(e[..8205], e[8205..] + z);
    assert e[..8205] + (e[8205..] + z) == e + z;
    assert Capped(e + z) == (e + z)[1..] == e[1..] + z;
  }

  /** 8205 held bytes of a legitimate frame and one chunk of 4098: its first byte is cut. */
  lemma LargeChunkLosesFrame(n: nat)
    requires n >= 4098
    ensures !ChunksAreSafe(n)
  {
    hide Encode, Scan, Drain, Run, ZeroBytes, Flatten;
    var e, z := Encode(LARGEST), ZeroBytes(4097);
    var last := e[8205..] + z;
    var chunks := [e[..4098]] + ([e[4098..8196]] + ([e[8196..8205]] + [last]));
    PrefixIsHeld(LARGEST, last);
    FrontIsCut(e, z);
    DrainRefinesScan(e[1..] + z);
    LargestIsLost();
    LargestIsFirst(z);
    assert Flatten(chunks) == e + z by { FlattenFour(e[..4098], e[4098..8196], e[8196..8205], last); }
    assert AllWithin(chunks, n);
  }

  lemma FlattenFour(a: seq<byte>, b: seq<byte>, c: seq<byte>, d: seq<byte>)
    ensures Flatten([a] + ([b] + ([c] + [d]))) == a + b + c + d
  {
    assert ([a] + ([b] + ([c] + [d])))[1..] == [b] + ([c] + [d]);
    assert ([b] + ([c] + [d]))[1..] == [c] + [d];
    assert ([c] + [d])[1..] == [d];
    assert Flatten([d]) == d;
    assert Flatten([c] + [d]) == c + d;
    assert Flatten([b] + ([c] + [d])) == b + (c + d);
  }

  /** The serial reader's 4096 is one below the largest chunk size that is always safe. */
  lemma ChunkBoundIsExact(n: nat)
    ensures ChunksAreSafe(n) <==> n <= 4097
  {
    if n <= 4097 {
      forall chunks | AllWithin(chunks, n) ensures Run([], chunks).frames == Scan(Flatten(chunks)).frames {
        ChunkingIndependence(chunks);
      }
    } else {
      LargeChunkLosesFrame(n);
    }
  }
}
