/**
 What reading a byte stream means: one uncapped scan over all of it, position by position.
 At each position it accepts a frame and jumps past it, waits, or moves on by one byte.
 This is the reference that the incremental parser is proved against.
 */
module Scanner {
  import opened Bytes
  import opened Protocol
  import Crc

  /** Frames in order, rejected headers, bytes passed over, and the undecided remainder. */
  datatype Scanned = Scanned(frames: seq<Frame>, bad: nat, skipped: nat, rest: seq<byte>)

  /** One scan followed by another. */
  function Then(a: Scanned, b: Scanned): Scanned {
    Scanned(a.frames + b.frames, a.bad + b.bad, a.skipped + b.skipped, b.rest)
  }

  function PassOver(bad: bool): Scanned {
    Scanned([], if bad then 1 else 0, 1, [])
  }

  function Emit(f: Frame): Scanned {
    Scanned([f], 0, 0, [])
  }

  function Scan(s: seq<byte>): Scanned
    decreases |s|
  {
    match Classify(s)
    case Wait => Scanned([], 0, 0, s)
    case Skip(bad) => Then(PassOver(bad), Scan(s[1..]))
    case Accept(f) => Then(Emit(f), Scan(s[FrameSize(f)..]))
  }

  lemma ThenIsAssociative(a: Scanned, b: Scanned, c: Scanned)
    ensures Then(Then(a, b), c) == Then(a, Then(b, c))
  {
    assert (a.frames + b.frames) + c.frames == a.frames + (b.frames + c.frames);
  }

  lemma ScanStep(s: seq<byte>)
    ensures Classify(s).Wait? ==> Scan(s) == Scanned([], 0, 0, s)
    ensures Classify(s).Skip? ==> Scan(s) == Then(PassOver(Classify(s).bad), Scan(s[1..]))
    ensures Classify(s).Skip? ==> Scan(s).frames == Scan(s[1..]).frames
    ensures Classify(s).Accept? ==> Scan(s) == Then(Emit(Classify(s).frame), Scan(s[FrameSize(Classify(s).frame)..]))
  {
    hide Classify, Encode;
  }

  /** Scanning a longer stream goes on from the remainder of the shorter one. */
  lemma {:induction false} ScanAppend(s: seq<byte>, t: seq<byte>)
    ensures Scan(s + t) == Then(Scan(s), Scan(Scan(s).rest + t))
    decreases |s|
  {
    hide Classify, Encode, Scan;
    ScanStep(s);
    ScanStep(s + t);
    match Classify(s)
    case Wait =>
    case Skip(bad) =>
      DecisionIsFinal(s, t);
      assert (s + t)[1..] == s[1..] + t;
      ScanAppend(s[1..], t);
      ThenIsAssociative(PassOver(bad), Scan(s[1..]), Scan(Scan(s).rest + t));
    case Accept(f) =>
      DecisionIsFinal(s, t);
      var n := FrameSize(f);
      assert (s + t)[n..] == s[n..] + t;
      ScanAppend(s[n..], t);
      ThenIsAssociative(Emit(f), Scan(s[n..]), Scan(Scan(s).rest + t));
  }

  lemma {:induction false} RestIsUndecided(s: seq<byte>)
    ensures Classify(Scan(s).rest).Wait?
    ensures Scan(Scan(s).rest) == Scanned([], 0, 0, Scan(s).rest)
    decreases |s|
  {
    hide Classify, Encode;
    match Classify(s)
    case Wait =>
    case Skip(_) => RestIsUndecided(s[1..]);
    case Accept(f) =>
      RestIsUndecided(s[FrameSize(f)..]);
  }

  // ---- Conservation ------------------------------------------------------------------------

  function FrameBytes(frames: seq<Frame>): nat {
    if frames == [] then 0 else FrameSize(frames[0]) + FrameBytes(frames[1..])
  }

  lemma {:induction false} FrameBytesConcat(a: seq<Frame>, b: seq<Frame>)
    ensures FrameBytes(a + b) == FrameBytes(a) + FrameBytes(b)
  {
    hide Classify, Encode;
    if a == [] {
      assert a + b == b;
    } else {
      assert (a + b)[1..] == a[1..] + b;
      FrameBytesConcat(a[1..], b);
    }
  }

  /** Every byte is part of an emitted frame, passed over, or still held. */
  lemma {:induction false} ScanConservesBytes(s: seq<byte>)
    ensures |s| == FrameBytes(Scan(s).frames) + Scan(s).skipped + |Scan(s).rest|
    ensures Scan(s).bad <= Scan(s).skipped
    decreases |s|
  {
    hide Classify, Encode;
    match Classify(s)
    case Wait =>
    case Skip(_) =>
      ScanStep(s);
      ScanConservesBytes(s[1..]);
    case Accept(f) =>
      ScanConservesBytes(s[FrameSize(f)..]);
      assert Scan(s).frames[1..] == Scan(s[FrameSize(f)..]).frames;
  }

  // ---- Leftmost-greedy decomposition -----------------------------------------------------------

  /** The bytes passed over before a frame, and the frame. */
  datatype Piece = Piece(gap: seq<byte>, frame: Frame)

  /** None of the first k positions starts a frame, whatever bytes may follow s. */
  ghost predicate NoFrameBefore(s: seq<byte>, k: nat)
    requires k <= |s|
  {
    forall i, t, f :: 0 <= i < k ==> !StartsWithFrame(s[i..] + t, f)
  }

  /** s reads as gap, frame, gap, frame, ..., tail, rest, with no frame missed in any gap. */
  ghost predicate ReadsAs(s: seq<byte>, pieces: seq<Piece>, tail: seq<byte>, rest: seq<byte>)
    decreases |pieces|
  {
    if pieces == [] then
      s == tail + rest && NoFrameBefore(s, |tail|)
    else
      var g, e := pieces[0].gap, Encode(pieces[0].frame);
      && Sendable(pieces[0].frame)
      && g + e <= s
      && NoFrameBefore(s, |g|)
      && ReadsAs(s[|g + e|..], pieces[1..], tail, rest)
  }

  function FramesOf(pieces: seq<Piece>): (frames: seq<Frame>)
    ensures |frames| == |pieces|
  {
    if pieces == [] then [] else [pieces[0].frame] + FramesOf(pieces[1..])
  }

  /** How many of the first k positions have the magic standing at them. */
  function MagicsIn(s: seq<byte>, k: nat): nat
    requires k <= |s|
  {
    if k == 0 then 0
    else (if |s| > 1 && s[0] == 0xAA && s[1] == 0x55 then 1 else 0) + MagicsIn(s[1..], k - 1)
  }

  /** The magics in the gaps and the tail: headers that turned out to start no frame. */
  ghost function FalseStarts(s: seq<byte>, pieces: seq<Piece>, tail: seq<byte>, rest: seq<byte>): nat
    requires ReadsAs(s, pieces, tail, rest)
    decreases |pieces|
  {
    if pieces == [] then MagicsIn(s, |tail|)
    else
      var g, e := pieces[0].gap, Encode(pieces[0].frame);
      MagicsIn(s, |g|) + FalseStarts(s[|g + e|..], pieces[1..], tail, rest)
  }

  function GapBytes(pieces: seq<Piece>, tail: seq<byte>): nat {
    if pieces == [] then |tail| else |pieces[0].gap| + GapBytes(pieces[1..], tail)
  }

  lemma NoFrameOneEarlier(s: seq<byte>, k: nat)
    requires k < |s| && Classify(s).Skip? && NoFrameBefore(s[1..], k)
    ensures NoFrameBefore(s, k + 1)
  {
    hide Classify, Encode;
    forall i, t, f | 0 <= i < k + 1 ensures !StartsWithFrame(s[i..] + t, f) {
      if i == 0 {
        assert s[0..] == s;
        SkippedForever(s, t, f);
      } else {
        assert s[i..] == s[1..][i - 1..];
      }
    }
  }

  lemma OneMoreMagic(s: seq<byte>, k: nat)
    requires k < |s|
    ensures MagicsIn(s, k + 1) == (if |s| > 1 && s[0] == 0xAA && s[1] == 0x55 then 1 else 0) + MagicsIn(s[1..], k)
  {
  }

  /** A position that is passed over counts as bad exactly if the magic stands there. */
  lemma BadMeansMagic(s: seq<byte>)
    requires Classify(s).Skip?
    ensures Classify(s).bad <==> |s| > 1 && s[0] == 0xAA && s[1] == 0x55
  {
    hide HeaderOk, CrcOk, PayloadLength, Encode, Decode;
  }

  lemma WidenTail(s: seq<byte>, tail: seq<byte>, rest: seq<byte>) returns (tail': seq<byte>)
    requires Classify(s).Skip? && ReadsAs(s[1..], [], tail, rest)
    ensures ReadsAs(s, [], tail', rest) && GapBytes([], tail') == 1 + GapBytes([], tail)
    ensures FalseStarts(s, [], tail', rest)
         == (if Classify(s).bad then 1 else 0) + FalseStarts(s[1..], [], tail, rest)
  {
    BadMeansMagic(s);
    hide Classify, Encode, NoFrameBefore, MagicsIn;
    tail' := [s[0]] + tail;
    NoFrameOneEarlier(s, |tail|);
    OneMoreMagic(s, |tail|);
    assert s == tail' + rest;
  }

  lemma WidenFirst(s: seq<byte>, pieces: seq<Piece>, tail: seq<byte>, rest: seq<byte>) returns (pieces': seq<Piece>)
    requires pieces != [] && Classify(s).Skip? && ReadsAs(s[1..], pieces, tail, rest)
    ensures |pieces'| == |pieces| && pieces'[0].frame == pieces[0].frame && pieces'[1..] == pieces[1..]
    ensures |pieces'[0].gap| == 1 + |pieces[0].gap|
    ensures ReadsAs(s, pieces', tail, rest)
    ensures var n := |pieces[0].gap + Encode(pieces[0].frame)|; n <= |s[1..]| && s[1..][n..] == s[1 + n..]
  {
    hide Classify, Encode, NoFrameBefore;
    var p, g, e := pieces[0], pieces[0].gap, Encode(pieces[0].frame);
    var g' := [s[0]] + g;
    NoFrameOneEarlier(s, |g|);
    assert s == [s[0]] + s[1..];
    assert g' + e == [s[0]] + (g + e);
    assert g' + e <= s;
    assert s[1..][|g + e|..] == s[|g' + e|..];
    pieces' := [Piece(g', p.frame)] + pieces[1..];
    assert pieces'[1..] == pieces[1..];
  }

  lemma FalseStartsUnfold(s: seq<byte>, pieces: seq<Piece>, tail: seq<byte>, rest: seq<byte>, n: nat)
    requires pieces != [] && ReadsAs(s, pieces, tail, rest) && n == |pieces[0].gap| + FrameSize(pieces[0].frame)
    ensures n <= |s| && ReadsAs(s[n..], pieces[1..], tail, rest)
    ensures FalseStarts(s, pieces, tail, rest)
         == MagicsIn(s, |pieces[0].gap|) + FalseStarts(s[n..], pieces[1..], tail, rest)
  {
    hide Encode, NoFrameBefore, MagicsIn;
    assert |pieces[0].gap + Encode(pieces[0].frame)| == n;
  }

  lemma WiderFirst(pieces: seq<Piece>, pieces': seq<Piece>, tail: seq<byte>)
    requires pieces != [] && |pieces'| == |pieces| && pieces'[0].frame == pieces[0].frame
    requires pieces'[1..] == pieces[1..] && |pieces'[0].gap| == 1 + |pieces[0].gap|
    ensures FramesOf(pieces') == FramesOf(pieces) && GapBytes(pieces', tail) == 1 + GapBytes(pieces, tail)
  {
  }

  lemma CountFirst(s: seq<byte>, pieces: seq<Piece>, pieces': seq<Piece>, tail: seq<byte>, rest: seq<byte>)
    requires pieces != [] && |pieces'| == |pieces| && pieces'[0].frame == pieces[0].frame
    requires pieces'[1..] == pieces[1..] && |pieces'[0].gap| == 1 + |pieces[0].gap|
    requires Classify(s).Skip? && ReadsAs(s[1..], pieces, tail, rest) && ReadsAs(s, pieces', tail, rest)
    ensures FalseStarts(s, pieces', tail, rest)
         == (if Classify(s).bad then 1 else 0) + FalseStarts(s[1..], pieces, tail, rest)
  {
    hide Classify, Encode, MagicsIn, ReadsAs, FalseStarts;
    BadMeansMagic(s);
    var n := |pieces[0].gap| + FrameSize(pieces[0].frame);
    FalseStartsUnfold(s[1..], pieces, tail, rest, n);
    FalseStartsUnfold(s, pieces', tail, rest, 1 + n);
    assert s[1..][n..] == s[1 + n..];
    OneMoreMagic(s, |pieces[0].gap|);
  }

  lemma WidenFirstGap(s: seq<byte>, pieces: seq<Piece>, tail: seq<byte>, rest: seq<byte>)
    returns (pieces': seq<Piece>)
    requires pieces != [] && Classify(s).Skip? && ReadsAs(s[1..], pieces, tail, rest)
    ensures FramesOf(pieces') == FramesOf(pieces) && ReadsAs(s, pieces', tail, rest)
    ensures FalseStarts(s, pieces', tail, rest)
         == (if Classify(s).bad then 1 else 0) + FalseStarts(s[1..], pieces, tail, rest)
    ensures GapBytes(pieces', tail) == 1 + GapBytes(pieces, tail)
  {
    hide Classify, Encode, ReadsAs, FalseStarts, FramesOf, GapBytes;
    pieces' := WidenFirst(s, pieces, tail, rest);
    WiderFirst(pieces, pieces', tail);
    CountFirst(s, pieces, pieces', tail, rest);
  }

  /** A position that is passed over widens the first gap, or the tail if there is none. */
  lemma WidenGap(s: seq<byte>, pieces: seq<Piece>, tail: seq<byte>, rest: seq<byte>)
    returns (pieces': seq<Piece>, tail': seq<byte>)
    requires Classify(s).Skip? && ReadsAs(s[1..], pieces, tail, rest)
    ensures FramesOf(pieces') == FramesOf(pieces) && ReadsAs(s, pieces', tail', rest)
    ensures FalseStarts(s, pieces', tail', rest)
         == (if Classify(s).bad then 1 else 0) + FalseStarts(s[1..], pieces, tail, rest)
    ensures GapBytes(pieces', tail') == 1 + GapBytes(pieces, tail)
  {
    hide Classify, Encode, MagicsIn, ReadsAs, FalseStarts, FramesOf, GapBytes;
    pieces', tail' := pieces, tail;
    if pieces == [] {
      tail' := WidenTail(s, tail, rest);
    } else {
      pieces' := WidenFirstGap(s, pieces, tail, rest);
    }
  }

  /**
   The emitted frames are read off leftmost first; nothing that was skipped starts a frame;
   and the bad frames are the magics among what was skipped.
   */
  lemma {:induction false} LeftmostGreedy(s: seq<byte>) returns (pieces: seq<Piece>, tail: seq<byte>)
    ensures FramesOf(pieces) == Scan(s).frames
    ensures ReadsAs(s, pieces, tail, Scan(s).rest)
    ensures Scan(s).bad == FalseStarts(s, pieces, tail, Scan(s).rest) && Scan(s).skipped == GapBytes(pieces, tail)
    decreases |s|
  {
    hide Classify, Encode, Scan, ReadsAs, FalseStarts, FramesOf, GapBytes;
    ScanStep(s);
    match Classify(s)
    case Wait =>
      pieces, tail := [], [];
      NothingRead(s);
    case Skip(_) =>
      pieces, tail := LeftmostGreedy(s[1..]);
      pieces, tail := WidenGap(s, pieces, tail, Scan(s).rest);
    case Accept(f) =>
      var later: seq<Piece>;
      later, tail := LeftmostGreedy(s[FrameSize(f)..]);
      pieces := [Piece([], f)] + later;
      FrameRead(s, f, later, tail, Scan(s).rest);
  }

  lemma NothingRead(s: seq<byte>)
    ensures FramesOf([]) == [] && ReadsAs(s, [], [], s) && FalseStarts(s, [], [], s) == 0 && GapBytes([], []) == 0
  {
    assert s == [] + s;
  }

  lemma FrameRead(s: seq<byte>, f: Frame, later: seq<Piece>, tail: seq<byte>, rest: seq<byte>)
    requires StartsWithFrame(s, f) && ReadsAs(s[FrameSize(f)..], later, tail, rest)
    ensures var pieces := [Piece([], f)] + later;
            && ReadsAs(s, pieces, tail, rest)
            && FramesOf(pieces) == [f] + FramesOf(later)
            && FalseStarts(s, pieces, tail, rest) == FalseStarts(s[FrameSize(f)..], later, tail, rest)
            && GapBytes(pieces, tail) == GapBytes(later, tail)
  {
    hide Encode;
    var pieces := [Piece([], f)] + later;
    assert pieces[1..] == later;
    assert [] + Encode(f) == Encode(f);
  }

  lemma NoFrameOneLater(s: seq<byte>, k: nat)
    requires 0 < k <= |s| && NoFrameBefore(s, k)
    ensures NoFrameBefore(s[1..], k - 1)
  {
    forall i, t, f | 0 <= i < k - 1 ensures !StartsWithFrame(s[1..][i..] + t, f) {
      assert s[i + 1..] == s[1..][i..];
      assert !StartsWithFrame(s[i + 1..] + t, f);
    }
  }

  lemma NoFrameAtFront(s: seq<byte>, k: nat, f: Frame)
    requires 0 < k <= |s| && NoFrameBefore(s, k)
    ensures !StartsWithFrame(s, f)
  {
    assert s[0..] + [] == s;
    assert !StartsWithFrame(s[0..] + [], f);
  }

  /** The first gap (or the tail) without its first byte. */
  lemma NarrowGap(s: seq<byte>, pieces: seq<Piece>, tail: seq<byte>, rest: seq<byte>)
    returns (pieces': seq<Piece>, tail': seq<byte>)
    requires |s| > 0 && ReadsAs(s, pieces, tail, rest)
    requires if pieces == [] then tail != [] else pieces[0].gap != []
    ensures FramesOf(pieces') == FramesOf(pieces) && ReadsAs(s[1..], pieces', tail', rest)
  {
    hide Classify, Encode, NoFrameBefore;
    if pieces == [] {
      NoFrameOneLater(s, |tail|);
      pieces', tail' := [], tail[1..];
      assert s[1..] == tail' + rest;
    } else {
      var p, g, e := pieces[0], pieces[0].gap, Encode(pieces[0].frame);
      NoFrameOneLater(s, |g|);
      assert g + e == [g[0]] + (g[1..] + e);
      assert g[1..] + e <= s[1..];
      assert s[1..][|g[1..] + e|..] == s[|g + e|..];
      pieces', tail' := [Piece(g[1..], p.frame)] + pieces[1..], tail;
      assert pieces'[1..] == pieces[1..];
    }
  }

  /**
   There is no other honest reading: any way of splitting the stream into frames and
   frame-free gaps, up to an undecided remainder, begins with the emitted frames.
   */
  lemma {:induction false} EveryReadingBeginsWithScan(
    s: seq<byte>, pieces: seq<Piece>, tail: seq<byte>, rest: seq<byte>)
    requires ReadsAs(s, pieces, tail, rest) && Classify(rest).Wait?
    ensures Scan(s).frames <= FramesOf(pieces)
    decreases |s|
  {
    hide Classify, Encode, NoFrameBefore;
    ScanStep(s);
    if pieces == [] && tail == [] {
      assert s == rest;
    } else if pieces != [] && pieces[0].gap == [] {
      var g := pieces[0].frame;
      assert [] + Encode(g) == Encode(g);
      PrinterIsAccepted(s, g);
      EveryReadingBeginsWithScan(s[FrameSize(g)..], pieces[1..], tail, rest);
    } else {
      match Classify(s)
      case Wait =>
      case Skip(_) =>
        var pieces', tail' := NarrowGap(s, pieces, tail, rest);
        EveryReadingBeginsWithScan(s[1..], pieces', tail', rest);
      case Accept(f) =>
        NoFrameAtFront(s, if pieces == [] then |tail| else |pieces[0].gap|, f);
    }
  }

  // ---- Round trip ------------------------------------------------------------------------------

  function EncodeAll(frames: seq<Frame>): seq<byte> {
    if frames == [] then [] else Encode(frames[0]) + EncodeAll(frames[1..])
  }

  predicate AllSendable(frames: seq<Frame>) {
    forall i :: 0 <= i < |frames| ==> Sendable(frames[i])
  }

  lemma {:induction false} ScanOfEncoded(frames: seq<Frame>)
    requires AllSendable(frames)
    ensures Scan(EncodeAll(frames)) == Scanned(frames, 0, 0, [])
  {
    hide Classify, Encode;
    if frames != [] {
      var s, f := EncodeAll(frames), frames[0];
      PrinterIsAccepted(s, f);
      assert s[FrameSize(f)..] == EncodeAll(frames[1..]);
      ScanOfEncoded(frames[1..]);
      assert frames == [f] + frames[1..];
    }
  }

  lemma {:induction false} EmittedAreSendable(s: seq<byte>)
    ensures AllSendable(Scan(s).frames)
    decreases |s|
  {
    hide Classify, Encode;
    match Classify(s)
    case Wait =>
    case Skip(_) => EmittedAreSendable(s[1..]);
    case Accept(f) =>
      EmittedAreSendable(s[FrameSize(f)..]);
  }

  /** A list of frames survives the wire exactly when every payload fits. */
  lemma RoundTripIffSendable(frames: seq<Frame>)
    ensures Scan(EncodeAll(frames)) == Scanned(frames, 0, 0, []) <==> AllSendable(frames)
  {
    hide Classify, Encode;
    EmittedAreSendable(EncodeAll(frames));
    if AllSendable(frames) {
      ScanOfEncoded(frames);
    }
  }

  // ---- Resynchronisation -------------------------------------------------------------------------

  /** The scan of s accepts f at position p. */
  predicate EmitsAt(s: seq<byte>, p: nat, f: Frame)
    decreases |s|
  {
    match Classify(s)
    case Wait => false
    case Skip(_) => p > 0 && EmitsAt(s[1..], p - 1, f)
    case Accept(g) =>
      if p == 0 then f == g else p >= FrameSize(g) && EmitsAt(s[FrameSize(g)..], p - FrameSize(g), f)
  }

  lemma {:induction false} EmittedAtIsEmitted(s: seq<byte>, p: nat, f: Frame) returns (i: nat)
    requires EmitsAt(s, p, f)
    ensures i < |Scan(s).frames| && Scan(s).frames[i] == f
    ensures p <= |s| && StartsWithFrame(s[p..], f)
    decreases |s|
  {
    hide Classify, Encode;
    match Classify(s)
    case Skip(_) =>
      i := EmittedAtIsEmitted(s[1..], p - 1, f);
      assert s[p..] == s[1..][p - 1..];
    case Accept(g) =>
      if p == 0 {
        i := 0;
        assert s[0..] == s;
      } else {
        i := EmittedAtIsEmitted(s[FrameSize(g)..], p - FrameSize(g), f);
        i := i + 1;
        assert s[p..] == s[FrameSize(g)..][p - FrameSize(g)..];
      }
  }

  /** Some frame that starts before p reaches beyond p. */
  ghost predicate Straddled(s: seq<byte>, p: nat)
    requires p <= |s|
  {
    exists q, g :: 0 <= q < p && StartsWithFrame(s[q..], g) && p < q + FrameSize(g)
  }

  lemma NotStraddledFurtherOn(s: seq<byte>, p: nat, k: nat)
    requires k <= p <= |s| && !Straddled(s, p)
    ensures !Straddled(s[k..], p - k)
  {
    hide Encode, StartsWithFrame;
    forall q, g | 0 <= q < p - k && StartsWithFrame(s[k..][q..], g) ensures p - k >= q + FrameSize(g) {
      assert s[k..][q..] == s[k + q..];
    }
  }

  lemma EndsBefore(s: seq<byte>, p: nat, g: Frame)
    requires 0 < p <= |s| && StartsWithFrame(s, g) && !Straddled(s, p)
    ensures FrameSize(g) <= p
  {
    hide Encode, StartsWithFrame;
    assert s[0..] == s;
  }

  /** How many bytes from its own start on settle what happens to a frame. */
  const RESYNC_BYTES := MAX_FRAME_SIZE - 3

  /**
   A position that keeps the parser waiting in front of a frame has claimed the magic and
   the version, and the frame's first bytes fit none of its second and third: it is at
   least three positions away.
   */
  lemma WaitingIsNotNearby(s: seq<byte>, p: nat, f: Frame)
    requires 0 < p <= |s| && StartsWithFrame(s[p..], f) && Classify(s).Wait?
    ensures |s| < p + RESYNC_BYTES
  {
    hide Encode, Crc.Crc32, FromLE16, FromLE32, LE32, LE16;
    HeaderFields(f, s[p..]);
    assert s[p..][0] == s[p] == MAGIC0;
    assert p != 1;
    assert p != 2;
  }

  /**
   Whatever came before it, a frame at position p is emitted once 8203 bytes have arrived
   from p on, unless a valid frame straddles p.
   */
  lemma {:induction false} Resynchronises(s: seq<byte>, p: nat, f: Frame)
    requires p + RESYNC_BYTES <= |s| && StartsWithFrame(s[p..], f) && !Straddled(s, p)
    ensures EmitsAt(s, p, f)
    decreases p
  {
    hide Classify, Encode, Straddled, StartsWithFrame;
    if p == 0 {
      assert s[0..] == s;
      PrinterIsAccepted(s, f);
    } else {
      match Classify(s)
      case Wait => WaitingIsNotNearby(s, p, f);
      case Skip(_) =>
        assert s[1..][p - 1..] == s[p..];
        NotStraddledFurtherOn(s, p, 1);
        Resynchronises(s[1..], p - 1, f);
      case Accept(g) =>
        var n := FrameSize(g);
        EndsBefore(s, p, g);
        assert s[n..][p - n..] == s[p..];
        NotStraddledFurtherOn(s, p, n);
        Resynchronises(s[n..], p - n, f);
    }
  }

  /** n bytes from its start on are enough for any frame that nothing straddles, in any stream. */
  ghost predicate BytesSettle(n: nat) {
    forall s, p, f ::
      0 <= p <= |s| && p + n <= |s| && StartsWithFrame(s[p..], f) && !Straddled(s, p) ==> EmitsAt(s, p, f)
  }

  function ZeroBytes(n: nat): (z: seq<byte>)
    ensures |z| == n && forall i :: 0 <= i < n ==> z[i] == 0
  {
    seq(n, _ => 0)
  }

  /** Behind AA 55 02 its bytes read as the rest of a header that claims 8192 bytes of payload. */
  const MASKED: Frame := Frame(0, 0x0020_0000, ZeroBytes(8188))

  lemma MaskedKeepsWaiting(s: seq<byte>)
    requires s == [MAGIC0, MAGIC1, PROTOCOL_VERSION] + Encode(MASKED)
    ensures Classify(s).Wait?
  {
    hide Encode, Crc.Crc32, ZeroBytes, FromLE16;
    var e := Encode(MASKED);
    HeaderFields(MASKED, e);
    assert LE32(0x0020_0000) == [0, 0, 0x20, 0];
    assert s[8] == e[5] == e[4..8][1] && s[9] == e[6] == e[4..8][2];
    ClaimOf8192();
  }

  lemma ClaimOf8192()
    ensures FromLE16(0, 0x20) == 8192
  {
    assert ByteValue(0) == 0;
    assert ByteValue(0x20) == 0x20;
  }

  lemma FewerBytesDoNotSettle(n: nat)
    requires n < RESYNC_BYTES
    ensures !BytesSettle(n)
  {
    hide Encode, Classify, ZeroBytes;
    var s := [MAGIC0, MAGIC1, PROTOCOL_VERSION] + Encode(MASKED);
    MaskedKeepsWaiting(s);
    assert s[3..] == Encode(MASKED);
    if Straddled(s, 3) {
      var q, g :| 0 <= q < 3 && StartsWithFrame(s[q..], g) && 3 < q + FrameSize(g);
      MagicInFront(s[q..], g);
      assert s[q..][0] == s[q];
      assert s[0..] == s;
      PrinterIsAccepted(s, g);
    }
    assert !EmitsAt(s, 3, MASKED);
  }

  lemma MagicInFront(s: seq<byte>, f: Frame)
    requires StartsWithFrame(s, f)
    ensures |s| >= MIN_FRAME_SIZE && s[0] == MAGIC0
  {
    hide Encode;
    HeaderFields(f, s);
  }

  /** 8203 is exact: three bytes of noise in front of a frame can hold it back until then. */
  lemma ResyncBoundIsExact(n: nat)
    ensures BytesSettle(n) <==> n >= 8203
  {
    if n >= 8203 {
      forall s, p: nat, f | p + n <= |s| && StartsWithFrame(s[p..], f) && !Straddled(s, p) ensures EmitsAt(s, p, f) {
        Resynchronises(s, p, f);
      }
    } else {
      FewerBytesDoNotSettle(n);
    }
  }
}
