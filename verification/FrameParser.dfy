/**
 The incremental parser: `FrameParser::feed` with its buffer, its cap and its counter, and
 what any run of calls amounts to.
 */
module FrameParser {
  import opened Bytes
  import opened Crc
  import opened Protocol
  import opened Scanner

  /** Bytes the buffer may hold before `feed` starts dropping the oldest. */
  const MAX_BUFFERED := MAX_PAYLOAD + HEADER_SIZE + CRC_SIZE + 4096

  /** The buffer after the cap. */
  function Capped(b: seq<byte>): seq<byte> {
    if |b| > MAX_BUFFERED then b[|b| - MAX_BUFFERED..] else b
  }

  predicate MagicAt(b: seq<byte>, i: nat) {
    i + 1 < |b| && b[i] == MAGIC0 && b[i + 1] == MAGIC1
  }

  /** The first position of the magic, or |b| if there is none. */
  function FirstMagic(b: seq<byte>): (start: nat)
    ensures start == |b| || (start < |b| && MagicAt(b, start))
    ensures forall i :: 0 <= i < start ==> !MagicAt(b, i)
  {
    if |b| < 2 then |b|
    else if MagicAt(b, 0) then 0
    else
      var r := FirstMagic(b[1..]);
      assert forall i :: 1 <= i ==> MagicAt(b, i) == MagicAt(b[1..], i - 1);
      1 + r
  }

  /** What the loop of `feed` makes of the buffer, buffer for buffer. */
  function Drain(b: seq<byte>): (r: Scanned)
    ensures |r.rest| < MAX_FRAME_SIZE
    decreases |b|
  {
    if |b| < MIN_FRAME_SIZE then Scanned([], 0, 0, b)
    else
      var start := FirstMagic(b);
      if start == |b| then Scanned([], 0, |b| - 1, b[|b| - 1..])
      else
        var c := b[start..];
        match Classify(c)
        case Wait => Scanned([], 0, start, c)
        case Skip(_) => Then(Scanned([], 1, start + 1, []), Drain(c[1..]))
        case Accept(f) => Then(Scanned([f], 0, start, []), Drain(c[FrameSize(f)..]))
  }

  /** The checks of the loop body, in the order the source makes them. */
  lemma ClassifySteps(b: seq<byte>, c: seq<byte>)
    requires FirstMagic(b) < |b| && c == b[FirstMagic(b)..]
    ensures |c| < MIN_FRAME_SIZE ==> Classify(c).Wait?
    ensures |c| >= MIN_FRAME_SIZE ==>
      var total := HEADER_SIZE + PayloadLength(c) + CRC_SIZE;
      if c[2] != PROTOCOL_VERSION || PayloadLength(c) > MAX_PAYLOAD then Classify(c) == Skip(true)
      else if |c| < total then Classify(c).Wait?
      else
        var raw, n := c[..total], total - CRC_SIZE;
        Classify(c) == if Crc32(raw[..n]) != FromLE32(raw[n..]) then Skip(true)
                       else Accept(Frame(raw[3], FromLE32(raw[4..8]), raw[HEADER_SIZE..n]))
  {
    hide Crc32, FromLE32, FromLE16, Encode, StartsWithFrame, FirstMagic;
    assert MagicAt(b, FirstMagic(b));
  }

  /** The loop of `feed` has produced `done` and still has to drain b. */
  ghost predicate OnTheWay(done: Scanned, b: seq<byte>, goal: Scanned) {
    Then(done, Drain(b)) == goal
  }

  lemma Begin(b: seq<byte>)
    ensures OnTheWay(Scanned([], 0, 0, []), b, Drain(b))
  {
    hide Drain;
    assert [] + Drain(b).frames == Drain(b).frames;
  }

  lemma StopWithoutMagic(done: Scanned, b: seq<byte>, goal: Scanned)
    requires OnTheWay(done, b, goal) && |b| >= MIN_FRAME_SIZE && FirstMagic(b) == |b|
    ensures goal == Scanned(done.frames, done.bad, done.skipped + |b| - 1, b[|b| - 1..])
  {
  }

  lemma StopShort(done: Scanned, b: seq<byte>, goal: Scanned)
    requires OnTheWay(done, b, goal) && |b| < MIN_FRAME_SIZE
    ensures goal == done.(rest := b)
  {
  }

  lemma StopWaiting(done: Scanned, b: seq<byte>, start: nat, goal: Scanned)
    requires OnTheWay(done, b, goal) && |b| >= MIN_FRAME_SIZE && start == FirstMagic(b) < |b|
    requires Classify(b[start..]).Wait?
    ensures goal == Scanned(done.frames, done.bad, done.skipped + start, b[start..])
  {
    hide Classify;
  }

  lemma DrainUnfold(b: seq<byte>, start: nat)
    requires |b| >= MIN_FRAME_SIZE && start == FirstMagic(b) < |b|
    ensures var c := b[start..];
            && (Classify(c).Wait? ==> Drain(b) == Scanned([], 0, start, c))
            && (Classify(c).Skip? ==> Drain(b) == Then(Scanned([], 1, start + 1, []), Drain(c[1..])))
            && (Classify(c).Accept? ==>
                Drain(b) == Then(Scanned([Classify(c).frame], 0, start, []), Drain(c[FrameSize(Classify(c).frame)..])))
  {
    hide Classify, Encode, Then;
  }

  lemma PassBad(done: Scanned, b: seq<byte>, start: nat, goal: Scanned)
    requires OnTheWay(done, b, goal) && |b| >= MIN_FRAME_SIZE && start == FirstMagic(b) < |b|
    requires Classify(b[start..]).Skip?
    ensures OnTheWay(done.(bad := done.bad + 1, skipped := done.skipped + start + 1), b[start..][1..], goal)
  {
    hide Classify, Drain, FirstMagic;
    DrainUnfold(b, start);
    ThenIsAssociative(done, Scanned([], 1, start + 1, []), Drain(b[start..][1..]));
    assert done.frames + [] == done.frames;
  }

  lemma TakeFrame(done: Scanned, b: seq<byte>, start: nat, f: Frame, goal: Scanned)
    requires OnTheWay(done, b, goal) && |b| >= MIN_FRAME_SIZE && start == FirstMagic(b) < |b|
    requires Classify(b[start..]) == Accept(f)
    ensures FrameSize(f) <= |b[start..]|
    ensures OnTheWay(done.(frames := done.frames + [f], skipped := done.skipped + start),
                     b[start..][FrameSize(f)..], goal)
  {
    hide Classify, Drain, FirstMagic, Encode;
    DrainUnfold(b, start);
    ThenIsAssociative(done, Scanned([f], 0, start, []), Drain(b[start..][FrameSize(f)..]));
  }

  class Parser {
    var buffer: seq<byte>
    var badFrames: nat

    constructor ()
      ensures buffer == [] && badFrames == 0
    {
      buffer, badFrames := [], 0;
    }

    method Reset()
      modifies this
      ensures buffer == [] && badFrames == 0
    {
      buffer, badFrames := [], 0;
    }

    method Feed(data: seq<byte>) returns (frames: seq<Frame>)
      modifies this
      ensures var r := Drain(Capped(old(buffer) + data));
              frames == r.frames && buffer == r.rest && badFrames == old(badFrames) + r.bad
    {
      hide Classify, Encode, StartsWithFrame, Crc32, FromLE32, PayloadLength, Drain, OnTheWay, FirstMagic, MagicAt;
      buffer := buffer + data;
      PopFrontDownTo(MAX_BUFFERED);
      ghost var goal := Drain(buffer);
      ghost var done := Scanned([], 0, 0, []);
      assert OnTheWay(done, buffer, goal) by { Begin(buffer); }
      frames := [];
      while |buffer| >= MIN_FRAME_SIZE
        invariant frames == done.frames && badFrames == old(badFrames) + done.bad
        invariant OnTheWay(done, buffer, goal)
        decreases |buffer|
      {
        ghost var before := buffer;
        var start := FindMagic();
        if start == |buffer| {
          PopFrontDownTo(1);
          StopWithoutMagic(done, before, goal);
          return;
        }
        if start > 0 {
          buffer := buffer[start..];
        }
        ClassifySteps(before, buffer);
        if |buffer| < MIN_FRAME_SIZE {
          StopWaiting(done, before, start, goal);
          return;
        }
        if buffer[2] != PROTOCOL_VERSION || PayloadLength(buffer) > MAX_PAYLOAD {
          PassBad(done, before, start, goal);
          done := done.(bad := done.bad + 1, skipped := done.skipped + start + 1);
          buffer := buffer[1..];
          badFrames := badFrames + 1;
          continue;
        }
        var total := HEADER_SIZE + PayloadLength(buffer) + CRC_SIZE;
        if |buffer| < total {
          StopWaiting(done, before, start, goal);
          return;
        }
        var raw := buffer[..total];
        if Crc32(raw[..total - CRC_SIZE]) != FromLE32(raw[total - CRC_SIZE..]) {
          PassBad(done, before, start, goal);
          done := done.(bad := done.bad + 1, skipped := done.skipped + start + 1);
          buffer := buffer[1..];
          badFrames := badFrames + 1;
          continue;
        }
        var frame := Frame(raw[3], FromLE32(raw[4..8]), raw[HEADER_SIZE..total - CRC_SIZE]);
        TakeFrame(done, before, start, frame, goal);
        done := done.(frames := done.frames + [frame], skipped := done.skipped + start);
        frames := frames + [frame];
        buffer := buffer[total..];
      }
      StopShort(done, buffer, goal);
    }

    /** `while (buffer_.size() > limit) buffer_.pop_front()`, which the source writes twice. */
    method PopFrontDownTo(limit: nat)
      modifies this`buffer
      ensures buffer == if |old(buffer)| > limit then old(buffer)[|old(buffer)| - limit..] else old(buffer)
    {
      ghost var before := buffer;
      while |buffer| > limit
        invariant |buffer| <= |before| && buffer == before[|before| - |buffer|..]
        invariant |buffer| < limit ==> buffer == before
      {
        buffer := buffer[1..];
      }
    }

    /** The hunt for the magic. */
    method FindMagic() returns (start: nat)
      ensures start == FirstMagic(buffer)
    {
      for i := 0 to |buffer|
        invariant forall j :: 0 <= j < i ==> !MagicAt(buffer, j)
      {
        if i + 1 < |buffer| && buffer[i] == MAGIC0 && buffer[i + 1] == MAGIC1 {
          assert MagicAt(buffer, i);
          return i;
        }
      }
      start := |buffer|;
    }
  }
}
