/**
 The serial reader thread: `reader_loop` feeding the parser and dispatching every frame,
 and what the bytes on the line mean for what is published.
 */
module Reader {
  import opened Bytes
  import opened Protocol
  import opened Scanner
  import opened FrameParser
  import opened ParserRuns
  import opened RxCommands

  /** The read buffer of the loop. */
  const READ_SIZE := 4096

  /** How one `read` ends: bytes, a timeout, or an I/O error. */
  datatype ReadResult = Data(bytes: seq<byte>) | Nothing | Fails

  /** One turn of the loop: whether an attempt to open would succeed, and what the read gives. */
  datatype Turn = Turn(opens: bool, read: ReadResult)

  predicate ReadFits(t: Turn) {
    t.read.Data? ==> |t.read.bytes| <= READ_SIZE
  }

  predicate AllFit(turns: seq<Turn>) {
    forall i :: 0 <= i < |turns| ==> ReadFits(turns[i])
  }

  // ---- What the loop does, turn by turn --------------------------------------------------------

  /** The port and the parser's buffer. */
  datatype Line = Line(open: bool, buffer: seq<byte>)

  function TakeTurn(l: Line, t: Turn): (Line, seq<Frame>) {
    if !l.open && !t.opens then (l, [])
    else
      var buffer := if l.open then l.buffer else [];
      match t.read
      case Nothing => (Line(true, buffer), [])
      case Fails => (Line(false, buffer), [])
      case Data(d) =>
        var r := Drain(Capped(buffer + d));
        (if d == [] then Line(true, buffer) else Line(true, r.rest), if d == [] then [] else r.frames)
  }

  function Dispatched(l: Line, turns: seq<Turn>): seq<Frame>
    decreases |turns|
  {
    if turns == [] then [] else TakeTurn(l, turns[0]).1 + Dispatched(TakeTurn(l, turns[0]).0, turns[1..])
  }

  class Bridge {
    var open: bool
    const parser: Parser
    const commands: CommandState

    ghost predicate Valid()
      reads this, commands
    {
      commands.Valid()
    }

    constructor (p: Params)
      requires p.Valid()
      ensures Valid() && fresh(parser) && fresh(commands) && !open && parser.buffer == []
      ensures commands.params == p && Joy(commands.axes, commands.buttons) == Centred(p) && commands.published == []
    {
      open := false;
      parser := new Parser();
      commands := new CommandState(p);
    }

    /** The loop, run for as many turns as `turns` supplies. */
    method ReaderLoop(turns: seq<Turn>, ghost history: seq<Frame>)
      requires Valid()
      requires Joy(commands.axes, commands.buttons) == JoyAfter(commands.params, history)
      requires commands.published == PublishedBy(commands.params, history)
      modifies this, parser, commands
      ensures Valid()
      ensures var all := history + Dispatched(Line(old(open), old(parser.buffer)), turns);
              && Joy(commands.axes, commands.buttons) == JoyAfter(commands.params, all)
              && commands.published == PublishedBy(commands.params, all)
    {
      hide Drain, React, TakeTurn;
      ghost var seen := history;
      for i := 0 to |turns|
        invariant Valid()
        invariant Joy(commands.axes, commands.buttons) == JoyAfter(commands.params, seen)
        invariant commands.published == PublishedBy(commands.params, seen)
        invariant seen + Dispatched(Line(open, parser.buffer), turns[i..])
               == history + Dispatched(Line(old(open), old(parser.buffer)), turns)
      {
        ghost var line := Line(open, parser.buffer);
        NextTurn(line, turns[i], turns[i..]);
        assert turns[i..][1..] == turns[i + 1..];
        var frames := OneTurn(turns[i]);
        seen := DispatchAll(frames, seen);
      }
      assert turns[|turns|..] == [];
      assert Dispatched(Line(open, parser.buffer), []) == [];
      assert seen + [] == seen;
    }

    /** Opening if need be, and one read fed to the parser. */
    method OneTurn(t: Turn) returns (frames: seq<Frame>)
      modifies this`open, parser
      ensures (Line(open, parser.buffer), frames) == TakeTurn(Line(old(open), old(parser.buffer)), t)
    {
      frames := [];
      if !open {
        if !t.opens {
          return;
        }
        open := true;
        parser.Reset();
      }
      match t.read
      case Nothing =>
      case Fails =>
        open := false;
      case Data(d) =>
        if |d| != 0 {
          frames := parser.Feed(d);
        }
    }

    method DispatchAll(frames: seq<Frame>, ghost history: seq<Frame>) returns (ghost seen: seq<Frame>)
      requires Valid()
      requires Joy(commands.axes, commands.buttons) == JoyAfter(commands.params, history)
      requires commands.published == PublishedBy(commands.params, history)
      modifies commands
      ensures Valid() && seen == history + frames
      ensures Joy(commands.axes, commands.buttons) == JoyAfter(commands.params, seen)
      ensures commands.published == PublishedBy(commands.params, seen)
    {
      hide React;
      seen := history;
      for i := 0 to |frames|
        invariant Valid() && seen == history + frames[..i]
        invariant Joy(commands.axes, commands.buttons) == JoyAfter(commands.params, seen)
        invariant commands.published == PublishedBy(commands.params, seen)
      {
        commands.DispatchFrame(frames[i]);
        assert (seen + [frames[i]])[..|seen|] == seen;
        seen := seen + [frames[i]];
      }
    }
  }

  lemma NextTurn(l: Line, t: Turn, turns: seq<Turn>)
    requires turns != [] && t == turns[0]
    ensures Dispatched(l, turns) == TakeTurn(l, t).1 + Dispatched(TakeTurn(l, t).0, turns[1..])
  {
  }

  // ---- What the bytes mean -----------------------------------------------------------------------

  /**
   The byte streams received, one for each time the port was opened; `current` is the one
   being received.  Only the bytes count here, not how the reads cut them up.
   */
  function Streams(open: bool, current: seq<byte>, turns: seq<Turn>): seq<seq<byte>>
    decreases |turns|
  {
    if turns == [] then [current]
    else if !open && !turns[0].opens then Streams(open, current, turns[1..])
    else
      var now := if open then current else [];
      var received := if turns[0].read.Data? then now + turns[0].read.bytes else now;
      (if open then [] else [current]) + Streams(!turns[0].read.Fails?, received, turns[1..])
  }

  /** The frames of each stream, in order. */
  function FramesIn(streams: seq<seq<byte>>): seq<Frame> {
    if streams == [] then [] else Scan(streams[0]).frames + FramesIn(streams[1..])
  }

  /** The parser has emitted every frame of the stream so far and holds what is undecided. */
  ghost predicate CaughtUp(current: seq<byte>, buffer: seq<byte>) {
    && |buffer| < MAX_FRAME_SIZE
    && Scan(buffer).frames == [] && Scan(buffer).bad == 0
    && Scan(buffer).rest == Scan(current).rest
  }

  lemma FeedCatchesUp(current: seq<byte>, buffer: seq<byte>, d: seq<byte>)
    requires CaughtUp(current, buffer) && |d| <= READ_SIZE
    ensures var r := Drain(Capped(buffer + d));
            CaughtUp(current + d, r.rest) && Scan(current + d).frames == Scan(current).frames + r.frames
  {
    hide Scan, Drain;
    var r := Drain(buffer + d);
    assert Capped(buffer + d) == buffer + d;
    ScanAppend(current, d);
    ScanAppend(buffer, d);
    DrainRefinesScan(buffer + d);
    assert [] + Scan(Scan(buffer).rest + d).frames == Scan(Scan(buffer).rest + d).frames;
    assert r.frames + [] == r.frames;
  }

  lemma CaughtUpFromScratch()
    ensures CaughtUp([], [])
  {
    NothingToScan();
  }

  lemma FramesInHead(s: seq<byte>, more: seq<seq<byte>>)
    ensures FramesIn([s] + more) == Scan(s).frames + FramesIn(more)
  {
    hide Scan;
    assert ([s] + more)[1..] == more;
  }

  /** The frames dispatched are those of one uncapped scan of each stream. */
  lemma {:induction false} DispatchedAreTheFrames(open: bool, current: seq<byte>, buffer: seq<byte>, turns: seq<Turn>)
    requires AllFit(turns) && (open ==> CaughtUp(current, buffer))
    ensures Scan(current).frames + Dispatched(Line(open, buffer), turns) == FramesIn(Streams(open, current, turns))
    decreases |turns|
  {
    hide Scan, CaughtUp, FramesIn, Capped, Drain;
    if turns == [] {
      FramesInHead(current, []);
      assert [current] + [] == [current];
      assert FramesIn([]) == [] by { NoStreams(); }
    } else {
      var t, rest := turns[0], turns[1..];
      var line, out := TakeTurn(Line(open, buffer), t).0, TakeTurn(Line(open, buffer), t).1;
      if !open && !t.opens {
        DispatchedAreTheFrames(open, current, buffer, rest);
      } else {
        var now, held := if open then current else [], if open then buffer else [];
        CaughtUpFromScratch();
        var received := if t.read.Data? then now + t.read.bytes else now;
        assert ReadFits(turns[0]);
        ReadCatchesUp(now, held, t, Line(open, buffer));
        DispatchedAreTheFrames(line.open, received, line.buffer, rest);
        FrameJoin(open, current, now, received, out, line, rest);
      }
    }
  }

  lemma ReadCatchesUp(now: seq<byte>, held: seq<byte>, t: Turn, l: Line)
    requires CaughtUp(now, held) && ReadFits(t) && held == (if l.open then l.buffer else []) && (l.open || t.opens)
    ensures var (line, out) := TakeTurn(l, t);
            var received := if t.read.Data? then now + t.read.bytes else now;
            && Scan(received).frames == Scan(now).frames + out
            && (line.open ==> CaughtUp(received, line.buffer))
  {
    hide Scan, Drain, CaughtUp;
    if t.read.Data? && t.read.bytes != [] {
      FeedCatchesUp(now, held, t.read.bytes);
    } else {
      assert now + [] == now;
      assert Scan(now).frames + [] == Scan(now).frames;
    }
  }

  lemma NoStreams()
    ensures FramesIn([]) == []
  {
  }

  lemma FrameJoin(open: bool, current: seq<byte>, now: seq<byte>, received: seq<byte>,
                  out: seq<Frame>, line: Line, rest: seq<Turn>)
    requires now == if open then current else []
    requires Scan(received).frames == Scan(now).frames + out
    requires Scan(received).frames + Dispatched(line, rest) == FramesIn(Streams(line.open, received, rest))
    ensures Scan(current).frames + (out + Dispatched(line, rest))
         == FramesIn((if open then [] else [current]) + Streams(line.open, received, rest))
  {
    hide Scan, Dispatched, Streams, FramesIn;
    var streams := Streams(line.open, received, rest);
    assert (Scan(now).frames + out) + Dispatched(line, rest) == Scan(now).frames + (out + Dispatched(line, rest));
    if open {
      assert [] + streams == streams;
    } else {
      NothingToScan();
      assert [] + (out + Dispatched(line, rest)) == out + Dispatched(line, rest);
      FramesInHead(current, streams);
    }
  }

  /**
   End to end: what the bridge publishes, and the Joy it ends with, depend only on the
   startup parameters and the bytes received between openings, not on read boundaries.
   */
  lemma PublicationsDependOnlyOnBytes(p: Params, a: seq<Turn>, b: seq<Turn>)
    requires p.Valid() && AllFit(a) && AllFit(b)
    requires Streams(false, [], a) == Streams(false, [], b)
    ensures Dispatched(Line(false, []), a) == Dispatched(Line(false, []), b) == FramesIn(Streams(false, [], a))
    ensures PublishedBy(p, Dispatched(Line(false, []), a)) == PublishedBy(p, FramesIn(Streams(false, [], b)))
    ensures JoyAfter(p, Dispatched(Line(false, []), a)) == JoyAfter(p, FramesIn(Streams(false, [], b)))
  {
    hide Scan, Dispatched, Streams, FramesIn, PublishedBy, JoyAfter;
    DispatchedAreTheFrames(false, [], [], a);
    DispatchedAreTheFrames(false, [], [], b);
    NothingToScan();
    assert [] + Dispatched(Line(false, []), a) == Dispatched(Line(false, []), a);
    assert [] + Dispatched(Line(false, []), b) == Dispatched(Line(false, []), b);
  }

  /** Commands sent intact over an open port are obeyed to the letter, however they are read. */
  lemma SentCommandsAreObeyed(p: Params, turns: seq<Turn>, sent: seq<Frame>)
    requires p.Valid() && AllFit(turns) && AllSendable(sent)
    requires Streams(false, [], turns) == [[], EncodeAll(sent)]
    ensures PublishedBy(p, Dispatched(Line(false, []), turns)) == PublishedBy(p, sent)
    ensures JoyAfter(p, Dispatched(Line(false, []), turns)) == JoyAfter(p, sent)
  {
    hide Dispatched, Streams, PublishedBy, JoyAfter, EncodeAll;
    PublicationsDependOnlyOnBytes(p, turns, turns);
    ScanOfEncoded(sent);
    NothingToScan();
    FramesInHead([], [EncodeAll(sent)]);
    FramesInHead(EncodeAll(sent), []);
    assert [[]] + [EncodeAll(sent)] == [[], EncodeAll(sent)];
    assert [EncodeAll(sent)] + [] == [EncodeAll(sent)];
    assert [] + (sent + []) == sent;
  }

  // ---- Behind noise ------------------------------------------------------------------------------

  lemma {:induction false} FramesInAt(streams: seq<seq<byte>>, i: nat, j: nat) returns (k: nat)
    requires i < |streams| && j < |Scan(streams[i]).frames|
    ensures k < |FramesIn(streams)| && FramesIn(streams)[k] == Scan(streams[i]).frames[j]
    decreases |streams|
  {
    hide Scan;
    if i == 0 {
      k := j;
    } else {
      k := FramesInAt(streams[1..], i - 1, j);
      k := k + |Scan(streams[0]).frames|;
    }
  }

  /** f stands at position `at` of the i-th stream received, unstraddled, with enough bytes behind it. */
  ghost predicate StandsInStream(turns: seq<Turn>, i: nat, at: nat, f: Frame) {
    && i < |Streams(false, [], turns)|
    && at + RESYNC_BYTES <= |Streams(false, [], turns)[i]|
    && StartsWithFrame(Streams(false, [], turns)[i][at..], f)
    && !Straddled(Streams(false, [], turns)[i], at)
  }

  /** Whatever noise came before it, such a frame is dispatched. */
  lemma FrameBehindNoiseIsDispatched(turns: seq<Turn>, i: nat, at: nat, f: Frame) returns (k: nat)
    requires AllFit(turns) && StandsInStream(turns, i, at, f)
    ensures k < |Dispatched(Line(false, []), turns)| && Dispatched(Line(false, []), turns)[k] == f
  {
    hide Scan, Dispatched, Streams, FramesIn, Straddled, StartsWithFrame, EmitsAt;
    var s := Streams(false, [], turns)[i];
    Resynchronises(s, at, f);
    var j := EmittedAtIsEmitted(s, at, f);
    k := FramesInAt(Streams(false, [], turns), i, j);
    DispatchedAreTheFrames(false, [], [], turns);
    NothingToScan();
    assert [] + Dispatched(Line(false, []), turns) == Dispatched(Line(false, []), turns);
  }

  lemma StopCentres(p: Params, j: Joy, f: Frame)
    requires p.Valid() && p.remoteControl && Fits(p, j) && StopsAll(f)
    ensures React(p, j, f) == (Centred(p), [KillswitchOut(true), JoyOut(Centred(p))])
  {
  }

  /**
   The emergency stop survives line noise: an active killswitch that stands unstraddled in
   what is received is dispatched, and at that point of the run it centres Joy, reports
   itself and publishes the centred message.
   */
  lemma KillswitchBehindNoiseStops(p: Params, turns: seq<Turn>, i: nat, at: nat, f: Frame) returns (k: nat)
    requires p.Valid() && p.remoteControl && StopsAll(f)
    requires AllFit(turns) && StandsInStream(turns, i, at, f)
    ensures var all := Dispatched(Line(false, []), turns);
            && k < |all| && all[k] == f
            && JoyAfter(p, all[..k + 1]) == Centred(p)
            && PublishedBy(p, all[..k + 1])
               == PublishedBy(p, all[..k]) + [KillswitchOut(true), JoyOut(Centred(p))]
  {
    k := FrameBehindNoiseIsDispatched(turns, i, at, f);
    hide Dispatched, StandsInStream, React, StopsAll;
    var all := Dispatched(Line(false, []), turns);
    assert all[..k + 1][..k] == all[..k];
    StopCentres(p, JoyAfter(p, all[..k]), f);
  }
}
