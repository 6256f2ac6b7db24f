/** What the transmit side leaves on the wire, and what the ground makes of it. */
module TxWire {
  import opened Bytes
  import opened Protocol
  import opened Sequence
  import opened Scanner
  import opened ParserRuns
  import opened Telemetry
  import opened Transport
  import opened TxModel
  import opened TxGuarantees
  import opened TxRequests

  // ---- The wire ----------------------------------------------------------------------------------------

  function AttemptsOf(tries: seq<Try>): (a: seq<Attempt>)
    ensures |a| == |tries|
    ensures forall i :: 0 <= i < |tries| ==> a[i] == Attempt(FrameOf(tries[i].ticket), tries[i].transfer.count)
  {
    seq(|tries|, i requires 0 <= i < |tries| => Attempt(FrameOf(tries[i].ticket), tries[i].transfer.count))
  }

  predicate Consistent(tries: seq<Try>) {
    forall i :: 0 <= i < |tries| ==>
      && tries[i].transfer.count <= FrameSize(FrameOf(tries[i].ticket))
      && (tries[i].transfer.result == Sent <==> tries[i].transfer.count == FrameSize(FrameOf(tries[i].ticket)))
  }

  lemma ConsistentStep(s: TxState, e: Event)
    requires Consistent(s.tries)
    ensures Consistent(Step(s, e).tries)
  {
    hide IsGga, Trim, EncodedTelemetry, EncodedAutonomyStatus, Push, Pop, Transmit, Wrapped;
  }

  lemma {:induction false} TriesAreConsistent(events: seq<Event>)
    ensures Consistent(After(events).tries)
    ensures AllPossible(AttemptsOf(After(events).tries))
    decreases |events|
  {
    hide Step, Exec, FrameOf;
    if events == [] {
      ExecStep(INITIAL, []);
    } else {
      TriesAreConsistent(events[..|events| - 1]);
      LastStep(events);
      ConsistentStep(After(events[..|events| - 1]), events[|events| - 1]);
    }
  }

  /** The wire after a run: what `write_frame` got out of each frame, in order. */
  function WireAfter(events: seq<Event>): seq<byte> {
    TriesAreConsistent(events);
    Wire(AttemptsOf(After(events).tries))
  }

  /** What was on the wire before try i. */
  function WireBefore(events: seq<Event>, i: nat): seq<byte>
    requires i <= |After(events).tries|
  {
    TriesAreConsistent(events);
    Wire(AttemptsOf(After(events).tries)[..i])
  }

  /** Try i was reported sent, nothing straddles its start, and enough bytes follow. */
  ghost predicate Settled(events: seq<Event>, i: nat) {
    && i < |After(events).tries|
    && After(events).tries[i].transfer.result == Sent
    && |WireBefore(events, i)| + RESYNC_BYTES <= |WireAfter(events)|
    && !Straddled(WireAfter(events), |WireBefore(events, i)|)
  }

  // ---- Which frames fit ------------------------------------------------------------------------------

  lemma {:induction false} StatusIsShort(events: seq<Event>)
    ensures forall p :: p in StatusPayloads(events) ==> |p| == 2
  {
    if events != [] {
      StatusIsShort(events[1..]);
    }
  }

  lemma {:induction false} GgaIsASentence(events: seq<Event>)
    ensures forall p :: p in GgaPayloads(events) ==> exists e :: e in events && e.Nmea? && p == Trim(e.raw)
  {
    hide Trim, IsGga;
    if events != [] {
      GgaIsASentence(events[1..]);
    }
  }

  lemma PayloadOf(ts: seq<Ticket>, t: Ticket)
    requires t in ts
    ensures t.payload in Payloads(ts)
  {
    var i :| 0 <= i < |ts| && ts[i] == t;
    assert Payloads(ts)[i] == t.payload;
  }

  /** Status and telemetry always fit into a frame; a GGA frame carries one of the sentences received. */
  lemma TriedPayloads(events: seq<Event>, i: nat)
    requires i < |After(events).tries|
    ensures var t := After(events).tries[i].ticket;
            && (t.kind == AUTONOMY_STATUS ==> |t.payload| == 2)
            && (t.kind == TELEMETRY ==> |t.payload| == 59 && t in BuiltTickets(After(events).built))
            && (t.kind == GGA ==> exists e :: e in events && e.Nmea? && t.payload == Trim(e.raw))
            && (t.kind == AUTONOMY_STATUS || t.kind == GGA || t.kind == TELEMETRY)
  {
    hide Exec, Known, Trim, Accounted, Numbered, Tried, Popped, Ascending, SlotIsNews, EncodedTelemetry;
    var s := After(events);
    var t := s.tries[i].ticket;
    KnownAndApart(events);
    AfterInv(events);
    KindOfKnown(s, t);
    QueueHistory(events);
    if t.kind == AUTONOMY_STATUS {
      PayloadOf(s.status.pushed, t);
      StatusIsShort(events);
    } else if t.kind == GGA {
      PayloadOf(s.gga.pushed, t);
      GgaIsASentence(events);
    } else {
      var k :| 0 <= k < |s.built| && BuiltTickets(s.built)[k] == t;
      assert s.built[k] in s.built;
    }
  }

  // ---- What arrives ----------------------------------------------------------------------------------

  /**
   The whole transmit path under adversarial writes: a frame whose `write_frame` returned
   true is emitted by the parser on the ground, however the wire is read there, unless a
   valid frame straddles its start, once 8203 bytes follow from there.  Only a GGA frame
   can be too long for that.
   */
  lemma SentFrameReachesGround(events: seq<Event>, i: nat, chunks: seq<seq<byte>>) returns (k: nat)
    requires Settled(events, i)
    requires var t := After(events).tries[i].ticket; t.kind == GGA ==> |t.payload| <= MAX_PAYLOAD
    requires Flatten(chunks) == WireAfter(events) && AllWithin(chunks, 4097)
    ensures EmitsAt(WireAfter(events), |WireBefore(events, i)|, FrameOf(After(events).tries[i].ticket))
    ensures k < |Run([], chunks).frames| && Run([], chunks).frames[k] == FrameOf(After(events).tries[i].ticket)
  {
    TriedPayloads(events, i);
    assert Sendable(FrameOf(After(events).tries[i].ticket));
    hide Exec, FrameOf, Wire, Straddled, Run, Flatten, EmitsAt;
    TriesAreConsistent(events);
    k := WholeFramesArrive(AttemptsOf(After(events).tries), i, chunks);
  }

  /** Whatever is on the wire and however it is read, a frame that is too long never comes out. */
  lemma LongFrameNeverArrives(f: Frame, chunks: seq<seq<byte>>)
    requires !Sendable(f) && AllWithin(chunks, 4097)
    ensures f !in Run([], chunks).frames
  {
    hide Run, Scan, Flatten, Sendable;
    ChunkingIndependence(chunks);
    EmittedAreSendable(Flatten(chunks));
  }

  /** So a GGA frame that was reported sent arrives exactly if its sentence has at most 8192 bytes. */
  lemma SentenceArrivesIffShort(events: seq<Event>, i: nat, chunks: seq<seq<byte>>)
    requires Settled(events, i) && After(events).tries[i].ticket.kind == GGA
    requires Flatten(chunks) == WireAfter(events) && AllWithin(chunks, 4097)
    ensures FrameOf(After(events).tries[i].ticket) in Run([], chunks).frames
       <==> |After(events).tries[i].ticket.payload| <= MAX_PAYLOAD
  {
    hide Exec, Wire, Straddled, Run, Flatten, EmitsAt, WireBefore, Wrapped;
    if |After(events).tries[i].ticket.payload| <= MAX_PAYLOAD {
      var k := SentFrameReachesGround(events, i, chunks);
    } else {
      LongFrameNeverArrives(FrameOf(After(events).tries[i].ticket), chunks);
    }
  }

  /**
   Telemetry end to end: a telemetry frame reported sent comes out at the far end, and
   decodes to the cache as it stood at one particular tick of the telemetry timer, when
   every source had delivered.
   */
  lemma TelemetryReachesGround(events: seq<Event>, i: nat, chunks: seq<seq<byte>>) returns (k: nat, at: nat)
    requires Settled(events, i) && After(events).tries[i].ticket.kind == TELEMETRY
    requires Flatten(chunks) == WireAfter(events) && AllWithin(chunks, 4097)
    ensures at < |events| && events[at] == TelemetryTick && AllSourcesIn(events[..at])
    ensures k < |Run([], chunks).frames|
    ensures var f := Run([], chunks).frames[k];
            && f.packetType == 1 && |f.payload| == 59
            && DecodedTelemetry(f.payload) == After(events[..at]).cache
  {
    hide Exec, Wire, Straddled, Run, Flatten, EmitsAt, WireBefore, AllSourcesIn, Scan, Encode, DecodedTelemetry;
    hide Wrapped;
    TriedPayloads(events, i);
    k := SentFrameReachesGround(events, i, chunks);
    var t := After(events).tries[i].ticket;
    var b :| 0 <= b < |After(events).built| && BuiltTickets(After(events).built)[b] == t;
    at := TelemetryFidelity(events, b);
  }

  /**
   Status end to end: the r-th status frame, if reported sent, tells the ground what the
   r-th response said: in the first byte whether the change was accepted, in the second
   whether the mode is AUTO.
   */
  lemma StatusReachesGround(events: seq<Event>, i: nat, chunks: seq<seq<byte>>) returns (k: nat, at: nat, r: nat)
    requires Settled(events, i) && After(events).tries[i].ticket.kind == AUTONOMY_STATUS
    requires Flatten(chunks) == WireAfter(events) && AllWithin(chunks, 4097)
    ensures r < |After(events).status.pushed| && After(events).status.pushed[r] == After(events).tries[i].ticket
    ensures at < |events| && events[at].ModeResponse? && |StatusPayloads(events[..at])| == r
    ensures k < |Run([], chunks).frames|
    ensures var f := Run([], chunks).frames[k];
            && f.packetType == 10 && |f.payload| == 2
            && (f.payload[0] != 0 <==> events[at].accepted) && (f.payload[1] != 0 <==> events[at].auto)
  {
    hide Exec, Wire, Straddled, Run, Flatten, EmitsAt, WireBefore, Encode, Wrapped, Known, Inv, StatusPayloads;
    TriedPayloads(events, i);
    k := SentFrameReachesGround(events, i, chunks);
    var s := After(events);
    var t := s.tries[i].ticket;
    KnownAndApart(events);
    AfterInv(events);
    KindOfKnown(s, t);
    r :| 0 <= r < |s.status.pushed| && s.status.pushed[r] == t;
    QueueHistory(events);
    at := ResponseOfStatus(events, r);
    assert Payloads(s.status.pushed)[r] == t.payload;
  }

  // ---- A sentence that is too long -------------------------------------------------------------------

  const LONG_SENTENCE: seq<byte> := DOLLAR_GP + seq(8187, _ => 0x41)

  lemma NothingToTrim(s: seq<byte>)
    requires s != [] && !IsBlank(s[0]) && !IsBlank(s[|s| - 1])
    ensures Trim(s) == s
  {
  }

  lemma LongSentenceIsQueued()
    ensures |LONG_SENTENCE| == 8193 && Trim(LONG_SENTENCE) == LONG_SENTENCE && IsGga(LONG_SENTENCE)
  {
    assert DOLLAR_GP <= LONG_SENTENCE;
    NothingToTrim(LONG_SENTENCE);
  }

  /**
   The node does not guard against it: this sentence is accepted, queued and written out
   whole, `write_frame` returns true, and the receiver finds no such frame on the wire.
   */
  lemma LongSentenceIsLost()
    ensures var t := Ticket(0, GGA, LONG_SENTENCE);
            var events := [Nmea(LONG_SENTENCE), TxTick(true, [Took(8207)])];
            && After([Nmea(LONG_SENTENCE)]).gga.held == [t]
            && After(events).tries == [Try(t, Transfer(8207, Sent))]
            && WireAfter(events) == Encode(FrameOf(t))
            && FrameOf(t) !in Scan(WireAfter(events)).frames
  {
    hide LONG_SENTENCE, Trim, IsGga, Encode, Scan, Wrapped;
    LongSentenceIsQueued();
    var t := Ticket(0, GGA, LONG_SENTENCE);
    var events := [Nmea(LONG_SENTENCE), TxTick(true, [Took(8207)])];
    assert events[..1] == [Nmea(LONG_SENTENCE)];
    LastStep(events[..1]);
    LastStep(events);
    assert After([]) == INITIAL;
    assert Attempted(t, true, [Took(8207)]) == Try(t, Transfer(8207, Sent));
    assert Encode(FrameOf(t))[..8207] == Encode(FrameOf(t));
    WireOfOne(Try(t, Transfer(8207, Sent)));
    EmittedAreSendable(WireAfter(events));
  }

  lemma WireOfOne(t: Try)
    requires t.transfer.count == FrameSize(FrameOf(t.ticket))
    ensures AllPossible(AttemptsOf([t])) && Wire(AttemptsOf([t])) == Encode(FrameOf(t.ticket))
  {
    hide Encode, FrameOf;
    assert AttemptsOf([t])[..0] == [];
  }
}
