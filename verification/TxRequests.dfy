/** What the incoming events put into the transmit queues, byte for byte. */
module TxRequests {
  import opened Bytes
  import Sequence
  import Telemetry
  import Words
  import opened TxModel
  import opened TxGuarantees

  /** Space, tab, carriage return, line feed. */
  predicate AllBlank(s: seq<byte>) {
    forall i :: 0 <= i < |s| ==> s[i] == 0x20 || s[i] == 0x09 || s[i] == 0x0D || s[i] == 0x0A
  }

  /** Nothing to trim at either end. */
  predicate Bare(s: seq<byte>) {
    s == [] || (!AllBlank([s[0]]) && !AllBlank([s[|s| - 1]]))
  }

  lemma BlankIs(b: byte)
    ensures IsBlank(b) <==> AllBlank([b])
  {
    assert [b][0] == b;
  }

  lemma {:induction false} FrontMeaning(s: seq<byte>) returns (a: seq<byte>)
    ensures s == a + TrimFront(s) && AllBlank(a)
    ensures TrimFront(s) != [] ==> !IsBlank(TrimFront(s)[0])
  {
    a := [];
    if s != [] && IsBlank(s[0]) {
      a := FrontMeaning(s[1..]);
      a := [s[0]] + a;
    }
  }

  lemma {:induction false} BackMeaning(s: seq<byte>) returns (b: seq<byte>)
    ensures s == TrimBack(s) + b && AllBlank(b)
    ensures TrimBack(s) != [] ==> !IsBlank(TrimBack(s)[|TrimBack(s)| - 1])
  {
    b := [];
    if s != [] && IsBlank(s[|s| - 1]) {
      b := BackMeaning(s[..|s| - 1]);
      b := b + [s[|s| - 1]];
    }
  }

  /** Trimming takes blanks off both ends, all of them, and nothing else. */
  lemma TrimMeaning(s: seq<byte>) returns (a: seq<byte>, b: seq<byte>)
    ensures s == a + Trim(s) + b && AllBlank(a) && AllBlank(b) && Bare(Trim(s))
  {
    hide TrimFront, TrimBack, AllBlank, IsBlank;
    a := FrontMeaning(s);
    b := BackMeaning(TrimFront(s));
    var t := Trim(s);
    if t != [] {
      assert t[0] == TrimFront(s)[0];
      BlankIs(t[0]);
      BlankIs(t[|t| - 1]);
    }
  }

  lemma {:induction false} BlankFrontGoes(a: seq<byte>, s: seq<byte>)
    requires AllBlank(a)
    ensures TrimFront(a + s) == TrimFront(s)
  {
    if a == [] {
      assert a + s == s;
    } else {
      assert (a + s)[1..] == a[1..] + s;
      BlankFrontGoes(a[1..], s);
    }
  }

  lemma {:induction false} BlankBackGoes(s: seq<byte>, b: seq<byte>)
    requires AllBlank(b)
    ensures TrimBack(s + b) == TrimBack(s)
    decreases |b|
  {
    if b == [] {
      assert s + b == s;
    } else {
      assert (s + b)[..|s + b| - 1] == s + b[..|b| - 1];
      BlankBackGoes(s, b[..|b| - 1]);
    }
  }

  /** There is only one way to do that. */
  lemma TrimIsUnique(a: seq<byte>, t: seq<byte>, b: seq<byte>)
    requires AllBlank(a) && AllBlank(b) && Bare(t)
    ensures Trim(a + t + b) == t
  {
    hide TrimFront, TrimBack, AllBlank, IsBlank;
    assert a + t + b == a + (t + b);
    BlankFrontGoes(a, t + b);
    if t == [] {
      assert t + b == b == b + [];
      BlankFrontGoes(b, []);
      NothingLeft();
    } else {
      BlankIs(t[0]);
      BlankIs(t[|t| - 1]);
      KeptFront(t + b);
      BlankBackGoes(t, b);
      KeptBack(t);
    }
  }

  lemma NothingLeft()
    ensures TrimFront([]) == [] == TrimBack([])
  {
  }

  lemma KeptFront(s: seq<byte>)
    requires s != [] && !IsBlank(s[0])
    ensures TrimFront(s) == s
  {
  }

  lemma KeptBack(s: seq<byte>)
    requires s != [] && !IsBlank(s[|s| - 1])
    ensures TrimBack(s) == s
  {
  }

  /** s begins with these ASCII letters. */
  predicate BeginsWith(s: seq<byte>, letters: string) {
    |letters| <= |s| && forall i :: 0 <= i < |letters| ==> s[i] as int == letters[i] as int
  }

  lemma SameLetters(s: seq<byte>, c: seq<byte>, letters: string)
    requires |c| == |letters| && forall i :: 0 <= i < |c| ==> c[i] as int == letters[i] as int
    ensures c <= s <==> BeginsWith(s, letters)
  {
    if BeginsWith(s, letters) {
      forall i | 0 <= i < |c| ensures c[i] == s[i] {
        assert s[i] as int == letters[i] as int;
      }
    }
  }

  lemma GgaIsSpelt(s: seq<byte>)
    ensures IsGga(s) <==> BeginsWith(s, "$GPGGA") || BeginsWith(s, "$GNGGA")
  {
    hide BeginsWith;
    SameLetters(s, DOLLAR_GP, "$GPGGA");
    SameLetters(s, DOLLAR_GN, "$GNGGA");
  }

  /**
   An NMEA message queues a frame of type 3 exactly if what is left of it without blanks at
   either end begins with $GPGGA or $GNGGA, and that is the payload.
   */
  lemma SentenceIsQueued(events: seq<Event>, a: seq<byte>, t: seq<byte>, b: seq<byte>)
    requires AllBlank(a) && AllBlank(b) && Bare(t)
    ensures var s := After(events);
            After(events + [Nmea(a + t + b)]).gga.pushed ==
              if BeginsWith(t, "$GPGGA") || BeginsWith(t, "$GNGGA") then s.gga.pushed + [Ticket(s.nextId, 3, t)]
              else s.gga.pushed
  {
    hide Exec, Trim, IsGga, AllBlank, Bare, BeginsWith;
    TrimIsUnique(a, t, b);
    GgaIsSpelt(t);
    LastStep(events + [Nmea(a + t + b)]);
    assert (events + [Nmea(a + t + b)])[..|events|] == events;
  }

  /** A response queues a frame of type 10: one byte says if it was accepted, the next if the mode is AUTO. */
  lemma ResponseIsQueued(events: seq<Event>, accepted: bool, auto: bool)
    ensures var s := After(events);
            After(events + [ModeResponse(accepted, auto)]).status.pushed ==
              s.status.pushed + [Ticket(s.nextId, 10, [if accepted then 1 else 0, if auto then 1 else 0])]
  {
    hide Exec;
    LastStep(events + [ModeResponse(accepted, auto)]);
    assert (events + [ModeResponse(accepted, auto)])[..|events|] == events;
  }

  /** A telemetry tick builds a frame of type 1. */
  lemma TelemetryKind(events: seq<Event>)
    requires AllSourcesIn(events)
    ensures var s := After(events);
            var built := After(events + [TelemetryTick]).built;
            |built| == |s.built| + 1 && built[|s.built|].ticket.kind == 1 && built[|s.built|].ticket.id == s.nextId
  {
    hide Exec, AllSourcesIn, Telemetry.EncodedTelemetry;
    ReadyMeansSeen(events);
    LastStep(events + [TelemetryTick]);
    assert (events + [TelemetryTick])[..|events|] == events;
  }

  /** On the wire a frame carries the number of its allocation, counted from 0, modulo 2^32. */
  lemma NumberOnTheWire(t: Ticket)
    ensures Words.Value(FrameOf(t).sequence, 32) == t.id % 0x1_0000_0000
    ensures FrameOf(t).packetType == t.kind && FrameOf(t).payload == t.payload
  {
    hide Words.Value, Sequence.Wrapped;
    Sequence.NumberOfAllocation(t.id);
  }

  /** The r-th status frame is that of the r-th response. */
  lemma {:induction false} ResponseOfStatus(events: seq<Event>, r: nat) returns (at: nat)
    requires r < |StatusPayloads(events)|
    ensures at < |events| && events[at].ModeResponse? && |StatusPayloads(events[..at])| == r
    ensures StatusPayloads(events)[r]
         == [if events[at].accepted then 1 else 0, if events[at].auto then 1 else 0]
  {
    if r == 0 && events[0].ModeResponse? {
      at := 0;
      assert events[..0] == [];
    } else {
      at := ResponseOfStatus(events[1..], if events[0].ModeResponse? then r - 1 else r);
      assert events[..at + 1][1..] == events[1..][..at];
      at := at + 1;
    }
  }
}
