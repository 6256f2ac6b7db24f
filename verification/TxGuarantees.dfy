/** What every run of the transmit side guarantees. */
module TxGuarantees {
  import opened Bytes
  import opened Protocol
  import opened Sequence
  import opened Scanner
  import opened Telemetry
  import opened Transport
  import opened TxModel

  /** The state after a run from startup. */
  function After(events: seq<Event>): TxState {
    Exec(INITIAL, events)
  }

  lemma AfterInv(events: seq<Event>)
    ensures Inv(After(events))
  {
    hide Inv, Step;
    InitialInv();
    RunKeepsInv(INITIAL, events);
  }

  // ---- Queue history -----------------------------------------------------------------------------

  /** What the events ask to be queued, in order. */
  function StatusPayloads(events: seq<Event>): seq<seq<byte>> {
    if events == [] then [] else StatusPayload(events[0]) + StatusPayloads(events[1..])
  }

  function GgaPayloads(events: seq<Event>): seq<seq<byte>> {
    if events == [] then [] else GgaPayload(events[0]) + GgaPayloads(events[1..])
  }

  function Payloads(ts: seq<Ticket>): (ps: seq<seq<byte>>)
    ensures |ps| == |ts|
    ensures forall i :: 0 <= i < |ts| ==> ps[i] == ts[i].payload
  {
    seq(|ts|, i requires 0 <= i < |ts| => ts[i].payload)
  }

  /** What one event asks to be queued: two bytes for a response, the trimmed sentence for NMEA. */
  function StatusPayload(e: Event): seq<seq<byte>> {
    if e.ModeResponse? then [[if e.accepted then 1 else 0, if e.auto then 1 else 0]] else []
  }

  function GgaPayload(e: Event): seq<seq<byte>> {
    if e.Nmea? && IsGga(Trim(e.raw)) then [Trim(e.raw)] else []
  }

  lemma PushedByEvent(s: TxState, e: Event)
    requires s.killswitch == s.control == s.rtcm == EMPTY
    ensures var s' := Step(s, e);
            && s'.killswitch == s'.control == s'.rtcm == EMPTY
            && Payloads(s'.status.pushed) == Payloads(s.status.pushed) + StatusPayload(e)
            && Payloads(s'.gga.pushed) == Payloads(s.gga.pushed) + GgaPayload(e)
  {
    hide IsGga, Trim, EncodedTelemetry, Attempted;
  }

  lemma {:induction false} PushedFromEvents(s: TxState, events: seq<Event>)
    requires s.killswitch == s.control == s.rtcm == EMPTY
    ensures Payloads(Exec(s, events).status.pushed) == Payloads(s.status.pushed) + StatusPayloads(events)
    ensures Payloads(Exec(s, events).gga.pushed) == Payloads(s.gga.pushed) + GgaPayloads(events)
    decreases |events|
  {
    hide Step, Exec, Payloads, StatusPayload, GgaPayload;
    ExecStep(s, events);
    if events != [] {
      PushedByEvent(s, events[0]);
      PushedFromEvents(Step(s, events[0]), events[1..]);
      assert StatusPayloads(events) == StatusPayload(events[0]) + StatusPayloads(events[1..]);
      assert GgaPayloads(events) == GgaPayload(events[0]) + GgaPayloads(events[1..]);
    }
  }

  lemma ExecStep(s: TxState, events: seq<Event>)
    ensures Exec(s, events) == if events == [] then s else Exec(Step(s, events[0]), events[1..])
  {
    hide Step;
  }

  /**
   In every reachable state a queue holds at most 16 frames, the newest of those pushed;
   the pushed frames are those the events asked for; and each of them is either held, or
   was evicted, or was popped and handed to `write_frame`, in order.
   */
  lemma QueueHistory(events: seq<Event>)
    ensures var s := After(events);
            && s.killswitch == s.control == s.rtcm == EMPTY
            && |s.status.held| <= 16 && |s.gga.held| <= 16
            && s.status.pushed == TicketsOf(s.status.gone) + s.status.held
            && s.gga.pushed == TicketsOf(s.gga.gone) + s.gga.held
            && Popped(s.status.gone) == Tried(s.tries, AUTONOMY_STATUS)
            && Popped(s.gga.gone) == Tried(s.tries, GGA)
            && Payloads(s.status.pushed) == StatusPayloads(events)
            && Payloads(s.gga.pushed) == GgaPayloads(events)
  {
    hide Exec, Numbered, Tried, Popped, Ascending, SlotIsNews, EncodedTelemetry, StatusPayloads, GgaPayloads;
    AfterInv(events);
    PushedFromEvents(INITIAL, events);
    assert Payloads(INITIAL.status.pushed) == [] == Payloads(INITIAL.gga.pushed);
    assert [] + StatusPayloads(events) == StatusPayloads(events);
    assert [] + GgaPayloads(events) == GgaPayloads(events);
  }

  /** The departures that made room for newer frames. */
  function Evictions(gone: seq<Departure>): nat {
    if gone == [] then 0 else Evictions(gone[..|gone| - 1]) + (if gone[|gone| - 1].popped then 0 else 1)
  }

  lemma EvictionsOfPush(q: Queue, t: Ticket)
    requires Accounted(q)
    ensures Evictions(Push(q, t).gone) == Evictions(q.gone) + (if |q.held| == 16 then 1 else 0)
    ensures q.held != [] ==> Evictions(Pop(q).gone) == Evictions(q.gone)
  {
    if q.held != [] {
      assert (q.gone + [Departure(q.held[0], false)])[..|q.gone|] == q.gone;
      assert (q.gone + [Departure(q.held[0], true)])[..|q.gone|] == q.gone;
    }
  }

  /** Nothing is evicted unless the queue is full and a newer frame of its own kind comes in. */
  lemma EvictsOnlyWhenFull(events: seq<Event>, e: Event)
    ensures var s, s' := After(events), Step(After(events), e);
            && Evictions(s'.status.gone) - Evictions(s.status.gone)
               == (if e.ModeResponse? && |s.status.held| == 16 then 1 else 0)
            && Evictions(s'.gga.gone) - Evictions(s.gga.gone)
               == (if GgaPayload(e) != [] && |s.gga.held| == 16 then 1 else 0)
  {
    hide Exec, Push, Pop, IsGga, Trim, EncodedTelemetry, EncodedAutonomyStatus, Attempted;
    hide Popped, Tried, Evictions, Numbered;
    AfterInv(events);
    var s := After(events);
    match e
    case ModeResponse(accepted, auto) =>
      EvictionsOfPush(s.status, Ticket(s.nextId, AUTONOMY_STATUS, EncodedAutonomyStatus(accepted, auto)));
    case Nmea(raw) =>
      EvictionsOfPush(s.gga, Ticket(s.nextId, GGA, Trim(raw)));
    case TxTick(_, _) =>
      EvictionsOfPush(s.status, Ticket(0, 0, []));
      EvictionsOfPush(s.gga, Ticket(0, 0, []));
    case _ =>
  }

  // ---- Ordering ------------------------------------------------------------------------------------

  lemma {:induction false} PoppedAscend(gone: seq<Departure>, bound: nat)
    requires Ascending(TicketsOf(gone), bound)
    ensures Ascending(Popped(gone), bound)
    ensures gone != [] ==> Ascending(Popped(gone[..|gone| - 1]), gone[|gone| - 1].ticket.id)
    decreases |gone|
  {
    if gone != [] {
      var before, last := gone[..|gone| - 1], gone[|gone| - 1];
      forall i | 0 <= i < |before| ensures TicketsOf(before)[i].id < last.ticket.id {
        assert TicketsOf(gone)[i].id < TicketsOf(gone)[|gone| - 1].id;
      }
      forall i, j | 0 <= i < j < |before| ensures TicketsOf(before)[i].id < TicketsOf(before)[j].id {
        assert TicketsOf(gone)[i].id < TicketsOf(gone)[j].id;
      }
      PoppedAscend(before, last.ticket.id);
      assert TicketsOf(gone)[|gone| - 1].id < bound;
    }
  }

  lemma PrefixAscends(ts: seq<Ticket>, us: seq<Ticket>, kind: byte, bound: nat)
    requires Numbered(ts, kind, bound) && us <= ts
    ensures Ascending(us, bound)
  {
  }

  /** Allocations less than 2^32 apart have different numbers on the wire. */
  ghost predicate NumbersDiffer(ts: seq<Ticket>) {
    forall i, j :: 0 <= i < j < |ts| && ts[j].id - ts[i].id < PERIOD ==>
      FrameOf(ts[i]).sequence != FrameOf(ts[j]).sequence
  }

  lemma AscendingNumbersDiffer(ts: seq<Ticket>, bound: nat)
    requires Ascending(ts, bound)
    ensures NumbersDiffer(ts)
  {
    hide Wrapped;
    forall i, j | 0 <= i < j < |ts| && ts[j].id - ts[i].id < PERIOD
      ensures FrameOf(ts[i]).sequence != FrameOf(ts[j]).sequence
    {
      NumbersRepeatIff(ts[i].id, ts[j].id);
    }
  }

  /**
   Frames of one type are handed to `write_frame` at most once, in strictly rising order of
   allocation, and with different numbers as long as they are less than 2^32 apart.
   */
  lemma TriedInOrder(events: seq<Event>)
    ensures var s := After(events);
            forall kind :: kind == AUTONOMY_STATUS || kind == GGA || kind == TELEMETRY ==>
              Ascending(Tried(s.tries, kind), s.nextId) && NumbersDiffer(Tried(s.tries, kind))
  {
    hide Exec, NumbersDiffer, Tried;
    TriedAscend(events);
    var s := After(events);
    AscendingNumbersDiffer(Tried(s.tries, AUTONOMY_STATUS), s.nextId);
    AscendingNumbersDiffer(Tried(s.tries, GGA), s.nextId);
    AscendingNumbersDiffer(Tried(s.tries, TELEMETRY), s.nextId);
  }

  lemma TriedAscend(events: seq<Event>)
    ensures var s := After(events);
            && Ascending(Tried(s.tries, AUTONOMY_STATUS), s.nextId)
            && Ascending(Tried(s.tries, GGA), s.nextId)
            && Ascending(Tried(s.tries, TELEMETRY), s.nextId)
  {
    hide Exec, Popped, Tried, EncodedTelemetry;
    AfterInv(events);
    var s := After(events);
    PrefixAscends(s.status.pushed, TicketsOf(s.status.gone), AUTONOMY_STATUS, s.nextId);
    PrefixAscends(s.gga.pushed, TicketsOf(s.gga.gone), GGA, s.nextId);
    PoppedAscend(s.status.gone, s.nextId);
    PoppedAscend(s.gga.gone, s.nextId);
    Renumber(s);
    if s.slot.Some? {
      assert BuiltTickets(s.built)[|s.built| - 1] == s.slot.value;
    }
  }

  // ---- Every frame tried comes from somewhere ------------------------------------------------------

  /** t was queued as a status frame, queued as a GGA frame, or built as telemetry. */
  predicate Known(s: TxState, t: Ticket) {
    t in s.status.pushed || t in s.gga.pushed || t in BuiltTickets(s.built)
  }

  ghost predicate AllKnown(s: TxState) {
    forall i :: 0 <= i < |s.tries| ==> Known(s, s.tries[i].ticket)
  }

  /** No allocation serves two of the three kinds. */
  ghost predicate Apart(s: TxState) {
    && NoCommonId(s.status.pushed, s.gga.pushed)
    && NoCommonId(s.status.pushed, BuiltTickets(s.built))
    && NoCommonId(s.gga.pushed, BuiltTickets(s.built))
  }

  predicate NoCommonId(ts: seq<Ticket>, us: seq<Ticket>) {
    forall i, j :: 0 <= i < |ts| && 0 <= j < |us| ==> ts[i].id != us[j].id
  }

  lemma BuildAppends(s: TxState)
    ensures BuiltTickets(BuildTelemetry(s).built)
         == BuiltTickets(s.built) + [Ticket(s.nextId, TELEMETRY, EncodedTelemetry(s.cache))]
  {
    hide EncodedTelemetry;
  }

  lemma TakenIsKnown(s: TxState)
    requires Inv(s) && TakeNext(s).1.Some?
    ensures Known(s, TakeNext(s).1.value)
  {
    hide Numbered, Tried, Popped, Ascending, EncodedTelemetry;
    if s.status.held != [] {
      assert s.status.pushed[|s.status.gone|] == s.status.held[0];
    } else if s.gga.held != [] {
      assert s.gga.pushed[|s.gga.gone|] == s.gga.held[0];
    } else {
      assert BuiltTickets(s.built)[|s.built| - 1] == s.slot.value;
    }
  }

  lemma NothingIsForgotten(s: TxState, e: Event, t: Ticket)
    requires Known(s, t)
    ensures Known(Step(s, e), t)
  {
    hide IsGga, Trim, EncodedTelemetry, EncodedAutonomyStatus, Attempted, BuiltTickets;
    if e.TelemetryTick? {
      BuildAppends(s);
    }
  }

  lemma TriesGrow(s: TxState, e: Event)
    ensures Step(s, e).tries
         == if e.TxTick? && TakeNext(s).1.Some?
            then s.tries + [Attempted(TakeNext(s).1.value, e.open, e.answers)] else s.tries
  {
    hide IsGga, Trim, EncodedTelemetry, EncodedAutonomyStatus, Attempted, TakeNext, Push;
  }

  lemma KnownStep(s: TxState, e: Event)
    requires Inv(s) && AllKnown(s)
    ensures AllKnown(Step(s, e))
  {
    hide Step, Inv, Known, TakeNext, Transmit, FrameOf;
    TriesGrow(s, e);
    forall i | 0 <= i < |Step(s, e).tries| ensures Known(Step(s, e), Step(s, e).tries[i].ticket) {
      if i == |s.tries| {
        TakenIsKnown(s);
      }
      NothingIsForgotten(s, e, Step(s, e).tries[i].ticket);
    }
  }

  lemma ApartStep(s: TxState, e: Event)
    requires Inv(s) && Apart(s)
    ensures Apart(Step(s, e))
  {
    hide IsGga, Trim, EncodedTelemetry, EncodedAutonomyStatus, Attempted, BuiltTickets;
    hide Accounted, Tried, Popped, SlotIsNews;
    if e.TelemetryTick? {
      BuildAppends(s);
    }
  }

  lemma {:induction false} KnownAndApart(events: seq<Event>)
    ensures AllKnown(After(events)) && Apart(After(events))
    decreases |events|
  {
    hide Step, Exec, Known;
    if events == [] {
      ExecStep(INITIAL, []);
    } else {
      var before := After(events[..|events| - 1]);
      KnownAndApart(events[..|events| - 1]);
      AfterInv(events[..|events| - 1]);
      LastStep(events);
      KnownStep(before, events[|events| - 1]);
      ApartStep(before, events[|events| - 1]);
    }
  }

  lemma AllocationStep(s: TxState, e: Event)
    requires |s.status.pushed| + |s.gga.pushed| + |s.built| == s.nextId
    ensures var s' := Step(s, e); |s'.status.pushed| + |s'.gga.pushed| + |s'.built| == s'.nextId
  {
    hide IsGga, Trim, EncodedTelemetry, EncodedAutonomyStatus, Attempted;
  }

  /** Every number handed out went into exactly one frame: none is skipped. */
  lemma {:induction false} NoNumberIsSkipped(events: seq<Event>)
    ensures var s := After(events); |s.status.pushed| + |s.gga.pushed| + |s.built| == s.nextId
    decreases |events|
  {
    hide Step, Exec;
    if events == [] {
      ExecStep(INITIAL, []);
    } else {
      NoNumberIsSkipped(events[..|events| - 1]);
      LastStep(events);
      AllocationStep(After(events[..|events| - 1]), events[|events| - 1]);
    }
  }

  // ---- Sequence numbers ------------------------------------------------------------------------------

  /** The place of try i among the tries of its kind. */
  function Rank(tries: seq<Try>, kind: byte, i: nat): (r: nat)
    requires i < |tries| && tries[i].ticket.kind == kind
    ensures r < |Tried(tries, kind)| && Tried(tries, kind)[r] == tries[i].ticket
    decreases |tries|
  {
    if i == |tries| - 1 then |Tried(tries, kind)| - 1 else Rank(tries[..|tries| - 1], kind, i)
  }

  lemma {:induction false} RanksAscend(tries: seq<Try>, kind: byte, i: nat, j: nat)
    requires i < j < |tries| && tries[i].ticket.kind == tries[j].ticket.kind == kind
    ensures Rank(tries, kind, i) < Rank(tries, kind, j)
    decreases |tries|
  {
    if j < |tries| - 1 {
      RanksAscend(tries[..|tries| - 1], kind, i, j);
    }
  }

  lemma KindOfKnown(s: TxState, t: Ticket)
    requires Inv(s) && Known(s, t)
    ensures t.id < s.nextId
    ensures t.kind == AUTONOMY_STATUS || t.kind == GGA || t.kind == TELEMETRY
    ensures t.kind == AUTONOMY_STATUS ==> t in s.status.pushed
    ensures t.kind == GGA ==> t in s.gga.pushed
    ensures t.kind == TELEMETRY ==> t in BuiltTickets(s.built)
  {
    hide Accounted, Tried, Popped, SlotIsNews, EncodedTelemetry, BuiltTickets;
  }

  lemma OtherKindOtherId(s: TxState, t: Ticket, u: Ticket)
    requires Inv(s) && Apart(s) && Known(s, t) && Known(s, u) && t.kind != u.kind
    ensures t.id != u.id
  {
    hide Inv, BuiltTickets, Known;
    KindOfKnown(s, t);
    KindOfKnown(s, u);
  }

  /**
   Of all frames handed to `write_frame`, of whatever kind, no two stem from the same
   allocation, and two carry the same number on the wire exactly when their allocations lie
   a multiple of 2^32 apart: never, as long as no more than 2^32 numbers were handed out.
   */
  lemma NumbersAreDistinct(events: seq<Event>, i: nat, j: nat)
    requires i < j < |After(events).tries|
    ensures var t, u := After(events).tries[i].ticket, After(events).tries[j].ticket;
            && t.id != u.id
            && (FrameOf(t).sequence == FrameOf(u).sequence <==> (t.id - u.id) % PERIOD == 0)
            && (After(events).nextId <= PERIOD ==> FrameOf(t).sequence != FrameOf(u).sequence)
  {
    hide Exec, Inv, Known, Wrapped, Apart, Tried, Rank;
    var s := After(events);
    var t, u := s.tries[i].ticket, s.tries[j].ticket;
    KnownAndApart(events);
    AfterInv(events);
    KindOfKnown(s, t);
    KindOfKnown(s, u);
    if t.kind == u.kind {
      TriedAscend(events);
      RanksAscend(s.tries, t.kind, i, j);
    } else {
      OtherKindOtherId(s, t, u);
    }
    DistinctNumbers(t.id, u.id);
  }

  lemma DistinctNumbers(i: nat, j: nat)
    ensures Wrapped(i) == Wrapped(j) <==> (i - j) % PERIOD == 0
    ensures i != j && i < PERIOD && j < PERIOD ==> Wrapped(i) != Wrapped(j)
  {
    hide Wrapped;
    if i <= j {
      NumbersRepeatIff(i, j);
    } else {
      NumbersRepeatIff(j, i);
    }
  }

  /**
   What a tick sends, in any reachable state: the oldest status frame if there is one; a
   GGA frame only if there is none; telemetry only if both queues are empty, and then the
   latest one built; nothing only if there is nothing.
   */
  lemma TickPriority(events: seq<Event>, open: bool, answers: seq<WriteResult>)
    ensures var s, s' := After(events), Step(After(events), TxTick(open, answers));
            && (s.status.held != [] ==>
                s'.tries == s.tries + [Attempted(s.status.held[0], open, answers)] && s'.slot == s.slot)
            && (s.status.held == [] && s.gga.held != [] ==>
                s'.tries == s.tries + [Attempted(s.gga.held[0], open, answers)] && s'.slot == s.slot)
            && (s.status.held == [] && s.gga.held == [] && s.slot.Some? ==>
                && s.built != []
                && s'.tries == s.tries + [Attempted(s.built[|s.built| - 1].ticket, open, answers)]
                && s'.slot == None)
            && (s.status.held == [] && s.gga.held == [] && s.slot.None? ==> s'.tries == s.tries)
  {
    hide Exec, Attempted, Popped, Tried, EncodedTelemetry;
    AfterInv(events);
  }

  // ---- Bounded delay ---------------------------------------------------------------------------------

  function Ticks(events: seq<Event>): nat {
    if events == [] then 0 else (if events[0].TxTick? then 1 else 0) + Ticks(events[1..])
  }

  function Min(a: int, b: int): int {
    if a <= b then a else b
  }

  lemma StatusStep(s: TxState, e: Event)
    requires Inv(s)
    ensures var s' := Step(s, e);
            && s.status.pushed <= s'.status.pushed && s.status.gone <= s'.status.gone
            && |s'.status.gone| >= Min(|s.status.pushed|, |s.status.gone| + (if e.TxTick? then 1 else 0))
  {
    hide IsGga, Trim, EncodedTelemetry, EncodedAutonomyStatus, Attempted, Popped, Tried, Numbered;
  }

  lemma {:induction false} StatusDrains(s: TxState, events: seq<Event>)
    requires Inv(s)
    ensures var s' := Exec(s, events);
            && s.status.pushed <= s'.status.pushed && s.status.gone <= s'.status.gone
            && |s'.status.gone| >= Min(|s.status.pushed|, |s.status.gone| + Ticks(events))
    decreases |events|
  {
    hide Inv, Step;
    if events != [] {
      StatusStep(s, events[0]);
      StepKeepsInv(s, events[0]);
      StatusDrains(Step(s, events[0]), events[1..]);
    }
  }

  /**
   A status frame at position k of its queue has left it, sent or evicted, after k + 1
   ticks, whatever else happens meanwhile; as k < 16, within 16 ticks at most.
   */
  lemma StatusDelayIsBounded(events: seq<Event>, later: seq<Event>, k: nat)
    requires k < |After(events).status.held| && Ticks(later) > k
    ensures k < 16
    ensures var s, s' := After(events), After(events + later);
            var at := |s.status.gone| + k;
            at < |s'.status.gone| && s'.status.gone[at].ticket == s.status.held[k]
  {
    hide Exec, Step, Popped, Tried, Numbered, EncodedTelemetry;
    AfterInv(events);
    AfterInv(events + later);
    ExecConcat(INITIAL, events, later);
    var s, s' := After(events), After(events + later);
    StatusDrains(s, later);
    LeftInOrder(s.status, s'.status, k);
  }

  lemma LeftInOrder(q: Queue, q': Queue, k: nat)
    requires Accounted(q) && Accounted(q') && q.pushed <= q'.pushed && k < |q.held|
    requires |q.gone| + k < |q'.gone|
    ensures q'.gone[|q.gone| + k].ticket == q.held[k]
  {
    var at := |q.gone| + k;
    assert q.pushed[at] == q.held[k];
    assert q'.pushed[at] == TicketsOf(q'.gone)[at];
  }

  /** Status frames popped during a run. */
  function StatusPops(s: TxState, s': TxState): int {
    |Popped(s'.status.gone)| - |Popped(s.status.gone)|
  }

  lemma GgaQuietStep(s: TxState, e: Event)
    requires Inv(s) && !e.TxTick? && !e.ModeResponse?
    ensures var s' := Step(s, e);
            && s.gga.pushed <= s'.gga.pushed && s.gga.gone <= s'.gga.gone && s'.status == s.status
  {
    hide IsGga, Trim, EncodedTelemetry, EncodedAutonomyStatus, Attempted, Popped, Tried, Numbered;
  }

  lemma GgaStep(s: TxState, e: Event)
    requires Inv(s)
    ensures var s' := Step(s, e);
            && s.gga.pushed <= s'.gga.pushed && s.gga.gone <= s'.gga.gone
            && StatusPops(s, s') >= 0
            && |s'.gga.gone| >= Min(|s.gga.pushed|, |s.gga.gone| + (if e.TxTick? then 1 else 0) - StatusPops(s, s'))
  {
    hide IsGga, Trim, Push, EncodedTelemetry, EncodedAutonomyStatus, Attempted, Popped, Tried, Numbered;
    match e
    case TxTick(_, _) =>
      if s.status.held != [] {
        PopKeeps(s.status);
      }
    case ModeResponse(accepted, auto) =>
      PushPopsNothing(s.status, Ticket(s.nextId, AUTONOMY_STATUS, EncodedAutonomyStatus(accepted, auto)));
    case _ => GgaQuietStep(s, e);
  }

  lemma PushPopsNothing(q: Queue, t: Ticket)
    requires Accounted(q)
    ensures Popped(Push(q, t).gone) == Popped(q.gone)
  {
    if |q.held| >= QUEUE_CAPACITY {
      assert (q.gone + [Departure(q.held[0], false)])[..|q.gone|] == q.gone;
    }
  }

  lemma {:induction false} GgaDrains(s: TxState, events: seq<Event>)
    requires Inv(s)
    ensures var s' := Exec(s, events);
            && s.gga.pushed <= s'.gga.pushed && s.gga.gone <= s'.gga.gone
            && StatusPops(s, s') >= 0
            && |s'.gga.gone| >= Min(|s.gga.pushed|, |s.gga.gone| + Ticks(events) - StatusPops(s, s'))
    decreases |events|
  {
    hide Inv, Step, Popped;
    if events != [] {
      GgaStep(s, events[0]);
      StepKeepsInv(s, events[0]);
      GgaDrains(Step(s, events[0]), events[1..]);
    }
  }

  /** A GGA frame at position k leaves within k + 1 + m ticks, m status frames being popped meanwhile. */
  lemma GgaDelayIsBounded(events: seq<Event>, later: seq<Event>, k: nat)
    requires k < |After(events).gga.held|
    requires Ticks(later) > k + StatusPops(After(events), After(events + later))
    ensures k < 16
    ensures var s, s' := After(events), After(events + later);
            var at := |s.gga.gone| + k;
            at < |s'.gga.gone| && s'.gga.gone[at].ticket == s.gga.held[k]
  {
    hide Exec, Step, Popped, Tried, Numbered, EncodedTelemetry;
    AfterInv(events);
    AfterInv(events + later);
    ExecConcat(INITIAL, events, later);
    var s, s' := After(events), After(events + later);
    GgaDrains(s, later);
    LeftInOrder(s.gga, s'.gga, k);
  }

  // ---- Telemetry ---------------------------------------------------------------------------------------

  /** Each of the six required sources has delivered at least once. */
  ghost predicate AllSourcesIn(events: seq<Event>) {
    && (exists e :: e in events && e.Position?) && (exists e :: e in events && e.Euler?)
    && (exists e :: e in events && e.Velocity?) && (exists e :: e in events && e.Imu?)
    && (exists e :: e in events && e.Gnss?) && (exists e :: e in events && e.Battery?)
  }

  lemma {:induction false} DeliveredMeansSeen(events: seq<Event>)
    ensures After(events).delivered.All() <==> AllSourcesIn(events)
    ensures After(events).delivered.position <==> exists e :: e in events && e.Position?
    ensures After(events).delivered.euler <==> exists e :: e in events && e.Euler?
    ensures After(events).delivered.velocity <==> exists e :: e in events && e.Velocity?
    ensures After(events).delivered.imu <==> exists e :: e in events && e.Imu?
    ensures After(events).delivered.gnss <==> exists e :: e in events && e.Gnss?
    ensures After(events).delivered.battery <==> exists e :: e in events && e.Battery?
    decreases |events|
  {
    hide IsGga, Trim, EncodedTelemetry, EncodedAutonomyStatus, Attempted, Push, Exec, Step;
    if events == [] {
      ExecStep(INITIAL, []);
    } else {
      var before, last := events[..|events| - 1], events[|events| - 1];
      DeliveredMeansSeen(before);
      LastStep(events);
      CacheStep(After(before), last);
      assert forall e :: e in events <==> e in before || e == last;
    }
  }

  lemma LastStep(events: seq<Event>)
    requires events != []
    ensures After(events) == Step(After(events[..|events| - 1]), events[|events| - 1])
  {
    hide Step, Exec;
    var before, last := events[..|events| - 1], events[|events| - 1];
    assert events == before + [last];
    ExecConcat(INITIAL, before, [last]);
    ExecStep(After(before), [last]);
    ExecStep(Step(After(before), last), []);
    assert [last][1..] == [];
  }

  /** Only the messages themselves touch what is cached. */
  lemma CacheStep(s: TxState, e: Event)
    ensures Step(s, e).cache == Cached(s.cache, e)
    ensures Step(s, e).delivered == Noted(s.delivered, e)
  {
    hide IsGga, Trim, EncodedTelemetry, EncodedAutonomyStatus, Attempted, Push, Pop, TakeNext;
  }

  /** The message kinds that the snapshot is made of. */
  datatype Source = FromPosition | FromEuler | FromVelocity | FromGnss | FromBattery | FromMode

  predicate ComesFrom(e: Event, source: Source) {
    match source
    case FromPosition => e.Position?
    case FromEuler => e.Euler?
    case FromVelocity => e.Velocity?
    case FromGnss => e.Gnss?
    case FromBattery => e.Battery?
    case FromMode => e.ControlMode?
  }

  /** The last message of one kind, if any came. */
  function Latest(events: seq<Event>, source: Source): (e: Option<Event>)
    ensures e.Some? ==> ComesFrom(e.value, source)
  {
    if events == [] then None
    else if ComesFrom(events[|events| - 1], source) then Some(events[|events| - 1])
    else Latest(events[..|events| - 1], source)
  }

  /** The fields of a snapshot that one kind of message fills, as that message (or startup) has them. */
  predicate Shows(c: TelemetryPayload, source: Source, latest: Option<Event>)
    requires latest.Some? ==> ComesFrom(latest.value, source)
  {
    match source
    case FromPosition =>
      (c.latitude, c.longitude, c.altitude)
        == if latest.Some? then (latest.value.latitude, latest.value.longitude, latest.value.altitude)
           else (ZERO64, ZERO64, ZERO32)
    case FromEuler =>
      (c.roll, c.pitch, c.heading)
        == if latest.Some? then (latest.value.roll, latest.value.pitch, latest.value.heading)
           else (ZERO32, ZERO32, ZERO32)
    case FromVelocity =>
      (c.velocityX, c.velocityY, c.velocityZ, c.speed)
        == if latest.Some? then (latest.value.x, latest.value.y, latest.value.z, latest.value.speed)
           else (ZERO32, ZERO32, ZERO32, ZERO32)
    case FromGnss => c.gnssFixStatus == if latest.Some? then latest.value.fixStatus else 0
    case FromBattery =>
      (c.batteryVoltage, c.batteryPercent)
        == if latest.Some? then (latest.value.voltage, latest.value.percent) else (ZERO32, ZERO32)
    case FromMode => c.controlMode == if latest.Some? && latest.value.auto then 1 else 0
  }

  lemma ShowsAfterStep(s: TxState, e: Event, source: Source, latest: Option<Event>)
    requires latest.Some? ==> ComesFrom(latest.value, source)
    requires Shows(s.cache, source, latest)
    ensures Shows(Step(s, e).cache, source, if ComesFrom(e, source) then Some(e) else latest)
    ensures s.cache.rtkStatus == 0 ==> Step(s, e).cache.rtkStatus == 0
  {
    hide Step, Cached, Shows, ComesFrom;
    CacheStep(s, e);
    if ComesFrom(e, source) {
      CacheTakes(s.cache, e, source);
    } else {
      CacheKeeps(s.cache, e, source, latest);
    }
    RtkIsNeverCached(s.cache, e);
  }

  lemma CacheTakes(c: TelemetryPayload, e: Event, source: Source)
    requires ComesFrom(e, source)
    ensures Shows(Cached(c, e), source, Some(e))
  {
  }

  lemma CacheKeeps(c: TelemetryPayload, e: Event, source: Source, latest: Option<Event>)
    requires latest.Some? ==> ComesFrom(latest.value, source)
    requires Shows(c, source, latest) && !ComesFrom(e, source)
    ensures Shows(Cached(c, e), source, latest)
  {
    match source
    case FromPosition =>
    case FromEuler =>
    case FromVelocity =>
    case FromGnss =>
    case FromBattery =>
    case FromMode =>
  }

  lemma RtkIsNeverCached(c: TelemetryPayload, e: Event)
    ensures Cached(c, e).rtkStatus == c.rtkStatus
  {
  }

  /** The snapshot telemetry is built from holds the latest message of every source. */
  lemma {:induction false} CacheShowsLatest(events: seq<Event>, source: Source)
    ensures Shows(After(events).cache, source, Latest(events, source))
    ensures After(events).cache.rtkStatus == 0
    decreases |events|
  {
    if events == [] {
      hide Step;
      assert After(events) == INITIAL;
    } else {
      hide Step, Exec, Shows, ComesFrom;
      var before, last := events[..|events| - 1], events[|events| - 1];
      CacheShowsLatest(before, source);
      LastStep(events);
      ShowsAfterStep(After(before), last, source, Latest(before, source));
    }
  }

  /** A telemetry timer tick builds a frame exactly when all six sources have delivered. */
  lemma TelemetryOnlyWhenAllDelivered(events: seq<Event>)
    ensures var s, s' := After(events), After(events + [TelemetryTick]);
            if AllSourcesIn(events) then
              && |s'.built| == |s.built| + 1
              && s'.built[|s.built|].snapshot == s.cache
              && s'.slot == Some(s'.built[|s.built|].ticket)
            else
              s' == s
  {
    hide EncodedTelemetry, Exec;
    DeliveredMeansSeen(events);
    LastStep(events + [TelemetryTick]);
    assert (events + [TelemetryTick])[..|events|] == events;
  }

  /** Events that bring no message. */
  predicate Quiet(e: Event) {
    e.Nmea? || e.ModeResponse? || e.TelemetryTick? || e.TxTick?
  }

  lemma {:induction false} SilenceKeepsCache(events: seq<Event>, later: seq<Event>)
    requires forall e :: e in later ==> Quiet(e)
    ensures After(events + later).cache == After(events).cache
    decreases |later|
  {
    hide Exec, Step;
    if later == [] {
      assert events + later == events;
    } else {
      var last := later[|later| - 1];
      assert (events + later)[..|events + later| - 1] == events + later[..|later| - 1];
      SilenceKeepsCache(events, later[..|later| - 1]);
      LastStep(events + later);
      CacheStep(After(events + later[..|later| - 1]), last);
      assert last in later;
    }
  }

  /**
   The slot does go stale.  Once every source has delivered, they may all fall silent for
   as long as they like: the next tick still fills the slot, with the old snapshot.
   */
  lemma TelemetryGoesStale(events: seq<Event>, later: seq<Event>)
    requires AllSourcesIn(events) && forall e :: e in later ==> Quiet(e)
    ensures var s := After(events + later + [TelemetryTick]);
            && s.built != []
            && s.built[|s.built| - 1].snapshot == After(events).cache
            && s.slot == Some(s.built[|s.built| - 1].ticket)
  {
    hide Exec;
    SilenceKeepsCache(events, later);
    assert AllSourcesIn(events + later);
    TelemetryOnlyWhenAllDelivered(events + later);
  }

  /** One message from each source, and then nothing but ticks. */
  const ONE_EACH: seq<Event> := [
    Position(ZERO64, ZERO64, ZERO32), Euler(ZERO32, ZERO32, ZERO32), Velocity(ZERO32, ZERO32, ZERO32, ZERO32),
    Imu, Gnss(1), Battery(ZERO32, ZERO32)]

  function TicksOnly(n: nat): (later: seq<Event>)
    ensures |later| == 2 * n && forall i :: 0 <= i < |later| ==> Quiet(later[i])
  {
    if n == 0 then [] else [TelemetryTick, TxTick(true, [Took(73)])] + TicksOnly(n - 1)
  }

  /** A run in which the fix seen once is reported as current after any number n of rounds. */
  lemma StaleFixIsReported(n: nat)
    ensures var s := After(ONE_EACH + TicksOnly(n) + [TelemetryTick]);
            && s.slot.Some?
            && s.built != [] && s.built[|s.built| - 1].snapshot.gnssFixStatus == 1
  {
    hide Exec, TicksOnly;
    assert ONE_EACH[0].Position? && ONE_EACH[1].Euler? && ONE_EACH[2].Velocity?;
    assert ONE_EACH[3].Imu? && ONE_EACH[4].Gnss? && ONE_EACH[5].Battery?;
    TelemetryGoesStale(ONE_EACH, TicksOnly(n));
    CacheShowsLatest(ONE_EACH, FromGnss);
    assert Latest(ONE_EACH[..5], FromGnss) == Some(Gnss(1));
    assert ONE_EACH[..|ONE_EACH| - 1] == ONE_EACH[..5];
  }

  lemma BuiltByStep(s: TxState, e: Event)
    ensures Step(s, e).built
         == if e.TelemetryTick? && s.delivered.All()
            then s.built + [Built(Ticket(s.nextId, TELEMETRY, EncodedTelemetry(s.cache)), s.cache)] else s.built
  {
    hide IsGga, Trim, EncodedTelemetry, EncodedAutonomyStatus, Attempted, TakeNext, Push;
  }

  lemma ReadyMeansSeen(events: seq<Event>)
    ensures After(events).delivered.All() <==> AllSourcesIn(events)
  {
    hide Exec;
    DeliveredMeansSeen(events);
  }

  /** The snapshot in a telemetry frame is the cache as it stood at one tick, all sources having delivered. */
  lemma {:induction false} BuiltFromCache(events: seq<Event>, i: nat) returns (k: nat)
    requires i < |After(events).built|
    ensures k < |events| && events[k] == TelemetryTick && AllSourcesIn(events[..k])
    ensures After(events).built[i].snapshot == After(events[..k]).cache
    ensures |After(events[..k]).built| == i && |After(events[..k + 1]).built| == i + 1
    ensures After(events[..k + 1]).built[i] == After(events).built[i]
    decreases |events|
  {
    hide Exec, Step, AllSourcesIn, EncodedTelemetry;
    if events == [] {
      ExecStep(INITIAL, []);
      assert false;
    } else {
      var before, last := events[..|events| - 1], events[|events| - 1];
      LastStep(events);
      BuiltByStep(After(before), last);
      if i < |After(before).built| {
        k := BuiltFromCache(before, i);
        assert before[..k] == events[..k] && before[..k + 1] == events[..k + 1];
      } else {
        k := |events| - 1;
        assert events[..k + 1] == events;
        ReadyMeansSeen(before);
      }
    }
  }

  /**
   From cache to ground: every telemetry frame ever built, put on the wire and parsed,
   decodes to exactly the cache as it stood at one tick, when every source had delivered.
   */
  lemma TelemetryFidelity(events: seq<Event>, i: nat) returns (at: nat)
    requires i < |After(events).built|
    ensures at < |events| && events[at] == TelemetryTick && AllSourcesIn(events[..at])
    ensures var b := After(events).built[i];
            var f := FrameOf(b.ticket);
            && |f.payload| == 59
            && Scan(Encode(f)) == Scanned([f], 0, 0, [])
            && DecodedTelemetry(f.payload) == b.snapshot == After(events[..at]).cache
  {
    hide EncodedTelemetry, DecodedTelemetry, Exec, Scan, Encode, Popped, Tried, Numbered, Accounted, AllSourcesIn;
    AfterInv(events);
    at := BuiltFromCache(events, i);
    var b := After(events).built[i];
    assert b in After(events).built;
    TelemetryRoundTrip(b.snapshot);
    var f := FrameOf(b.ticket);
    assert |f.payload| == 59;
    assert AllSendable([f]);
    ScanOfEncoded([f]);
    assert [f][1..] == [];
    assert EncodeAll([f]) == Encode(f);
  }
}
