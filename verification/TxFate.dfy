/** What becomes of every telemetry frame that is built. */
module TxFate {
  import opened Bytes
  import opened Telemetry
  import opened TxModel
  import opened TxGuarantees

  // ---- One step ----------------------------------------------------------------------------------

  predicate QueuesEmpty(s: TxState) {
    s.status.held == [] && s.gga.held == []
  }

  lemma SlotStep(s: TxState, e: Event)
    requires Inv(s)
    ensures Step(s, e).nextId >= s.nextId
    ensures Step(s, e).slot ==
              if e.TelemetryTick? && s.delivered.All() then Some(Ticket(s.nextId, TELEMETRY, EncodedTelemetry(s.cache)))
              else if e.TxTick? && QueuesEmpty(s) then None
              else s.slot
  {
    hide IsGga, Trim, EncodedTelemetry, EncodedAutonomyStatus, Attempted, Push;
    hide Accounted, Numbered, Tried, Popped, Ascending, SlotIsNews;
  }

  /**
   In every reachable state the slot is left alone by every event except a telemetry tick
   that builds and a transmit tick that finds both queues empty.
   */
  lemma SlotIsLeftAlone(events: seq<Event>, e: Event)
    requires e.TelemetryTick? ==> !AllSourcesIn(events)
    requires e.TxTick? ==> After(events).status.held != [] || After(events).gga.held != []
    ensures After(events + [e]).slot == After(events).slot
  {
    hide Exec, Step, AllSourcesIn, Inv;
    AfterInv(events);
    ReadyMeansSeen(events);
    LastStep(events + [e]);
    assert (events + [e])[..|events|] == events;
    SlotStep(After(events), e);
  }

  /** t has been handed to `write_frame`. */
  predicate HandedOn(s: TxState, t: Ticket) {
    exists i :: 0 <= i < |s.tries| && s.tries[i].ticket == t
  }

  lemma TakenTelemetry(s: TxState, t: Ticket)
    requires Inv(s) && t.kind == TELEMETRY
    ensures TakeNext(s).1 == Some(t) <==> QueuesEmpty(s) && s.slot == Some(t)
  {
    hide Accounted, Numbered, Tried, Popped, Ascending, SlotIsNews, Pop, EncodedTelemetry;
    if s.status.held != [] {
      KindOfHead(s.status, AUTONOMY_STATUS, s.nextId);
    } else if s.gga.held != [] {
      KindOfHead(s.gga, GGA, s.nextId);
    }
  }

  lemma HandedStep(s: TxState, e: Event, t: Ticket)
    requires Inv(s) && t.kind == TELEMETRY
    ensures HandedOn(Step(s, e), t) <==> HandedOn(s, t) || (e.TxTick? && QueuesEmpty(s) && s.slot == Some(t))
  {
    hide Inv, Step, TakeNext, FrameOf;
    TakenTelemetry(s, t);
    TriesGrow(s, e);
    var s' := Step(s, e);
    if HandedOn(s, t) {
      var i :| 0 <= i < |s.tries| && s.tries[i].ticket == t;
      assert s'.tries[i].ticket == t;
    }
    if e.TxTick? && QueuesEmpty(s) && s.slot == Some(t) {
      assert s'.tries[|s.tries|].ticket == t;
    }
  }

  /** Status and GGA frames popped during a run. */
  function Pops(s: TxState, s': TxState): int {
    StatusPops(s, s') + |Popped(s'.gga.gone)| - |Popped(s.gga.gone)|
  }

  lemma PopStep(s: TxState, e: Event)
    requires Inv(s)
    ensures Pops(s, Step(s, e)) == if e.TxTick? && !QueuesEmpty(s) then 1 else 0
  {
    hide IsGga, Trim, Push, EncodedTelemetry, EncodedAutonomyStatus, Attempted, Popped, Tried, Numbered, SlotIsNews;
    match e
    case TxTick(_, _) =>
      if s.status.held != [] {
        PopKeeps(s.status);
      } else if s.gga.held != [] {
        PopKeeps(s.gga);
      }
    case ModeResponse(accepted, auto) =>
      PushPopsNothing(s.status, Ticket(s.nextId, AUTONOMY_STATUS, EncodedAutonomyStatus(accepted, auto)));
    case Nmea(raw) => PushPopsNothing(s.gga, Ticket(s.nextId, GGA, Trim(raw)));
    case _ =>
  }

  // ---- Whole runs ----------------------------------------------------------------------------------

  /** t is no longer in the slot, and never will be again. */
  predicate Gone(s: TxState, t: Ticket) {
    s.slot != Some(t) && t.id < s.nextId && t.kind == TELEMETRY
  }

  lemma {:induction false} GoneForGood(s: TxState, events: seq<Event>, t: Ticket)
    requires Inv(s) && Gone(s, t)
    ensures Gone(Exec(s, events), t)
    ensures HandedOn(Exec(s, events), t) <==> HandedOn(s, t)
    decreases |events|
  {
    hide Inv, Step, HandedOn, EncodedTelemetry, Exec;
    ExecStep(s, events);
    if events != [] {
      SlotStep(s, events[0]);
      HandedStep(s, events[0], t);
      StepKeepsInv(s, events[0]);
      GoneForGood(Step(s, events[0]), events[1..], t);
    }
  }

  lemma {:induction false} PopsAtMostTicks(s: TxState, events: seq<Event>)
    requires Inv(s)
    ensures Pops(s, Exec(s, events)) <= Ticks(events)
    decreases |events|
  {
    hide Inv, Step, Exec, Popped;
    ExecStep(s, events);
    if events != [] {
      PopStep(s, events[0]);
      StepKeepsInv(s, events[0]);
      PopsAtMostTicks(Step(s, events[0]), events[1..]);
    }
  }

  /** While no newer frame is built, t goes out at the first tick that pops nothing. */
  lemma {:induction false} Waiting(s: TxState, events: seq<Event>, t: Ticket)
    requires Inv(s) && s.slot == Some(t) && t.kind == TELEMETRY && t.id < s.nextId && !HandedOn(s, t)
    requires TelemetryTick !in events
    ensures var s' := Exec(s, events);
            if Ticks(events) > Pops(s, s') then HandedOn(s', t) && Gone(s', t)
            else !HandedOn(s', t) && s'.slot == Some(t) && t.id < s'.nextId
    decreases |events|
  {
    hide Inv, Step, Exec, HandedOn, EncodedTelemetry, Popped;
    ExecStep(s, events);
    if events != [] {
      var e, next := events[0], Step(s, events[0]);
      assert e in events;
      SlotStep(s, e);
      HandedStep(s, e, t);
      PopStep(s, e);
      StepKeepsInv(s, e);
      if e.TxTick? && QueuesEmpty(s) {
        GoneForGood(next, events[1..], t);
        PopsAtMostTicks(next, events[1..]);
      } else {
        Waiting(next, events[1..], t);
      }
    }
  }

  lemma NewIsNotHandedOn(s: TxState, t: Ticket)
    requires Inv(s) && s.slot == Some(t)
    ensures !HandedOn(s, t) && t.kind == TELEMETRY && t.id < s.nextId
  {
    hide Accounted, Popped, Tried, EncodedTelemetry, Rank;
    assert BuiltTickets(s.built)[|s.built| - 1] == t;
    if HandedOn(s, t) {
      var i :| 0 <= i < |s.tries| && s.tries[i].ticket == t;
      var r := Rank(s.tries, TELEMETRY, i);
      assert Tried(s.tries, TELEMETRY)[r].id < t.id;
    }
  }

  lemma BuiltLast(events: seq<Event>)
    requires AllSourcesIn(events)
    ensures var s := After(events + [TelemetryTick]);
            s.built != [] && s.slot == Some(s.built[|s.built| - 1].ticket)
  {
    hide Exec, AllSourcesIn, EncodedTelemetry;
    TelemetryOnlyWhenAllDelivered(events);
  }

  lemma SourcesStayIn(events: seq<Event>, more: seq<Event>)
    requires AllSourcesIn(events)
    ensures AllSourcesIn(events + more)
  {
  }

  /** The same, from a build on: up to the next build, and beyond it. */
  lemma FateOfBuild(before: seq<Event>, later: seq<Event>, rest: seq<Event>, t: Ticket)
    requires AllSourcesIn(before) && TelemetryTick !in later && (rest != [] ==> rest[0] == TelemetryTick)
    requires After(before + [TelemetryTick]).slot == Some(t)
    ensures var s, s' := After(before + [TelemetryTick]), After(before + [TelemetryTick] + later);
            var end := After(before + [TelemetryTick] + later + rest);
            && (HandedOn(end, t) <==> Ticks(later) > Pops(s, s'))
            && (end.slot == Some(t) <==> Ticks(later) <= Pops(s, s') && rest == [])
  {
    hide Exec, Step, Inv, AllSourcesIn, HandedOn, EncodedTelemetry, Popped;
    var start := before + [TelemetryTick];
    var s, s' := After(start), After(start + later);
    AfterInv(start);
    AfterInv(start + later);
    NewIsNotHandedOn(s, t);
    ExecConcat(INITIAL, start, later);
    Waiting(s, later, t);
    if rest == [] {
      assert start + later + rest == start + later;
    } else {
      assert start + later + rest == start + later + [TelemetryTick] + rest[1..];
      SourcesStayIn(before, [TelemetryTick] + later);
      assert before + ([TelemetryTick] + later) == start + later;
      AnotherBuild(start + later, rest[1..], t);
    }
  }

  lemma AnotherBuild(events: seq<Event>, rest: seq<Event>, t: Ticket)
    requires AllSourcesIn(events) && t.kind == TELEMETRY && t.id < After(events).nextId
    ensures After(events + [TelemetryTick] + rest).slot != Some(t)
    ensures HandedOn(After(events + [TelemetryTick] + rest), t) <==> HandedOn(After(events), t)
  {
    hide Exec, Step, Inv, AllSourcesIn, HandedOn, EncodedTelemetry;
    var s := After(events);
    AfterInv(events);
    ReadyMeansSeen(events);
    LastStep(events + [TelemetryTick]);
    assert (events + [TelemetryTick])[..|events|] == events;
    SlotStep(s, TelemetryTick);
    HandedStep(s, TelemetryTick, t);
    BuildNumbers(s);
    AfterInv(events + [TelemetryTick]);
    ExecConcat(INITIAL, events + [TelemetryTick], rest);
    GoneForGood(After(events + [TelemetryTick]), rest, t);
  }

  lemma BuildNumbers(s: TxState)
    requires s.delivered.All()
    ensures Step(s, TelemetryTick).nextId == s.nextId + 1
  {
    hide EncodedTelemetry;
  }

  /** The events before the first telemetry tick, and the rest. */
  lemma {:induction false} FirstTick(events: seq<Event>) returns (later: seq<Event>, rest: seq<Event>)
    ensures events == later + rest && TelemetryTick !in later && (rest != [] ==> rest[0] == TelemetryTick)
  {
    if events == [] || events[0] == TelemetryTick {
      later, rest := [], events;
    } else {
      later, rest := FirstTick(events[1..]);
      later := [events[0]] + later;
    }
  }

  /**
   Over any run, every telemetry frame built is exactly one of: handed to `write_frame`,
   still in the slot, or superseded by a later build.  With `later` the events between its
   build and the next telemetry tick, it is handed on exactly if more transmit ticks than
   status and GGA frames popped fall into `later`: that many ticks is how long it can wait.
   */
  lemma TelemetryFate(events: seq<Event>, i: nat)
    returns (before: seq<Event>, later: seq<Event>, rest: seq<Event>)
    requires i < |After(events).built|
    ensures events == before + [TelemetryTick] + later + rest
    ensures TelemetryTick !in later && (rest != [] ==> rest[0] == TelemetryTick)
    ensures AllSourcesIn(before) && |After(before).built| == i
    ensures var t, end := After(events).built[i].ticket, After(events);
            var free := Ticks(later) > Pops(After(before + [TelemetryTick]), After(before + [TelemetryTick] + later));
            && (HandedOn(end, t) <==> free)
            && (end.slot == Some(t) <==> !free && rest == [])
  {
    hide Exec, Step, AllSourcesIn, HandedOn, EncodedTelemetry, Pops;
    var k := BuiltFromCache(events, i);
    before := events[..k];
    later, rest := FirstTick(events[k + 1..]);
    assert events[..k + 1] == before + [TelemetryTick];
    assert events == before + [TelemetryTick] + later + rest;
    BuiltLast(before);
    FateOfBuild(before, later, rest, After(events).built[i].ticket);
  }
}
