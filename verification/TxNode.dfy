/**
 The transmit callbacks of `RadioBridgeNode` and the fields they update, proved step for
 step against the transition system.
 */
module TxNode {
  import opened Bytes
  import opened Protocol
  import opened Sequence
  import opened Telemetry
  import opened Transport
  import opened TxModel
  import opened TxGuarantees
  import opened TxWire

  /** The bytes of the frames in a queue. */
  function EncodedTickets(ts: seq<Ticket>): (b: seq<seq<byte>>)
    ensures |b| == |ts|
    ensures forall i :: 0 <= i < |ts| ==> b[i] == Encode(FrameOf(ts[i]))
  {
    seq(|ts|, i requires 0 <= i < |ts| => Encode(FrameOf(ts[i])))
  }

  lemma FrameOfTicket(t: Ticket)
    ensures FrameOf(t) == Frame(t.kind, Wrapped(t.id), t.payload)
  {
  }

  lemma FirstEncoded(ts: seq<Ticket>)
    requires ts != []
    ensures EncodedTickets(ts)[0] == Encode(FrameOf(ts[0])) && EncodedTickets(ts)[1..] == EncodedTickets(ts[1..])
  {
    hide Encode, FrameOf;
  }

  /** `enqueue_bounded`: the queue is passed in and handed back. */
  method EnqueueBounded(queue: seq<seq<byte>>, frame: seq<byte>, ghost q: Queue, ghost t: Ticket)
    returns (after: seq<seq<byte>>)
    requires queue == EncodedTickets(q.held) && frame == Encode(FrameOf(t))
    ensures after == (if |queue| >= QUEUE_CAPACITY then queue[1..] else queue) + [frame]
    ensures after == EncodedTickets(Push(q, t).held)
  {
    hide Encode, FrameOf;
    after := queue;
    if |after| >= QUEUE_CAPACITY {
      after := after[1..];
    }
    after := after + [frame];
  }

  class TxCallbacks {
    var cache: TelemetryPayload
    var delivered: Delivered
    var killswitchQueue: seq<seq<byte>>
    var autonomyStatusQueue: seq<seq<byte>>
    var controlQueue: seq<seq<byte>>
    var rtcmQueue: seq<seq<byte>>
    var ggaQueue: seq<seq<byte>>
    var telemetrySlot: seq<byte>
    var telemetrySlotValid: bool
    var txSequence: bv32
    const transport: SerialTransport

    /** The state of the transition system that the fields stand for. */
    ghost var model: TxState

    /** The fields hold the state m. */
    ghost predicate Matches(m: TxState)
      reads this
    {
      && QueuesMatch(m.killswitch, m.status, m.control, m.rtcm, m.gga)
      && SlotMatches(m.slot)
      && cache == m.cache && delivered == m.delivered
      && txSequence == Wrapped(m.nextId)
    }

    ghost predicate QueuesMatch(killswitch: Queue, status: Queue, control: Queue, rtcm: Queue, gga: Queue)
      reads this`killswitchQueue, this`autonomyStatusQueue, this`controlQueue, this`rtcmQueue, this`ggaQueue
    {
      && killswitchQueue == EncodedTickets(killswitch.held)
      && autonomyStatusQueue == EncodedTickets(status.held)
      && controlQueue == EncodedTickets(control.held)
      && rtcmQueue == EncodedTickets(rtcm.held)
      && ggaQueue == EncodedTickets(gga.held)
    }

    ghost predicate SlotMatches(slot: Option<Ticket>)
      reads this`telemetrySlot, this`telemetrySlotValid
    {
      && telemetrySlotValid == slot.Some?
      && (telemetrySlotValid ==> telemetrySlot == Encode(FrameOf(slot.value)))
    }

    /** Fields and model agree, and the wire holds what was got out of every frame tried. */
    ghost predicate Valid()
      reads this, transport
    {
      && Matches(model)
      && AllPossible(AttemptsOf(model.tries))
      && transport.wire == Wire(AttemptsOf(model.tries))
    }

    constructor ()
      ensures Valid() && model == INITIAL && fresh(transport)
    {
      cache, delivered := NO_DATA, Delivered(false, false, false, false, false, false);
      killswitchQueue, autonomyStatusQueue, controlQueue, rtcmQueue, ggaQueue := [], [], [], [], [];
      telemetrySlot, telemetrySlotValid, txSequence := [], false, 0;
      transport := new SerialTransport();
      model := INITIAL;
    }

    // ---- The executor ----------------------------------------------------------------------------

    /**
     The executor runs one callback after the other, in the order of the events.  The port
     is opened and closed by the reader thread; a transmit tick finds it as the event says.
     */
    method Run(events: seq<Event>, ghost history: seq<Event>)
      requires Valid() && model == After(history)
      modifies this, transport
      ensures Valid() && model == After(history + events)
      ensures transport.wire == WireAfter(history + events)
    {
      hide After, Step, Valid, WireAfter;
      ghost var seen := history;
      assert history + events[..0] == history;
      for i := 0 to |events|
        invariant Valid() && seen == history + events[..i] && model == After(seen)
      {
        OneMore(seen, events[i]);
        Callback(events[i]);
        assert history + events[..i + 1] == seen + [events[i]];
        seen := seen + [events[i]];
      }
      assert events[..|events|] == events;
      WireOfValid(seen);
    }

    /** The callback for one event. */
    method Callback(e: Event)
      requires Valid()
      modifies this, transport
      ensures Valid() && model == Step(old(model), e)
    {
      hide Step, Matches, Wire, AttemptsOf, AllPossible;
      match e
      case Position(latitude, longitude, altitude) => OnPosition(latitude, longitude, altitude);
      case Euler(roll, pitch, heading) => OnEuler(roll, pitch, heading);
      case Velocity(x, y, z, speed) => OnVelocity(x, y, z, speed);
      case Imu => OnImu();
      case Gnss(fixStatus) => OnGnss(fixStatus);
      case Battery(voltage, percent) => OnBattery(voltage, percent);
      case ControlMode(auto) => OnControlMode(auto);
      case Nmea(raw) => OnNmea(raw);
      case ModeResponse(accepted, auto) => OnSetControlModeResponse(accepted, auto);
      case TelemetryTick => OnTelemetryTimer();
      case TxTick(open, answers) =>
        if open {
          transport.Open();
        } else {
          transport.Close();
        }
        OnTxTimer(answers);
    }

    lemma WireOfValid(events: seq<Event>)
      requires Valid() && model == After(events)
      ensures transport.wire == WireAfter(events)
    {
      hide After, Wire, AttemptsOf, Matches, AllPossible;
    }

    // ---- Subscriptions ---------------------------------------------------------------------------

    method OnPosition(latitude: Float64, longitude: Float64, altitude: Float32)
      requires Valid()
      modifies this`cache, this`delivered, this`model
      ensures Valid() && model == Step(old(model), Position(latitude, longitude, altitude))
    {
      hide EncodedTickets, AttemptsOf, AllPossible, Wrapped, Encode, Wire, FrameOf, QueuesMatch, SlotMatches;
      cache := cache.(latitude := latitude, longitude := longitude, altitude := altitude);
      delivered := delivered.(position := true);
      model := Step(model, Position(latitude, longitude, altitude));
    }

    method OnEuler(roll: Float32, pitch: Float32, heading: Float32)
      requires Valid()
      modifies this`cache, this`delivered, this`model
      ensures Valid() && model == Step(old(model), Euler(roll, pitch, heading))
    {
      hide EncodedTickets, AttemptsOf, AllPossible, Wrapped, Encode, Wire, FrameOf, QueuesMatch, SlotMatches;
      cache := cache.(roll := roll, pitch := pitch, heading := heading);
      delivered := delivered.(euler := true);
      model := Step(model, Euler(roll, pitch, heading));
    }

    method OnVelocity(x: Float32, y: Float32, z: Float32, speed: Float32)
      requires Valid()
      modifies this`cache, this`delivered, this`model
      ensures Valid() && model == Step(old(model), Velocity(x, y, z, speed))
    {
      hide EncodedTickets, AttemptsOf, AllPossible, Wrapped, Encode, Wire, FrameOf, QueuesMatch, SlotMatches;
      cache := cache.(velocityX := x, velocityY := y, velocityZ := z, speed := speed);
      delivered := delivered.(velocity := true);
      model := Step(model, Velocity(x, y, z, speed));
    }

    method OnImu()
      requires Valid()
      modifies this`delivered, this`model
      ensures Valid() && model == Step(old(model), Imu)
    {
      hide EncodedTickets, AttemptsOf, AllPossible, Wrapped, Encode, Wire, FrameOf, QueuesMatch, SlotMatches;
      delivered := delivered.(imu := true);
      model := Step(model, Imu);
    }

    method OnGnss(fixStatus: byte)
      requires Valid()
      modifies this`cache, this`delivered, this`model
      ensures Valid() && model == Step(old(model), Gnss(fixStatus))
    {
      hide EncodedTickets, AttemptsOf, AllPossible, Wrapped, Encode, Wire, FrameOf, QueuesMatch, SlotMatches;
      cache := cache.(gnssFixStatus := fixStatus);
      delivered := delivered.(gnss := true);
      model := Step(model, Gnss(fixStatus));
    }

    method OnBattery(voltage: Float32, percent: Float32)
      requires Valid()
      modifies this`cache, this`delivered, this`model
      ensures Valid() && model == Step(old(model), Battery(voltage, percent))
    {
      hide EncodedTickets, AttemptsOf, AllPossible, Wrapped, Encode, Wire, FrameOf, QueuesMatch, SlotMatches;
      cache := cache.(batteryVoltage := voltage, batteryPercent := percent);
      delivered := delivered.(battery := true);
      model := Step(model, Battery(voltage, percent));
    }

    method OnControlMode(auto: bool)
      requires Valid()
      modifies this`cache, this`model
      ensures Valid() && model == Step(old(model), ControlMode(auto))
    {
      hide EncodedTickets, AttemptsOf, AllPossible, Wrapped, Encode, Wire, FrameOf, QueuesMatch, SlotMatches;
      cache := cache.(controlMode := if auto then 1 else 0);
      model := Step(model, ControlMode(auto));
    }

    method OnNmea(raw: seq<byte>)
      requires Valid()
      modifies this`ggaQueue, this`txSequence, this`model
      ensures Valid() && model == Step(old(model), Nmea(raw))
    {
      hide EncodedTickets, AttemptsOf, AllPossible, Wrapped, Encode, Wire, Push, Trim, IsGga, SlotMatches, FrameOf;
      var sentence := Trim(raw);
      if !IsGga(sentence) {
        model := Step(model, Nmea(raw));
        return;
      }
      ghost var t := Ticket(model.nextId, GGA, sentence);
      var frame := NextFrame(GGA, sentence, t);
      ggaQueue := EnqueueBounded(ggaQueue, frame, model.gga, t);
      model := Step(model, Nmea(raw));
    }

    method OnSetControlModeResponse(accepted: bool, auto: bool)
      requires Valid()
      modifies this`autonomyStatusQueue, this`txSequence, this`model
      ensures Valid() && model == Step(old(model), ModeResponse(accepted, auto))
    {
      hide EncodedTickets, AttemptsOf, AllPossible, Wrapped, Encode, Wire, Push, EncodedAutonomyStatus;
      hide SlotMatches, FrameOf;
      ghost var t := Ticket(model.nextId, AUTONOMY_STATUS, EncodedAutonomyStatus(accepted, auto));
      var frame := NextFrame(AUTONOMY_STATUS, EncodedAutonomyStatus(accepted, auto), t);
      autonomyStatusQueue := EnqueueBounded(autonomyStatusQueue, frame, model.status, t);
      model := Step(model, ModeResponse(accepted, auto));
    }

    // ---- Timers ------------------------------------------------------------------------------------

    method OnTelemetryTimer()
      requires Valid()
      modifies this`telemetrySlot, this`telemetrySlotValid, this`txSequence, this`model
      ensures Valid() && model == Step(old(model), TelemetryTick)
    {
      hide EncodedTickets, AttemptsOf, AllPossible, Wrapped, Encode, Wire, EncodedTelemetry, QueuesMatch, FrameOf;
      if !delivered.All() {
        model := Step(model, TelemetryTick);
        return;
      }
      var payload := EncodeTelemetry(cache);
      telemetrySlot := NextFrame(TELEMETRY, payload, Ticket(model.nextId, TELEMETRY, payload));
      telemetrySlotValid := true;
      model := Step(model, TelemetryTick);
    }

    method OnTxTimer(answers: seq<WriteResult>)
      requires Valid()
      modifies this, transport
      ensures Valid() && transport.isOpen == old(transport.isOpen)
      ensures model == Step(old(model), TxTick(transport.isOpen, answers))
    {
      hide EncodedTickets, AttemptsOf, AllPossible, Wrapped, Encode, Wire, FrameOf, Transmit, TakeNext;
      hide QueuesMatch, SlotMatches;
      ghost var tick := TxTick(transport.isOpen, answers);
      ghost var (taken, next) := TakeNext(model);
      var frame, haveFrame := TakeFrame();
      model := taken;
      if !haveFrame {
        return;
      }
      ghost var attempt := Attempted(next.value, transport.isOpen, answers);
      WireGrows(model.tries, attempt);
      var _ := transport.WriteFrame(frame, answers);
      model := model.(tries := model.tries + [attempt]);
    }

    /** The locked part of the timer: pop by strict priority, else empty the telemetry slot. */
    method TakeFrame() returns (frame: seq<byte>, haveFrame: bool)
      requires QueuesMatch(model.killswitch, model.status, model.control, model.rtcm, model.gga)
      requires SlotMatches(model.slot)
      modifies this`killswitchQueue, this`autonomyStatusQueue, this`controlQueue, this`rtcmQueue, this`ggaQueue
      modifies this`telemetrySlotValid
      ensures var (taken, next) := TakeNext(model);
              && haveFrame == next.Some? && (haveFrame ==> frame == Encode(FrameOf(next.value)))
              && QueuesMatch(taken.killswitch, taken.status, taken.control, taken.rtcm, taken.gga)
              && SlotMatches(taken.slot)
    {
      hide EncodedTickets, AttemptsOf, AllPossible, Wrapped, Encode, Wire, FrameOf;
      frame, haveFrame := [], false;
      if killswitchQueue != [] {
        FirstEncoded(model.killswitch.held);
        frame, killswitchQueue, haveFrame := killswitchQueue[0], killswitchQueue[1..], true;
      } else if autonomyStatusQueue != [] {
        FirstEncoded(model.status.held);
        frame, autonomyStatusQueue, haveFrame := autonomyStatusQueue[0], autonomyStatusQueue[1..], true;
      } else if controlQueue != [] {
        FirstEncoded(model.control.held);
        frame, controlQueue, haveFrame := controlQueue[0], controlQueue[1..], true;
      } else if rtcmQueue != [] {
        FirstEncoded(model.rtcm.held);
        frame, rtcmQueue, haveFrame := rtcmQueue[0], rtcmQueue[1..], true;
      } else if ggaQueue != [] {
        FirstEncoded(model.gga.held);
        frame, ggaQueue, haveFrame := ggaQueue[0], ggaQueue[1..], true;
      }
      if !haveFrame {
        if telemetrySlotValid {
          frame, telemetrySlotValid, haveFrame := telemetrySlot, false, true;
        }
      }
    }

    /** `encode_frame(type, next_sequence(), payload)`, which every producer writes. */
    method NextFrame(kind: byte, payload: seq<byte>, ghost t: Ticket) returns (frame: seq<byte>)
      requires t.kind == kind && t.payload == payload && txSequence == Wrapped(t.id)
      modifies this`txSequence
      ensures frame == Encode(FrameOf(t)) && txSequence == Wrapped(t.id + 1)
    {
      hide Wrapped, Encode, FrameOf;
      NextNumber(t.id);
      FrameOfTicket(t);
      var sequence := NextSequence();
      frame := EncodeFrame(kind, sequence, payload);
    }

    /** `tx_sequence_.fetch_add(1)`. */
    method NextSequence() returns (sequence: bv32)
      modifies this`txSequence
      ensures sequence == old(txSequence) && txSequence == Next(old(txSequence))
    {
      sequence := txSequence;
      txSequence := txSequence + 1;
    }
  }

  /** A whole run of the node, from its construction on. */
  method FromStartup(events: seq<Event>) returns (node: TxCallbacks)
    ensures fresh(node) && node.Valid() && node.model == After(events)
    ensures node.transport.wire == WireAfter(events)
  {
    hide WireAfter, Step;
    node := new TxCallbacks();
    assert After([]) == INITIAL;
    assert [] + events == events;
    node.Run(events, []);
  }

  lemma OneMore(events: seq<Event>, e: Event)
    ensures After(events + [e]) == Step(After(events), e)
  {
    hide After, Step;
    LastStep(events + [e]);
    assert (events + [e])[..|events|] == events;
  }

  lemma WireGrows(tries: seq<Try>, t: Try)
    requires AllPossible(AttemptsOf(tries)) && t.transfer.count <= FrameSize(FrameOf(t.ticket))
    ensures AllPossible(AttemptsOf(tries + [t]))
    ensures Wire(AttemptsOf(tries + [t])) == Wire(AttemptsOf(tries)) + Encode(FrameOf(t.ticket))[..t.transfer.count]
  {
    hide Encode, FrameOf;
    assert AttemptsOf(tries + [t])[..|tries|] == AttemptsOf(tries);
  }
}
