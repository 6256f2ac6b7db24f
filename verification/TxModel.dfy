/**
 The transmit side as a transition system.  Every callback of the node's single executor
 is one atomic step; the state carries the history that the guarantees are about.
 */
module TxModel {
  import opened Bytes
  import opened Protocol
  import opened Sequence
  import opened Telemetry
  import opened Transport

  const TELEMETRY: byte := 1
  const GGA: byte := 3
  const AUTONOMY_STATUS: byte := 10

  const QUEUE_CAPACITY := 16

  // ---- State -----------------------------------------------------------------------------------

  /** A frame built for transmission; `id` is its sequence number before the counter wraps. */
  datatype Ticket = Ticket(id: nat, kind: byte, payload: seq<byte>)

  function FrameOf(t: Ticket): Frame {
    Frame(t.kind, Wrapped(t.id), t.payload)
  }

  /** A frame that left its queue: popped for transmission, or evicted by a newer one. */
  datatype Departure = Departure(ticket: Ticket, popped: bool)

  /** A drop-oldest queue with everything ever pushed and every departure, oldest first. */
  datatype Queue = Queue(pushed: seq<Ticket>, gone: seq<Departure>, held: seq<Ticket>)

  const EMPTY: Queue := Queue([], [], [])

  function Push(q: Queue, t: Ticket): Queue {
    if |q.held| >= QUEUE_CAPACITY then
      Queue(q.pushed + [t], q.gone + [Departure(q.held[0], false)], q.held[1..] + [t])
    else
      Queue(q.pushed + [t], q.gone, q.held + [t])
  }

  function Pop(q: Queue): Queue
    requires q.held != []
  {
    Queue(q.pushed, q.gone + [Departure(q.held[0], true)], q.held[1..])
  }

  datatype Option<T> = None | Some(value: T)

  /** Which of the six required sources have delivered. */
  datatype Delivered = Delivered(position: bool, euler: bool, velocity: bool, imu: bool, gnss: bool, battery: bool) {
    predicate All() {
      position && euler && velocity && imu && gnss && battery
    }
  }

  /** A telemetry frame and the cached snapshot it was built from. */
  datatype Built = Built(ticket: Ticket, snapshot: TelemetryPayload)

  /** A frame handed to `write_frame`, with what became of it. */
  datatype Try = Try(ticket: Ticket, transfer: Transfer)

  datatype TxState = TxState(
    cache: TelemetryPayload, delivered: Delivered,
    killswitch: Queue, status: Queue, control: Queue, rtcm: Queue, gga: Queue,
    slot: Option<Ticket>, nextId: nat,
    built: seq<Built>, tries: seq<Try>)

  const ZERO32: Float32 := Float32(0)
  const ZERO64: Float64 := Float64(0)

  const NO_DATA: TelemetryPayload := TelemetryPayload(
    ZERO64, ZERO64, ZERO32, ZERO32, ZERO32, ZERO32, ZERO32, ZERO32, ZERO32, ZERO32, ZERO32, ZERO32, 0, 0, 0)

  const INITIAL: TxState := TxState(
    NO_DATA, Delivered(false, false, false, false, false, false),
    EMPTY, EMPTY, EMPTY, EMPTY, EMPTY, None, 0, [], [])

  // ---- Steps -------------------------------------------------------------------------------------

  datatype Event =
    | Position(latitude: Float64, longitude: Float64, altitude: Float32)
    | Euler(roll: Float32, pitch: Float32, heading: Float32)
    | Velocity(x: Float32, y: Float32, z: Float32, speed: Float32)
    | Imu
    | Gnss(fixStatus: byte)
    | Battery(voltage: Float32, percent: Float32)
    | ControlMode(auto: bool)
    | Nmea(raw: seq<byte>)
    | ModeResponse(accepted: bool, auto: bool)
    | TelemetryTick
    | TxTick(open: bool, answers: seq<WriteResult>)

  predicate IsBlank(b: byte) {
    b == 0x20 || b == 0x09 || b == 0x0D || b == 0x0A
  }

  function TrimFront(s: seq<byte>): seq<byte> {
    if s != [] && IsBlank(s[0]) then TrimFront(s[1..]) else s
  }

  function TrimBack(s: seq<byte>): seq<byte> {
    if s != [] && IsBlank(s[|s| - 1]) then TrimBack(s[..|s| - 1]) else s
  }

  function Trim(s: seq<byte>): seq<byte> {
    TrimBack(TrimFront(s))
  }

  const DOLLAR_GP: seq<byte> := [0x24, 0x47, 0x50, 0x47, 0x47, 0x41]  // $GPGGA
  const DOLLAR_GN: seq<byte> := [0x24, 0x47, 0x4E, 0x47, 0x47, 0x41]  // $GNGGA

  predicate IsGga(sentence: seq<byte>) {
    DOLLAR_GP <= sentence || DOLLAR_GN <= sentence
  }

  /** The frame `on_tx_timer` takes: strict priority, telemetry only when every queue is empty. */
  function TakeNext(s: TxState): (r: (TxState, Option<Ticket>))
    ensures r.0.cache == s.cache && r.0.delivered == s.delivered && r.0.nextId == s.nextId
    ensures r.0.built == s.built && r.0.tries == s.tries
  {
    if s.killswitch.held != [] then (s.(killswitch := Pop(s.killswitch)), Some(s.killswitch.held[0]))
    else if s.status.held != [] then (s.(status := Pop(s.status)), Some(s.status.held[0]))
    else if s.control.held != [] then (s.(control := Pop(s.control)), Some(s.control.held[0]))
    else if s.rtcm.held != [] then (s.(rtcm := Pop(s.rtcm)), Some(s.rtcm.held[0]))
    else if s.gga.held != [] then (s.(gga := Pop(s.gga)), Some(s.gga.held[0]))
    else (s.(slot := None), s.slot)
  }

  function Attempted(t: Ticket, open: bool, answers: seq<WriteResult>): Try {
    Try(t, if open then Transmit(FrameSize(FrameOf(t)), 0, answers) else Transfer(0, Lost))
  }

  /** The cache with the fields of one incoming message written into it. */
  function Cached(c: TelemetryPayload, e: Event): TelemetryPayload {
    match e
    case Position(lat, lon, alt) => c.(latitude := lat, longitude := lon, altitude := alt)
    case Euler(roll, pitch, heading) => c.(roll := roll, pitch := pitch, heading := heading)
    case Velocity(x, y, z, speed) => c.(velocityX := x, velocityY := y, velocityZ := z, speed := speed)
    case Gnss(fix) => c.(gnssFixStatus := fix)
    case Battery(voltage, percent) => c.(batteryVoltage := voltage, batteryPercent := percent)
    case ControlMode(auto) => c.(controlMode := if auto then 1 else 0)
    case _ => c
  }

  /** The mode is cached too, but is not one of the required sources. */
  function Noted(d: Delivered, e: Event): Delivered {
    Delivered(d.position || e.Position?, d.euler || e.Euler?, d.velocity || e.Velocity?,
              d.imu || e.Imu?, d.gnss || e.Gnss?, d.battery || e.Battery?)
  }

  function QueueGga(s: TxState, sentence: seq<byte>): TxState {
    s.(gga := Push(s.gga, Ticket(s.nextId, GGA, sentence)), nextId := s.nextId + 1)
  }

  function QueueStatus(s: TxState, payload: seq<byte>): TxState {
    s.(status := Push(s.status, Ticket(s.nextId, AUTONOMY_STATUS, payload)), nextId := s.nextId + 1)
  }

  function BuildTelemetry(s: TxState): TxState {
    var t := Ticket(s.nextId, TELEMETRY, EncodedTelemetry(s.cache));
    s.(slot := Some(t), nextId := s.nextId + 1, built := s.built + [Built(t, s.cache)])
  }

  function SendNext(s: TxState, open: bool, answers: seq<WriteResult>): TxState {
    var (s', next) := TakeNext(s);
    if next.None? then s' else s'.(tries := s'.tries + [Attempted(next.value, open, answers)])
  }

  /** One callback: messages are cached, the other events act on the queues and the slot. */
  function Step(s: TxState, e: Event): TxState {
    match e
    case Nmea(raw) => if IsGga(Trim(raw)) then QueueGga(s, Trim(raw)) else s
    case ModeResponse(accepted, auto) => QueueStatus(s, EncodedAutonomyStatus(accepted, auto))
    case TelemetryTick => if s.delivered.All() then BuildTelemetry(s) else s
    case TxTick(open, answers) => SendNext(s, open, answers)
    case _ => s.(cache := Cached(s.cache, e), delivered := Noted(s.delivered, e))
  }

  function Exec(s: TxState, events: seq<Event>): TxState
    decreases |events|
  {
    if events == [] then s else Exec(Step(s, events[0]), events[1..])
  }

  lemma {:induction false} ExecConcat(s: TxState, a: seq<Event>, b: seq<Event>)
    ensures Exec(s, a + b) == Exec(Exec(s, a), b)
    decreases |a|
  {
    hide Step;
    if a == [] {
      assert a + b == b;
    } else {
      assert (a + b)[1..] == a[1..] + b;
      ExecConcat(Step(s, a[0]), a[1..], b);
    }
  }

  // ---- The invariant of every run ------------------------------------------------------------------

  function TicketsOf(gone: seq<Departure>): (ts: seq<Ticket>)
    ensures |ts| == |gone|
    ensures forall i :: 0 <= i < |gone| ==> ts[i] == gone[i].ticket
  {
    seq(|gone|, i requires 0 <= i < |gone| => gone[i].ticket)
  }

  /** Every frame pushed is exactly one of departed or still held, oldest first. */
  predicate Accounted(q: Queue) {
    q.pushed == TicketsOf(q.gone) + q.held && |q.held| <= QUEUE_CAPACITY
  }

  /** Tickets of one kind, numbered upwards below `bound`. */
  predicate Numbered(ts: seq<Ticket>, kind: byte, bound: nat) {
    && (forall i :: 0 <= i < |ts| ==> ts[i].kind == kind && ts[i].id < bound)
    && (forall i, j :: 0 <= i < j < |ts| ==> ts[i].id < ts[j].id)
  }

  /** The departures that were popped. */
  function Popped(gone: seq<Departure>): seq<Ticket> {
    if gone == [] then []
    else Popped(gone[..|gone| - 1]) + (if gone[|gone| - 1].popped then [gone[|gone| - 1].ticket] else [])
  }

  /** The tickets of one kind handed to `write_frame`, in order. */
  function Tried(tries: seq<Try>, kind: byte): seq<Ticket> {
    if tries == [] then []
    else Tried(tries[..|tries| - 1], kind)
         + (if tries[|tries| - 1].ticket.kind == kind then [tries[|tries| - 1].ticket] else [])
  }

  function BuiltTickets(built: seq<Built>): (ts: seq<Ticket>)
    ensures |ts| == |built|
    ensures forall i :: 0 <= i < |built| ==> ts[i] == built[i].ticket
  {
    seq(|built|, i requires 0 <= i < |built| => built[i].ticket)
  }

  predicate Ascending(ts: seq<Ticket>, bound: nat) {
    && (forall i :: 0 <= i < |ts| ==> ts[i].id < bound)
    && (forall i, j :: 0 <= i < j < |ts| ==> ts[i].id < ts[j].id)
  }

  /** No telemetry that was tried is as new as the one in the slot. */
  predicate SlotIsNews(s: TxState) {
    match s.slot
    case None => Ascending(Tried(s.tries, TELEMETRY), s.nextId)
    case Some(t) =>
      && s.built != [] && t == s.built[|s.built| - 1].ticket
      && Ascending(Tried(s.tries, TELEMETRY), t.id)
  }

  ghost predicate Inv(s: TxState) {
    && s.killswitch == s.control == s.rtcm == EMPTY
    && Accounted(s.status) && Numbered(s.status.pushed, AUTONOMY_STATUS, s.nextId)
    && Accounted(s.gga) && Numbered(s.gga.pushed, GGA, s.nextId)
    && Numbered(BuiltTickets(s.built), TELEMETRY, s.nextId)
    && Tried(s.tries, AUTONOMY_STATUS) == Popped(s.status.gone)
    && Tried(s.tries, GGA) == Popped(s.gga.gone)
    && SlotIsNews(s)
    && (forall b :: b in s.built ==> b.ticket.payload == EncodedTelemetry(b.snapshot))
  }

  lemma InitialInv()
    ensures Inv(INITIAL)
  {
    hide EncodedTelemetry;
    assert TicketsOf([]) == [] && BuiltTickets([]) == [];
    assert INITIAL.status == EMPTY && INITIAL.gga == EMPTY;
  }

  lemma PushKeeps(q: Queue, t: Ticket)
    requires Accounted(q) && Numbered(q.pushed, t.kind, t.id)
    ensures Accounted(Push(q, t)) && Numbered(Push(q, t).pushed, t.kind, t.id + 1)
    ensures Popped(Push(q, t).gone) == Popped(q.gone)
  {
    var r := Push(q, t);
    if |q.held| >= QUEUE_CAPACITY {
      var d := Departure(q.held[0], false);
      assert (q.gone + [d])[..|q.gone|] == q.gone;
      assert TicketsOf(q.gone + [d]) == TicketsOf(q.gone) + [q.held[0]];
      assert q.held == [q.held[0]] + q.held[1..];
    }
  }

  lemma PopKeeps(q: Queue)
    requires Accounted(q) && q.held != []
    ensures Accounted(Pop(q)) && Pop(q).pushed == q.pushed
    ensures Popped(Pop(q).gone) == Popped(q.gone) + [q.held[0]]
    ensures q.held[0] in q.pushed
  {
    var d := Departure(q.held[0], true);
    assert (q.gone + [d])[..|q.gone|] == q.gone;
    assert TicketsOf(q.gone + [d]) == TicketsOf(q.gone) + [q.held[0]];
    assert q.held == [q.held[0]] + q.held[1..];
    assert q.pushed[|q.gone|] == q.held[0];
  }

  lemma TryExtends(tries: seq<Try>, t: Try, kind: byte)
    ensures Tried(tries + [t], kind)
         == if t.ticket.kind == kind then Tried(tries, kind) + [t.ticket] else Tried(tries, kind)
  {
    assert (tries + [t])[..|tries|] == tries;
    assert Tried(tries, kind) + [] == Tried(tries, kind);
  }

  lemma BuildKeeps(built: seq<Built>, b: Built)
    requires Numbered(BuiltTickets(built), TELEMETRY, b.ticket.id) && b.ticket.kind == TELEMETRY
    ensures Numbered(BuiltTickets(built + [b]), TELEMETRY, b.ticket.id + 1)
  {
    assert BuiltTickets(built + [b]) == BuiltTickets(built) + [b.ticket];
  }

  lemma TickSendsStatus(s: TxState, open: bool, answers: seq<WriteResult>)
    requires Inv(s) && s.status.held != []
    ensures Inv(SendNext(s, open, answers))
  {
    hide Transmit, FrameOf, Accounted, Numbered, Popped, Tried, Ascending, Pop, EncodedTelemetry;
    var t := Attempted(s.status.held[0], open, answers);
    PopKeeps(s.status);
    assert t.ticket.kind == AUTONOMY_STATUS by { KindOfHead(s.status, AUTONOMY_STATUS, s.nextId); }
    TryExtends(s.tries, t, AUTONOMY_STATUS);
    TryExtends(s.tries, t, GGA);
    TryExtends(s.tries, t, TELEMETRY);
  }

  lemma TickSendsGga(s: TxState, open: bool, answers: seq<WriteResult>)
    requires Inv(s) && s.status.held == [] && s.gga.held != []
    ensures Inv(SendNext(s, open, answers))
  {
    hide Transmit, FrameOf, Accounted, Numbered, Popped, Tried, Ascending, Pop, EncodedTelemetry;
    var t := Attempted(s.gga.held[0], open, answers);
    PopKeeps(s.gga);
    assert t.ticket.kind == GGA by { KindOfHead(s.gga, GGA, s.nextId); }
    TryExtends(s.tries, t, AUTONOMY_STATUS);
    TryExtends(s.tries, t, GGA);
    TryExtends(s.tries, t, TELEMETRY);
  }

  lemma KindOfHead(q: Queue, kind: byte, bound: nat)
    requires Accounted(q) && Numbered(q.pushed, kind, bound) && q.held != []
    ensures q.held[0].kind == kind
  {
    assert q.pushed[|q.gone|] == q.held[0];
  }

  lemma AscendingAppend(ts: seq<Ticket>, t: Ticket, bound: nat)
    requires Ascending(ts, t.id) && t.id < bound
    ensures Ascending(ts + [t], bound)
  {
  }

  lemma TickSendsTelemetry(s: TxState, open: bool, answers: seq<WriteResult>)
    requires Inv(s) && s.status.held == [] && s.gga.held == [] && s.slot.Some?
    ensures Inv(SendNext(s, open, answers))
  {
    hide Transmit, FrameOf, Accounted, Popped, Tried, Ascending, EncodedTelemetry;
    var t := Attempted(s.slot.value, open, answers);
    assert BuiltTickets(s.built)[|s.built| - 1] == s.slot.value;
    AscendingAppend(Tried(s.tries, TELEMETRY), s.slot.value, s.nextId);
    TryExtends(s.tries, t, AUTONOMY_STATUS);
    TryExtends(s.tries, t, GGA);
    TryExtends(s.tries, t, TELEMETRY);
  }

  lemma TickKeepsInv(s: TxState, open: bool, answers: seq<WriteResult>)
    requires Inv(s)
    ensures Inv(SendNext(s, open, answers))
  {
    if s.status.held != [] {
      TickSendsStatus(s, open, answers);
    } else if s.gga.held != [] {
      TickSendsGga(s, open, answers);
    } else if s.slot.Some? {
      TickSendsTelemetry(s, open, answers);
    } else {
      hide Inv, Attempted;
      assert SendNext(s, open, answers) == s;
    }
  }

  /** One more number is in use; nothing else changed for these sequences. */
  lemma Renumber(s: TxState)
    requires Inv(s)
    ensures Numbered(s.status.pushed, AUTONOMY_STATUS, s.nextId + 1)
    ensures Numbered(s.gga.pushed, GGA, s.nextId + 1)
    ensures Numbered(BuiltTickets(s.built), TELEMETRY, s.nextId + 1)
    ensures s.slot.None? ==> Ascending(Tried(s.tries, TELEMETRY), s.nextId + 1)
    ensures Ascending(Tried(s.tries, TELEMETRY), s.nextId)
  {
    hide Accounted, Tried, Popped, EncodedTelemetry;
    if s.slot.Some? {
      assert BuiltTickets(s.built)[|s.built| - 1] == s.slot.value;
    }
  }

  lemma NmeaKeepsInv(s: TxState, sentence: seq<byte>)
    requires Inv(s)
    ensures Inv(QueueGga(s, sentence))
  {
    hide Accounted, Numbered, Tried, Popped, Push, Ascending, EncodedTelemetry;
    PushKeeps(s.gga, Ticket(s.nextId, GGA, sentence));
    Renumber(s);
  }

  lemma ResponseKeepsInv(s: TxState, payload: seq<byte>)
    requires Inv(s)
    ensures Inv(QueueStatus(s, payload))
  {
    hide Accounted, Numbered, Tried, Popped, Push, Ascending, EncodedTelemetry;
    PushKeeps(s.status, Ticket(s.nextId, AUTONOMY_STATUS, payload));
    Renumber(s);
  }

  lemma BuildKeepsInv(s: TxState)
    requires Inv(s)
    ensures Inv(BuildTelemetry(s))
  {
    hide Accounted, Numbered, Tried, Popped, Ascending, EncodedTelemetry;
    BuildKeeps(s.built, Built(Ticket(s.nextId, TELEMETRY, EncodedTelemetry(s.cache)), s.cache));
    Renumber(s);
  }

  lemma StepKeepsInv(s: TxState, e: Event)
    requires Inv(s)
    ensures Inv(Step(s, e))
  {
    hide QueueGga, QueueStatus, BuildTelemetry, SendNext, EncodedAutonomyStatus, Trim, IsGga, Inv;
    match e
    case TxTick(open, answers) => TickKeepsInv(s, open, answers);
    case Nmea(raw) => NmeaKeepsInv(s, Trim(raw));
    case ModeResponse(accepted, auto) => ResponseKeepsInv(s, EncodedAutonomyStatus(accepted, auto));
    case TelemetryTick => BuildKeepsInv(s);
    case _ => CachingKeepsInv(s, Cached(s.cache, e), Noted(s.delivered, e));
  }

  lemma CachingKeepsInv(s: TxState, cache: TelemetryPayload, delivered: Delivered)
    requires Inv(s)
    ensures Inv(s.(cache := cache, delivered := delivered))
  {
    hide Accounted, Numbered, Tried, Popped, Ascending, EncodedTelemetry;
  }

  lemma {:induction false} RunKeepsInv(s: TxState, events: seq<Event>)
    requires Inv(s)
    ensures Inv(Exec(s, events))
    decreases |events|
  {
    hide Step, Inv;
    if events != [] {
      StepKeepsInv(s, events[0]);
      RunKeepsInv(Step(s, events[0]), events[1..]);
    }
  }
}
