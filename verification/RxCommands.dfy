/**
 The command side of the bridge: `dispatch_frame`, its handlers, and the Joy message they
 keep.  Publishers are a log of what was published, with timestamps left out.
 */
module RxCommands {
  import opened Bytes
  import opened Protocol
  import opened Floats
  import Rtcm

  const RTCM: byte := 2
  const CONTROL: byte := 4
  const KILLSWITCH: byte := 5
  const GAMEPAD_BUTTON: byte := 8

  const CONTROL_PAYLOAD_SIZE := 8
  const KILLSWITCH_PAYLOAD_SIZE := 1
  const GAMEPAD_BUTTON_PAYLOAD_SIZE := 2

  /** One stick as `handle_control` computes it. */
  function Stick(bits: bv32, limit: Float): Float {
    Times(Clamp(FromBits(bits)), Narrowed(limit))
  }

  // ---- Parameters, state, publications --------------------------------------------------------

  /** The startup parameters the handlers read; `Valid` is what the node's constructor insists on. */
  datatype Params = Params(remoteControl: bool, maxLinear: Float, maxAngular: Float, buttonCount: int,
                           axisCount: int, surgeAxis: int, yawAxis: int)
  {
    predicate Valid() {
      0 <= buttonCount && 0 < axisCount && 0 <= surgeAxis < axisCount && 0 <= yawAxis < axisCount
    }
  }

  /** The part of sensor_msgs/Joy that the bridge fills in. */
  datatype Joy = Joy(axes: seq<Float>, buttons: seq<int>)

  datatype Publication =
    | RtcmOut(data: seq<byte>)
    | JoyOut(joy: Joy)
    | ButtonOut(index: nat, pressed: bool)
    | KillswitchOut(active: bool)

  function Centred(p: Params): (j: Joy)
    requires p.Valid()
    ensures |j.axes| == p.axisCount && |j.buttons| == p.buttonCount
  {
    Joy(seq(p.axisCount, _ => Finite(0.0)), seq(p.buttonCount, _ => 0))
  }

  predicate Fits(p: Params, j: Joy) {
    |j.axes| == p.axisCount && |j.buttons| == p.buttonCount
  }

  // ---- What one frame does ------------------------------------------------------------------------

  predicate IsControl(f: Frame) {
    f.packetType == CONTROL && |f.payload| == CONTROL_PAYLOAD_SIZE
  }

  predicate IsKillswitch(f: Frame) {
    f.packetType == KILLSWITCH && |f.payload| == KILLSWITCH_PAYLOAD_SIZE
  }

  predicate IsButton(p: Params, f: Frame) {
    && f.packetType == GAMEPAD_BUTTON
    && |f.payload| == GAMEPAD_BUTTON_PAYLOAD_SIZE
    && ByteValue(f.payload[0]) < p.buttonCount
  }

  function Surge(p: Params, f: Frame): Float
    requires IsControl(f)
  {
    Stick(FromLE32(f.payload[..4]), p.maxLinear)
  }

  function Yaw(p: Params, f: Frame): Float
    requires IsControl(f)
  {
    Stick(FromLE32(f.payload[4..]), p.maxAngular)
  }

  /** The Joy message and the publications after one dispatched frame. */
  function React(p: Params, j: Joy, f: Frame): (r: (Joy, seq<Publication>))
    requires p.Valid() && Fits(p, j)
    ensures Fits(p, r.0)
  {
    if f.packetType == RTCM then
      (j, if Rtcm.Passes(f.payload) then [RtcmOut(f.payload)] else [])
    else if IsControl(f) && p.remoteControl then
      var moved := j.(axes := j.axes[p.surgeAxis := Surge(p, f)][p.yawAxis := Yaw(p, f)]);
      (moved, [JoyOut(moved)])
    else if IsKillswitch(f) && p.remoteControl then
      if f.payload[0] != 0 then
        (Centred(p), [KillswitchOut(true), JoyOut(Centred(p))])
      else
        (j, [KillswitchOut(false)])
    else if IsButton(p, f) then
      var i, pressed := ByteValue(f.payload[0]), f.payload[1] != 0;
      if p.remoteControl then
        var pushed := j.(buttons := j.buttons[i := if pressed then 1 else 0]);
        (pushed, [ButtonOut(i, pressed), JoyOut(pushed)])
      else
        (j, [ButtonOut(i, pressed)])
    else
      (j, [])
  }

  class CommandState {
    const params: Params
    var axes: seq<Float>
    var buttons: seq<int>
    /** Everything published so far, oldest first. */
    ghost var published: seq<Publication>

    ghost predicate Valid()
      reads this
    {
      params.Valid() && Fits(params, Joy(axes, buttons))
    }

    constructor (p: Params)
      requires p.Valid()
      ensures Valid() && params == p && Joy(axes, buttons) == Centred(p) && published == []
    {
      params := p;
      axes := seq(p.axisCount, _ => Finite(0.0));
      buttons := seq(p.buttonCount, _ => 0);
      published := [];
    }

    method DispatchFrame(frame: Frame)
      requires Valid()
      modifies this
      ensures Valid()
      ensures var r := React(params, old(Joy(axes, buttons)), frame);
              Joy(axes, buttons) == r.0 && published == old(published) + r.1
    {
      if frame.packetType == RTCM {
        HandleRtcm(frame);
      } else if frame.packetType == CONTROL {
        HandleControl(frame);
      } else if frame.packetType == KILLSWITCH {
        HandleKillswitch(frame);
      } else if frame.packetType == GAMEPAD_BUTTON {
        HandleGamepadButton(frame);
      }
    }

    method HandleRtcm(frame: Frame)
      requires Valid() && frame.packetType == RTCM
      modifies this`published
      ensures published == old(published) + React(params, Joy(axes, buttons), frame).1
    {
      var ok := Rtcm.Check(frame.payload);
      if ok {
        published := published + [RtcmOut(frame.payload)];
      }
    }

    method HandleControl(frame: Frame)
      requires Valid() && frame.packetType == CONTROL
      modifies this
      ensures Valid()
      ensures var r := React(params, old(Joy(axes, buttons)), frame);
              Joy(axes, buttons) == r.0 && published == old(published) + r.1
    {
      if |frame.payload| != CONTROL_PAYLOAD_SIZE || !params.remoteControl {
        return;
      }
      var surge := Stick(FromLE32(frame.payload[..4]), params.maxLinear);
      var yaw := Stick(FromLE32(frame.payload[4..]), params.maxAngular);
      axes := axes[params.surgeAxis := surge];
      axes := axes[params.yawAxis := yaw];
      PublishJoy();
    }

    method HandleKillswitch(frame: Frame)
      requires Valid() && frame.packetType == KILLSWITCH
      modifies this
      ensures Valid()
      ensures var r := React(params, old(Joy(axes, buttons)), frame);
              Joy(axes, buttons) == r.0 && published == old(published) + r.1
    {
      if |frame.payload| != KILLSWITCH_PAYLOAD_SIZE || !params.remoteControl {
        return;
      }
      var active := frame.payload[0] != 0;
      published := published + [KillswitchOut(active)];
      if active {
        axes := seq(|axes|, _ => Finite(0.0));
        buttons := seq(|buttons|, _ => 0);
        PublishJoy();
      }
    }

    method HandleGamepadButton(frame: Frame)
      requires Valid() && frame.packetType == GAMEPAD_BUTTON
      modifies this
      ensures Valid()
      ensures var r := React(params, old(Joy(axes, buttons)), frame);
              Joy(axes, buttons) == r.0 && published == old(published) + r.1
    {
      if |frame.payload| != GAMEPAD_BUTTON_PAYLOAD_SIZE {
        return;
      }
      var index := ByteValue(frame.payload[0]);
      if index >= params.buttonCount {
        return;
      }
      var pressed := frame.payload[1] != 0;
      published := published + [ButtonOut(index, pressed)];
      if !params.remoteControl {
        return;
      }
      if index < |buttons| {
        buttons := buttons[index := if pressed then 1 else 0];
        PublishJoy();
      }
    }

    method PublishJoy()
      modifies this`published
      ensures published == old(published) + [JoyOut(Joy(axes, buttons))]
    {
      published := published + [JoyOut(Joy(axes, buttons))];
    }
  }

  // ---- Whole runs -------------------------------------------------------------------------------

  /** The Joy message after a run of dispatched frames. */
  function JoyAfter(p: Params, frames: seq<Frame>): (j: Joy)
    requires p.Valid()
    ensures Fits(p, j)
  {
    if frames == [] then Centred(p)
    else React(p, JoyAfter(p, frames[..|frames| - 1]), frames[|frames| - 1]).0
  }

  /** Everything published during a run of dispatched frames. */
  function PublishedBy(p: Params, frames: seq<Frame>): seq<Publication>
    requires p.Valid()
  {
    if frames == [] then []
    else
      var before, last := frames[..|frames| - 1], frames[|frames| - 1];
      PublishedBy(p, before) + React(p, JoyAfter(p, before), last).1
  }

  predicate StopsAll(f: Frame) {
    IsKillswitch(f) && f.payload[0] != 0
  }

  /** f decides the state of button i. */
  predicate WritesButton(p: Params, f: Frame, i: nat) {
    StopsAll(f) || (IsButton(p, f) && ByteValue(f.payload[0]) == i)
  }

  function ButtonWritten(f: Frame): int
    requires StopsAll(f) || |f.payload| == GAMEPAD_BUTTON_PAYLOAD_SIZE
  {
    if StopsAll(f) then 0 else if f.payload[1] != 0 then 1 else 0
  }

  /** f decides the position of axis i. */
  predicate WritesAxis(p: Params, f: Frame, i: nat) {
    StopsAll(f) || (IsControl(f) && (i == p.surgeAxis || i == p.yawAxis))
  }

  function AxisWritten(p: Params, f: Frame, i: nat): Float
    requires WritesAxis(p, f, i)
  {
    if StopsAll(f) then Finite(0.0) else if i == p.yawAxis then Yaw(p, f) else Surge(p, f)
  }

  /** The last of the frames that writes button i, or -1. */
  function LastButtonWriter(p: Params, frames: seq<Frame>, i: nat): (k: int)
    ensures -1 <= k < |frames|
    ensures k >= 0 ==> WritesButton(p, frames[k], i)
    ensures forall m :: k < m < |frames| ==> !WritesButton(p, frames[m], i)
  {
    if frames == [] then -1
    else if WritesButton(p, frames[|frames| - 1], i) then |frames| - 1
    else LastButtonWriter(p, frames[..|frames| - 1], i)
  }

  function LastAxisWriter(p: Params, frames: seq<Frame>, i: nat): (k: int)
    ensures -1 <= k < |frames|
    ensures k >= 0 ==> WritesAxis(p, frames[k], i)
    ensures forall m :: k < m < |frames| ==> !WritesAxis(p, frames[m], i)
  {
    if frames == [] then -1
    else if WritesAxis(p, frames[|frames| - 1], i) then |frames| - 1
    else LastAxisWriter(p, frames[..|frames| - 1], i)
  }

  lemma OneFrame(p: Params, j: Joy, f: Frame)
    requires p.Valid() && p.remoteControl && Fits(p, j)
    ensures var j' := React(p, j, f).0;
            && (forall i: nat :: i < p.buttonCount ==>
                j'.buttons[i] == if WritesButton(p, f, i) then ButtonWritten(f) else j.buttons[i])
            && (forall i: nat :: i < p.axisCount ==>
                j'.axes[i] == if WritesAxis(p, f, i) then AxisWritten(p, f, i) else j.axes[i])
  {
    hide Stick, FromLE32, ByteValue, Rtcm.Passes;
  }

  /**
   With remote control on, each button shows its last writer: the last valid button frame
   for it or the last active killswitch, whichever came later, and 0 if there was none.
   */
  lemma {:induction false} ButtonShowsLastWriter(p: Params, frames: seq<Frame>, i: nat)
    requires p.Valid() && p.remoteControl && i < p.buttonCount
    ensures var k := LastButtonWriter(p, frames, i);
            JoyAfter(p, frames).buttons[i] == if k < 0 then 0 else ButtonWritten(frames[k])
  {
    hide React, WritesButton, ButtonWritten, IsButton, StopsAll;
    if frames != [] {
      var before := frames[..|frames| - 1];
      OneFrame(p, JoyAfter(p, before), frames[|frames| - 1]);
      ButtonShowsLastWriter(p, before, i);
    }
  }

  /**
   The same for the axes: surge and yaw hold the clamped and scaled values of the last
   valid control frame since the last active killswitch, yaw winning if both are one axis;
   no other axis ever leaves 0.
   */
  lemma {:induction false} AxisShowsLastWriter(p: Params, frames: seq<Frame>, i: nat)
    requires p.Valid() && p.remoteControl && i < p.axisCount
    ensures var k := LastAxisWriter(p, frames, i);
            JoyAfter(p, frames).axes[i] == if k < 0 then Finite(0.0) else AxisWritten(p, frames[k], i)
  {
    hide React, WritesAxis, AxisWritten, IsControl, StopsAll;
    if frames != [] {
      var before := frames[..|frames| - 1];
      OneFrame(p, JoyAfter(p, before), frames[|frames| - 1]);
      AxisShowsLastWriter(p, before, i);
    }
  }

  /**
   No command, however it was damaged or forged, moves an axis beyond its configured limit:
   after any run a stick axis is NaN or within the limit, rounding included.
   */
  lemma AxesStayWithinLimits(p: Params, frames: seq<Frame>, i: nat)
    requires p.Valid() && p.remoteControl && (i == p.surgeAxis || i == p.yawAxis)
    ensures var limit, a := if i == p.yawAxis then p.maxAngular else p.maxLinear, JoyAfter(p, frames).axes[i];
            limit.Finite? && Narrowed(limit).Finite? ==>
              a.NaN? || (a.Finite? && Magnitude(a.value) <= Magnitude(Narrowed(limit).value))
  {
    hide JoyAfter, FromBits, FromLE32, Narrowed, Times, LastAxisWriter;
    AxisShowsLastWriter(p, frames, i);
    var k := LastAxisWriter(p, frames, i);
    var limit := if i == p.yawAxis then p.maxAngular else p.maxLinear;
    if limit.Finite? && Narrowed(limit).Finite? && k >= 0 && !StopsAll(frames[k]) {
      var bits := if i == p.yawAxis then frames[k].payload[4..] else frames[k].payload[..4];
      ScaledStickStaysWithin(FromBits(FromLE32(bits)), limit);
    }
  }

  lemma {:induction false} OtherAxesStayCentred(p: Params, frames: seq<Frame>, i: nat)
    requires p.Valid() && p.remoteControl && i < p.axisCount && i != p.surgeAxis && i != p.yawAxis
    ensures JoyAfter(p, frames).axes[i] == Finite(0.0)
  {
    hide React, FromLE32, Stick;
    AxisShowsLastWriter(p, frames, i);
  }

  /**
   Subscribers always hold the current message: whatever Joy is published is the state at
   that moment, and the state never changes without being published.
   */
  lemma PublishedJoyIsCurrent(p: Params, frames: seq<Frame>, f: Frame)
    requires p.Valid()
    ensures var before, after := JoyAfter(p, frames), JoyAfter(p, frames + [f]);
            var out := React(p, before, f).1;
            && PublishedBy(p, frames + [f]) == PublishedBy(p, frames) + out
            && (forall o :: o in out && o.JoyOut? ==> o.joy == after)
            && (before != after ==> JoyOut(after) in out)
  {
    hide Stick, FromLE32, ByteValue, Rtcm.Passes;
    assert (frames + [f])[..|frames + [f]| - 1] == frames;
  }

  /** The RTCM data among the publications, in order. */
  function RtcmData(out: seq<Publication>): seq<seq<byte>> {
    if out == [] then []
    else RtcmData(out[..|out| - 1]) + (if out[|out| - 1].RtcmOut? then [out[|out| - 1].data] else [])
  }

  /** The payloads of the RTCM frames that pass the check, in order. */
  function PassingPayloads(frames: seq<Frame>): seq<seq<byte>> {
    if frames == [] then []
    else
      var last := frames[|frames| - 1];
      PassingPayloads(frames[..|frames| - 1])
      + (if last.packetType == RTCM && Rtcm.Passes(last.payload) then [last.payload] else [])
  }

  lemma {:induction false} RtcmDataConcat(a: seq<Publication>, b: seq<Publication>)
    ensures RtcmData(a + b) == RtcmData(a) + RtcmData(b)
    decreases |b|
  {
    if b == [] {
      assert a + b == a;
    } else {
      assert (a + b)[..|a + b| - 1] == a + b[..|b| - 1];
      RtcmDataConcat(a, b[..|b| - 1]);
    }
  }

  lemma {:induction false} NoRtcmData(out: seq<Publication>)
    requires forall o :: o in out ==> !o.RtcmOut?
    ensures RtcmData(out) == []
  {
    if out != [] {
      NoRtcmData(out[..|out| - 1]);
      assert out[|out| - 1] in out;
    }
  }

  lemma OneRtcmData(data: seq<byte>)
    ensures RtcmData([RtcmOut(data)]) == [data]
  {
    assert [RtcmOut(data)][..0] == [];
    assert RtcmData([]) == [];
  }

  lemma RtcmDataOfReaction(p: Params, j: Joy, f: Frame)
    requires p.Valid() && Fits(p, j)
    ensures RtcmData(React(p, j, f).1)
         == if f.packetType == RTCM && Rtcm.Passes(f.payload) then [f.payload] else []
  {
    hide Stick, FromLE32, ByteValue, Rtcm.Passes, RtcmData;
    if f.packetType == RTCM && Rtcm.Passes(f.payload) {
      OneRtcmData(f.payload);
    } else {
      NoRtcmData(React(p, j, f).1);
    }
  }

  /** RTCM data is published exactly for the frames that pass, unchanged and in order. */
  lemma {:induction false} RtcmIsRelayed(p: Params, frames: seq<Frame>)
    requires p.Valid()
    ensures RtcmData(PublishedBy(p, frames)) == PassingPayloads(frames)
  {
    hide React, RtcmData, Rtcm.Passes;
    if frames == [] {
      RtcmDataOfNothing();
    } else {
      var before, last := frames[..|frames| - 1], frames[|frames| - 1];
      RtcmIsRelayed(p, before);
      RtcmDataConcat(PublishedBy(p, before), React(p, JoyAfter(p, before), last).1);
      RtcmDataOfReaction(p, JoyAfter(p, before), last);
    }
  }

  lemma RtcmDataOfNothing()
    ensures RtcmData([]) == []
  {
  }

  /** A killswitch keeps a button released until that very button is pressed again. */
  lemma KillswitchReleases(p: Params, before: seq<Frame>, stop: Frame, later: seq<Frame>, i: nat)
    requires p.Valid() && p.remoteControl && i < p.buttonCount && StopsAll(stop)
    requires forall f :: f in later && IsButton(p, f) && f.payload[1] != 0 ==> ByteValue(f.payload[0]) != i
    ensures JoyAfter(p, before + [stop] + later).buttons[i] == 0
  {
    hide IsButton, ByteValue;
    var frames := before + [stop] + later;
    ButtonShowsLastWriter(p, frames, i);
    var k := LastButtonWriter(p, frames, i);
    assert frames[|before|] == stop;
    assert WritesButton(p, frames[|before|], i);
    if k > |before| {
      assert frames[k] == later[k - |before| - 1];
    }
  }

  /** With remote control off nothing but RTCM data and button reports is ever published. */
  lemma {:induction false} RemoteControlOffIsInert(p: Params, frames: seq<Frame>)
    requires p.Valid() && !p.remoteControl
    ensures JoyAfter(p, frames) == Centred(p)
    ensures forall o :: o in PublishedBy(p, frames) ==> o.RtcmOut? || o.ButtonOut?
  {
    hide Stick, FromLE32, ByteValue, Rtcm.Passes;
    if frames != [] {
      RemoteControlOffIsInert(p, frames[..|frames| - 1]);
    }
  }

  // ---- What each frame is answered with ----------------------------------------------------------

  /**
   A control frame sets the axes from its own halves: the first four payload bytes are the
   surge stick, scaled by the linear limit, the last four the yaw stick, scaled by the
   angular limit.  If both go to one axis, yaw wins.
   */
  lemma ControlMovesAxes(p: Params, frames: seq<Frame>, f: Frame, surge: bv32, yaw: bv32)
    requires p.Valid() && p.remoteControl
    requires f.packetType == 4 && f.payload == LE32(surge) + LE32(yaw)
    ensures var axes := JoyAfter(p, frames + [f]).axes;
            && Obeys(axes[p.yawAxis], FromBits(yaw), p.maxAngular)
            && (p.surgeAxis != p.yawAxis ==> Obeys(axes[p.surgeAxis], FromBits(surge), p.maxLinear))
  {
    hide Times, Clamp, Narrowed, FromBits, LE32, FromLE32, Obeys, ByteValue;
    assert (frames + [f])[..|frames|] == frames;
    assert f.payload[..4] == LE32(surge) && f.payload[4..] == LE32(yaw);
    RoundTrip32(surge);
    RoundTrip32(yaw);
    StickObeys(FromBits(surge), p.maxLinear);
    StickObeys(FromBits(yaw), p.maxAngular);
  }

  /** Where a publication goes. */
  datatype Topic = RtcmTopic | KillswitchTopic | ButtonTopic | JoyTopic

  function TopicOf(o: Publication): Topic {
    match o
    case RtcmOut(_) => RtcmTopic
    case KillswitchOut(_) => KillswitchTopic
    case ButtonOut(_, _) => ButtonTopic
    case JoyOut(_) => JoyTopic
  }

  /** f is a frame that the Joy message answers to. */
  predicate Drives(p: Params, f: Frame) {
    && p.remoteControl
    && ((f.packetType == 4 && |f.payload| == 8)
        || (f.packetType == 5 && |f.payload| == 1 && f.payload[0] != 0)
        || (f.packetType == 8 && |f.payload| == 2 && ByteValue(f.payload[0]) < p.buttonCount))
  }

  /** What must be published on one topic when f is dispatched after `frames`. */
  function Answer(p: Params, frames: seq<Frame>, f: Frame, t: Topic): seq<Publication>
    requires p.Valid()
  {
    match t
    case RtcmTopic =>
      if f.packetType == 2 && Rtcm.Passes(f.payload) then [RtcmOut(f.payload)] else []
    case KillswitchTopic =>
      if p.remoteControl && f.packetType == 5 && |f.payload| == 1 then [KillswitchOut(f.payload[0] != 0)] else []
    case ButtonTopic =>
      if f.packetType == 8 && |f.payload| == 2 && ByteValue(f.payload[0]) < p.buttonCount then
        [ButtonOut(ByteValue(f.payload[0]), f.payload[1] != 0)] else []
    case JoyTopic =>
      if Drives(p, f) then [JoyOut(JoyAfter(p, frames + [f]))] else []
  }

  /** The answers on all topics, the report before the Joy message that follows from it. */
  function Answers(p: Params, frames: seq<Frame>, f: Frame): seq<Publication>
    requires p.Valid()
  {
    Answer(p, frames, f, RtcmTopic) + Answer(p, frames, f, KillswitchTopic)
    + Answer(p, frames, f, ButtonTopic) + Answer(p, frames, f, JoyTopic)
  }

  /** Every frame is answered with exactly that, in that order, and with nothing else. */
  lemma FrameIsAnswered(p: Params, frames: seq<Frame>, f: Frame)
    requires p.Valid()
    ensures PublishedBy(p, frames + [f]) == PublishedBy(p, frames) + Answers(p, frames, f)
  {
    hide Stick, FromLE32, ByteValue, Rtcm.Passes;
    assert (frames + [f])[..|frames|] == frames;
  }

  /** The publications on one topic, in order. */
  function OnTopic(out: seq<Publication>, t: Topic): seq<Publication> {
    if out == [] then []
    else OnTopic(out[..|out| - 1], t) + (if TopicOf(out[|out| - 1]) == t then [out[|out| - 1]] else [])
  }

  /** What a run must publish on one topic. */
  function AnswersOnTopic(p: Params, frames: seq<Frame>, t: Topic): seq<Publication>
    requires p.Valid()
  {
    if frames == [] then []
    else
      var before := frames[..|frames| - 1];
      AnswersOnTopic(p, before, t) + Answer(p, before, frames[|frames| - 1], t)
  }

  lemma {:induction false} OnTopicConcat(a: seq<Publication>, b: seq<Publication>, t: Topic)
    ensures OnTopic(a + b, t) == OnTopic(a, t) + OnTopic(b, t)
    decreases |b|
  {
    if b == [] {
      assert a + b == a;
    } else {
      assert (a + b)[..|a + b| - 1] == a + b[..|b| - 1];
      OnTopicConcat(a, b[..|b| - 1], t);
    }
  }

  lemma OnOwnTopic(out: seq<Publication>, own: Topic, t: Topic)
    requires |out| <= 1 && forall o :: o in out ==> TopicOf(o) == own
    ensures OnTopic(out, t) == if own == t then out else []
  {
    if out != [] {
      assert out[..0] == [];
      assert OnTopic([], t) == [];
      assert out[0] in out;
    }
  }

  lemma AnswerOnTopic(p: Params, frames: seq<Frame>, f: Frame, own: Topic, t: Topic)
    requires p.Valid()
    ensures OnTopic(Answer(p, frames, f, own), t) == if own == t then Answer(p, frames, f, own) else []
  {
    hide OnTopic, JoyAfter, Rtcm.Passes, ByteValue, Drives;
    OnOwnTopic(Answer(p, frames, f, own), own, t);
  }

  lemma AnswersByTopic(p: Params, frames: seq<Frame>, f: Frame, t: Topic)
    requires p.Valid()
    ensures OnTopic(Answers(p, frames, f), t) == Answer(p, frames, f, t)
  {
    hide OnTopic, Answer;
    var a, b, c, d := Answer(p, frames, f, RtcmTopic), Answer(p, frames, f, KillswitchTopic),
                      Answer(p, frames, f, ButtonTopic), Answer(p, frames, f, JoyTopic);
    AnswerOnTopic(p, frames, f, RtcmTopic, t);
    AnswerOnTopic(p, frames, f, KillswitchTopic, t);
    AnswerOnTopic(p, frames, f, ButtonTopic, t);
    AnswerOnTopic(p, frames, f, JoyTopic, t);
    OnTopicConcat(a + b + c, d, t);
    OnTopicConcat(a + b, c, t);
    OnTopicConcat(a, b, t);
  }

  /**
   Over any run each topic carries exactly its answers, in order: the killswitch reports of
   the one-byte killswitch frames, true for a nonzero byte, only with remote control on; the
   button reports of the two-byte button frames with an index in range, whether it is on or
   off; the Joy message after every frame that drives it; and the RTCM data that passes.
   */
  lemma {:induction false} TopicsCarryTheAnswers(p: Params, frames: seq<Frame>, t: Topic)
    requires p.Valid()
    ensures OnTopic(PublishedBy(p, frames), t) == AnswersOnTopic(p, frames, t)
  {
    hide React, Answer, Answers;
    if frames != [] {
      hide PublishedBy, OnTopic;
      var before, last := frames[..|frames| - 1], frames[|frames| - 1];
      TopicsCarryTheAnswers(p, before, t);
      assert frames == before + [last];
      FrameIsAnswered(p, before, last);
      OnTopicConcat(PublishedBy(p, before), Answers(p, before, last), t);
      AnswersByTopic(p, before, last, t);
    }
  }
}
