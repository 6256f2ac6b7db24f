/** The telemetry and autonomy-status payloads. */
module Telemetry {
  import opened Bytes

  const TELEMETRY_PAYLOAD_SIZE := 59

  datatype TelemetryPayload = TelemetryPayload(
    latitude: Float64, longitude: Float64,
    altitude: Float32, roll: Float32, pitch: Float32, heading: Float32, speed: Float32,
    velocityX: Float32, velocityY: Float32, velocityZ: Float32,
    batteryVoltage: Float32, batteryPercent: Float32,
    gnssFixStatus: byte, rtkStatus: byte, controlMode: byte)

  function Position(t: TelemetryPayload): (s: seq<byte>)
    ensures |s| == 16
  {
    LEF64(t.latitude) + LEF64(t.longitude)
  }

  function WithAttitude(t: TelemetryPayload): (s: seq<byte>)
    ensures |s| == 32
  {
    Position(t) + LEF32(t.altitude) + LEF32(t.roll) + LEF32(t.pitch) + LEF32(t.heading)
  }

  function WithMotion(t: TelemetryPayload): (s: seq<byte>)
    ensures |s| == 48
  {
    WithAttitude(t) + LEF32(t.speed) + LEF32(t.velocityX) + LEF32(t.velocityY) + LEF32(t.velocityZ)
  }

  function EncodedTelemetry(t: TelemetryPayload): (s: seq<byte>)
    ensures |s| == TELEMETRY_PAYLOAD_SIZE
  {
    WithMotion(t) + LEF32(t.batteryVoltage) + LEF32(t.batteryPercent)
    + [t.gnssFixStatus] + [t.rtkStatus] + [t.controlMode]
  }

  method EncodeTelemetry(t: TelemetryPayload) returns (payload: seq<byte>)
    ensures payload == EncodedTelemetry(t)
  {
    hide LEF32, LEF64;
    var buf := new ByteVector();
    buf.PushF64le(t.latitude);
    assert buf.bytes == LEF64(t.latitude);
    buf.PushF64le(t.longitude);
    buf.PushF32le(t.altitude);
    buf.PushF32le(t.roll);
    buf.PushF32le(t.pitch);
    buf.PushF32le(t.heading);
    buf.PushF32le(t.speed);
    buf.PushF32le(t.velocityX);
    buf.PushF32le(t.velocityY);
    buf.PushF32le(t.velocityZ);
    buf.PushF32le(t.batteryVoltage);
    buf.PushF32le(t.batteryPercent);
    buf.PushBack(t.gnssFixStatus);
    buf.PushBack(t.rtkStatus);
    buf.PushBack(t.controlMode);
    payload := buf.bytes;
  }

  /** What a ground station reads back, field by field at the documented offsets. */
  function DecodedTelemetry(s: seq<byte>): TelemetryPayload
    requires |s| == TELEMETRY_PAYLOAD_SIZE
  {
    TelemetryPayload(
      FromLEF64(s[0..8]), FromLEF64(s[8..16]),
      FromLEF32(s[16..20]), FromLEF32(s[20..24]), FromLEF32(s[24..28]), FromLEF32(s[28..32]), FromLEF32(s[32..36]),
      FromLEF32(s[36..40]), FromLEF32(s[40..44]), FromLEF32(s[44..48]),
      FromLEF32(s[48..52]), FromLEF32(s[52..56]),
      s[56], s[57], s[58])
  }

  /** A field lies where the shorter prefix has it. */
  lemma FieldOfPrefix(s: seq<byte>, p: seq<byte>, at: nat, size: nat)
    requires p <= s && at + size <= |p|
    ensures s[at..at + size] == p[at..at + size]
  {
  }

  lemma FourWords(s: seq<byte>, n: nat, a: seq<byte>, b: seq<byte>, c: seq<byte>, d: seq<byte>)
    requires |s| == n && |a| == |b| == |c| == |d| == 4
    ensures var w := s + a + b + c + d;
            && s <= w && w[n..n + 4] == a && w[n + 4..n + 8] == b
            && w[n + 8..n + 12] == c && w[n + 12..n + 16] == d
  {
    var w := s + a + b + c + d;
    FieldOfPrefix(w, s + a, n, 4);
    FieldOfPrefix(w, s + a + b, n + 4, 4);
    FieldOfPrefix(w, s + a + b + c, n + 8, 4);
    assert (s + a)[n..n + 4] == a;
    assert (s + a + b)[n + 4..n + 8] == b;
    assert (s + a + b + c)[n + 8..n + 12] == c;
  }

  lemma LastFields(t: TelemetryPayload)
    ensures var s := EncodedTelemetry(t);
            && WithMotion(t) <= s
            && s[48..52] == LEF32(t.batteryVoltage) && s[52..56] == LEF32(t.batteryPercent)
            && s[56] == t.gnssFixStatus && s[57] == t.rtkStatus && s[58] == t.controlMode
  {
    hide LEF32, WithMotion;
    TailFields(WithMotion(t), LEF32(t.batteryVoltage), LEF32(t.batteryPercent),
               t.gnssFixStatus, t.rtkStatus, t.controlMode);
  }

  lemma TailFields(m: seq<byte>, v: seq<byte>, p: seq<byte>, a: byte, b: byte, c: byte)
    requires |m| == 48 && |v| == |p| == 4
    ensures var s := m + v + p + [a] + [b] + [c];
            && m <= s && s[48..52] == v && s[52..56] == p && s[56] == a && s[57] == b && s[58] == c
  {
    var s := m + v + p + [a] + [b] + [c];
    FieldOfPrefix(s, m + v, 48, 4);
    FieldOfPrefix(s, m + v + p, 52, 4);
    assert (m + v)[48..52] == v;
    assert (m + v + p)[52..56] == p;
  }

  lemma PositionFields(t: TelemetryPayload)
    ensures Position(t)[0..8] == LEF64(t.latitude) && Position(t)[8..16] == LEF64(t.longitude)
  {
    hide LEF64;
  }

  lemma AttitudeFields(t: TelemetryPayload)
    ensures var s := WithAttitude(t);
            && Position(t) <= s && s[16..20] == LEF32(t.altitude) && s[20..24] == LEF32(t.roll)
            && s[24..28] == LEF32(t.pitch) && s[28..32] == LEF32(t.heading)
  {
    hide LEF32, Position;
    FourWords(Position(t), 16, LEF32(t.altitude), LEF32(t.roll), LEF32(t.pitch), LEF32(t.heading));
  }

  lemma MotionFields(t: TelemetryPayload)
    ensures var s := WithMotion(t);
            && WithAttitude(t) <= s && s[32..36] == LEF32(t.speed) && s[36..40] == LEF32(t.velocityX)
            && s[40..44] == LEF32(t.velocityY) && s[44..48] == LEF32(t.velocityZ)
  {
    hide LEF32, WithAttitude;
    FourWords(WithAttitude(t), 32, LEF32(t.speed), LEF32(t.velocityX), LEF32(t.velocityY), LEF32(t.velocityZ));
  }

  lemma PrefixOfPrefix(p: seq<byte>, q: seq<byte>, s: seq<byte>)
    requires p <= q && q <= s
    ensures p <= s
  {
  }

  lemma TelemetryOffsets(t: TelemetryPayload)
    ensures var s := EncodedTelemetry(t);
            && s[0..8] == LEF64(t.latitude) && s[8..16] == LEF64(t.longitude)
            && s[16..20] == LEF32(t.altitude) && s[20..24] == LEF32(t.roll) && s[24..28] == LEF32(t.pitch)
            && s[28..32] == LEF32(t.heading) && s[32..36] == LEF32(t.speed)
            && s[36..40] == LEF32(t.velocityX) && s[40..44] == LEF32(t.velocityY) && s[44..48] == LEF32(t.velocityZ)
            && s[48..52] == LEF32(t.batteryVoltage) && s[52..56] == LEF32(t.batteryPercent)
            && s[56] == t.gnssFixStatus && s[57] == t.rtkStatus && s[58] == t.controlMode
  {
    hide LEF32, LEF64, EncodedTelemetry, Position, WithAttitude, WithMotion;
    var s, p, q, r := EncodedTelemetry(t), Position(t), WithAttitude(t), WithMotion(t);
    PositionFields(t);
    AttitudeFields(t);
    MotionFields(t);
    LastFields(t);
    PrefixOfPrefix(q, r, s);
    PrefixOfPrefix(p, q, s);
    FieldOfPrefix(s, p, 0, 8);
    FieldOfPrefix(s, p, 8, 8);
    FieldOfPrefix(s, q, 16, 4);
    FieldOfPrefix(s, q, 20, 4);
    FieldOfPrefix(s, q, 24, 4);
    FieldOfPrefix(s, q, 28, 4);
    FieldOfPrefix(s, r, 32, 4);
    FieldOfPrefix(s, r, 36, 4);
    FieldOfPrefix(s, r, 40, 4);
    FieldOfPrefix(s, r, 44, 4);
  }

  /** Nothing of the snapshot is lost on the wire. */
  lemma TelemetryRoundTrip(t: TelemetryPayload)
    ensures DecodedTelemetry(EncodedTelemetry(t)) == t
  {
    hide LEF32, LEF64, FromLEF32, FromLEF64, EncodedTelemetry;
    TelemetryOffsets(t);
    RoundTripF64(t.latitude);
    RoundTripF64(t.longitude);
    RoundTripF32(t.altitude);
    RoundTripF32(t.roll);
    RoundTripF32(t.pitch);
    RoundTripF32(t.heading);
    RoundTripF32(t.speed);
    RoundTripF32(t.velocityX);
    RoundTripF32(t.velocityY);
    RoundTripF32(t.velocityZ);
    RoundTripF32(t.batteryVoltage);
    RoundTripF32(t.batteryPercent);
  }

  /** So no two snapshots share an encoding. */
  lemma TelemetryIsInjective(t: TelemetryPayload, u: TelemetryPayload)
    requires EncodedTelemetry(t) == EncodedTelemetry(u)
    ensures t == u
  {
    hide EncodedTelemetry, DecodedTelemetry;
    TelemetryRoundTrip(t);
    TelemetryRoundTrip(u);
  }

  function EncodedAutonomyStatus(accepted: bool, auto: bool): seq<byte> {
    [if accepted then 1 else 0, if auto then 1 else 0]
  }
}
