/** The Rust `WRCPacket` wire format: `TryFrom<Vec<u8>>` parses a packet
    from its bytes and `TryInto<Vec<u8>>` serialises one. Multi-byte fields
    are little-endian; the payload is the active variant's fields, packed. */
module RustWrc {
  import opened Bytes
  import opened Wrappers
  import L = WrcLayout

  type Serial = s: seq<byte> | |s| == 16 witness [0, 0, 0, 0, 0, 0, 0, 0, 0, 0, 0, 0, 0, 0, 0, 0]

  datatype SetJointData = SetJointData(
    torqueSetpoint: i32, torqueAngleStart: i32, torqueUpperTol: i32, torqueLowerTol: i32,
    angle: i16, angleUpperTol: i16, angleLowerTol: i16, fdt: i32, fda: i16,
    taskRepeatTimes: u16, taskId: u16, jointFlag: byte)

  datatype InlineJoint = InlineJoint(
    jointId: u16, taskId: u16, unixTime: u32, flag: byte, torque: i32, angle: i16)

  /** `WRCPayload`: one variant per packet type but `Unknown`. */
  datatype Payload =
    | InfoGeneric(jointCount: u16, lastServerPacketSeqid: u16)
    | InfoSerial(serial: Serial)
    | InfoTiming(cpuTicks: u32, wrenchTime: u32)
    | InfoEnergy(energyFlag: byte, batteryVoltageMv: u16)
    | InfoNetwork(collisions: u16, crcErrors: u16, txCount: u16, rxWantedCount: u16,
                  rxUnwantedCount: u16, rxRssi: i8, rxSnr: i8, rxRscp: i8)
    | GetInfo(infoFlag: byte)
    | SetJoint(setJoint: SetJointData)
    | SetWrenchTime(unixTime: u32)
    | GetJointData(jointIdStart: u16, count: u8)
    | ClearJointData
    | GetStatusReport
    | Beep
    | JointData
    | StatusReport(targetSeqid: u16, status: u16)
    | InlineJointData(joint: InlineJoint)

  datatype Packet = Packet(sequenceId: u16, mac: u32, flag: byte, payloadLen: u8, payload: Payload)

  datatype ParseError =
    | TooShort        // "Packet too short"
    | LengthMismatch  // "Payload length mismatch"
    | UnknownType     // "Unknown packet type"
    | OutOfBounds     // a fixed-offset slice past the end of a short payload, a panic in the source

  const HEADER_SIZE: nat := 8

  /** The packet type a payload variant belongs to. */
  function TypeOf(p: Payload): (t: L.PacketType)
    ensures t != L.Unknown
  {
    match p
    case InfoGeneric(_, _) => L.InfoGeneric
    case InfoSerial(_) => L.InfoSerial
    case InfoTiming(_, _) => L.InfoTiming
    case InfoEnergy(_, _) => L.InfoEnergy
    case InfoNetwork(_, _, _, _, _, _, _, _) => L.InfoNetwork
    case GetInfo(_) => L.GetInfo
    case SetJoint(_) => L.SetJoint
    case SetWrenchTime(_) => L.SetWrenchTime
    case GetJointData(_, _) => L.GetJointData
    case ClearJointData => L.ClearJointData
    case GetStatusReport => L.GetStatusReport
    case Beep => L.Beep
    case JointData => L.JointData
    case StatusReport(_, _) => L.StatusReport
    case InlineJointData(_) => L.InlineJointData
  }

  // ---------------------------------------------------------------------
  // Serialising

  /** The bytes try_into writes for a payload: its fields in declaration
      order. Each variant takes exactly the bytes the C union member declares. */
  function PayloadBytes(p: Payload): (b: seq<byte>)
  {
    match p
    case InfoGeneric(a, b) => U16Bytes(a) + U16Bytes(b)
    case InfoSerial(s) => s
    case InfoTiming(a, b) => U32Bytes(a) + U32Bytes(b)
    case InfoEnergy(f, v) => [f] + U16Bytes(v)
    case InfoNetwork(a, b, c, d, e, rssi, snr, rscp) =>
      U16Bytes(a) + U16Bytes(b) + U16Bytes(c) + U16Bytes(d) + U16Bytes(e)
      + [ByteOfI8(rssi), ByteOfI8(snr), ByteOfI8(rscp)]
    case GetInfo(f) => [f]
    case SetJoint(j) => SetJointBytes(j)
    case SetWrenchTime(t) => U32Bytes(t)
    case GetJointData(start, count) => U16Bytes(start) + [ByteOf(count)]
    case ClearJointData => []
    case GetStatusReport => []
    case Beep => []
    case JointData => []
    case StatusReport(a, b) => U16Bytes(a) + U16Bytes(b)
    case InlineJointData(j) => InlineJointBytes(j)
  }

  function SetJointBytes(j: SetJointData): (b: seq<byte>)
    ensures |b| == 33
  {
    I32Bytes(j.torqueSetpoint) + I32Bytes(j.torqueAngleStart) + I32Bytes(j.torqueUpperTol)
    + I32Bytes(j.torqueLowerTol) + I16Bytes(j.angle) + I16Bytes(j.angleUpperTol)
    + I16Bytes(j.angleLowerTol) + I32Bytes(j.fdt) + I16Bytes(j.fda)
    + U16Bytes(j.taskRepeatTimes) + U16Bytes(j.taskId) + [j.jointFlag]
  }

  function InlineJointBytes(j: InlineJoint): (b: seq<byte>)
    ensures |b| == 15
  {
    U16Bytes(j.jointId) + U16Bytes(j.taskId) + U32Bytes(j.unixTime) + [j.flag]
    + I32Bytes(j.torque) + I16Bytes(j.angle)
  }

  /** Each variant takes exactly the bytes the C union member declares. */
  lemma PayloadSizes(p: Payload)
    ensures |PayloadBytes(p)| == L.PayloadSize(TypeOf(p))
  {
    match p
    case InfoGeneric(_, _) => assert L.PayloadSize(L.InfoGeneric) == 4;
    case InfoSerial(_) => assert L.PayloadSize(L.InfoSerial) == 16;
    case InfoTiming(_, _) => assert L.PayloadSize(L.InfoTiming) == 8;
    case InfoEnergy(_, _) => assert L.PayloadSize(L.InfoEnergy) == 3;
    case InfoNetwork(_, _, _, _, _, _, _, _) => assert L.PayloadSize(L.InfoNetwork) == 13;
    case GetInfo(_) => assert L.PayloadSize(L.GetInfo) == 1;
    case SetJoint(_) => assert L.PayloadSize(L.SetJoint) == 33;
    case SetWrenchTime(_) => assert L.PayloadSize(L.SetWrenchTime) == 4;
    case GetJointData(_, _) => assert L.PayloadSize(L.GetJointData) == 3;
    case ClearJointData => assert L.PayloadSize(L.ClearJointData) == 0;
    case GetStatusReport => assert L.PayloadSize(L.GetStatusReport) == 0;
    case Beep => assert L.PayloadSize(L.Beep) == 0;
    case JointData => assert L.PayloadSize(L.JointData) == 0;
    case StatusReport(_, _) => assert L.PayloadSize(L.StatusReport) == 4;
    case InlineJointData(_) => assert L.PayloadSize(L.InlineJointData) == 15;
  }

  function Header(p: Packet): (b: seq<byte>)
  {
    U16Bytes(p.sequenceId) + U32Bytes(p.mac) + [p.flag, ByteOf(p.payloadLen)]
  }

  /** The whole packet: the 8 header bytes, then the payload's. */
  function Encoding(p: Packet): (b: seq<byte>)
    ensures |b| == HEADER_SIZE + L.PayloadSize(TypeOf(p.payload))
  {
    PayloadSizes(p.payload);
    Header(p) + PayloadBytes(p.payload)
  }

  /** try_into: push the header fields, then the variant's fields, onto an
      empty vector. It never fails. */
  method Serialize(p: Packet) returns (result: seq<byte>)
    ensures result == Encoding(p)
    ensures |result| == HEADER_SIZE + L.PayloadSize(TypeOf(p.payload))
  {
    result := [];
    result := result + U16Bytes(p.sequenceId);
    result := result + U32Bytes(p.mac);
    result := result + [p.flag];
    result := result + [ByteOf(p.payloadLen)];
    assert result == Header(p);
    result := PushPayload(result, p.payload);
    PayloadSizes(p.payload);
  }

  /** The match on the payload variant: push its fields in declaration order. */
  method PushPayload(prefix: seq<byte>, payload: Payload) returns (result: seq<byte>)
    ensures result == prefix + PayloadBytes(payload)
  {
    result := prefix;
    match payload {
      case InfoGeneric(a, b) =>
        result := result + U16Bytes(a);
        result := result + U16Bytes(b);
      case InfoSerial(s) =>
        result := result + s;
      case InfoTiming(a, b) =>
        result := result + U32Bytes(a);
        result := result + U32Bytes(b);
      case InfoEnergy(f, v) =>
        result := result + [f];
        result := result + U16Bytes(v);
      case InfoNetwork(a, b, c, d, e, rssi, snr, rscp) =>
        result := PushNetwork(result, a, b, c, d, e, rssi, snr, rscp);
      case GetInfo(f) =>
        result := result + [f];
      case SetJoint(j) =>
        result := PushSetJoint(result, j);
      case SetWrenchTime(t) =>
        result := result + U32Bytes(t);
      case GetJointData(start, count) =>
        result := result + U16Bytes(start);
        result := result + [ByteOf(count)];
      case ClearJointData =>
      case GetStatusReport =>
      case Beep =>
      case JointData =>
      case StatusReport(a, b) =>
        result := result + U16Bytes(a);
        result := result + U16Bytes(b);
      case InlineJointData(j) =>
        result := PushInlineJoint(result, j);
    }
  }

  method PushSetJoint(prefix: seq<byte>, j: SetJointData) returns (result: seq<byte>)
    ensures result == prefix + SetJointBytes(j)
  {
    result := prefix;
    result := result + I32Bytes(j.torqueSetpoint);
    result := result + I32Bytes(j.torqueAngleStart);
    result := result + I32Bytes(j.torqueUpperTol);
    result := result + I32Bytes(j.torqueLowerTol);
    result := result + I16Bytes(j.angle);
    result := result + I16Bytes(j.angleUpperTol);
    result := result + I16Bytes(j.angleLowerTol);
    result := result + I32Bytes(j.fdt);
    result := result + I16Bytes(j.fda);
    result := result + U16Bytes(j.taskRepeatTimes);
    result := result + U16Bytes(j.taskId);
    result := result + [j.jointFlag];
  }

  method PushNetwork(prefix: seq<byte>, a: u16, b: u16, c: u16, d: u16, e: u16, rssi: i8, snr: i8, rscp: i8)
    returns (result: seq<byte>)
    ensures result == prefix + PayloadBytes(InfoNetwork(a, b, c, d, e, rssi, snr, rscp))
  {
    result := prefix;
    result := result + U16Bytes(a);
    result := result + U16Bytes(b);
    result := result + U16Bytes(c);
    result := result + U16Bytes(d);
    result := result + U16Bytes(e);
    result := result + [ByteOfI8(rssi)];
    result := result + [ByteOfI8(snr)];
    result := result + [ByteOfI8(rscp)];
  }

  method PushInlineJoint(prefix: seq<byte>, j: InlineJoint) returns (result: seq<byte>)
    ensures result == prefix + InlineJointBytes(j)
  {
    result := prefix;
    result := result + U16Bytes(j.jointId);
    result := result + U16Bytes(j.taskId);
    result := result + U32Bytes(j.unixTime);
    result := result + [j.flag];
    result := result + I32Bytes(j.torque);
    result := result + I16Bytes(j.angle);
  }

  // ---------------------------------------------------------------------
  // Parsing

  /** The fields of a payload of type t, read at their fixed offsets. */
  function Fields(t: L.PacketType, p: seq<byte>): (r: Payload)
    requires t != L.Unknown && |p| >= L.PayloadSize(t)
  {
    match t
    case InfoGeneric => InfoGeneric(U16Le(p[0..2]), U16Le(p[2..4]))
    case InfoSerial => InfoSerial(p[0..16])
    case InfoTiming => InfoTiming(U32Le(p[0..4]), U32Le(p[4..8]))
    case InfoEnergy => InfoEnergy(p[0], U16Le(p[1..3]))
    case InfoNetwork =>
      InfoNetwork(U16Le(p[0..2]), U16Le(p[2..4]), U16Le(p[4..6]), U16Le(p[6..8]), U16Le(p[8..10]),
                  I8Of(p[10]), I8Of(p[11]), I8Of(p[12]))
    case GetInfo => GetInfo(p[0])
    case SetJoint => SetJoint(SetJointOf(p))
    case SetWrenchTime => SetWrenchTime(U32Le(p[0..4]))
    case GetJointData => GetJointData(U16Le(p[0..2]), p[2] as u8)
    case ClearJointData => ClearJointData
    case GetStatusReport => GetStatusReport
    case Beep => Beep
    case JointData => JointData
    case StatusReport => StatusReport(U16Le(p[0..2]), U16Le(p[2..4]))
    case InlineJointData => InlineJointData(InlineJointOf(p))
  }

  /** Reading the fields of type t gives a payload of type t. */
  lemma FieldsType(t: L.PacketType, p: seq<byte>)
    requires t != L.Unknown && |p| >= L.PayloadSize(t)
    ensures TypeOf(Fields(t, p)) == t
  {
  }

  function SetJointOf(p: seq<byte>): SetJointData
    requires |p| >= 33
  {
    SetJointData(
      I32Le(p[0..4]), I32Le(p[4..8]), I32Le(p[8..12]), I32Le(p[12..16]),
      I16Le(p[16..18]), I16Le(p[18..20]), I16Le(p[20..22]), I32Le(p[22..26]), I16Le(p[26..28]),
      U16Le(p[28..30]), U16Le(p[30..32]), p[32])
  }

  function InlineJointOf(p: seq<byte>): InlineJoint
    requires |p| >= 15
  {
    InlineJoint(U16Le(p[0..2]), U16Le(p[2..4]), U32Le(p[4..8]), p[8], I32Le(p[9..13]), I16Le(p[13..15]))
  }

  /** The match on the flag's type field: codes 1..15 read their variant,
      anything else is rejected. */
  function ParsePayload(code: byte, p: seq<byte>): (r: Result<Payload, ParseError>)
    ensures r.Ok? ==> L.Code(TypeOf(r.value)) == code as nat && |p| >= L.PayloadSize(TypeOf(r.value))
    ensures (code == 0 || code >= 16) ==> r == Err(UnknownType)
    ensures r.Err? && r.error != UnknownType ==> r.error == OutOfBounds
  {
    var t := L.TypeOfCode(code as nat);
    if t.None? || t.value == L.Unknown then Err(UnknownType)
    else if |p| < L.PayloadSize(t.value) then Err(OutOfBounds)
    else FieldsType(t.value, p); Ok(Fields(t.value, p))
  }

  /** try_from. */
  function Parse(v: seq<byte>): (r: Result<Packet, ParseError>)
    ensures |v| < 9 ==> r == Err(TooShort)
    ensures |v| >= 9 && |v| - HEADER_SIZE != v[7] as int ==> r == Err(LengthMismatch)
    ensures |v| >= 9 && |v| - HEADER_SIZE == v[7] as int && (L.Type(v[6]) == 0 || L.Type(v[6]) >= 16) ==>
      r == Err(UnknownType)
    ensures r.Ok? ==>
      && |v| == HEADER_SIZE + r.value.payloadLen
      && r.value.sequenceId == U16Le(v[0..2]) && r.value.mac == U32Le(v[2..6])
      && r.value.flag == v[6] && r.value.payloadLen == v[7] as int
      && L.Code(TypeOf(r.value.payload)) == L.Type(v[6]) as nat
      && r.value.payloadLen >= L.PayloadSize(TypeOf(r.value.payload))
  {
    if |v| < 9 then Err(TooShort)
    else
      var payload := v[HEADER_SIZE ..];
      if |payload| != v[7] as int then Err(LengthMismatch)
      else
        match ParsePayload(L.Type(v[6]), payload)
        case Err(e) => Err(e)
        case Ok(p) => Ok(Packet(U16Le(v[0..2]), U32Le(v[2..6]), v[6], v[7] as int, p))
  }

  // ---------------------------------------------------------------------
  // Round trips

  lemma SetJointRoundTrip(j: SetJointData)
    ensures SetJointOf(SetJointBytes(j)) == j
  {
    var b := SetJointBytes(j);
    assert b[0..4] == I32Bytes(j.torqueSetpoint);
    assert b[4..8] == I32Bytes(j.torqueAngleStart);
    assert b[8..12] == I32Bytes(j.torqueUpperTol);
    assert b[12..16] == I32Bytes(j.torqueLowerTol);
    assert b[16..18] == I16Bytes(j.angle);
    assert b[18..20] == I16Bytes(j.angleUpperTol);
    assert b[20..22] == I16Bytes(j.angleLowerTol);
    assert b[22..26] == I32Bytes(j.fdt);
    assert b[26..28] == I16Bytes(j.fda);
    assert b[28..30] == U16Bytes(j.taskRepeatTimes);
    assert b[30..32] == U16Bytes(j.taskId);
    I32RoundTrip(j.torqueSetpoint);
    I32RoundTrip(j.torqueAngleStart);
    I32RoundTrip(j.torqueUpperTol);
    I32RoundTrip(j.torqueLowerTol);
    I16RoundTrip(j.angle);
    I16RoundTrip(j.angleUpperTol);
    I16RoundTrip(j.angleLowerTol);
    I32RoundTrip(j.fdt);
    I16RoundTrip(j.fda);
    U16RoundTrip(j.taskRepeatTimes);
    U16RoundTrip(j.taskId);
  }

  lemma InlineJointRoundTrip(j: InlineJoint)
    ensures InlineJointOf(InlineJointBytes(j)) == j
  {
    var b := InlineJointBytes(j);
    assert b[0..2] == U16Bytes(j.jointId);
    assert b[2..4] == U16Bytes(j.taskId);
    assert b[4..8] == U32Bytes(j.unixTime);
    assert b[9..13] == I32Bytes(j.torque);
    assert b[13..15] == I16Bytes(j.angle);
    U16RoundTrip(j.jointId);
    U16RoundTrip(j.taskId);
    U32RoundTrip(j.unixTime);
    I32RoundTrip(j.torque);
    I16RoundTrip(j.angle);
  }

  lemma NetworkRoundTrip(a: u16, b: u16, c: u16, d: u16, e: u16, rssi: i8, snr: i8, rscp: i8)
    ensures var p := InfoNetwork(a, b, c, d, e, rssi, snr, rscp);
      Fields(L.InfoNetwork, PayloadBytes(p)) == p
  {
    var p := InfoNetwork(a, b, c, d, e, rssi, snr, rscp);
    var v := PayloadBytes(p);
    assert v[0..2] == U16Bytes(a);
    assert v[2..4] == U16Bytes(b);
    assert v[4..6] == U16Bytes(c);
    assert v[6..8] == U16Bytes(d);
    assert v[8..10] == U16Bytes(e);
    U16RoundTrip(a);
    U16RoundTrip(b);
    U16RoundTrip(c);
    U16RoundTrip(d);
    U16RoundTrip(e);
    I8RoundTrip(rssi);
    I8RoundTrip(snr);
    I8RoundTrip(rscp);
  }

  /** The variants made of two 16-bit words. */
  lemma PairRoundTrip(p: Payload)
    requires p.InfoGeneric? || p.StatusReport?
    ensures Fields(TypeOf(p), PayloadBytes(p)) == p
  {
    var b := PayloadBytes(p);
    var x, y := if p.InfoGeneric? then p.jointCount else p.targetSeqid,
                if p.InfoGeneric? then p.lastServerPacketSeqid else p.status;
    assert b[0..2] == U16Bytes(x) && b[2..4] == U16Bytes(y);
    U16RoundTrip(x);
    U16RoundTrip(y);
  }

  /** The variants that hold 32-bit words. */
  lemma WordRoundTrip(p: Payload)
    requires p.InfoTiming? || p.SetWrenchTime?
    ensures Fields(TypeOf(p), PayloadBytes(p)) == p
  {
    var b := PayloadBytes(p);
    if p.InfoTiming? {
      assert b[0..4] == U32Bytes(p.cpuTicks) && b[4..8] == U32Bytes(p.wrenchTime);
      U32RoundTrip(p.cpuTicks);
      U32RoundTrip(p.wrenchTime);
    } else {
      assert b[0..4] == U32Bytes(p.unixTime);
      U32RoundTrip(p.unixTime);
    }
  }

  /** The variants that hold one byte and one 16-bit word. */
  lemma ByteWordRoundTrip(p: Payload)
    requires p.InfoEnergy? || p.GetJointData?
    ensures Fields(TypeOf(p), PayloadBytes(p)) == p
  {
    var b := PayloadBytes(p);
    if p.InfoEnergy? {
      assert b[1..3] == U16Bytes(p.batteryVoltageMv);
      U16RoundTrip(p.batteryVoltageMv);
    } else {
      assert b[0..2] == U16Bytes(p.jointIdStart);
      U16RoundTrip(p.jointIdStart);
      ByteOfSmall(p.count);
    }
  }

  /** Reading a payload's own bytes at the fixed offsets gives the payload back. */
  lemma FieldsOfBytes(p: Payload)
    ensures |PayloadBytes(p)| >= L.PayloadSize(TypeOf(p))
    ensures Fields(TypeOf(p), PayloadBytes(p)) == p
  {
    PayloadSizes(p);
    match p
    case InfoGeneric(_, _) => PairRoundTrip(p);
    case StatusReport(_, _) => PairRoundTrip(p);
    case InfoTiming(_, _) => WordRoundTrip(p);
    case SetWrenchTime(_) => WordRoundTrip(p);
    case InfoEnergy(_, _) => ByteWordRoundTrip(p);
    case GetJointData(_, _) => ByteWordRoundTrip(p);
    case InfoNetwork(a, b, c, d, e, rssi, snr, rscp) => NetworkRoundTrip(a, b, c, d, e, rssi, snr, rscp);
    case SetJoint(j) => SetJointRoundTrip(j);
    case InlineJointData(j) => InlineJointRoundTrip(j);
    case InfoSerial(_) =>
    case GetInfo(_) =>
    case ClearJointData =>
    case GetStatusReport =>
    case Beep =>
    case JointData =>
  }

  /** try_from inverts try_into whenever the flag's type field names the
      payload's variant and payload_len is that variant's non-zero size. */
  lemma ParseEncoding(p: Packet)
    requires L.Type(p.flag) as nat == L.Code(TypeOf(p.payload))
    requires p.payloadLen == L.PayloadSize(TypeOf(p.payload)) > 0
    ensures Parse(Encoding(p)) == Ok(p)
  {
    var e := Encoding(p);
    HeaderFields(p);
    var n: int := p.payloadLen;
    assert |e| == HEADER_SIZE + n;
    ByteOfSmall(n);
    assert e[7] as int == n;
    PayloadOfBytes(p.payload, L.Type(p.flag));
    ParseParts(e, p.payload);
  }

  /** try_from succeeds once the length matches and the payload parses. */
  lemma ParseParts(v: seq<byte>, q: Payload)
    requires |v| >= 9 && |v| - HEADER_SIZE == v[7] as int
    requires ParsePayload(L.Type(v[6]), v[HEADER_SIZE ..]) == Ok(q)
    ensures Parse(v) == Ok(Packet(U16Le(v[0..2]), U32Le(v[2..6]), v[6], v[7] as int, q))
  {
  }

  /** The payload's own bytes parse back under its own type code. */
  lemma PayloadOfBytes(q: Payload, code: byte)
    requires code as nat == L.Code(TypeOf(q))
    ensures ParsePayload(code, PayloadBytes(q)) == Ok(q)
  {
    var t := TypeOf(q);
    L.CodeInjective(t, t);
    FieldsOfBytes(q);
  }

  /** The header's fields read back from the first eight encoded bytes. */
  lemma HeaderFields(p: Packet)
    ensures var e := Encoding(p);
      && U16Le(e[0..2]) == p.sequenceId && U32Le(e[2..6]) == p.mac && e[6] == p.flag
      && e[7] == ByteOf(p.payloadLen) && e[HEADER_SIZE ..] == PayloadBytes(p.payload)
  {
    var e := Encoding(p);
    assert e[0..2] == U16Bytes(p.sequenceId);
    assert e[2..6] == U32Bytes(p.mac);
    U16RoundTrip(p.sequenceId);
    U32RoundTrip(p.mac);
  }

  // The converse: every packet try_from accepts serialises back to the bytes
  // it was read from, up to the variant's size.

  lemma SetJointBytesOf(q: seq<byte>)
    requires |q| >= 33
    ensures SetJointBytes(SetJointOf(q)) == q[..33]
  {
    I32BytesOf(q[0..4]);
    I32BytesOf(q[4..8]);
    I32BytesOf(q[8..12]);
    I32BytesOf(q[12..16]);
    I16BytesOf(q[16..18]);
    I16BytesOf(q[18..20]);
    I16BytesOf(q[20..22]);
    I32BytesOf(q[22..26]);
    I16BytesOf(q[26..28]);
    U16BytesOf(q[28..30]);
    U16BytesOf(q[30..32]);
    assert q[..8] == q[0..4] + q[4..8];
    assert q[..12] == q[..8] + q[8..12];
    assert q[..16] == q[..12] + q[12..16];
    assert q[..18] == q[..16] + q[16..18];
    assert q[..20] == q[..18] + q[18..20];
    assert q[..22] == q[..20] + q[20..22];
    assert q[..26] == q[..22] + q[22..26];
    assert q[..28] == q[..26] + q[26..28];
    assert q[..30] == q[..28] + q[28..30];
    assert q[..32] == q[..30] + q[30..32];
    assert q[..33] == q[..32] + [q[32]];
  }

  lemma InlineJointBytesOf(q: seq<byte>)
    requires |q| >= 15
    ensures InlineJointBytes(InlineJointOf(q)) == q[..15]
  {
    U16BytesOf(q[0..2]);
    U16BytesOf(q[2..4]);
    U32BytesOf(q[4..8]);
    I32BytesOf(q[9..13]);
    I16BytesOf(q[13..15]);
    assert q[..15] == q[0..2] + q[2..4] + q[4..8] + [q[8]] + q[9..13] + q[13..15];
  }

  lemma NetworkBytesOf(q: seq<byte>)
    requires |q| >= 13
    ensures PayloadBytes(InfoNetwork(U16Le(q[0..2]), U16Le(q[2..4]), U16Le(q[4..6]), U16Le(q[6..8]),
      U16Le(q[8..10]), I8Of(q[10]), I8Of(q[11]), I8Of(q[12]))) == q[..13]
  {
    U16BytesOf(q[0..2]);
    U16BytesOf(q[2..4]);
    U16BytesOf(q[4..6]);
    U16BytesOf(q[6..8]);
    U16BytesOf(q[8..10]);
    I8BytesOf(q[10]);
    I8BytesOf(q[11]);
    I8BytesOf(q[12]);
    assert q[..4] == q[0..2] + q[2..4];
    assert q[..6] == q[..4] + q[4..6];
    assert q[..8] == q[..6] + q[6..8];
    assert q[..10] == q[..8] + q[8..10];
    assert q[..13] == q[..10] + [q[10], q[11], q[12]];
  }

  /** Two little-endian 16-bit words, and two 32-bit ones. */
  lemma PairBytesOf(q: seq<byte>)
    requires |q| >= 4
    ensures U16Bytes(U16Le(q[0..2])) + U16Bytes(U16Le(q[2..4])) == q[..4]
    ensures |q| >= 8 ==> U32Bytes(U32Le(q[0..4])) + U32Bytes(U32Le(q[4..8])) == q[..8]
  {
    U16BytesOf(q[0..2]);
    U16BytesOf(q[2..4]);
    assert q[..4] == q[0..2] + q[2..4];
    if |q| >= 8 {
      U32BytesOf(q[0..4]);
      U32BytesOf(q[4..8]);
      assert q[..8] == q[0..4] + q[4..8];
    }
  }

  lemma EnergyBytesOf(q: seq<byte>)
    requires |q| >= 3
    ensures PayloadBytes(InfoEnergy(q[0], U16Le(q[1..3]))) == q[..3]
  {
    U16BytesOf(q[1..3]);
    assert q[..3] == [q[0]] + q[1..3];
  }

  lemma GetJointDataBytesOf(q: seq<byte>)
    requires |q| >= 3
    ensures PayloadBytes(GetJointData(U16Le(q[0..2]), q[2] as u8)) == q[..3]
  {
    U16BytesOf(q[0..2]);
    ByteOfSmall(q[2] as int);
    assert q[..3] == q[0..2] + [q[2]];
  }

  /** Serialising the payload read at the fixed offsets gives back the bytes
      it was read from, up to the variant's size. */
  lemma BytesOfFields(t: L.PacketType, q: seq<byte>)
    requires t != L.Unknown && |q| >= L.PayloadSize(t)
    ensures PayloadBytes(Fields(t, q)) == q[..L.PayloadSize(t)]
  {
    FieldsType(t, q);
    match t
    case InfoGeneric => PairBytesOf(q);
    case StatusReport => PairBytesOf(q);
    case InfoTiming => PairBytesOf(q);
    case InfoEnergy => EnergyBytesOf(q);
    case GetJointData => GetJointDataBytesOf(q);
    case SetWrenchTime => U32BytesOf(q[0..4]);
    case InfoNetwork => NetworkBytesOf(q);
    case SetJoint => SetJointBytesOf(q);
    case InlineJointData => InlineJointBytesOf(q);
    case InfoSerial =>
    case GetInfo => assert q[..1] == [q[0]];
    case ClearJointData =>
    case GetStatusReport =>
    case Beep =>
    case JointData =>
  }

  /** try_into inverts try_from: an accepted packet serialises to the bytes it
      was parsed from, cut to its variant's size, and to all of them when
      payload_len is exactly that size. */
  lemma EncodingOfParse(v: seq<byte>)
    requires Parse(v).Ok?
    ensures var p := Parse(v).value;
      && Encoding(p) == v[.. HEADER_SIZE + L.PayloadSize(TypeOf(p.payload))]
      && (p.payloadLen == L.PayloadSize(TypeOf(p.payload)) ==> Encoding(p) == v)
  {
    var p := Parse(v).value;
    var t := TypeOf(p.payload);
    var q := v[HEADER_SIZE ..];
    ParseFields(v);
    BytesOfFields(t, q);
    HeaderBytesOf(v);
    Rejoin(v, L.PayloadSize(t));
  }

  /** A cut of v after the header is the header followed by the cut payload. */
  lemma Rejoin(v: seq<byte>, n: nat)
    requires HEADER_SIZE + n <= |v|
    ensures v[.. HEADER_SIZE + n] == v[.. HEADER_SIZE] + v[HEADER_SIZE ..][.. n]
  {
  }

  /** The eight header bytes are the encoding of the fields read from them. */
  lemma HeaderBytesOf(v: seq<byte>)
    requires |v| >= HEADER_SIZE
    ensures U16Bytes(U16Le(v[0..2])) + U32Bytes(U32Le(v[2..6])) + [v[6], ByteOf(v[7] as int)] == v[.. HEADER_SIZE]
  {
    U16BytesOf(v[0..2]);
    U32BytesOf(v[2..6]);
    ByteOfSmall(v[7] as int);
    assert v[.. HEADER_SIZE] == v[0..2] + v[2..6] + [v[6], v[7]];
  }

  /** What an accepted packet is: its header fields, and the fields of the
      type its flag names read from the bytes after the header. */
  lemma ParseFields(v: seq<byte>)
    requires Parse(v).Ok?
    ensures var p := Parse(v).value;
      && TypeOf(p.payload) != L.Unknown
      && p == Packet(U16Le(v[0..2]), U32Le(v[2..6]), v[6], v[7] as int, Fields(TypeOf(p.payload), v[HEADER_SIZE ..]))
  {
  }

  /** The packets that carry no payload serialise to the bare 8-byte header,
      which try_from rejects as too short. */
  lemma PayloadlessTooShort(p: Packet)
    requires L.PayloadSize(TypeOf(p.payload)) == 0
    ensures |Encoding(p)| == HEADER_SIZE
    ensures Parse(Encoding(p)) == Err(TooShort)
    ensures p.payload in {ClearJointData, GetStatusReport, Beep, JointData}
  {
  }
}
