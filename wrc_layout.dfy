/** The fixed layout of a WRC packet, shared by the C struct `WRC_Packet`
    and the Rust `WRCPacket`: the packet types, the header and payload field
    widths, and the bit-fields of the flag bytes. */
module WrcLayout {
  import opened Bytes
  import opened BitFields
  import opened Wrappers

  /** The packet types, in declaration order; a type's code is its position. */
  datatype PacketType =
    | Unknown | InfoGeneric | InfoSerial | InfoTiming | InfoEnergy | InfoNetwork
    | GetInfo | SetJoint | SetWrenchTime | GetJointData | ClearJointData
    | GetStatusReport | Beep | JointData | StatusReport | InlineJointData

  /** The enumerator value of a packet type. */
  function Code(t: PacketType): (c: nat)
    ensures c < 16
  {
    match t
    case Unknown => 0 case InfoGeneric => 1 case InfoSerial => 2 case InfoTiming => 3
    case InfoEnergy => 4 case InfoNetwork => 5 case GetInfo => 6 case SetJoint => 7
    case SetWrenchTime => 8 case GetJointData => 9 case ClearJointData => 10
    case GetStatusReport => 11 case Beep => 12 case JointData => 13 case StatusReport => 14
    case InlineJointData => 15
  }

  /** The packet type with enumerator value c, if there is one. */
  function TypeOfCode(c: nat): (t: Option<PacketType>)
    ensures t.Some? <==> c < 16
    ensures t.Some? ==> Code(t.value) == c
  {
    if c == 0 then Some(Unknown) else if c == 1 then Some(InfoGeneric) else if c == 2 then Some(InfoSerial)
    else if c == 3 then Some(InfoTiming) else if c == 4 then Some(InfoEnergy) else if c == 5 then Some(InfoNetwork)
    else if c == 6 then Some(GetInfo) else if c == 7 then Some(SetJoint) else if c == 8 then Some(SetWrenchTime)
    else if c == 9 then Some(GetJointData) else if c == 10 then Some(ClearJointData)
    else if c == 11 then Some(GetStatusReport) else if c == 12 then Some(Beep) else if c == 13 then Some(JointData)
    else if c == 14 then Some(StatusReport) else if c == 15 then Some(InlineJointData) else None
  }


  /** Distinct types have distinct codes, and every code below 16 names one. */
  lemma CodeInjective(t: PacketType, u: PacketType)
    ensures Code(t) == Code(u) ==> t == u
    ensures TypeOfCode(Code(t)) == Some(t)
  {
  }

  const FROM_CLIENT: byte := 0
  const FROM_SERVER: byte := 1

  // ---------------------------------------------------------------------
  // The packet: sequence_id, mac, the flag byte, payload_len, payload

  const PACKET_FIELDS: seq<nat> := [2, 4, 1, 1, 240]
  const PACKET_SIZE: nat := 248
  const PAYLOAD_SIZE: nat := 240
  const SEQ_ID_AT: nat := 0
  const MAC_AT: nat := 2
  const FLAG_AT: nat := 6
  const PAYLOAD_LEN_AT: nat := 7
  const PAYLOAD_AT: nat := 8

  /** The packed header puts each field right after the previous one, and the
      whole struct is 248 bytes. */
  lemma PacketLayout()
    ensures Packed(PACKET_FIELDS, [SEQ_ID_AT, MAC_AT, FLAG_AT, PAYLOAD_LEN_AT, PAYLOAD_AT], PACKET_SIZE)
  {
  }

  // ---------------------------------------------------------------------
  // The flag byte: direction:1, variable_len:1, type:6

  const PACKET_FLAG_WIDTHS: seq<nat> := [1, 1, 6]
  const PACKET_FLAG_AT: seq<nat> := [0, 1, 2]
  /** WRCPacketFlag's `hi, lo` ranges: direction 0, variable_len 1, type 7..2. */
  const PACKET_FLAG_RANGES: seq<(nat, nat)> := [(0, 0), (1, 1), (7, 2)]

  /** The C bit-fields fill the flag byte, and the Rust ranges name the same bits. */
  lemma PacketFlagLayout()
    ensures Packed(PACKET_FLAG_WIDTHS, PACKET_FLAG_AT, 8)
    ensures SameBits(PACKET_FLAG_WIDTHS, PACKET_FLAG_AT, PACKET_FLAG_RANGES)
  {
  }

  function Direction(f: byte): (d: byte)
    ensures d <= 1
  {
    Field(f, 0, 1)
  }

  function VariableLen(f: byte): (v: byte)
    ensures v <= 1
  {
    Field(f, 1, 1)
  }

  function Type(f: byte): (t: byte)
    ensures t < 64
  {
    Field(f, 2, 6)
  }

  /** Stores `v & 1` as the direction and keeps the other two fields. */
  function WithDirection(f: byte, v: byte): (r: byte)
    ensures Direction(r) == v & 1
    ensures VariableLen(r) == VariableLen(f) && Type(r) == Type(f)
  {
    var r := WithField(f, 0, 1, v);
    assert r == (f & 0xFE) | (v & 1);
    r
  }

  /** Stores `v & 1` as variable_len and keeps the other two fields. */
  function WithVariableLen(f: byte, v: byte): (r: byte)
    ensures VariableLen(r) == v & 1
    ensures Direction(r) == Direction(f) && Type(r) == Type(f)
  {
    var r := WithField(f, 1, 1, v);
    assert r == (f & 0xFD) | ((v & 1) << 1);
    r
  }

  /** Stores `v & 0x3F` as the type and keeps the other two fields. */
  function WithType(f: byte, v: byte): (r: byte)
    ensures Type(r) == v & 0x3F
    ensures Direction(r) == Direction(f) && VariableLen(r) == VariableLen(f)
  {
    var r := WithField(f, 2, 6, v);
    assert r == (f & 0x03) | ((v & 0x3F) << 2);
    TypeKeepsLowBits(f, v, r);
    r
  }

  /** Writing the type field: a type below 64 is stored unchanged, a larger
      one loses only its two high bits, and the two flag bits survive. */
  lemma TypeKeepsLowBits(f: byte, v: byte, r: byte)
    requires r == (f & 0x03) | ((v & 0x3F) << 2)
    ensures Type(r) == v & 0x3F
    ensures v < 64 ==> Type(r) == v
    ensures v >= 64 ==> Type(r) == v % 64
    ensures Direction(r) == Direction(f) && VariableLen(r) == VariableLen(f)
  {
    assert r & 0x03 == f & 0x03;
    assert r >> 2 == v & 0x3F;
    assert v & 0x3F == v % 64;
  }

  /** A flag byte is determined by its three fields. */
  lemma FlagFields(f: byte, g: byte)
    requires Direction(f) == Direction(g) && VariableLen(f) == VariableLen(g) && Type(f) == Type(g)
    ensures f == g
  {
  }

  // ---------------------------------------------------------------------
  // Payload variants, as lists of field widths in declaration order

  const INFO_SERIAL: seq<nat> := [16]
  const INFO_GENERIC: seq<nat> := [2, 2]
  const INFO_TIMING: seq<nat> := [4, 4]
  /** Five u16 packet counters, then three i8 signal readings. */
  const INFO_NETWORK: seq<nat> := [2, 2, 2, 2, 2, 1, 1, 1]
  /** The flag byte, then the u16 battery voltage. */
  const INFO_ENERGY: seq<nat> := [1, 2]
  const GET_INFO: seq<nat> := [1]
  /** Four i32, three i16, i32 fdt, i16 fda, u16 repeat count, u16 task id, the flag byte. */
  const SET_JOINT: seq<nat> := [4, 4, 4, 4, 2, 2, 2, 4, 2, 2, 2, 1]
  const SET_WRENCH_TIME: seq<nat> := [4]
  const GET_JOINT_DATA: seq<nat> := [2, 1]
  const STATUS_REPORT: seq<nat> := [2, 2]
  /** u16 joint id, u16 task id, u32 time, the flag byte, i32 torque, i16 angle. */
  const INLINE_JOINT_DATA: seq<nat> := [2, 2, 4, 1, 4, 2]

  /** The size of the union member a packet type carries; the types without a member carry none. */
  function PayloadSize(t: PacketType): (n: nat)
    ensures n <= PAYLOAD_SIZE
  {
    match t
    case InfoGeneric => 4 case InfoSerial => 16 case InfoTiming => 8 case InfoEnergy => 3
    case InfoNetwork => 13 case GetInfo => 1 case SetJoint => 33 case SetWrenchTime => 4
    case GetJointData => 3 case StatusReport => 4 case InlineJointData => 15
    case _ => 0
  }

  const INFO_NETWORK_AT: seq<nat> := [0, 2, 4, 6, 8, 10, 11, 12]
  const INFO_ENERGY_AT: seq<nat> := [0, 1]
  const SET_JOINT_AT: seq<nat> := [0, 4, 8, 12, 16, 18, 20, 22, 26, 28, 30, 32]
  const INLINE_JOINT_DATA_AT: seq<nat> := [0, 2, 4, 8, 9, 13]

  /** Each payload variant is its fields packed one after the other; in
      particular the InlineJointData flag byte is at offset 8 and the SetJoint
      flag byte at offset 32. */
  lemma PayloadLayouts()
    ensures Packed(INFO_NETWORK, INFO_NETWORK_AT, PayloadSize(InfoNetwork))
    ensures Packed(SET_JOINT, SET_JOINT_AT, PayloadSize(SetJoint)) && SET_JOINT_AT[11] == 32
    ensures Packed(INLINE_JOINT_DATA, INLINE_JOINT_DATA_AT, PayloadSize(InlineJointData)) && INLINE_JOINT_DATA_AT[3] == 8
  {
  }

  /** The smaller payload variants are packed the same way. */
  lemma SmallPayloadLayouts()
    ensures Packed(INFO_SERIAL, [0], PayloadSize(InfoSerial))
    ensures Packed(INFO_GENERIC, [0, 2], PayloadSize(InfoGeneric))
    ensures Packed(INFO_TIMING, [0, 4], PayloadSize(InfoTiming))
    ensures Packed(INFO_ENERGY, INFO_ENERGY_AT, PayloadSize(InfoEnergy))
    ensures Packed(GET_INFO, [0], PayloadSize(GetInfo))
    ensures Packed(SET_WRENCH_TIME, [0], PayloadSize(SetWrenchTime))
    ensures Packed(GET_JOINT_DATA, [0, 2], PayloadSize(GetJointData))
    ensures Packed(STATUS_REPORT, [0, 2], PayloadSize(StatusReport))
  {
  }

  // ---------------------------------------------------------------------
  // The joint flag bytes

  /** InlineJointData: valid:1, ok:1, mode:2, method:2, unit:2. */
  const JOINT_FLAG_WIDTHS: seq<nat> := [1, 1, 2, 2, 2]
  const JOINT_FLAG_RANGES: seq<(nat, nat)> := [(0, 0), (1, 1), (3, 2), (5, 4), (7, 6)]
  /** SetJoint: _rsvd:2, mode:2, method:2, unit:2. */
  const SET_JOINT_FLAG_WIDTHS: seq<nat> := [2, 2, 2, 2]
  const SET_JOINT_FLAG_RANGES: seq<(nat, nat)> := [(1, 0), (3, 2), (5, 4), (7, 6)]
  /** GetInfo and Info_Energy: eight one-bit flags. */
  const BYTE_FLAG_WIDTHS: seq<nat> := [1, 1, 1, 1, 1, 1, 1, 1]
  const BYTE_FLAG_RANGES: seq<(nat, nat)> := [(0, 0), (1, 1), (2, 2), (3, 3), (4, 4), (5, 5), (6, 6), (7, 7)]

  /** The C bit-fields of each flag byte fill it, and the Rust ranges name the same bits. */
  lemma JointFlagLayouts()
    ensures Packed(JOINT_FLAG_WIDTHS, [0, 1, 2, 4, 6], 8) && SameBits(JOINT_FLAG_WIDTHS, [0, 1, 2, 4, 6], JOINT_FLAG_RANGES)
    ensures Packed(SET_JOINT_FLAG_WIDTHS, [0, 2, 4, 6], 8) && SameBits(SET_JOINT_FLAG_WIDTHS, [0, 2, 4, 6], SET_JOINT_FLAG_RANGES)
    ensures Packed(BYTE_FLAG_WIDTHS, [0, 1, 2, 3, 4, 5, 6, 7], 8)
    ensures SameBits(BYTE_FLAG_WIDTHS, [0, 1, 2, 3, 4, 5, 6, 7], BYTE_FLAG_RANGES)
  {
  }

  function JointValid(f: byte): byte { Field(f, 0, 1) }
  function JointOk(f: byte): byte { Field(f, 1, 1) }
  function JointMode(f: byte): byte { Field(f, 2, 2) }
  function JointMethod(f: byte): byte { Field(f, 4, 2) }
  function JointUnit(f: byte): byte { Field(f, 6, 2) }

  /** set_mode: stores the low two bits of v, keeps the other fields. */
  function WithJointMode(f: byte, v: byte): (r: byte)
    ensures JointMode(r) == v & 3
    ensures Field(r, 0, 2) == Field(f, 0, 2) && JointMethod(r) == JointMethod(f) && JointUnit(r) == JointUnit(f)
  {
    var r := WithField(f, 2, 2, v);
    assert r == (f & 0xF3) | ((v & 3) << 2);
    r
  }

  /** set_method: stores the low two bits of v, keeps the other fields. */
  function WithJointMethod(f: byte, v: byte): (r: byte)
    ensures JointMethod(r) == v & 3
    ensures Field(r, 0, 2) == Field(f, 0, 2) && JointMode(r) == JointMode(f) && JointUnit(r) == JointUnit(f)
  {
    var r := WithField(f, 4, 2, v);
    assert r == (f & 0xCF) | ((v & 3) << 4);
    r
  }

  /** set_unit: stores the low two bits of v, keeps the other fields. */
  function WithJointUnit(f: byte, v: byte): (r: byte)
    ensures JointUnit(r) == v & 3
    ensures Field(r, 0, 2) == Field(f, 0, 2) && JointMode(r) == JointMode(f) && JointMethod(r) == JointMethod(f)
  {
    var r := WithField(f, 6, 2, v);
    assert r == (f & 0x3F) | ((v & 3) << 6);
    r
  }

  const INFO_SERIAL_BIT: nat := 0
  const INFO_GENERIC_BIT: nat := 1
  const INFO_ENERGY_BIT: nat := 2
  const INFO_TIMING_BIT: nat := 3
  const INFO_NETWORK_BIT: nat := 4

  /** Whether bit j of a one-bit-flag byte is set. */
  predicate FlagSet(f: byte, j: nat)
    requires j < 8
  {
    Field(f, j, 1) == 1
  }

  /** Sets bit j of a one-bit-flag byte and keeps the others. */
  function WithFlag(f: byte, j: nat): byte
    requires j < 8
  {
    WithField(f, j, 1, 1)
  }

  /** A fresh GetInfo flag with only the serial bit, or only the energy bit, set. */
  lemma OnlyFlag()
    ensures forall i :: 0 <= i < 8 ==> (FlagSet(WithFlag(0, INFO_SERIAL_BIT), i) <==> i == INFO_SERIAL_BIT)
    ensures forall i :: 0 <= i < 8 ==> (FlagSet(WithFlag(0, INFO_ENERGY_BIT), i) <==> i == INFO_ENERGY_BIT)
    ensures WithFlag(0, INFO_SERIAL_BIT) == 1 && WithFlag(0, INFO_ENERGY_BIT) == 4
  {
  }
}
