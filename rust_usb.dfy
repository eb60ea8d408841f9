/** The Rust `USBLocalPacket` wire format: `TryFrom<Vec<u8>>` parses a packet
    from the bytes of the local USB link and `TryInto<Vec<u8>>` serialises one.
    The type and the payload length are signed bytes; freq_hz is little-endian. */
module RustUsb {
  import opened Bytes
  import opened Wrappers
  import U = UsbLayout

  datatype LoRaProperties = LoRaProperties(sf: byte, bw: byte, cr: byte, ldro: byte)

  /** `USBLocalPayload`: one variant per packet type but `Unknown`. */
  datatype Payload =
    | RFStatus(rssi: i8, snr: i8, rscp: i8)
    | RFControl(freqHz: u32, rsvd: byte, txpower: byte, lora: LoRaProperties)
    | MACMode(mode: byte)

  datatype Packet = Packet(packetType: i8, payloadLen: i8, payload: Payload)

  datatype ParseError =
    | TooShort        // "Packet too short"
    | LengthMismatch  // "Payload length mismatch"
    | InvalidType     // "Invalid packet type"
    | OutOfBounds     // a fixed-offset index past the end of a short payload, a panic in the source

  const HEADER_SIZE: nat := 2

  function TypeOf(p: Payload): (t: U.UsbType)
    ensures t != U.Unknown
  {
    match p
    case RFStatus(_, _, _) => U.RFStatus
    case RFControl(_, _, _, _) => U.RFControl
    case MACMode(_) => U.MACMode
  }

  // ---------------------------------------------------------------------
  // Serialising

  /** The bytes try_into pushes for a payload: its fields in declaration order. */
  function PayloadBytes(p: Payload): (b: seq<byte>)
    ensures |b| == U.PayloadSize(TypeOf(p))
  {
    match p
    case RFStatus(rssi, snr, rscp) => [ByteOfI8(rssi), ByteOfI8(snr), ByteOfI8(rscp)]
    case RFControl(f, rsvd, txpower, l) => U32Bytes(f) + [rsvd, txpower, l.sf, l.bw, l.cr, l.ldro]
    case MACMode(m) => [m]
  }

  /** The whole packet: `packet_type as u8`, `payload_len as u8`, then the payload. */
  function Encoding(p: Packet): (b: seq<byte>)
    ensures |b| == HEADER_SIZE + U.PayloadSize(TypeOf(p.payload))
  {
    [ByteOfI8(p.packetType), ByteOfI8(p.payloadLen)] + PayloadBytes(p.payload)
  }

  /** try_into: the two header bytes, then the variant's fields. It never fails,
      and it writes payload_len as given, whether or not it is the payload's size. */
  method Serialize(p: Packet) returns (result: seq<byte>)
    ensures result == Encoding(p)
    ensures |result| == HEADER_SIZE + U.PayloadSize(TypeOf(p.payload))
  {
    result := [ByteOfI8(p.packetType), ByteOfI8(p.payloadLen)];
    match p.payload {
      case RFStatus(rssi, snr, rscp) =>
        result := result + [ByteOfI8(rssi)];
        result := result + [ByteOfI8(snr)];
        result := result + [ByteOfI8(rscp)];
      case RFControl(f, rsvd, txpower, l) =>
        result := PushRFControl(result, f, rsvd, txpower, l);
      case MACMode(m) =>
        result := result + [m];
    }
  }

  method PushRFControl(prefix: seq<byte>, f: u32, rsvd: byte, txpower: byte, l: LoRaProperties)
    returns (result: seq<byte>)
    ensures result == prefix + PayloadBytes(RFControl(f, rsvd, txpower, l))
  {
    result := prefix + U32Bytes(f);
    result := result + [rsvd];
    result := result + [txpower];
    result := result + [l.sf];
    result := result + [l.bw];
    result := result + [l.cr];
    result := result + [l.ldro];
  }

  // ---------------------------------------------------------------------
  // Parsing

  /** The packet type a type byte names: 1, 2 and 3 have a payload variant. */
  function TypeOfCode(c: i8): (t: Option<U.UsbType>)
    ensures t.Some? <==> 1 <= c <= 3
    ensures t.Some? ==> t.value != U.Unknown && U.Code(t.value) == c
  {
    if c == 1 then Some(U.RFStatus) else if c == 2 then Some(U.RFControl)
    else if c == 3 then Some(U.MACMode) else None
  }

  /** The fields of a payload of type t, read at their fixed offsets. */
  function Fields(t: U.UsbType, p: seq<byte>): (r: Payload)
    requires t != U.Unknown && |p| >= U.PayloadSize(t)
    ensures TypeOf(r) == t
  {
    match t
    case RFStatus => RFStatus(I8Of(p[0]), I8Of(p[1]), I8Of(p[2]))
    case RFControl => RFControl(U32Le(p[0..4]), p[4], p[5], LoRaProperties(p[6], p[7], p[8], p[9]))
    case MACMode => MACMode(p[0])
  }

  /** The match on the type byte: types 1, 2 and 3 read their variant at fixed
      offsets; any other value is rejected. Indexing past a short payload panics. */
  function ParsePayload(packetType: i8, p: seq<byte>): (r: Result<Payload, ParseError>)
    ensures r == Err(InvalidType) <==> !(1 <= packetType <= 3)
    ensures r == Err(OutOfBounds) <==>
      1 <= packetType <= 3 && |p| < U.PayloadSize(TypeOfCode(packetType).value)
    ensures r.Ok? ==> U.Code(TypeOf(r.value)) == packetType && |p| >= U.PayloadSize(TypeOf(r.value))
    ensures r.Err? ==> r == Err(InvalidType) || r == Err(OutOfBounds)
  {
    var t := TypeOfCode(packetType);
    if t.None? then Err(InvalidType)
    else if |p| < U.PayloadSize(t.value) then Err(OutOfBounds)
    else Ok(Fields(t.value, p))
  }

  /** try_from. A negative payload_len, cast to usize, never equals the
      payload's length. */
  function Parse(v: seq<byte>): (r: Result<Packet, ParseError>)
    ensures |v| < 3 ==> r == Err(TooShort)
    ensures |v| >= 3 && |v| - HEADER_SIZE != I8Of(v[1]) ==> r == Err(LengthMismatch)
    ensures |v| >= 3 && I8Of(v[1]) < 0 ==> r == Err(LengthMismatch)
    ensures |v| >= 3 && |v| - HEADER_SIZE == I8Of(v[1]) && !(1 <= I8Of(v[0]) <= 3) ==> r == Err(InvalidType)
    ensures r.Ok? ==>
      && r.value.packetType == I8Of(v[0]) && r.value.payloadLen == I8Of(v[1])
      && |v| == HEADER_SIZE + r.value.payloadLen
      && U.Code(TypeOf(r.value.payload)) == r.value.packetType
      && r.value.payloadLen >= U.PayloadSize(TypeOf(r.value.payload))
  {
    if |v| < 3 then Err(TooShort)
    else
      var packetType := I8Of(v[0]);
      var payloadLen := I8Of(v[1]);
      var payload := v[HEADER_SIZE ..];
      if payloadLen < 0 || |payload| != payloadLen then Err(LengthMismatch)
      else
        match ParsePayload(packetType, payload)
        case Err(e) => Err(e)
        case Ok(p) => Ok(Packet(packetType, payloadLen, p))
  }

  // ---------------------------------------------------------------------
  // Round trips

  /** Reading a payload's own bytes at the fixed offsets gives the payload back. */
  lemma FieldsOfBytes(p: Payload)
    ensures Fields(TypeOf(p), PayloadBytes(p)) == p
  {
    var b := PayloadBytes(p);
    match p
    case RFStatus(rssi, snr, rscp) =>
      I8RoundTrip(rssi);
      I8RoundTrip(snr);
      I8RoundTrip(rscp);
    case RFControl(f, _, _, _) =>
      assert b[0..4] == U32Bytes(f);
      U32RoundTrip(f);
    case MACMode(_) =>
  }

  /** try_from inverts try_into whenever the type byte names the payload's
      variant and payload_len is that variant's size. */
  lemma ParseEncoding(p: Packet)
    requires p.packetType == U.Code(TypeOf(p.payload))
    requires p.payloadLen == U.PayloadSize(TypeOf(p.payload))
    ensures Parse(Encoding(p)) == Ok(p)
  {
    var e := Encoding(p);
    I8RoundTrip(p.packetType);
    I8RoundTrip(p.payloadLen);
    assert e[HEADER_SIZE ..] == PayloadBytes(p.payload);
    FieldsOfBytes(p.payload);
    assert ParsePayload(p.packetType, e[HEADER_SIZE ..]) == Ok(p.payload);
  }

  /** Serialising the payload read at the fixed offsets gives back the bytes
      it was read from, up to the variant's size. */
  lemma BytesOfFields(t: U.UsbType, q: seq<byte>)
    requires t != U.Unknown && |q| >= U.PayloadSize(t)
    ensures PayloadBytes(Fields(t, q)) == q[.. U.PayloadSize(t)]
  {
    match t
    case RFStatus =>
      I8BytesOf(q[0]);
      I8BytesOf(q[1]);
      I8BytesOf(q[2]);
    case RFControl =>
      U32BytesOf(q[0..4]);
      assert q[..10] == q[0..4] + q[4..10];
    case MACMode =>
  }

  /** An accepted packet's payload is the fields read at the fixed offsets. */
  lemma ParsedFields(v: seq<byte>)
    requires Parse(v).Ok?
    ensures Parse(v).value.payload == Fields(TypeOf(Parse(v).value.payload), v[HEADER_SIZE ..])
  {
  }

  /** The header bytes of a packet whose header fields were read from v. */
  lemma HeaderBytes(v: seq<byte>, p: Packet)
    requires |v| >= HEADER_SIZE && p.packetType == I8Of(v[0]) && p.payloadLen == I8Of(v[1])
    ensures Encoding(p) == [v[0], v[1]] + PayloadBytes(p.payload)
  {
    I8BytesOf(v[0]);
    I8BytesOf(v[1]);
  }

  /** try_into inverts try_from: an accepted packet serialises to exactly the
      bytes it was parsed from, cut to its variant's size. */
  lemma EncodingOfParse(v: seq<byte>)
    requires Parse(v).Ok?
    ensures var p := Parse(v).value;
      && Encoding(p) == v[.. HEADER_SIZE + U.PayloadSize(TypeOf(p.payload))]
      && (p.payloadLen == U.PayloadSize(TypeOf(p.payload)) ==> Encoding(p) == v)
  {
    var p := Parse(v).value;
    var t := TypeOf(p.payload);
    ParsedFields(v);
    EncodingOfFields(v, p, t);
    if p.payloadLen == U.PayloadSize(t) {
      assert v[.. |v|] == v;
    }
  }

  /** A packet whose header and fields were read from v serialises to the
      bytes they were read from. */
  lemma EncodingOfFields(v: seq<byte>, p: Packet, t: U.UsbType)
    requires t != U.Unknown && TypeOf(p.payload) == t && |v| >= HEADER_SIZE + U.PayloadSize(t)
    requires p.packetType == I8Of(v[0]) && p.payloadLen == I8Of(v[1])
    requires p.payload == Fields(t, v[HEADER_SIZE ..])
    ensures Encoding(p) == v[.. HEADER_SIZE + U.PayloadSize(t)]
  {
    var q := v[HEADER_SIZE ..];
    BytesOfFields(t, q);
    HeaderBytes(v, p);
    assert v[.. HEADER_SIZE + U.PayloadSize(t)] == [v[0], v[1]] + q[.. U.PayloadSize(t)];
  }

  /** A one-byte MACMode packet is the shortest packet try_from accepts; a
      payload_len that claims more than the bytes present is refused; and an
      RFStatus packet with a one-byte payload passes the length check and then
      indexes past its payload. */
  lemma ShortestPacket(m: byte)
    ensures Parse([0x03, 0x01, m]) == Ok(Packet(3, 1, MACMode(m)))
    ensures Parse([0x03, 0x02, m]) == Err(LengthMismatch)
    ensures Parse([0x01, 0x01, m]) == Err(OutOfBounds)
  {
    ParseEncoding(Packet(3, 1, MACMode(m)));
    assert Encoding(Packet(3, 1, MACMode(m))) == [0x03, 0x01, m];
  }
}
