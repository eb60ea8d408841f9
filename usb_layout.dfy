/** The fixed layout of a packet on the local USB link, shared by the C
    struct `USBLocal_Packet` and the Rust `USBLocalPacket`. */
module UsbLayout {
  import opened BitFields

  /** The USB packet types, in declaration order. */
  datatype UsbType = Unknown | RFStatus | RFControl | MACMode

  function Code(t: UsbType): (c: nat)
    ensures c < 4
  {
    match t
    case Unknown => 0 case RFStatus => 1 case RFControl => 2 case MACMode => 3
  }

  /** Distinct types have distinct codes. */
  lemma CodeInjective(t: UsbType, u: UsbType)
    ensures Code(t) == Code(u) ==> t == u
  {
  }

  /** type, payload_len, then the payload union. */
  const PACKET_FIELDS: seq<nat> := [1, 1, 10]
  const PACKET_SIZE: nat := 12
  const PAYLOAD_SIZE: nat := 10
  const TYPE_AT: nat := 0
  const PAYLOAD_LEN_AT: nat := 1
  const PAYLOAD_AT: nat := 2

  /** Three i8: rssi, snr, rscp. */
  const RF_STATUS: seq<nat> := [1, 1, 1]
  /** u32 freq_hz, rsvd, txpower, and the LoRa sf, bw, cr, ldro. */
  const RF_CONTROL: seq<nat> := [4, 1, 1, 1, 1, 1, 1]
  const RF_CONTROL_AT: seq<nat> := [0, 4, 5, 6, 7, 8, 9]
  const MAC_MODE: seq<nat> := [1]

  /** The size of the union member a type carries. */
  function PayloadSize(t: UsbType): (n: nat)
    ensures n <= PAYLOAD_SIZE
  {
    match t
    case RFStatus => 3 case RFControl => 10 case MACMode => 1 case Unknown => 0
  }

  /** The packet is 12 packed bytes; each payload variant is its fields packed
      one after the other, and the union is as large as its largest member, RFControl. */
  lemma PacketLayout()
    ensures Packed(PACKET_FIELDS, [TYPE_AT, PAYLOAD_LEN_AT, PAYLOAD_AT], PACKET_SIZE)
    ensures Packed(RF_STATUS, [0, 1, 2], PayloadSize(RFStatus))
    ensures Packed(RF_CONTROL, RF_CONTROL_AT, PayloadSize(RFControl))
    ensures Packed(MAC_MODE, [0], PayloadSize(MACMode))
    ensures PayloadSize(RFControl) == PAYLOAD_SIZE
  {
  }
}
