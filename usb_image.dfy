/** The 12-byte image of a `USBLocal_Packet` and its field views. Unlike the
    WRC flag byte, no field is masked. */
module UsbImage {
  import opened Bytes
  import opened UsbLayout

  predicate IsImage(img: seq<byte>)
  {
    |img| == PACKET_SIZE
  }

  function TypeByte(img: seq<byte>): byte
    requires IsImage(img)
  {
    img[TYPE_AT]
  }

  function PayloadLen(img: seq<byte>): byte
    requires IsImage(img)
  {
    img[PAYLOAD_LEN_AT]
  }

  function Payload(img: seq<byte>): (p: seq<byte>)
    requires IsImage(img)
    ensures |p| == PAYLOAD_SIZE
  {
    img[PAYLOAD_AT ..]
  }

  /** set_type: any byte. */
  function WithTypeByte(img: seq<byte>, v: byte): (r: seq<byte>)
    requires IsImage(img)
    ensures IsImage(r)
    ensures forall i :: 0 <= i < PACKET_SIZE && i != TYPE_AT ==> r[i] == img[i]
  {
    img[TYPE_AT := v]
  }

  /** set_payload_len: any byte. */
  function WithPayloadLen(img: seq<byte>, v: byte): (r: seq<byte>)
    requires IsImage(img)
    ensures IsImage(r)
    ensures forall i :: 0 <= i < PACKET_SIZE && i != PAYLOAD_LEN_AT ==> r[i] == img[i]
  {
    img[PAYLOAD_LEN_AT := v]
  }

  /** set_payload: the 10 payload bytes after the two header bytes. */
  function WithPayload(img: seq<byte>, p: seq<byte>): (r: seq<byte>)
    requires IsImage(img) && |p| == PAYLOAD_SIZE
    ensures IsImage(r)
    ensures forall i :: 0 <= i < PAYLOAD_AT ==> r[i] == img[i]
  {
    img[.. PAYLOAD_AT] + p
  }

  /** Every getter returns what its setter stored, unmasked, and each setter
      keeps the other two fields. */
  lemma SetterRoundTrips(img: seq<byte>, v: byte, p: seq<byte>)
    requires IsImage(img) && |p| == PAYLOAD_SIZE
    ensures var r := WithTypeByte(img, v);
      TypeByte(r) == v && PayloadLen(r) == PayloadLen(img) && Payload(r) == Payload(img)
    ensures var r := WithPayloadLen(img, v);
      PayloadLen(r) == v && TypeByte(r) == TypeByte(img) && Payload(r) == Payload(img)
    ensures var r := WithPayload(img, p);
      Payload(r) == p && TypeByte(r) == TypeByte(img) && PayloadLen(r) == PayloadLen(img)
  {
  }

  /** The zeroed image has every field zero. */
  lemma ZeroImage()
    ensures IsImage(Zeros(PACKET_SIZE))
    ensures var z := Zeros(PACKET_SIZE);
      TypeByte(z) == 0 && PayloadLen(z) == 0 && Payload(z) == Zeros(PAYLOAD_SIZE)
  {
  }
}
