/** The 248-byte image of a `WRC_Packet` and its field views: what each
    accessor of the C++ `WRCPacket` class reads, and what each setter leaves
    behind. Multi-byte fields are little-endian. */
module WrcImage {
  import opened Bytes
  import opened WrcLayout

  predicate IsImage(img: seq<byte>)
  {
    |img| == PACKET_SIZE
  }

  function SequenceId(img: seq<byte>): u16
    requires IsImage(img)
  {
    U16Le(img[SEQ_ID_AT .. SEQ_ID_AT + 2])
  }

  function Mac(img: seq<byte>): u32
    requires IsImage(img)
  {
    U32Le(img[MAC_AT .. MAC_AT + 4])
  }

  function Flag(img: seq<byte>): byte
    requires IsImage(img)
  {
    img[FLAG_AT]
  }

  function PayloadLen(img: seq<byte>): byte
    requires IsImage(img)
  {
    img[PAYLOAD_LEN_AT]
  }

  function Payload(img: seq<byte>): (p: seq<byte>)
    requires IsImage(img)
    ensures |p| == PAYLOAD_SIZE
  {
    img[PAYLOAD_AT ..]
  }

  /** `img` with the bytes from `at` on replaced by v; every other byte is kept. */
  function Overwrite(img: seq<byte>, at: nat, v: seq<byte>): (r: seq<byte>)
    requires at + |v| <= |img|
    ensures |r| == |img|
    ensures r[at .. at + |v|] == v
    ensures forall i :: 0 <= i < |img| && !(at <= i < at + |v|) ==> r[i] == img[i]
  {
    img[.. at] + v + img[at + |v| ..]
  }

  /** set_sequence_id: the two little-endian bytes of v at offset 0. */
  function WithSequenceId(img: seq<byte>, v: u16): (r: seq<byte>)
    requires IsImage(img)
    ensures IsImage(r)
    ensures forall i :: 2 <= i < PACKET_SIZE ==> r[i] == img[i]
  {
    Overwrite(img, SEQ_ID_AT, U16Bytes(v))
  }

  /** set_mac: the four little-endian bytes of v at offset 2. */
  function WithMac(img: seq<byte>, v: u32): (r: seq<byte>)
    requires IsImage(img)
    ensures IsImage(r)
    ensures forall i :: 0 <= i < PACKET_SIZE && !(2 <= i < 6) ==> r[i] == img[i]
  {
    Overwrite(img, MAC_AT, U32Bytes(v))
  }

  /** set_direction: `v & 1` into bit 0 of the flag byte. */
  function WithDirectionBit(img: seq<byte>, v: byte): (r: seq<byte>)
    requires IsImage(img)
    ensures IsImage(r)
    ensures forall i :: 0 <= i < PACKET_SIZE && i != FLAG_AT ==> r[i] == img[i]
  {
    img[FLAG_AT := WithDirection(img[FLAG_AT], v)]
  }

  /** set_variable_len: `v & 1` into bit 1 of the flag byte. */
  function WithVariableLenBit(img: seq<byte>, v: byte): (r: seq<byte>)
    requires IsImage(img)
    ensures IsImage(r)
    ensures forall i :: 0 <= i < PACKET_SIZE && i != FLAG_AT ==> r[i] == img[i]
  {
    img[FLAG_AT := WithVariableLen(img[FLAG_AT], v)]
  }

  /** set_type: `v & 0x3F` into bits 2..7 of the flag byte. */
  function WithTypeBits(img: seq<byte>, v: byte): (r: seq<byte>)
    requires IsImage(img)
    ensures IsImage(r)
    ensures forall i :: 0 <= i < PACKET_SIZE && i != FLAG_AT ==> r[i] == img[i]
  {
    img[FLAG_AT := WithType(img[FLAG_AT], v)]
  }

  /** set_payload_len: any byte, with no check against the 240-byte payload. */
  function WithPayloadLen(img: seq<byte>, v: byte): (r: seq<byte>)
    requires IsImage(img)
    ensures IsImage(r)
    ensures forall i :: 0 <= i < PACKET_SIZE && i != PAYLOAD_LEN_AT ==> r[i] == img[i]
  {
    img[PAYLOAD_LEN_AT := v]
  }

  /** set_payload: all 240 payload bytes. */
  function WithPayload(img: seq<byte>, p: seq<byte>): (r: seq<byte>)
    requires IsImage(img) && |p| == PAYLOAD_SIZE
    ensures IsImage(r)
    ensures forall i :: 0 <= i < PAYLOAD_AT ==> r[i] == img[i]
  {
    Overwrite(img, PAYLOAD_AT, p)
  }

  // ---------------------------------------------------------------------
  // Each getter returns what its setter stored, and every setter leaves the
  // other fields as they were.

  lemma SequenceIdRoundTrip(img: seq<byte>, v: u16)
    requires IsImage(img)
    ensures var r := WithSequenceId(img, v);
      SequenceId(r) == v && Mac(r) == Mac(img) && Flag(r) == Flag(img) &&
      PayloadLen(r) == PayloadLen(img) && Payload(r) == Payload(img)
  {
    var r := WithSequenceId(img, v);
    U16RoundTrip(v);
    assert r[MAC_AT .. MAC_AT + 4] == img[MAC_AT .. MAC_AT + 4];
    assert Payload(r) == Payload(img);
  }

  lemma MacRoundTrip(img: seq<byte>, v: u32)
    requires IsImage(img)
    ensures var r := WithMac(img, v);
      Mac(r) == v && SequenceId(r) == SequenceId(img) && Flag(r) == Flag(img) &&
      PayloadLen(r) == PayloadLen(img) && Payload(r) == Payload(img)
  {
    var r := WithMac(img, v);
    U32RoundTrip(v);
    assert r[SEQ_ID_AT .. SEQ_ID_AT + 2] == img[SEQ_ID_AT .. SEQ_ID_AT + 2];
    assert Payload(r) == Payload(img);
  }

  /** The three flag setters store their masked value and touch neither the
      other two flag fields nor any other field. */
  lemma FlagSetters(img: seq<byte>, v: byte)
    requires IsImage(img)
    ensures var r := WithDirectionBit(img, v);
      Direction(Flag(r)) == v & 1 && Direction(Flag(r)) <= 1 &&
      VariableLen(Flag(r)) == VariableLen(Flag(img)) && Type(Flag(r)) == Type(Flag(img)) &&
      SequenceId(r) == SequenceId(img) && Mac(r) == Mac(img) &&
      PayloadLen(r) == PayloadLen(img) && Payload(r) == Payload(img)
    ensures var r := WithVariableLenBit(img, v);
      VariableLen(Flag(r)) == v & 1 &&
      Direction(Flag(r)) == Direction(Flag(img)) && Type(Flag(r)) == Type(Flag(img)) &&
      SequenceId(r) == SequenceId(img) && Mac(r) == Mac(img) &&
      PayloadLen(r) == PayloadLen(img) && Payload(r) == Payload(img)
    ensures var r := WithTypeBits(img, v);
      Type(Flag(r)) == v & 0x3F &&
      Direction(Flag(r)) == Direction(Flag(img)) && VariableLen(Flag(r)) == VariableLen(Flag(img)) &&
      SequenceId(r) == SequenceId(img) && Mac(r) == Mac(img) &&
      PayloadLen(r) == PayloadLen(img) && Payload(r) == Payload(img)
  {
    HeaderKept(img, WithDirectionBit(img, v));
    HeaderKept(img, WithVariableLenBit(img, v));
    HeaderKept(img, WithTypeBits(img, v));
  }

  /** An image that differs from another at most in the flag byte has the same other fields. */
  lemma HeaderKept(img: seq<byte>, r: seq<byte>)
    requires IsImage(img) && IsImage(r)
    requires forall i :: 0 <= i < PACKET_SIZE && i != FLAG_AT ==> r[i] == img[i]
    ensures SequenceId(r) == SequenceId(img) && Mac(r) == Mac(img)
    ensures PayloadLen(r) == PayloadLen(img) && Payload(r) == Payload(img)
  {
    assert r[SEQ_ID_AT .. SEQ_ID_AT + 2] == img[SEQ_ID_AT .. SEQ_ID_AT + 2];
    assert r[MAC_AT .. MAC_AT + 4] == img[MAC_AT .. MAC_AT + 4];
    assert Payload(r) == Payload(img);
  }

  lemma PayloadLenRoundTrip(img: seq<byte>, v: byte)
    requires IsImage(img)
    ensures var r := WithPayloadLen(img, v);
      PayloadLen(r) == v && SequenceId(r) == SequenceId(img) && Mac(r) == Mac(img) &&
      Flag(r) == Flag(img) && Payload(r) == Payload(img)
  {
    var r := WithPayloadLen(img, v);
    assert r[SEQ_ID_AT .. SEQ_ID_AT + 2] == img[SEQ_ID_AT .. SEQ_ID_AT + 2];
    assert r[MAC_AT .. MAC_AT + 4] == img[MAC_AT .. MAC_AT + 4];
    assert Payload(r) == Payload(img);
  }

  /** get_payload returns exactly the 240 bytes set_payload copied, and the header is kept. */
  lemma PayloadRoundTrip(img: seq<byte>, p: seq<byte>)
    requires IsImage(img) && |p| == PAYLOAD_SIZE
    ensures var r := WithPayload(img, p);
      Payload(r) == p && SequenceId(r) == SequenceId(img) && Mac(r) == Mac(img) &&
      Flag(r) == Flag(img) && PayloadLen(r) == PayloadLen(img)
  {
    var r := WithPayload(img, p);
    assert r[SEQ_ID_AT .. SEQ_ID_AT + 2] == img[SEQ_ID_AT .. SEQ_ID_AT + 2];
    assert r[MAC_AT .. MAC_AT + 4] == img[MAC_AT .. MAC_AT + 4];
  }

  /** The zeroed image has every field zero. */
  lemma ZeroImage()
    ensures IsImage(Zeros(PACKET_SIZE))
    ensures var z := Zeros(PACKET_SIZE);
      SequenceId(z) == 0 && Mac(z) == 0 && Flag(z) == 0 && PayloadLen(z) == 0 &&
      Payload(z) == Zeros(PAYLOAD_SIZE)
  {
    var z := Zeros(PACKET_SIZE);
    assert z[SEQ_ID_AT .. SEQ_ID_AT + 2] == Zeros(2);
    assert z[MAC_AT .. MAC_AT + 4] == Zeros(4);
    LeValueZeros(2);
    LeValueZeros(4);
    assert Payload(z) == Zeros(PAYLOAD_SIZE);
  }
}
