/** The C++ `WRCPacket` class: a `WRC_Packet` struct image held in place,
    with accessors, masking setters and the SM7Bit encoding of the whole image. */
module WrcPacket {
  import opened Bytes
  import opened SM7Bit
  import opened WrcLayout
  import opened WrcImage
  import opened PacketStorage
  import CppCodec

  /** The encoded length of a 248-byte image. */
  const ENCODED_SIZE: nat := 286

  class Packet {
    /** The struct image, `sizeof(WRC_Packet)` bytes. */
    const data: array<byte>

    ghost predicate Valid()
    {
      data.Length == PACKET_SIZE
    }

    /** The default constructor zeroes the whole struct. */
    constructor ()
      ensures Valid() && fresh(data)
      ensures data[..] == Zeros(PACKET_SIZE)
    {
      data := new byte[PACKET_SIZE](_ => 0);
    }

    /** Both byte constructors (pointer and length, or vector): decode the
        input and copy the decoded bytes over the storage, whose previous
        contents are `junk`. */
    constructor FromEncoded(input: seq<byte>, junk: seq<byte>)
      requires |junk| == PACKET_SIZE
      requires Fits(DecodeFrame(input), PACKET_SIZE)
      ensures Valid() && fresh(data)
      ensures data[..] == Received(junk, DecodeFrame(input))
    {
      var storage := Storage(junk);
      Load(storage, input);
      data := storage;
    }

    function GetSequenceId(): u16
      requires Valid()
      reads data
    {
      SequenceId(data[..])
    }

    function GetMac(): u32
      requires Valid()
      reads data
    {
      Mac(data[..])
    }

    function GetDirection(): byte
      requires Valid()
      reads data
    {
      Direction(Flag(data[..]))
    }

    function GetVariableLen(): byte
      requires Valid()
      reads data
    {
      VariableLen(Flag(data[..]))
    }

    function GetType(): byte
      requires Valid()
      reads data
    {
      Type(Flag(data[..]))
    }

    function GetPayloadLen(): byte
      requires Valid()
      reads data
    {
      PayloadLen(data[..])
    }

    function GetPayload(): seq<byte>
      requires Valid()
      reads data
    {
      Payload(data[..])
    }

    method SetSequenceId(v: u16)
      requires Valid()
      modifies data
      ensures data[..] == WithSequenceId(old(data[..]), v)
      ensures GetSequenceId() == v && GetMac() == old(GetMac())
      ensures GetDirection() == old(GetDirection()) && GetVariableLen() == old(GetVariableLen())
      ensures GetType() == old(GetType()) && GetPayloadLen() == old(GetPayloadLen())
      ensures GetPayload() == old(GetPayload())
    {
      SequenceIdRoundTrip(data[..], v);
      Store(WithSequenceId(data[..], v));
    }

    method SetMac(v: u32)
      requires Valid()
      modifies data
      ensures data[..] == WithMac(old(data[..]), v)
      ensures GetMac() == v && GetSequenceId() == old(GetSequenceId())
      ensures GetDirection() == old(GetDirection()) && GetVariableLen() == old(GetVariableLen())
      ensures GetType() == old(GetType()) && GetPayloadLen() == old(GetPayloadLen())
      ensures GetPayload() == old(GetPayload())
    {
      MacRoundTrip(data[..], v);
      Store(WithMac(data[..], v));
    }

    /** Stores `v & 1`. */
    method SetDirection(v: byte)
      requires Valid()
      modifies data
      ensures data[..] == WithDirectionBit(old(data[..]), v)
      ensures GetDirection() == v & 1
      ensures GetVariableLen() == old(GetVariableLen()) && GetType() == old(GetType())
      ensures GetSequenceId() == old(GetSequenceId()) && GetMac() == old(GetMac())
      ensures GetPayloadLen() == old(GetPayloadLen()) && GetPayload() == old(GetPayload())
    {
      FlagSetters(data[..], v);
      data[FLAG_AT] := WithDirection(data[FLAG_AT], v);
    }

    /** Stores `v & 1`. */
    method SetVariableLen(v: byte)
      requires Valid()
      modifies data
      ensures data[..] == WithVariableLenBit(old(data[..]), v)
      ensures GetVariableLen() == v & 1
      ensures GetDirection() == old(GetDirection()) && GetType() == old(GetType())
      ensures GetSequenceId() == old(GetSequenceId()) && GetMac() == old(GetMac())
      ensures GetPayloadLen() == old(GetPayloadLen()) && GetPayload() == old(GetPayload())
    {
      FlagSetters(data[..], v);
      data[FLAG_AT] := WithVariableLen(data[FLAG_AT], v);
    }

    /** Stores `v & 0x3F`. */
    method SetType(v: byte)
      requires Valid()
      modifies data
      ensures data[..] == WithTypeBits(old(data[..]), v)
      ensures GetType() == v & 0x3F
      ensures GetDirection() == old(GetDirection()) && GetVariableLen() == old(GetVariableLen())
      ensures GetSequenceId() == old(GetSequenceId()) && GetMac() == old(GetMac())
      ensures GetPayloadLen() == old(GetPayloadLen()) && GetPayload() == old(GetPayload())
    {
      FlagSetters(data[..], v);
      data[FLAG_AT] := WithType(data[FLAG_AT], v);
    }

    /** Stores any byte, unchecked against the payload size. */
    method SetPayloadLen(v: byte)
      requires Valid()
      modifies data
      ensures data[..] == WithPayloadLen(old(data[..]), v)
      ensures GetPayloadLen() == v && GetSequenceId() == old(GetSequenceId()) && GetMac() == old(GetMac())
      ensures GetDirection() == old(GetDirection()) && GetVariableLen() == old(GetVariableLen())
      ensures GetType() == old(GetType()) && GetPayload() == old(GetPayload())
    {
      PayloadLenRoundTrip(data[..], v);
      data[PAYLOAD_LEN_AT] := v;
    }

    /** Copies all 240 payload bytes. */
    method SetPayload(p: seq<byte>)
      requires Valid() && |p| == PAYLOAD_SIZE
      modifies data
      ensures data[..] == WithPayload(old(data[..]), p)
      ensures GetPayload() == p && GetSequenceId() == old(GetSequenceId()) && GetMac() == old(GetMac())
      ensures GetDirection() == old(GetDirection()) && GetVariableLen() == old(GetVariableLen())
      ensures GetType() == old(GetType()) && GetPayloadLen() == old(GetPayloadLen())
    {
      PayloadRoundTrip(data[..], p);
      Store(WithPayload(data[..], p));
    }

    /** Writes a whole new image into the storage. */
    method Store(img: seq<byte>)
      requires Valid() && |img| == PACKET_SIZE
      modifies data
      ensures data[..] == img
    {
      forall i | 0 <= i < PACKET_SIZE {
        data[i] := img[i];
      }
    }

    /** The codec encoding of the 248-byte image, copied into a new vector. */
    method Encode() returns (encoded: seq<byte>)
      requires Valid()
      ensures encoded == Frame(data[..], true)
      ensures |encoded| == ENCODED_SIZE
    {
      var len, res := CppCodec.Encode(null, data[..]);
      encoded := res[.. len];
    }
  }

  /** A default packet encodes as 0x00, then 0x01 for every interior byte
      except the second-to-last, 0x1F, then 0x02. */
  lemma DefaultEncoding()
    ensures var f := Frame(Zeros(PACKET_SIZE), true);
      && |f| == ENCODED_SIZE && f[0] == 0x00 && f[ENCODED_SIZE - 1] == 0x02
      && f[ENCODED_SIZE - 2] == 0x1F
      && forall m :: 0 < m < ENCODED_SIZE - 2 ==> f[m] == 0x01
  {
    var f := Frame(Zeros(PACKET_SIZE), true);
    FrameShape(Zeros(PACKET_SIZE), true);
    forall m | 0 < m < ENCODED_SIZE - 2
      ensures f[m] == 0x01
    {
      ZeroFrameByte(PACKET_SIZE, m);
    }
    ZeroFramePartialByte(PACKET_SIZE, ENCODED_SIZE - 2, 3, 0x1F);
  }
}
