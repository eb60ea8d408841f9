/** The C++ `USBLocalPacket` class: a `USBLocal_Packet` struct image held in
    place, with unmasked accessors and the SM7Bit encoding of the whole image. */
module UsbPacket {
  import opened Bytes
  import opened SM7Bit
  import opened UsbLayout
  import opened UsbImage
  import opened PacketStorage
  import CppCodec

  /** The encoded length of a 12-byte image. */
  const ENCODED_SIZE: nat := 16

  class Packet {
    /** The struct image, `sizeof(USBLocal_Packet)` bytes. */
    const data: array<byte>

    ghost predicate Valid()
    {
      data.Length == PACKET_SIZE
    }

    /** The default constructor zeroes the whole struct. */
    constructor ()
      ensures Valid() && fresh(data)
      ensures data[..] == Zeros(PACKET_SIZE)
    {
      data := new byte[PACKET_SIZE](_ => 0);
    }

    /** Both byte constructors: decode the input and copy the decoded bytes
        over the storage, whose previous contents are `junk`. */
    constructor FromEncoded(input: seq<byte>, junk: seq<byte>)
      requires |junk| == PACKET_SIZE
      requires Fits(DecodeFrame(input), PACKET_SIZE)
      ensures Valid() && fresh(data)
      ensures data[..] == Received(junk, DecodeFrame(input))
    {
      var storage := Storage(junk);
      Load(storage, input);
      data := storage;
    }

    function GetType(): byte
      requires Valid()
      reads data
    {
      TypeByte(data[..])
    }

    function GetPayloadLen(): byte
      requires Valid()
      reads data
    {
      PayloadLen(data[..])
    }

    function GetPayload(): seq<byte>
      requires Valid()
      reads data
    {
      Payload(data[..])
    }

    method SetType(v: byte)
      requires Valid()
      modifies data
      ensures data[..] == WithTypeByte(old(data[..]), v)
      ensures GetType() == v && GetPayloadLen() == old(GetPayloadLen()) && GetPayload() == old(GetPayload())
    {
      data[TYPE_AT] := v;
    }

    method SetPayloadLen(v: byte)
      requires Valid()
      modifies data
      ensures data[..] == WithPayloadLen(old(data[..]), v)
      ensures GetPayloadLen() == v && GetType() == old(GetType()) && GetPayload() == old(GetPayload())
    {
      data[PAYLOAD_LEN_AT] := v;
    }

    /** Copies the 10 payload bytes. */
    method SetPayload(p: seq<byte>)
      requires Valid() && |p| == PAYLOAD_SIZE
      modifies data
      ensures data[..] == WithPayload(old(data[..]), p)
      ensures GetPayload() == p && GetType() == old(GetType()) && GetPayloadLen() == old(GetPayloadLen())
    {
      forall i | 0 <= i < PAYLOAD_SIZE {
        data[PAYLOAD_AT + i] := p[i];
      }
      assert data[..] == WithPayload(old(data[..]), p);
    }

    /** The codec encoding of the 12-byte image, copied into a new vector. */
    method Encode() returns (encoded: seq<byte>)
      requires Valid()
      ensures encoded == Frame(data[..], true)
      ensures |encoded| == ENCODED_SIZE
    {
      var len, res := CppCodec.Encode(null, data[..]);
      encoded := res[.. len];
    }
  }

  /** A default packet encodes as 0x00, then 0x01 for every interior byte
      except the second-to-last, 0x07, then 0x02. */
  lemma DefaultEncoding()
    ensures var f := Frame(Zeros(PACKET_SIZE), true);
      && |f| == ENCODED_SIZE && f[0] == 0x00 && f[ENCODED_SIZE - 1] == 0x02
      && f[ENCODED_SIZE - 2] == 0x07
      && forall m :: 0 < m < ENCODED_SIZE - 2 ==> f[m] == 0x01
  {
    var f := Frame(Zeros(PACKET_SIZE), true);
    FrameShape(Zeros(PACKET_SIZE), true);
    forall m | 0 < m < ENCODED_SIZE - 2
      ensures f[m] == 0x01
    {
      ZeroFrameByte(PACKET_SIZE, m);
    }
    ZeroFramePartialByte(PACKET_SIZE, ENCODED_SIZE - 2, 5, 0x07);
  }
}
