/** The Rust SM7Bit codec (src/hardware/sm7bits.rs). Its `Vec<u8>` result is
    a freshly allocated zeroed buffer mutated in place and handed back; the
    model returns its contents. */
module RustCodec {
  import opened Bytes
  import opened SM7Bit
  import opened Stuffing

  /** encode(data): the frame padded with 0 bits (stuffing bits still set). */
  method Encode(data: seq<byte>) returns (ret: seq<byte>)
    ensures ret == Frame(data, false)
  {
    var targetLen := FrameLen(|data|);
    var buf := new byte[targetLen](_ => 0);
    FillFrameZeroPadded(buf, data);
    ret := buf[..];
  }

  /** decode(data): drop the first and the last byte by position, whatever
      they hold, and unpack (len - 2) * 7 / 8 bytes from the rest. `end` is
      computed with a saturating subtraction, so inputs of length 0 .. 3 give
      an empty result. */
  method Decode(data: seq<byte>) returns (ret: seq<byte>)
    ensures ret == DecodePositional(data)
  {
    var start := 1;
    var end := if |data| >= 2 then |data| - 2 else 0;
    if end <= start {
      return [];
    }
    var len := end - start + 1;
    assert len == |data| - 2 && end + 1 == |data| - 1;
    var buf := new byte[len * 7 / 8](_ => 0);
    ghost var stuffed := data[1 .. |data| - 1];
    ghost var t := (|data| - 2) * 7 / 8;
    assert data[start - 1 + 1 .. end + 1] == stuffed && buf.Length == t;
    assert DecodePositional(data) == Unpack(stuffed, t);
    ReadData(data, start - 1, end + 1, buf);
    ret := buf[..];
  }
}
