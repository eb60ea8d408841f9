/** The C++ SM7Bit codec: `encode` (src/sm7bit/encode.cpp) and the scanning
    `decode` (src/utils/decode.cpp). Both take the output pointer by
    reference: a non-null pointer on entry means "already holds data" and the
    call does nothing. The reference parameter is modelled as an in-parameter
    `out` plus the pointer value on return, `res`. */
module CppCodec {
  import opened Bytes
  import opened SM7Bit
  import opened Stuffing

  /** encode(out, in, in_len): allocate FrameLen(n) zeroed bytes and write the
      frame padded with 1 bits. The source's `target_len <= 0` guard is dead
      code, since FrameLen(n) >= 2 (see NonEmptyFrame). */
  method Encode(out: array?<byte>, input: seq<byte>) returns (len: nat, res: array?<byte>)
    ensures out != null ==> len == 0 && res == out
    ensures out == null ==> res != null && fresh(res) && len == res.Length && res[..] == Frame(input, true)
  {
    if out != null {
      return 0, out;
    }
    var targetLen := FrameLen(|input|);
    res := new byte[targetLen](_ => 0);
    FillFrame(res, input);
    len := targetLen;
  }

  /** The encoded length is never 0, so the source's zero-length guard never fires. */
  lemma NonEmptyFrame(n: nat)
    ensures FrameLen(n) >= 2
    ensures FrameLen(n) == (8 * n + 6) / 7 + 2
  {
  }

  /** decode(out, in, in_len): the first 0x00, the first 0x02 at or after it,
      and (end - start - 1) * 7 / 8 bytes unpacked from between them. Every
      failure returns 0 and leaves the pointer null. */
  method Decode(out: array?<byte>, input: seq<byte>) returns (len: nat, res: array?<byte>)
    ensures out != null ==> len == 0 && res == out
    ensures out == null && DecodeFrame(input).None? ==> len == 0 && res == null
    ensures out == null && DecodeFrame(input).Some? ==>
      res != null && fresh(res) && len == res.Length && res[..] == DecodeFrame(input).value
  {
    if out != null {
      return 0, out;
    }
    var start := Scan(input, START, 0);
    var end := Scan(input, END, start);
    if start >= |input| || end >= |input| || end <= start {
      return 0, null;
    }
    var dataLen := end - start - 1;
    var targetLen := dataLen * 7 / 8;
    if targetLen <= 0 {
      return 0, null;
    }
    res := new byte[targetLen](_ => 0);
    ReadData(input, start, end, res);
    len := targetLen;
  }
}
