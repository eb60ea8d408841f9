/** The C SM7Bit encoder (src/utils/encode.c). It takes a pointer to the
    output pointer: a null handle, or a handle already pointing at a buffer,
    makes the call return 0 without writing anything. */
module CCodec {
  import opened Bytes
  import opened SM7Bit
  import opened Stuffing

  /** The `uint8_t *` the caller passes by address. */
  class Handle {
    var ptr: array?<byte>

    constructor(p: array?<byte>)
      ensures ptr == p
    {
      ptr := p;
    }
  }

  /** encode(&out, in, in_len): the same frame as the C++ encoder, padded with 1 bits. */
  method Encode(out: Handle?, input: seq<byte>) returns (len: nat)
    modifies out
    ensures out == null ==> len == 0
    ensures out != null && old(out.ptr) != null ==> len == 0 && out.ptr == old(out.ptr)
    ensures out != null && old(out.ptr) == null ==>
      out.ptr != null && fresh(out.ptr) && len == out.ptr.Length && out.ptr[..] == Frame(input, true)
  {
    if out == null || out.ptr != null {
      return 0;
    }
    var targetLen := FrameLen(|input|);
    var buf := new byte[targetLen](_ => 0);
    out.ptr := buf;
    FillFrame(buf, input);
    len := targetLen;
  }
}
