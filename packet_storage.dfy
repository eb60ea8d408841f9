/** What the C++ packet classes do with the storage of their struct image:
    the decoding constructors `memmove` the decoded bytes over it, and
    nothing else initialises it. */
module PacketStorage {
  import opened Bytes
  import opened Wrappers
  import opened SM7Bit
  import CppCodec

  /** The decoded bytes, if any, fit in a struct of `size` bytes. The
      constructors copy `decoded_len` bytes without a bound, so a longer
      decode would write past the struct. */
  predicate Fits(decoded: Option<seq<byte>>, size: nat)
  {
    decoded.None? || |decoded.value| <= size
  }

  /** The storage after the decoded bytes are copied over `junk`, its
      previous contents; a failed decode copies nothing. */
  function Received(junk: seq<byte>, decoded: Option<seq<byte>>): (r: seq<byte>)
    requires Fits(decoded, |junk|)
    ensures |r| == |junk|
  {
    match decoded
    case None => junk
    case Some(d) => d + junk[|d| ..]
  }

  /** Exactly `decoded_len` bytes are copied and the rest is left as it was. */
  lemma ReceivedBytes(junk: seq<byte>, decoded: Option<seq<byte>>, i: nat)
    requires Fits(decoded, |junk|) && i < |junk|
    ensures decoded.Some? && i < |decoded.value| ==> Received(junk, decoded)[i] == decoded.value[i]
    ensures decoded.None? || i >= |decoded.value| ==> Received(junk, decoded)[i] == junk[i]
  {
  }

  /** Storage loaded from the encoding of an image of its own size holds
      that image, whatever it held before. */
  lemma ReceivedOwnFrame(junk: seq<byte>, img: seq<byte>)
    requires |img| == |junk| > 0
    ensures Fits(DecodeFrame(Frame(img, true)), |junk|)
    ensures Received(junk, DecodeFrame(Frame(img, true))) == img
  {
    DecodeFrameOfFrame(img, true);
  }

  /** An array holding `junk`: storage whose contents the constructor does not choose. */
  method Storage(junk: seq<byte>) returns (a: array<byte>)
    ensures fresh(a) && a[..] == junk
  {
    a := new byte[|junk|];
    forall i | 0 <= i < |junk| {
      a[i] := junk[i];
    }
  }

  /** decode(decoded, in, in_len), then memmove(data, decoded, decoded_len). */
  method Load(data: array<byte>, input: seq<byte>)
    requires Fits(DecodeFrame(input), data.Length)
    modifies data
    ensures data[..] == Received(old(data[..]), DecodeFrame(input))
  {
    var len, decoded := CppCodec.Decode(null, input);
    if decoded != null {
      forall i | 0 <= i < len {
        data[i] := decoded[i];
      }
    }
  }
}
