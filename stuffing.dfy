/** The bit loops the encoders and decoders share: writing data bits into a
    zeroed frame buffer at a moving bit cursor, reading the payload bits of
    stuffed bytes back out, and scanning for a marker byte. */
module Stuffing {
  import opened Bytes
  import opened SM7Bit

  /** Bytes 0 .. upto-1 of the buffer hold exactly the bits of `bits` before cursor w. */
  ghost predicate Written(a: seq<byte>, bits: seq<bool>, w: nat, upto: nat)
  {
    upto <= |a| && 8 * upto <= |bits| &&
    forall m :: 0 <= m < upto ==> a[m] == Prefix(bits, m, w)
  }

  /** One step of the cursor: the bit at w is ORed in when it is set, and skipped otherwise. */
  lemma Step(before: seq<byte>, after: seq<byte>, bits: seq<bool>, w: nat, upto: nat, one: bool)
    requires Written(before, bits, w, upto) && w < |bits| && one == bits[w]
    requires one ==> w / 8 < upto
    requires after == if one then before[w / 8 := before[w / 8] | Mask(w % 8)] else before
    ensures Written(after, bits, w + 1, upto)
  {
    if one {
      WriteSetBit(before, bits, w, upto);
    } else {
      SkipBit(before, bits, w, upto);
    }
  }

  /** Writing a set bit at the cursor: OR its mask into byte w / 8. */
  lemma WriteSetBit(a: seq<byte>, bits: seq<bool>, w: nat, upto: nat)
    requires Written(a, bits, w, upto) && w / 8 < upto && bits[w]
    ensures Written(a[w / 8 := a[w / 8] | Mask(w % 8)], bits, w + 1, upto)
  {
    var b := a[w / 8 := a[w / 8] | Mask(w % 8)];
    forall m | 0 <= m < upto
      ensures b[m] == Prefix(bits, m, w + 1)
    {
      PrefixStep(bits, m, w);
    }
  }

  /** Passing a clear bit, or a bit beyond the tracked bytes, leaves the buffer as it is. */
  lemma SkipBit(a: seq<byte>, bits: seq<bool>, w: nat, upto: nat)
    requires Written(a, bits, w, upto) && w < |bits| && (w / 8 >= upto || !bits[w])
    ensures Written(a, bits, w + 1, upto)
  {
    forall m | 0 <= m < upto
      ensures a[m] == Prefix(bits, m, w + 1)
    {
      PrefixStep(bits, m, w);
    }
  }

  /** Once the cursor has passed byte m, byte m is its chunk. */
  lemma WrittenFull(a: seq<byte>, bits: seq<bool>, w: nat, upto: nat)
    requires Written(a, bits, w, upto) && 8 * upto <= w
    ensures forall m :: 0 <= m < upto ==> a[m] == Chunk(bits, m)
  {
    forall m | 0 <= m < upto
      ensures a[m] == Chunk(bits, m)
    {
      PrefixFull(bits, m, w);
    }
  }

  /** The sources' test `b & (1 << j) != 0`, which reads MSB-first position 7 - j. */
  function TestBit(b: byte, j: nat): (r: bool)
    requires j < 8
    ensures r == BitAt(b, 7 - j)
  {
    BitTest(b, j);
    b & Bit(j) != 0
  }

  /** The cursor step of the bit loops: OR the mask of cursor w into byte w / 8
      when the bit is set. Bytes from `upto` on are left as they were. */
  method PutBit(out: array<byte>, w: nat, one: bool, ghost bits: seq<bool>, ghost upto: nat)
    requires upto <= out.Length && Written(out[..], bits, w, upto)
    requires w < |bits| && one == bits[w] && (one ==> w / 8 < upto)
    modifies out
    ensures Written(out[..], bits, w + 1, upto)
    ensures forall m :: upto <= m < out.Length ==> out[m] == old(out[m])
  {
    ghost var before := out[..];
    if one {
      out[w / 8] := out[w / 8] | Bit(7 - w % 8);
    }
    Step(before, out[..], bits, w, upto, one);
  }

  /** The data loop of both encoders (src/sm7bit/encode.cpp, src/utils/encode.c,
      src/hardware/sm7bits.rs): for each input byte, its bits from the most
      significant down, each preceded by a stuffing 1 whenever the cursor sits on
      a least significant bit. The buffer ends holding the frame bits before the
      cursor After(8n); the last byte is untouched. The padding choice does not
      influence these writes: it only names which frame the buffer is a prefix of. */
  method WriteData(out: array<byte>, data: seq<byte>, ghost padOne: bool) returns (w: nat)
    requires out.Length == FrameLen(|data|)
    requires forall m :: 0 <= m < out.Length ==> out[m] == 0
    modifies out
    ensures w == After(8 * |data|)
    ensures Written(out[..], FrameBits(data, padOne), w, out.Length - 1)
    ensures out[out.Length - 1] == 0
  {
    ghost var bits := FrameBits(data, padOne);
    ghost var last := out.Length - 1;
    forall m | 0 <= m < last
      ensures out[m] == Prefix(bits, m, 8)
    {
      PrefixInitial(data, padOne, m);
    }
    w := 8;
    var i := 0;
    while i < |data|
      invariant 0 <= i <= |data|
      invariant w == After(8 * i)
      invariant Written(out[..], bits, w, last)
      invariant out[last] == 0
    {
      ghost var cur := PlacedFrame(data, padOne, i);
      w := WriteByte(out, data[i], w, bits, cur);
      i := i + 1;
    }
  }

  /** Where the encoder puts the eight bits of input byte b, read off a bit
      stream: cur[q] is the cursor before bit q (MSB-first) of b. When it sits
      on a least significant bit, that slot is a stuffing 1 and the bit goes to
      the next slot; otherwise the bit goes to cur[q] itself. Either way the
      cursor after it is cur[q + 1], inside the stuffed bytes. */
  ghost predicate Placed(bits: seq<bool>, b: byte, last: nat, cur: seq<int>)
  {
    |cur| == 9 && forall q :: 0 <= q < 8 ==> PlacedBit(bits, BitAt(b, q), last, cur[q], cur[q + 1])
  }

  /** One bit of `Placed`: the cursor goes from c to c', and the data bit sits at c' - 1. */
  ghost predicate PlacedBit(bits: seq<bool>, one: bool, last: nat, c: int, c': int)
  {
    0 <= c &&
    (c % 8 == 7 ==> c' == c + 2 && c < |bits| && bits[c]) &&
    (c % 8 != 7 ==> c' == c + 1) &&
    0 < c' <= |bits| && (c' - 1) / 8 < last && bits[c' - 1] == one
  }

  /** The slots PlacedBit names: the stuffing slot, when there is one, then the data slot. */
  lemma PlacedBitSlots(bits: seq<bool>, one: bool, last: nat, c: int, c': int)
    requires PlacedBit(bits, one, last, c, c')
    ensures c % 8 == 7 ==> c < |bits| && bits[c] && c / 8 < last
    ensures c' - 1 == (if c % 8 == 7 then c + 1 else c)
    ensures c' - 1 < |bits| && (c' - 1) / 8 < last && bits[c' - 1] == one
  {
  }

  /** The frame bits place input byte i between After(8i) and After(8i + 8). */
  lemma PlacedFrame(data: seq<byte>, padOne: bool, i: nat) returns (cur: seq<int>)
    requires i < |data|
    ensures Placed(FrameBits(data, padOne), data[i], FrameLen(|data|) - 1, cur)
    ensures cur[0] == After(8 * i) && cur[8] == After(8 * i + 8)
  {
    cur := seq(9, q requires 0 <= q < 9 => After(8 * i + q));
    forall q | 0 <= q < 8
      ensures PlacedBit(FrameBits(data, padOne), BitAt(data[i], q), FrameLen(|data|) - 1, cur[q], cur[q + 1])
    {
      assert cur[q] == After(8 * i + q) && cur[q + 1] == After(8 * i + q + 1);
      PlacedFrameBit(data, padOne, i, q, cur[q], cur[q + 1]);
    }
  }

  lemma PlacedFrameBit(data: seq<byte>, padOne: bool, i: nat, q: nat, c: nat, c': nat)
    requires i < |data| && q < 8
    requires c == After(8 * i + q) && c' == After(8 * i + q + 1)
    ensures PlacedBit(FrameBits(data, padOne), BitAt(data[i], q), FrameLen(|data|) - 1, c, c')
  {
    var k := 8 * i + q;
    DataBitOf(data, i, q);
    PlacedData(data, padOne, k, BitAt(data[i], q), c, c');
  }

  /** Data bit 8i + q is bit q of input byte i. */
  lemma DataBitOf(data: seq<byte>, i: nat, q: nat)
    requires i < |data| && q < 8
    ensures 8 * i + q < 8 * |data| && DataBits(data)[8 * i + q] == BitAt(data[i], q)
  {
    DivMod8(i, q);
  }

  /** Data bit k takes the cursor from After(k) to After(k + 1), past a
      stuffing slot when After(k) is a least significant bit. */
  lemma PlacedData(data: seq<byte>, padOne: bool, k: nat, one: bool, c: nat, c': nat)
    requires k < 8 * |data| && one == DataBits(data)[k]
    requires c == After(k) && c' == After(k + 1)
    ensures PlacedBit(FrameBits(data, padOne), one, FrameLen(|data|) - 1, c, c')
  {
    var bits := FrameBits(data, padOne);
    var x := Cursor(k);
    CursorPlacement(data, padOne, k);
    AfterStep(k);
    assert x < |bits| && bits[x] == DataBits(data)[k];
    if After(k) % 8 == 7 {
      StuffingSlot(data, padOne, After(k), x);
    }
    PlacedBitOf(bits, one, FrameLen(|data|) - 1, c, x, c');
  }

  /** PlacedBit from the slot x the data bit lands in. */
  lemma PlacedBitOf(bits: seq<bool>, one: bool, last: nat, c: int, x: int, c': int)
    requires 0 <= c && c' == x + 1 && 0 <= x < |bits| && x / 8 < last && bits[x] == one
    requires c % 8 == 7 ==> x == c + 1 && c < |bits| && bits[c]
    requires c % 8 != 7 ==> x == c
    ensures PlacedBit(bits, one, last, c, c')
  {
  }

  /** A least significant bit slot of a stuffed byte holds the stuffing 1. */
  lemma StuffingSlot(data: seq<byte>, padOne: bool, w: nat, c: nat)
    requires w % 8 == 7 && w >= 8 && c == w + 1 && c / 8 < FrameLen(|data|) - 1
    ensures w < |FrameBits(data, padOne)| && FrameBits(data, padOne)[w]
  {
    assert w / 8 < FrameLen(|data|) - 1;
  }

  /** The inner loop of the encoders' data loop: the eight bits of input byte b. */
  method WriteByte(out: array<byte>, b: byte, w0: nat, ghost bits: seq<bool>, ghost cur: seq<int>)
    returns (w: nat)
    requires out.Length > 0 && |bits| == 8 * out.Length
    requires Placed(bits, b, out.Length - 1, cur) && w0 == cur[0]
    requires Written(out[..], bits, w0, out.Length - 1)
    requires out[out.Length - 1] == 0
    modifies out
    ensures w == cur[8]
    ensures Written(out[..], bits, w, out.Length - 1)
    ensures out[out.Length - 1] == 0
  {
    ghost var last := out.Length - 1;
    w := w0;
    var j := 7;
    while j >= 0
      invariant -1 <= j <= 7
      invariant w == cur[7 - j]
      invariant Written(out[..], bits, w, last)
      invariant out[last] == 0
    {
      ghost var q := 7 - j;
      assert PlacedBit(bits, BitAt(b, q), last, cur[q], cur[q + 1]);
      PlacedBitSlots(bits, BitAt(b, q), last, cur[q], cur[q + 1]);
      w := WriteBit(out, b, j, w, bits, cur[q + 1]);
      j := j - 1;
    }
  }

  /** One pass of the inner loop: a stuffing 1 when the cursor sits on a least
      significant bit, then bit j of b (tested as `b & (1 << j)`). */
  method WriteBit(out: array<byte>, b: byte, j: nat, w0: nat, ghost bits: seq<bool>, ghost c': int)
    returns (w: nat)
    requires j < 8 && out.Length > 0
    requires w0 % 8 == 7 ==> w0 < |bits| && bits[w0] && w0 / 8 < out.Length - 1
    requires c' - 1 == (if w0 % 8 == 7 then w0 + 1 else w0)
    requires c' - 1 < |bits| && (c' - 1) / 8 < out.Length - 1 && bits[c' - 1] == BitAt(b, 7 - j)
    requires Written(out[..], bits, w0, out.Length - 1)
    requires out[out.Length - 1] == 0
    modifies out
    ensures w == c'
    ensures Written(out[..], bits, w, out.Length - 1)
    ensures out[out.Length - 1] == 0
  {
    w := PutStuffing(out, w0, bits, out.Length - 1);
    var one := TestBit(b, j);
    w := PutDataBit(out, one, w, bits, out.Length - 1);
  }

  /** A data bit at the cursor, before the END byte. */
  method PutDataBit(out: array<byte>, one: bool, w0: nat, ghost bits: seq<bool>, ghost last: nat)
    returns (w: nat)
    requires last < out.Length && Written(out[..], bits, w0, last) && out[last] == 0
    requires w0 < |bits| && (one ==> w0 / 8 < last) && bits[w0] == one
    modifies out
    ensures w == w0 + 1
    ensures Written(out[..], bits, w, last) && out[last] == 0
  {
    PutBit(out, w0, one, bits, last);
    w := w0 + 1;
  }

  /** The stuffing 1 the encoders write when the cursor sits on a least
      significant bit; any other cursor is left where it is. */
  method PutStuffing(out: array<byte>, w0: nat, ghost bits: seq<bool>, ghost last: nat)
    returns (w: nat)
    requires last < out.Length && Written(out[..], bits, w0, last) && out[last] == 0
    requires w0 % 8 == 7 ==> w0 < |bits| && bits[w0] && w0 / 8 < last
    modifies out
    ensures w == if w0 % 8 == 7 then w0 + 1 else w0
    ensures Written(out[..], bits, w, last) && out[last] == 0
  {
    w := w0;
    if w % 8 == 7 {
      PutBit(out, w, true, bits, last);
      w := w + 1;
    }
  }

  /** The padding slots the C and C++ encoders fill: with padding 1, every slot
      from the end of the data to the END byte is set, stuffing slots included. */
  lemma OnePadding(data: seq<byte>, v: nat)
    requires After(8 * |data|) <= v < 8 * (FrameLen(|data|) - 1)
    ensures v < |FrameBits(data, true)| && FrameBits(data, true)[v]
  {
    AfterStep(0);
    if v % 8 != 7 {
      PaddingSlot(data, true, v);
    }
  }

  /** The padding slots the Rust encoder walks: with padding 0, a slot after the
      data is set exactly when it is a stuffing slot, up to the first slot of the
      END byte. */
  lemma ZeroPadding(data: seq<byte>, v: nat)
    requires After(8 * |data|) <= v <= 8 * (FrameLen(|data|) - 1)
    ensures v < |FrameBits(data, false)| && FrameBits(data, false)[v] == (v % 8 == 7)
  {
    AfterStep(0);
    if v % 8 != 7 {
      PaddingSlot(data, false, v);
    } else {
      assert v / 8 >= 1;
    }
  }

  /** The padding loop of the C and C++ encoders (src/sm7bit/encode.cpp, src/utils/encode.c):
      set every remaining slot until the cursor reaches the END byte. */
  method PadWithOnes(out: array<byte>, w0: nat, ghost bits: seq<bool>) returns (w: nat)
    requires out.Length > 0 && |bits| == 8 * out.Length && w0 <= 8 * (out.Length - 1)
    requires forall v :: w0 <= v < 8 * (out.Length - 1) ==> bits[v]
    requires Written(out[..], bits, w0, out.Length - 1)
    modifies out
    ensures w == 8 * (out.Length - 1)
    ensures Written(out[..], bits, w, out.Length - 1)
    ensures out[out.Length - 1] == old(out[out.Length - 1])
  {
    ghost var last := out.Length - 1;
    w := w0;
    while w / 8 != out.Length - 1
      invariant w0 <= w <= 8 * last
      invariant Written(out[..], bits, w, last)
      invariant out[last] == old(out[last])
      decreases 8 * last - w
    {
      PutBit(out, w, true, bits, last);
      w := w + 1;
    }
  }

  /** The padding loop of the Rust encoder (src/hardware/sm7bits.rs): a stuffing 1
      at each least significant bit, a 0 (an OR with 0, which changes nothing)
      everywhere else, until the cursor reaches the END byte. A stuffing step can
      carry the cursor onto the END byte, in which case the 0 lands on its first
      slot and the cursor stops one past it. */
  method PadWithZeros(out: array<byte>, w0: nat, ghost bits: seq<bool>) returns (w: nat)
    requires out.Length > 0 && |bits| == 8 * out.Length && w0 <= 8 * (out.Length - 1)
    requires forall v :: w0 <= v <= 8 * (out.Length - 1) ==> bits[v] == (v % 8 == 7)
    requires Written(out[..], bits, w0, out.Length - 1)
    modifies out
    ensures 8 * (out.Length - 1) <= w <= 8 * (out.Length - 1) + 1
    ensures Written(out[..], bits, w, out.Length - 1)
    ensures out[out.Length - 1] == old(out[out.Length - 1])
  {
    ghost var last := out.Length - 1;
    w := w0;
    while w / 8 != out.Length - 1
      invariant w0 <= w <= 8 * last + 1
      invariant w > 8 * last ==> w / 8 == last
      invariant Written(out[..], bits, w, last)
      invariant out[last] == old(out[last])
      decreases 8 * last + 1 - w
    {
      w := PadZeroStep(out, w, bits);
    }
  }

  /** One turn of the Rust padding loop. */
  method PadZeroStep(out: array<byte>, w0: nat, ghost bits: seq<bool>) returns (w: nat)
    requires out.Length > 0 && |bits| == 8 * out.Length && w0 < 8 * (out.Length - 1)
    requires w0 % 8 == 7 ==> bits[w0] && !bits[w0 + 1]
    requires w0 % 8 != 7 ==> !bits[w0]
    requires Written(out[..], bits, w0, out.Length - 1)
    modifies out
    ensures w == if w0 % 8 == 7 then w0 + 2 else w0 + 1
    ensures Written(out[..], bits, w, out.Length - 1)
    ensures out[out.Length - 1] == old(out[out.Length - 1])
  {
    w := w0;
    if w % 8 == 7 {
      PutBit(out, w, true, bits, out.Length - 1);
      w := w + 1;
    }
    PutBit(out, w, false, bits, out.Length - 1);
    w := w + 1;
  }

  /** The body the C and C++ encoders share once the zeroed buffer is allocated:
      START, the data bits, padding with 1 bits, END. */
  method FillFrame(out: array<byte>, data: seq<byte>)
    requires out.Length == FrameLen(|data|)
    requires forall m :: 0 <= m < out.Length ==> out[m] == 0
    modifies out
    ensures out[..] == Frame(data, true)
  {
    ghost var bits := FrameBits(data, true);
    var len := out.Length;
    out[0] := START;
    var w := WriteData(out, data, true);
    AfterAllData(|data|);
    forall v | w <= v < 8 * (len - 1)
      ensures bits[v]
    {
      OnePadding(data, v);
    }
    w := PadWithOnes(out, w, bits);
    WrittenFull(out[..], bits, w, len - 1);
    out[len - 1] := END;
    StartChunk(data, true);
    FrameOfChunks(data, true, out[..]);
  }

  /** The Rust encoder's body once the zeroed buffer is allocated: START, the data
      bits, padding with 0 bits, END. */
  method FillFrameZeroPadded(out: array<byte>, data: seq<byte>)
    requires out.Length == FrameLen(|data|)
    requires forall m :: 0 <= m < out.Length ==> out[m] == 0
    modifies out
    ensures out[..] == Frame(data, false)
  {
    ghost var bits := FrameBits(data, false);
    var len := out.Length;
    out[0] := START;
    var w := WriteData(out, data, false);
    AfterAllData(|data|);
    forall v | w <= v <= 8 * (len - 1)
      ensures bits[v] == (v % 8 == 7)
    {
      ZeroPadding(data, v);
    }
    w := PadWithZeros(out, w, bits);
    WrittenFull(out[..], bits, w, len - 1);
    out[len - 1] := END;
    StartChunk(data, false);
    FrameOfChunks(data, false, out[..]);
  }

  /** A linear scan for the first index at or after `from` holding v
      (the two marker loops of src/utils/decode.cpp). */
  method Scan(s: seq<byte>, v: byte, from: nat) returns (r: nat)
    requires from <= |s|
    ensures r == FindFrom(s, v, from)
  {
    r := from;
    while r < |s|
      invariant from <= r <= |s|
      invariant forall i :: from <= i < r ==> s[i] != v
    {
      if s[r] == v {
        FindFromFirst(s, v, from, r);
        return;
      }
      r := r + 1;
    }
    NotFound(s, v, from);
  }

  /** The bit loop of both decoders (src/utils/decode.cpp, src/hardware/sm7bits.rs):
      the seven payload bits of each stuffed byte from the most significant down,
      written MSB-first into the output, stopping as soon as the output is full. */
  method ReadData(input: seq<byte>, start: nat, end: nat, out: array<byte>)
    requires start < end <= |input|
    requires out.Length == (end - start - 1) * 7 / 8 > 0
    requires forall m :: 0 <= m < out.Length ==> out[m] == 0
    modifies out
    ensures out[..] == Unpack(input[start + 1 .. end], out.Length)
  {
    ghost var stuffed := input[start + 1 .. end];
    ghost var bits := StreamBits(stuffed);
    var t := out.Length;
    forall m | 0 <= m < t
      ensures out[m] == Prefix(bits, m, 0)
    {
      PrefixEmpty(bits, m, 0);
    }
    assert 8 * t <= 7 * (end - start - 1);
    var w := 0;
    var i := start + 1;
    while i < end
      invariant start + 1 <= i <= end
      invariant w == 7 * (i - start - 1) && w < 8 * t
      invariant Written(out[..], bits, w, t)
    {
      forall q | 0 <= q < 7
        ensures bits[w + q] == BitAt(input[i], q)
      {
        DivMod7(i - start - 1, q);
        assert stuffed[i - start - 1] == input[i];
      }
      w := ReadByte(input[i], out, w, bits);
      if w / 8 >= t {
        break;
      }
      i := i + 1;
    }
    WrittenFull(out[..], bits, w, t);
  }

  /** The inner loop of the decoders: the payload bits of one stuffed byte, from
      bit 7 down to bit 1, until the output is full. */
  method ReadByte(b: byte, out: array<byte>, w0: nat, ghost bits: seq<bool>) returns (w: nat)
    requires w0 < 8 * out.Length && w0 + 7 <= |bits|
    requires Written(out[..], bits, w0, out.Length)
    requires forall q :: 0 <= q < 7 ==> bits[w0 + q] == BitAt(b, q)
    modifies out
    ensures Written(out[..], bits, w, out.Length)
    ensures w0 < w <= 8 * out.Length
    ensures w == w0 + 7 || w == 8 * out.Length
  {
    var t := out.Length;
    w := w0;
    var j := 7;
    while j > 0
      invariant 0 <= j <= 7
      invariant w == w0 + 7 - j && w < 8 * t
      invariant Written(out[..], bits, w, t)
    {
      var one := TestBit(b, j);
      assert bits[w0 + (7 - j)] == BitAt(b, 7 - j);
      PutBit(out, w, one, bits, t);
      w := w + 1;
      if w / 8 >= t {
        break;
      }
      j := j - 1;
    }
  }
}
