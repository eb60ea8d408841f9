/** The SM7Bit framing scheme, as specification functions.

    A frame is a START byte 0x00, then stuffed bytes, then an END byte 0x02.
    Each stuffed byte carries 7 payload bits in its top bits and a constant 1
    in its least significant bit. The frame is seen as a stream of output bit
    slots (cursor w = 8 * byte + MSB-first position); data bit k goes to
    cursor Cursor(k), and the slots after the last data bit are padding. The
    C and C++ encoders fill padding with 1 bits, the Rust encoder with 0 bits:
    `padOne` selects which. */
module SM7Bit {
  import opened Bytes
  import opened Wrappers

  const START: byte := 0x00
  const END: byte := 0x02

  /** Encoded length, computed as the sources do: (8n + 7 - 1) / 7 + 2, i.e. ceil(8n/7) + 2. */
  function FrameLen(n: nat): nat
  {
    (8 * n + 7 - 1) / 7 + 2
  }

  /** The input bits, MSB-first within each byte, bytes in order. */
  function DataBits(data: seq<byte>): (bits: seq<bool>)
    ensures |bits| == 8 * |data|
  {
    seq(8 * |data|, k requires 0 <= k < 8 * |data| => BitAt(data[k / 8], k % 8))
  }

  /** What the encoder leaves at MSB-first position p of frame byte m: nothing
      in the START byte, the stuffing 1 in each least significant bit, then the
      data bits in order, then padding. */
  predicate ByteSlot(data: seq<byte>, padOne: bool, m: nat, p: nat)
    requires p < 8
  {
    if m == 0 then false
    else if p == 7 then true
    else
      var k := 7 * (m - 1) + p;
      if k < 8 * |data| then DataBits(data)[k] else padOne
  }

  /** What the encoder leaves at output cursor w. */
  predicate Slot(data: seq<byte>, padOne: bool, w: nat)
  {
    ByteSlot(data, padOne, w / 8, w % 8)
  }

  /** All output slots of the frame, eight per frame byte. */
  function FrameBits(data: seq<byte>, padOne: bool): (bits: seq<bool>)
    ensures |bits| == 8 * FrameLen(|data|)
  {
    seq(8 * FrameLen(|data|), w requires 0 <= w < 8 * FrameLen(|data|) => Slot(data, padOne, w))
  }

  /** Byte m of a bit stream. */
  function Chunk(bits: seq<bool>, m: nat): byte
    requires 8 * m + 8 <= |bits|
  {
    Pack(bits[8 * m .. 8 * m + 8])
  }

  /** Byte m of a bit stream of which only the slots before cursor w have been written. */
  function Prefix(bits: seq<bool>, m: nat, w: nat): byte
    requires 8 * m + 8 <= |bits|
  {
    Pack(PrefixBits(bits, m, w))
  }

  /** The slots of byte m of a bit stream, cleared from cursor w on. */
  function PrefixBits(bits: seq<bool>, m: nat, w: nat): (bs: seq<bool>)
    requires 8 * m + 8 <= |bits|
    ensures |bs| == 8
  {
    [bits[8 * m] && 8 * m < w, bits[8 * m + 1] && 8 * m + 1 < w,
     bits[8 * m + 2] && 8 * m + 2 < w, bits[8 * m + 3] && 8 * m + 3 < w,
     bits[8 * m + 4] && 8 * m + 4 < w, bits[8 * m + 5] && 8 * m + 5 < w,
     bits[8 * m + 6] && 8 * m + 6 < w, bits[8 * m + 7] && 8 * m + 7 < w]
  }

  /** The frame the encoder produces for `data`. */
  function Frame(data: seq<byte>, padOne: bool): (f: seq<byte>)
    ensures |f| == FrameLen(|data|)
  {
    var len := FrameLen(|data|);
    var bits := FrameBits(data, padOne);
    seq(len, m requires 0 <= m < len => if m == 0 then START else if m == len - 1 then END else Chunk(bits, m))
  }

  /** The cursor at which the encoder writes data bit k. */
  function Cursor(k: nat): nat
  {
    8 + 8 * (k / 7) + k % 7
  }

  /** The cursor after k data bits have been written (the stuffing bit that may follow is not yet written). */
  function After(k: nat): nat
  {
    if k == 0 then 8 else Cursor(k - 1) + 1
  }

  // ---------------------------------------------------------------------
  // Decoding

  /** The payload bits a run of stuffed bytes carries: their top seven bits, in order. */
  function StreamBits(stuffed: seq<byte>): (bits: seq<bool>)
    ensures |bits| == 7 * |stuffed|
  {
    seq(7 * |stuffed|, k requires 0 <= k < 7 * |stuffed| => BitAt(stuffed[k / 7], k % 7))
  }

  /** The first t bytes the payload bits of `stuffed` spell out. */
  function Unpack(stuffed: seq<byte>, t: nat): (r: seq<byte>)
    requires 8 * t <= 7 * |stuffed|
    ensures |r| == t
  {
    var bits := StreamBits(stuffed);
    seq(t, i requires 0 <= i < t => Chunk(bits, i))
  }

  /** The first index at or after `from` holding v, or |s| when there is none. */
  function FindFrom(s: seq<byte>, v: byte, from: nat): (r: nat)
    requires from <= |s|
    ensures from <= r <= |s|
    ensures r < |s| ==> s[r] == v
    ensures forall i :: from <= i < r ==> s[i] != v
    decreases |s| - from
  {
    if from == |s| then |s| else if s[from] == v then from else FindFrom(s, v, from + 1)
  }

  /** The scanning decoder (C/C++): the first START, the first END at or after it,
      and floor(7 * stuffed bytes / 8) bytes from between them. None is the
      source's "returns 0": no frame, or a frame too short to hold one byte. */
  function DecodeFrame(s: seq<byte>): (r: Option<seq<byte>>)
  {
    var start := FindFrom(s, START, 0);
    DecodeBetween(s, start, FindFrom(s, END, start))
  }

  /** The frame delimited by a START at index `start` and an END at index `end`. */
  function DecodeBetween(s: seq<byte>, start: nat, end: nat): (r: Option<seq<byte>>)
  {
    if start >= |s| || end >= |s| || end <= start then None else DecodeBody(s[start + 1 .. end])
  }

  /** The bytes between the markers: floor(7 * |stuffed| / 8) bytes, or None when that is zero. */
  function DecodeBody(stuffed: seq<byte>): (r: Option<seq<byte>>)
    ensures r.Some? ==> |r.value| == |stuffed| * 7 / 8 > 0
  {
    var targetLen := |stuffed| * 7 / 8;
    if targetLen == 0 then None else Some(Unpack(stuffed, targetLen))
  }

  /** The positional decoder (Rust): drop the first and the last byte, whatever they hold. */
  function DecodePositional(s: seq<byte>): (r: seq<byte>)
  {
    if |s| <= 3 then [] else Unpack(s[1 .. |s| - 1], (|s| - 2) * 7 / 8)
  }


  // ---------------------------------------------------------------------
  // Properties of the bit streams

  lemma DivMod8(q: nat, r: nat)
    requires r < 8
    ensures (8 * q + r) / 8 == q && (8 * q + r) % 8 == r
  {
  }

  lemma DivMod7(q: nat, r: nat)
    requires r < 7
    ensures (7 * q + r) / 7 == q && (7 * q + r) % 7 == r
  {
  }

  /** Where data bit k lands, and that the slot there holds it. */
  lemma CursorPlacement(data: seq<byte>, padOne: bool, k: nat)
    requires k < 8 * |data|
    ensures Cursor(k) / 8 == 1 + k / 7 && Cursor(k) % 8 == k % 7
    ensures 1 + k / 7 <= FrameLen(|data|) - 2
    ensures Slot(data, padOne, Cursor(k)) == DataBits(data)[k]
  {
    DivMod8(1 + k / 7, k % 7);
    assert Cursor(k) == 8 * (1 + k / 7) + k % 7;
    assert 7 * (k / 7) + k % 7 == k;
  }

  /** The encoder's loop: before data bit k the cursor is After(k), and it skips
      one stuffing slot exactly when After(k) is at a least significant bit. */
  lemma AfterStep(k: nat)
    ensures After(k) % 8 == 7 ==> Cursor(k) == After(k) + 1
    ensures After(k) % 8 != 7 ==> Cursor(k) == After(k)
    ensures After(k + 1) == Cursor(k) + 1
    ensures After(k) >= 8
  {
    if k > 0 {
      var j := k - 1;
      DivMod8(1 + j / 7, j % 7);
      if j % 7 == 6 {
        assert k / 7 == j / 7 + 1 && k % 7 == 0;
        DivMod8(1 + j / 7, 7);
      } else {
        assert k / 7 == j / 7 && k % 7 == j % 7 + 1;
        DivMod8(1 + j / 7, j % 7 + 1);
      }
    }
  }

  /** After the data bits, the cursor is still inside the last stuffed byte. */
  lemma AfterAllData(n: nat)
    ensures After(8 * n) <= 8 * (FrameLen(n) - 1)
    ensures n == 0 ==> After(8 * n) == 8 * (FrameLen(n) - 1)
    ensures n > 0 ==> After(8 * n) < 8 * (FrameLen(n) - 1)
  {
    if n > 0 {
      var k := 8 * n - 1;
      DivMod8(1 + k / 7, k % 7);
    }
  }

  /** Every slot after the data is a stuffing slot or a padding slot. */
  lemma PaddingSlot(data: seq<byte>, padOne: bool, w: nat)
    requires After(8 * |data|) <= w && w % 8 != 7
    ensures Slot(data, padOne, w) == padOne
  {
    var n := |data|;
    AfterStep(0);
    var q, r := w / 8, w % 8;
    DivMod8(q, r);
    if n > 0 {
      var j := 8 * n - 1;
      DivMod8(1 + j / 7, j % 7);
      assert 7 * (j / 7) + j % 7 == j;
      assert 7 * (q - 1) + r >= 8 * n;
    }
  }

  lemma PrefixStep(bits: seq<bool>, m: nat, w: nat)
    requires 8 * m + 8 <= |bits| && w < |bits|
    ensures m == w / 8 && bits[w] ==> Prefix(bits, m, w + 1) == Prefix(bits, m, w) | Mask(w % 8)
    ensures !(m == w / 8 && bits[w]) ==> Prefix(bits, m, w + 1) == Prefix(bits, m, w)
  {
    var before := PrefixBits(bits, m, w);
    var after := PrefixBits(bits, m, w + 1);
    if m == w / 8 {
      var p := w % 8;
      DivMod8(m, p);
      if bits[w] {
        assert after == before[p := true];
        PackSet(before, p);
      } else {
        assert after == before;
      }
    } else {
      assert after == before;
    }
  }

  lemma PrefixFull(bits: seq<bool>, m: nat, w: nat)
    requires 8 * m + 8 <= |bits| && 8 * m + 8 <= w
    ensures Prefix(bits, m, w) == Chunk(bits, m)
  {
    assert PrefixBits(bits, m, w) == bits[8 * m .. 8 * m + 8];
  }

  lemma PrefixEmpty(bits: seq<bool>, m: nat, w: nat)
    requires 8 * m + 8 <= |bits| && w <= 8 * m
    ensures Prefix(bits, m, w) == 0
  {
    PackNone(PrefixBits(bits, m, w));
  }

  lemma ChunkBit(bits: seq<bool>, m: nat, p: nat)
    requires 8 * m + 8 <= |bits| && p < 8
    ensures BitAt(Chunk(bits, m), p) == bits[8 * m + p]
  {
    PackBitAt(bits[8 * m .. 8 * m + 8], p);
  }

  // ---------------------------------------------------------------------
  // Properties of the frame

  /** Encoded length: ceil(8n/7) + 2; for n > 0 the frame has at least two stuffed bytes. */
  lemma FrameLenBounds(n: nat)
    ensures 7 * (FrameLen(n) - 2) >= 8 * n
    ensures 7 * (FrameLen(n) - 2) < 8 * n + 7
    ensures n > 0 ==> FrameLen(n) >= 4
    ensures (FrameLen(n) - 2) * 7 / 8 == n
  {
    var d := FrameLen(n) - 2;
    assert d == (8 * n + 6) / 7;
    assert 7 * d <= 8 * n + 6;
    assert 8 * n <= 7 * d;
    assert 8 * n <= d * 7 < 8 * n + 8;
  }

  /** Frame byte m, for a byte between the markers, is the m-th chunk of the frame bits. */
  lemma FrameInterior(data: seq<byte>, padOne: bool, m: nat)
    requires 0 < m < FrameLen(|data|) - 1
    ensures 8 * m + 8 <= |FrameBits(data, padOne)|
    ensures Frame(data, padOne)[m] == Chunk(FrameBits(data, padOne), m)
  {
  }

  /** Bit p of frame byte m is slot 8m + p. */
  lemma FrameSlot(data: seq<byte>, padOne: bool, m: nat, p: nat)
    requires 0 < m < FrameLen(|data|) - 1 && p < 8
    ensures BitAt(Frame(data, padOne)[m], p) == ByteSlot(data, padOne, m, p)
  {
    var bits := FrameBits(data, padOne);
    FrameInterior(data, padOne, m);
    ChunkBit(bits, m, p);
    var w := 8 * m + p;
    assert w < |bits|;
    assert bits[w] == Slot(data, padOne, w);
    DivMod8(m, p);
  }

  /** Every stuffed byte has its least significant bit set. */
  lemma StuffedLsb(data: seq<byte>, padOne: bool, m: nat)
    requires 0 < m < FrameLen(|data|) - 1
    ensures Frame(data, padOne)[m] & 1 == 1
  {
    FrameSlot(data, padOne, m, 7);
    DivMod8(m, 7);
    LsbIsPosition7(Frame(data, padOne)[m]);
  }

  /** START first, END last, and every stuffed byte has its least significant
      bit set, so no stuffed byte equals START or END. */
  lemma FrameShape(data: seq<byte>, padOne: bool)
    ensures var f := Frame(data, padOne);
      && f[0] == START && f[|f| - 1] == END
      && (forall m :: 0 < m < |f| - 1 ==> f[m] & 1 == 1)
      && (forall m :: 0 < m < |f| - 1 ==> f[m] != START && f[m] != END)
  {
    var f := Frame(data, padOne);
    forall m | 0 < m < |f| - 1
      ensures f[m] & 1 == 1
    {
      StuffedLsb(data, padOne, m);
    }
  }

  /** Input bit k (MSB-first across bytes) is output byte 1 + k/7, MSB-first position k % 7. */
  lemma FrameDataBit(data: seq<byte>, padOne: bool, k: nat)
    requires k < 8 * |data|
    ensures 1 + k / 7 < |Frame(data, padOne)| - 1
    ensures BitAt(Frame(data, padOne)[1 + k / 7], k % 7) == BitAt(data[k / 8], k % 8)
  {
    CursorPlacement(data, padOne, k);
    FrameSlot(data, padOne, 1 + k / 7, k % 7);
    assert 8 * (1 + k / 7) + k % 7 == Cursor(k);
  }

  /** Every payload slot of a stuffed byte past the last data bit holds the padding value. */
  lemma FramePadding(data: seq<byte>, padOne: bool, m: nat, p: nat)
    requires 0 < m < FrameLen(|data|) - 1 && p < 7
    requires 7 * (m - 1) + p >= 8 * |data|
    ensures BitAt(Frame(data, padOne)[m], p) == padOne
  {
    DivMod8(m, p);
    FrameSlot(data, padOne, m, p);
  }

  /** Before any write past the START byte, every byte of the frame bits is still empty. */
  lemma PrefixInitial(data: seq<byte>, padOne: bool, m: nat)
    requires m < FrameLen(|data|)
    ensures Prefix(FrameBits(data, padOne), m, 8) == 0
  {
    var bits := FrameBits(data, padOne);
    if m == 0 {
      var bs := PrefixBits(bits, 0, 8);
      forall p | 0 <= p < 8
        ensures !bs[p]
      {
        DivMod8(0, p);
        assert bits[p] == Slot(data, padOne, p);
      }
      PackNone(bs);
    } else {
      PrefixEmpty(bits, m, 8);
    }
  }

  /** The first chunk of the frame bits is the START byte. */
  lemma StartChunk(data: seq<byte>, padOne: bool)
    ensures 8 <= |FrameBits(data, padOne)| && Chunk(FrameBits(data, padOne), 0) == START
  {
    PrefixInitial(data, padOne, 0);
    PrefixFull(FrameBits(data, padOne), 0, 8);
  }

  /** A buffer holding START, the chunks of the frame bits, and END is the frame. */
  lemma FrameOfChunks(data: seq<byte>, padOne: bool, a: seq<byte>)
    requires |a| == FrameLen(|data|)
    requires a[0] == START && a[|a| - 1] == END
    requires forall m :: 0 < m < |a| - 1 ==> a[m] == Chunk(FrameBits(data, padOne), m)
    ensures a == Frame(data, padOne)
  {
    var f := Frame(data, padOne);
    forall m | 0 <= m < |a|
      ensures a[m] == f[m]
    {
      if 0 < m < |a| - 1 {
        FrameInterior(data, padOne, m);
      }
    }
  }

  /** The stuffed bytes' payload stream starts with the data bits. */
  lemma StreamOfFrame(data: seq<byte>, padOne: bool, k: nat)
    requires k < 8 * |data|
    ensures var f := Frame(data, padOne);
      7 * (|f| - 2) >= 8 * |data| &&
      StreamBits(f[1 .. |f| - 1])[k] == DataBits(data)[k]
  {
    var f := Frame(data, padOne);
    FrameLenBounds(|data|);
    var stuffed := f[1 .. |f| - 1];
    FrameDataBit(data, padOne, k);
    assert stuffed[k / 7] == f[1 + k / 7];
  }

  /** Unpacking the stuffed bytes of a frame gives back the data, whichever the padding. */
  lemma UnpackFrame(data: seq<byte>, padOne: bool)
    ensures 8 * |data| <= 7 * (FrameLen(|data|) - 2)
    ensures Unpack(Frame(data, padOne)[1 .. FrameLen(|data|) - 1], |data|) == data
  {
    FrameLenBounds(|data|);
    var stuffed := Frame(data, padOne)[1 .. FrameLen(|data|) - 1];
    StreamOfFrameAll(data, padOne, stuffed);
    UnpackOfStream(stuffed, data);
  }

  lemma StreamOfFrameAll(data: seq<byte>, padOne: bool, stuffed: seq<byte>)
    requires stuffed == Frame(data, padOne)[1 .. FrameLen(|data|) - 1]
    ensures |stuffed| == FrameLen(|data|) - 2
    ensures forall k :: 0 <= k < 8 * |data| ==> StreamBits(stuffed)[k] == DataBits(data)[k]
  {
    forall k | 0 <= k < 8 * |data|
      ensures StreamBits(stuffed)[k] == DataBits(data)[k]
    {
      StreamOfFrame(data, padOne, k);
    }
  }

  /** Stuffed bytes whose payload stream starts with the bits of `data` unpack to `data`. */
  lemma UnpackOfStream(stuffed: seq<byte>, data: seq<byte>)
    requires 8 * |data| <= 7 * |stuffed|
    requires forall k :: 0 <= k < 8 * |data| ==> StreamBits(stuffed)[k] == DataBits(data)[k]
    ensures Unpack(stuffed, |data|) == data
  {
    var bits := StreamBits(stuffed);
    forall i | 0 <= i < |data|
      ensures Chunk(bits, i) == data[i]
    {
      ChunkOfDataBits(bits, data, i);
    }
  }

  /** A bit stream that starts with the bits of `data` holds data[i] as its chunk i. */
  lemma ChunkOfDataBits(bits: seq<bool>, data: seq<byte>, i: nat)
    requires i < |data| && 8 * |data| <= |bits|
    requires forall k :: 0 <= k < 8 * |data| ==> bits[k] == DataBits(data)[k]
    ensures Chunk(bits, i) == data[i]
  {
    forall p | 0 <= p < 8
      ensures bits[8 * i + p] == Bits(data[i])[p]
    {
      DivMod8(i, p);
      assert DataBits(data)[8 * i + p] == BitAt(data[i], p);
    }
    ChunkOf(bits, i, Bits(data[i]));
    PackBits(data[i]);
  }

  /** A chunk whose eight bits are those of bs packs them. */
  lemma ChunkOf(bits: seq<bool>, m: nat, bs: seq<bool>)
    requires 8 * m + 8 <= |bits| && |bs| == 8
    requires forall p :: 0 <= p < 8 ==> bits[8 * m + p] == bs[p]
    ensures Chunk(bits, m) == Pack(bs)
  {
    assert bits[8 * m .. 8 * m + 8] == bs;
  }

  /** Round trip of the scanning decoder: every non-empty input comes back,
      and the empty input's frame {START, END} is a decode failure. */
  lemma DecodeFrameOfFrame(data: seq<byte>, padOne: bool)
    ensures |data| > 0 ==> DecodeFrame(Frame(data, padOne)) == Some(data)
    ensures |data| == 0 ==> DecodeFrame(Frame(data, padOne)) == None
  {
    var f := Frame(data, padOne);
    var last := |f| - 1;
    FrameLenBounds(|data|);
    assert f[0] == START && f[last] == END;
    assert FindFrom(f, START, 0) == 0;
    assert FindFrom(f, END, 0) == last by {
      forall m | 0 <= m < last
        ensures f[m] != END
      {
        if m > 0 {
          StuffedLsb(data, padOne, m);
        }
      }
      FindFromFirst(f, END, 0, last);
    }
    var stuffed := f[1 .. last];
    assert DecodeFrame(f) == DecodeBody(stuffed);
    assert |stuffed| * 7 / 8 == |data|;
    UnpackFrame(data, padOne);
    if |data| > 0 {
      assert DecodeBody(stuffed) == Some(Unpack(stuffed, |data|));
      assert Unpack(stuffed, |data|) == data;
      assert DecodeFrame(f) == Some(data);
    }
  }

  /** Round trip of the positional decoder, for every input including the empty one. */
  lemma DecodePositionalOfFrame(data: seq<byte>, padOne: bool)
    ensures DecodePositional(Frame(data, padOne)) == data
  {
    var f := Frame(data, padOne);
    FrameLenBounds(|data|);
    if |data| > 0 {
      var stuffed := f[1 .. |f| - 1];
      assert (|f| - 2) * 7 / 8 == |data|;
      assert DecodePositional(f) == Unpack(stuffed, |data|);
      UnpackFrame(data, padOne);
    }
  }

  /** The positional decoder never looks at the values of the first and the last byte. */
  lemma DecodePositionalIgnoresMarkers(s: seq<byte>, first: byte, last: byte)
    requires |s| >= 2
    ensures DecodePositional(s[0 := first][|s| - 1 := last]) == DecodePositional(s)
  {
    var t := s[0 := first][|s| - 1 := last];
    assert t[1 .. |t| - 1] == s[1 .. |s| - 1];
  }

  lemma FindFromFirst(s: seq<byte>, v: byte, from: nat, r: nat)
    requires from <= r < |s| && s[r] == v
    requires forall i :: from <= i < r ==> s[i] != v
    ensures FindFrom(s, v, from) == r
    decreases r - from
  {
    if from < r {
      FindFromFirst(s, v, from + 1, r);
    }
  }

  /** The decoders never read the stuffing bits: bytes that differ only in their
      least significant bits unpack alike. */
  lemma UnpackIgnoresStuffingBits(a: seq<byte>, b: seq<byte>, t: nat)
    requires |a| == |b| && 8 * t <= 7 * |a|
    requires forall i :: 0 <= i < |a| ==> a[i] | 1 == b[i] | 1
    ensures Unpack(a, t) == Unpack(b, t)
  {
    forall k | 0 <= k < 7 * |a|
      ensures StreamBits(a)[k] == StreamBits(b)[k]
    {
      var i := k / 7;
      assert a[i] | 1 == b[i] | 1;
    }
    assert StreamBits(a) == StreamBits(b);
  }

  /** Bytes after the END marker do not change what the scanning decoder returns. */
  lemma DecodeFrameIgnoresTail(s: seq<byte>, tail: seq<byte>)
    requires FindFrom(s, END, FindFrom(s, START, 0)) < |s|
    ensures DecodeFrame(s + tail) == DecodeFrame(s)
  {
    var st := FindFrom(s, START, 0);
    var en := FindFrom(s, END, st);
    var t := s + tail;
    assert FindFrom(t, START, 0) == st by {
      PrefixSearch(s, tail, START, 0);
    }
    assert FindFrom(t, END, st) == en by {
      PrefixSearch(s, tail, END, st);
    }
    BetweenPrefix(s, tail, st, en);
  }

  /** Bytes after a frame do not change it. */
  lemma BetweenPrefix(s: seq<byte>, post: seq<byte>, start: nat, end: nat)
    requires start <= end < |s|
    ensures DecodeBetween(s + post, start, end) == DecodeBetween(s, start, end)
  {
    var t := s + post;
    if start < end {
      assert t[start + 1 .. end] == s[start + 1 .. end];
    }
  }

  /** Bytes before a frame shift it. */
  lemma BetweenShift(pre: seq<byte>, s: seq<byte>, start: nat, end: nat)
    requires start <= end < |s|
    ensures DecodeBetween(pre + s, |pre| + start, |pre| + end) == DecodeBetween(s, start, end)
  {
    var t := pre + s;
    if start < end {
      assert t[|pre| + start + 1 .. |pre| + end] == s[start + 1 .. end];
    }
  }

  /** A search that succeeds inside s is not affected by what follows s. */
  lemma {:induction false} PrefixSearch(s: seq<byte>, tail: seq<byte>, v: byte, from: nat)
    requires from <= |s| && FindFrom(s, v, from) < |s|
    ensures FindFrom(s + tail, v, from) == FindFrom(s, v, from)
    decreases |s| - from
  {
    var t := s + tail;
    assert t[from] == s[from];
    if s[from] != v {
      PrefixSearch(s, tail, v, from + 1);
    }
  }

  /** Bytes before the START marker that are not START themselves are skipped. */
  lemma DecodeFrameIgnoresLeadingJunk(junk: seq<byte>, s: seq<byte>)
    requires forall i :: 0 <= i < |junk| ==> junk[i] != START
    ensures DecodeFrame(junk + s) == DecodeFrame(s)
  {
    var t := junk + s;
    var st := FindFrom(s, START, 0);
    var en := FindFrom(s, END, st);
    FindFromSkip(t, START, 0, |junk|);
    FindFromShift(junk, s, START, 0);
    FindFromShift(junk, s, END, st);
    assert FindFrom(t, START, 0) == |junk| + st;
    assert FindFrom(t, END, |junk| + st) == |junk| + en;
    if en < |s| {
      BetweenShift(junk, s, st, en);
    }
  }

  /** Searching junk + s from inside s is searching s. */
  lemma {:induction false} FindFromShift(junk: seq<byte>, s: seq<byte>, v: byte, from: nat)
    requires from <= |s|
    ensures FindFrom(junk + s, v, |junk| + from) == |junk| + FindFrom(s, v, from)
    decreases |s| - from
  {
    var t := junk + s;
    if from < |s| {
      assert t[|junk| + from] == s[from];
      if s[from] != v {
        FindFromShift(junk, s, v, from + 1);
      }
    }
  }

  /** A run without v is skipped by the search. */
  lemma {:induction false} FindFromSkip(s: seq<byte>, v: byte, from: nat, to: nat)
    requires from <= to <= |s|
    requires forall i :: from <= i < to ==> s[i] != v
    ensures FindFrom(s, v, from) == FindFrom(s, v, to)
    decreases |s| - from
  {
    if from < to {
      FindFromSkip(s, v, from + 1, to);
    }
  }

  lemma NotFound(s: seq<byte>, v: byte, from: nat)
    requires from <= |s| && forall i :: from <= i < |s| ==> s[i] != v
    ensures FindFrom(s, v, from) == |s|
    decreases |s| - from
  {
    if from < |s| {
      NotFound(s, v, from + 1);
    }
  }

  /** A buffer without START holds no frame. */
  lemma NoStartNoFrame(s: seq<byte>)
    requires forall i :: 0 <= i < |s| ==> s[i] != START
    ensures DecodeFrame(s) == None
  {
    NotFound(s, START, 0);
  }

  /** A START with no END after it is no frame. */
  lemma NoEndNoFrame(s: seq<byte>)
    requires forall i :: FindFrom(s, START, 0) <= i < |s| ==> s[i] != END
    ensures DecodeFrame(s) == None
  {
    NotFound(s, END, FindFrom(s, START, 0));
  }

  // ---------------------------------------------------------------------
  // The sources' test vectors

  const CAFEBABE: seq<byte> := [0xCA, 0xFE, 0xBA, 0xBE]

  /** tests/sm7bit/encode.cpp and tests/utils/encode.c: all-ones padding gives 0xEF. */
  lemma CppEncodeVector()
    ensures Frame(CAFEBABE, true) == [0x00, 0xCB, 0x7F, 0xAF, 0x57, 0xEF, 0x02]
    ensures Frame([], true) == [0x00, 0x02]
  {
    VectorBytes(true);
  }

  /** src/hardware/sm7bits.rs: zero padding gives 0xE1. */
  lemma RustEncodeVector()
    ensures Frame(CAFEBABE, false) == [0x00, 0xCB, 0x7F, 0xAF, 0x57, 0xE1, 0x02]
    ensures Frame([], false) == [0x00, 0x02]
  {
    VectorBytes(false);
  }

  const CAFEBABE_BITS: seq<bool> :=
    [true, true, false, false, true, false, true, false,  true, true, true, true, true, true, true, false,
     true, false, true, true, true, false, true, false,  true, false, true, true, true, true, true, false]

  lemma DataBitsVector()
    ensures DataBits(CAFEBABE) == CAFEBABE_BITS
  {
    var d := DataBits(CAFEBABE);
    forall k | 0 <= k < 32
      ensures d[k] == CAFEBABE_BITS[k]
    {
      ByteBitsVector(k / 8, k % 8);
    }
  }

  lemma ByteBitsVector(i: nat, p: nat)
    requires i < 4 && p < 8
    ensures BitAt(CAFEBABE[i], p) == CAFEBABE_BITS[8 * i + p]
  {
    if i == 0 {
      assert CAFEBABE[i] == 0xCA;
    } else if i == 1 {
      assert CAFEBABE[i] == 0xFE;
    } else if i == 2 {
      assert CAFEBABE[i] == 0xBA;
    } else {
      assert CAFEBABE[i] == 0xBE;
    }
  }

  lemma VectorBytes(padOne: bool)
    ensures Frame(CAFEBABE, padOne) == [0x00, 0xCB, 0x7F, 0xAF, 0x57, if padOne then 0xEF else 0xE1, 0x02]
  {
    var f := Frame(CAFEBABE, padOne);
    assert |f| == 7;
    assert f == [f[0], f[1], f[2], f[3], f[4], f[5], f[6]];
    assert f[0] == START && f[6] == END;
    VectorByte1(padOne);
    VectorByte2(padOne);
    VectorByte3(padOne);
    VectorByte4(padOne);
    VectorByte5(padOne);
  }

  lemma VectorByte1(padOne: bool)
    ensures Frame(CAFEBABE, padOne)[1] == 0xCB
  {
    DataBitsVector();
    StuffedByteOfSlots(CAFEBABE, padOne, 1, 0xCB);
  }

  lemma VectorByte2(padOne: bool)
    ensures Frame(CAFEBABE, padOne)[2] == 0x7F
  {
    DataBitsVector();
    StuffedByteOfSlots(CAFEBABE, padOne, 2, 0x7F);
  }

  lemma VectorByte3(padOne: bool)
    ensures Frame(CAFEBABE, padOne)[3] == 0xAF
  {
    DataBitsVector();
    StuffedByteOfSlots(CAFEBABE, padOne, 3, 0xAF);
  }

  lemma VectorByte4(padOne: bool)
    ensures Frame(CAFEBABE, padOne)[4] == 0x57
  {
    DataBitsVector();
    StuffedByteOfSlots(CAFEBABE, padOne, 4, 0x57);
  }

  lemma VectorByte5(padOne: bool)
    ensures Frame(CAFEBABE, padOne)[5] == if padOne then 0xEF else 0xE1
  {
    DataBitsVector();
    StuffedByteOfSlots(CAFEBABE, padOne, 5, if padOne then 0xEF else 0xE1);
  }

  /** A stuffed byte is determined by its eight slots. */
  lemma StuffedByteOfSlots(data: seq<byte>, padOne: bool, m: nat, b: byte)
    requires 0 < m < FrameLen(|data|) - 1
    requires ByteSlot(data, padOne, m, 0) == BitAt(b, 0) && ByteSlot(data, padOne, m, 1) == BitAt(b, 1)
    requires ByteSlot(data, padOne, m, 2) == BitAt(b, 2) && ByteSlot(data, padOne, m, 3) == BitAt(b, 3)
    requires ByteSlot(data, padOne, m, 4) == BitAt(b, 4) && ByteSlot(data, padOne, m, 5) == BitAt(b, 5)
    requires ByteSlot(data, padOne, m, 6) == BitAt(b, 6) && ByteSlot(data, padOne, m, 7) == BitAt(b, 7)
    ensures Frame(data, padOne)[m] == b
  {
    var x := Frame(data, padOne)[m];
    assert BitAt(x, 0) == BitAt(b, 0) by { FrameSlot(data, padOne, m, 0); }
    assert BitAt(x, 1) == BitAt(b, 1) by { FrameSlot(data, padOne, m, 1); }
    assert BitAt(x, 2) == BitAt(b, 2) by { FrameSlot(data, padOne, m, 2); }
    assert BitAt(x, 3) == BitAt(b, 3) by { FrameSlot(data, padOne, m, 3); }
    assert BitAt(x, 4) == BitAt(b, 4) by { FrameSlot(data, padOne, m, 4); }
    assert BitAt(x, 5) == BitAt(b, 5) by { FrameSlot(data, padOne, m, 5); }
    assert BitAt(x, 6) == BitAt(b, 6) by { FrameSlot(data, padOne, m, 6); }
    assert BitAt(x, 7) == BitAt(b, 7) by { FrameSlot(data, padOne, m, 7); }
    ByteExt(x, b);
  }

  // ---------------------------------------------------------------------
  // Frames of all-zero data, as a zeroed packet struct produces

  lemma ZeroDataBit(n: nat, k: nat)
    requires k < 8 * n
    ensures !DataBits(Zeros(n))[k]
  {
  }

  /** A stuffed byte whose seven payload slots all carry (zero) data bits is 0x01. */
  lemma ZeroFrameByte(n: nat, m: nat)
    requires 0 < m < FrameLen(n) - 1 && 7 * m <= 8 * n
    ensures Frame(Zeros(n), true)[m] == 0x01
  {
    var z := Zeros(n);
    forall p | 0 <= p < 7
      ensures !ByteSlot(z, true, m, p)
    {
      ZeroDataBit(n, 7 * (m - 1) + p);
    }
    StuffedByteOfSlots(z, true, m, 0x01);
  }

  /** A stuffed byte whose first d payload slots carry the last (zero) data
      bits holds 1 bits from position d on: the padding and the stuffing bit. */
  lemma ZeroFramePartialByte(n: nat, m: nat, d: nat, b: byte)
    requires 0 < m < FrameLen(n) - 1 && 0 < d < 7 && 7 * (m - 1) + d == 8 * n
    requires forall p :: 0 <= p < 8 ==> BitAt(b, p) == (p >= d)
    ensures Frame(Zeros(n), true)[m] == b
  {
    var z := Zeros(n);
    forall p | 0 <= p < 7
      ensures ByteSlot(z, true, m, p) == (p >= d)
    {
      if p < d {
        ZeroDataBit(n, 7 * (m - 1) + p);
      }
    }
    assert BitAt(b, 0) == (0 >= d) && BitAt(b, 1) == (1 >= d) && BitAt(b, 2) == (2 >= d) && BitAt(b, 3) == (3 >= d);
    assert BitAt(b, 4) == (4 >= d) && BitAt(b, 5) == (5 >= d) && BitAt(b, 6) == (6 >= d) && BitAt(b, 7);
    StuffedByteOfSlots(z, true, m, b);
  }

  /** tests/sm7bit/decode.cpp and the Rust decode test: the 0xE1 frame decodes
      to the same four bytes the 0xEF frame encodes, since the two differ only in padding. */
  lemma DecodeVector()
    ensures DecodeFrame([0x00, 0xCB, 0x7F, 0xAF, 0x57, 0xE1, 0x02]) == Some(CAFEBABE)
    ensures DecodePositional([0x00, 0xCB, 0x7F, 0xAF, 0x57, 0xE1, 0x02]) == CAFEBABE
    ensures DecodeFrame([0x00, 0xCB, 0x7F, 0xAF, 0x57, 0xEF, 0x02]) == Some(CAFEBABE)
    ensures DecodePositional([]) == [] && DecodeFrame([]) == None
  {
    RustEncodeVector();
    CppEncodeVector();
    DecodeFrameOfFrame(CAFEBABE, false);
    DecodeFrameOfFrame(CAFEBABE, true);
    DecodePositionalOfFrame(CAFEBABE, false);
  }
}
