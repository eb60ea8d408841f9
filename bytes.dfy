/** Bytes, bit positions inside a byte, and the fixed-width integers the
    wire formats carry. Bit positions are counted MSB-first, as the codec
    does: position p of a byte is the bit with value 1 << (7 - p). */
module Bytes {

  type byte = bv8

  type u8 = x: int | 0 <= x < 0x100
  type u16 = x: int | 0 <= x < 0x1_0000
  type u32 = x: int | 0 <= x < 0x1_0000_0000
  type u64 = x: int | 0 <= x < 0x1_0000_0000_0000_0000
  type u128 = x: int | 0 <= x < 0x1_0000_0000_0000_0000_0000_0000_0000_0000
  type i8 = x: int | -0x80 <= x < 0x80
  type i16 = x: int | -0x8000 <= x < 0x8000
  type i32 = x: int | -0x8000_0000 <= x < 0x8000_0000

  const U16_MAX: int := 0xFFFF
  const U64_MAX: int := 0xFFFF_FFFF_FFFF_FFFF
  const I16_MIN: int := -0x8000
  const I16_MAX: int := 0x7FFF
  const I32_MIN: int := -0x8000_0000
  const I32_MAX: int := 0x7FFF_FFFF

  /** The byte `1 << j`, written out as a table. */
  function Bit(j: nat): byte
    requires j < 8
  {
    if j == 0 then 0x01 else if j == 1 then 0x02 else if j == 2 then 0x04 else if j == 3 then 0x08
    else if j == 4 then 0x10 else if j == 5 then 0x20 else if j == 6 then 0x40 else 0x80
  }

  lemma BitIsShift(j: nat)
    requires j < 8
    ensures Bit(j) == (1 as byte) << j
  {
  }

  /** Testing `b & (1 << j)` is testing MSB-first position 7 - j. */
  lemma BitTest(b: byte, j: nat)
    requires j < 8
    ensures (b & Bit(j) != 0) == BitAt(b, 7 - j)
  {
    assert 7 - (7 - j) == j;
  }

  /** The mask of MSB-first bit position p: `1 << (7 - p)`. */
  function Mask(p: nat): byte
    requires p < 8
  {
    Bit(7 - p)
  }

  /** Whether MSB-first bit position p of b is set. */
  predicate BitAt(b: byte, p: nat)
    requires p < 8
  {
    b & Mask(p) != 0
  }

  /** The byte whose MSB-first bits are bs[0], ..., bs[7]. */
  function Pack(bs: seq<bool>): byte
    requires |bs| == 8
  {
    (if bs[0] then 0x80 else 0) | (if bs[1] then 0x40 else 0) |
    (if bs[2] then 0x20 else 0) | (if bs[3] then 0x10 else 0) |
    (if bs[4] then 0x08 else 0) | (if bs[5] then 0x04 else 0) |
    (if bs[6] then 0x02 else 0) | (if bs[7] then 0x01 else 0)
  }

  /** The MSB-first bits of b. */
  function Bits(b: byte): (bs: seq<bool>)
    ensures |bs| == 8
    ensures forall p :: 0 <= p < 8 ==> bs[p] == BitAt(b, p)
  {
    seq(8, p requires 0 <= p < 8 => BitAt(b, p))
  }

  lemma PackBitAt(bs: seq<bool>, p: nat)
    requires |bs| == 8 && p < 8
    ensures BitAt(Pack(bs), p) == bs[p]
  {
  }

  lemma PackBits(b: byte)
    ensures Pack(Bits(b)) == b
  {
  }

  /** Setting one more bit of a packed byte is an OR with its mask. */
  lemma PackSet(bs: seq<bool>, p: nat)
    requires |bs| == 8 && p < 8
    ensures Pack(bs[p := true]) == Pack(bs) | Mask(p)
  {
    if p == 0 {
    } else if p == 1 {
    } else if p == 2 {
    } else if p == 3 {
    } else if p == 4 {
    } else if p == 5 {
    } else if p == 6 {
    } else {
    }
  }

  lemma PackNone(bs: seq<bool>)
    requires |bs| == 8 && forall p :: 0 <= p < 8 ==> !bs[p]
    ensures Pack(bs) == 0
  {
  }

  /** Bytes with the same bits are equal. */
  lemma ByteExt(a: byte, b: byte)
    requires BitAt(a, 0) == BitAt(b, 0) && BitAt(a, 1) == BitAt(b, 1) && BitAt(a, 2) == BitAt(b, 2) && BitAt(a, 3) == BitAt(b, 3)
    requires BitAt(a, 4) == BitAt(b, 4) && BitAt(a, 5) == BitAt(b, 5) && BitAt(a, 6) == BitAt(b, 6) && BitAt(a, 7) == BitAt(b, 7)
    ensures a == b
  {
  }

  /** The least significant bit is MSB-first position 7. */
  lemma LsbIsPosition7(b: byte)
    ensures BitAt(b, 7) <==> b & 1 == 1
  {
  }

  /** n zero bytes, as memset(0) leaves a buffer. */
  function Zeros(n: nat): (z: seq<byte>)
    ensures |z| == n && forall i :: 0 <= i < n ==> z[i] == 0
  {
    seq(n, _ => 0)
  }

  // ---------------------------------------------------------------------
  // Little-endian encodings and two's complement, as Rust's to_le_bytes /
  // from_le_bytes and `as` casts between signed and unsigned widths do.

  function ByteOf(x: int): byte
  {
    (x % 0x100) as byte
  }

  /** Unsigned little-endian encoding of x in `width` bytes (x taken modulo 256^width). */
  function LeBytes(x: nat, width: nat): (r: seq<byte>)
    ensures |r| == width
  {
    if width == 0 then [] else [ByteOf(x)] + LeBytes(x / 0x100, width - 1)
  }

  /** The unsigned value of little-endian bytes. */
  function LeValue(s: seq<byte>): nat
  {
    if s == [] then 0 else (s[0] as nat) + 0x100 * LeValue(s[1..])
  }

  function Pow256(width: nat): (r: nat)
    ensures r > 0
  {
    if width == 0 then 1 else 0x100 * Pow256(width - 1)
  }

  lemma {:induction false} LeValueBound(s: seq<byte>)
    ensures LeValue(s) < Pow256(|s|)
  {
    if s != [] {
      LeValueBound(s[1..]);
    }
  }

  /** A value below 256 converts to the byte of that value. */
  lemma ByteOfSmall(x: int)
    requires 0 <= x < 0x100
    ensures ByteOf(x) as int == x
  {
    ByteRoundTrip(x);
  }

  lemma ByteOfValue(x: nat)
    ensures ByteOf(x) as nat == x % 0x100
  {
    ByteRoundTrip(x % 0x100);
  }

  lemma ByteRoundTrip(y: int)
    requires 0 <= y < 0x100
    ensures (y as byte) as int == y
  {
    assert y % 0x100 == y;
  }

  lemma DivBound(x: nat, p: nat)
    requires x < 0x100 * p
    ensures x / 0x100 < p
  {
  }

  lemma {:induction false} LeRoundTrip(x: nat, width: nat)
    requires x < Pow256(width)
    ensures LeValue(LeBytes(x, width)) == x
  {
    if width > 0 {
      DivBound(x, Pow256(width - 1));
      LeRoundTrip(x / 0x100, width - 1);
      var s := LeBytes(x, width);
      assert s[1..] == LeBytes(x / 0x100, width - 1);
      ByteOfValue(x);
      assert LeValue(s) == x % 0x100 + 0x100 * (x / 0x100);
    }
  }

  /** The sizes of the widths the wire formats use. */
  lemma Pow256Values()
    ensures Pow256(1) == 0x100 && Pow256(2) == 0x1_0000 && Pow256(4) == 0x1_0000_0000
    ensures Pow256(16) == 0x1_0000_0000_0000_0000_0000_0000_0000_0000
  {
    assert Pow256(1) == 0x100;
    assert Pow256(2) == 0x1_0000;
    assert Pow256(3) == 0x100_0000;
    assert Pow256(4) == 0x1_0000_0000;
    assert Pow256(8) == 0x1_0000_0000_0000_0000 by {
      assert Pow256(5) == 0x100_0000_0000;
      assert Pow256(6) == 0x1_0000_0000_0000;
      assert Pow256(7) == 0x100_0000_0000_0000;
    }
    assert Pow256(12) == 0x1_0000_0000_0000_0000_0000_0000 by {
      assert Pow256(9) == 0x100_0000_0000_0000_0000;
      assert Pow256(10) == 0x1_0000_0000_0000_0000_0000;
      assert Pow256(11) == 0x100_0000_0000_0000_0000_0000;
    }
    assert Pow256(13) == 0x100_0000_0000_0000_0000_0000_0000;
    assert Pow256(14) == 0x1_0000_0000_0000_0000_0000_0000_0000;
    assert Pow256(15) == 0x100_0000_0000_0000_0000_0000_0000_0000;
  }

  /** Encoding the value of some bytes gives back the bytes. */
  lemma {:induction false} LeBytesOfValue(s: seq<byte>)
    ensures LeBytes(LeValue(s), |s|) == s
  {
    if s != [] {
      LeBytesOfValue(s[1..]);
      var v := LeValue(s);
      DivModByte(s[0] as nat, LeValue(s[1..]));
      ByteRoundTrip(s[0] as int);
      assert ByteOf(v) == s[0];
      assert s == [s[0]] + s[1..];
    }
  }

  /** Splitting a value into its low byte and the rest. */
  lemma DivModByte(b: nat, r: nat)
    requires b < 0x100
    ensures (b + 0x100 * r) % 0x100 == b && (b + 0x100 * r) / 0x100 == r
  {
  }

  lemma {:induction false} LeValueZeros(n: nat)
    ensures LeValue(Zeros(n)) == 0
  {
    if n > 0 {
      assert Zeros(n)[1..] == Zeros(n - 1);
      LeValueZeros(n - 1);
    }
  }

  /** The two's complement reading of an unsigned value of `width` bytes (Rust's `as iN`). */
  function Signed(u: nat, width: nat): int
    requires width > 0 && u < Pow256(width)
  {
    if u >= Pow256(width) / 2 then u - Pow256(width) else u
  }

  /** The unsigned bit pattern of a signed value of `width` bytes (Rust's `as uN`, and what to_le_bytes stores). */
  function Unsigned(x: int, width: nat): (u: nat)
    requires width > 0 && -(Pow256(width) / 2) <= x < Pow256(width) / 2
    ensures u < Pow256(width)
  {
    if x < 0 then x + Pow256(width) else x
  }

  lemma SignedUnsigned(x: int, width: nat)
    requires width > 0 && -(Pow256(width) / 2) <= x < Pow256(width) / 2
    ensures Signed(Unsigned(x, width), width) == x
  {
  }

  function U16Le(s: seq<byte>): u16
    requires |s| == 2
  {
    LeValueBound(s);
    LeValue(s)
  }

  function U32Le(s: seq<byte>): u32
    requires |s| == 4
  {
    LeValueBound(s);
    LeValue(s)
  }

  function U128Le(s: seq<byte>): u128
    requires |s| == 16
  {
    LeValueBound(s);
    Pow256Values();
    LeValue(s)
  }

  function I16Le(s: seq<byte>): i16
    requires |s| == 2
  {
    LeValueBound(s);
    Signed(LeValue(s), 2)
  }

  function I32Le(s: seq<byte>): i32
    requires |s| == 4
  {
    LeValueBound(s);
    Signed(LeValue(s), 4)
  }

  function I8Of(b: byte): i8
  {
    Signed(b as nat, 1)
  }

  function ByteOfI8(x: i8): byte
  {
    ByteOf(Unsigned(x, 1))
  }

  /** to_le_bytes of each fixed-width type. */
  function U16Bytes(x: u16): (r: seq<byte>)
    ensures |r| == 2
  {
    LeBytes(x, 2)
  }

  function U32Bytes(x: u32): (r: seq<byte>)
    ensures |r| == 4
  {
    LeBytes(x, 4)
  }

  function U128Bytes(x: u128): (r: seq<byte>)
    ensures |r| == 16
  {
    LeBytes(x, 16)
  }

  function I16Bytes(x: i16): (r: seq<byte>)
    ensures |r| == 2
  {
    Pow256Values();
    LeBytes(Unsigned(x, 2), 2)
  }

  function I32Bytes(x: i32): (r: seq<byte>)
    ensures |r| == 4
  {
    Pow256Values();
    LeBytes(Unsigned(x, 4), 4)
  }

  // from_le_bytes undoes to_le_bytes, and the other way round, for every
  // width the wire formats use.

  lemma U16RoundTrip(x: u16)
    ensures U16Le(U16Bytes(x)) == x
  {
    Pow256Values();
    LeRoundTrip(x, 2);
  }

  lemma U32RoundTrip(x: u32)
    ensures U32Le(U32Bytes(x)) == x
  {
    Pow256Values();
    LeRoundTrip(x, 4);
  }

  lemma U128RoundTrip(x: u128)
    ensures U128Le(U128Bytes(x)) == x
  {
    Pow256Values();
    LeRoundTrip(x, 16);
  }

  lemma I16RoundTrip(x: i16)
    ensures I16Le(I16Bytes(x)) == x
  {
    Pow256Values();
    LeRoundTrip(Unsigned(x, 2), 2);
    SignedUnsigned(x, 2);
  }

  lemma I32RoundTrip(x: i32)
    ensures I32Le(I32Bytes(x)) == x
  {
    Pow256Values();
    LeRoundTrip(Unsigned(x, 4), 4);
    SignedUnsigned(x, 4);
  }

  lemma I8RoundTrip(x: i8)
    ensures I8Of(ByteOfI8(x)) == x
  {
    assert Pow256(1) == 0x100;
    var u := Unsigned(x, 1);
    ByteOfSmall(u);
    assert ByteOfI8(x) as nat == u;
    SignedUnsigned(x, 1);
  }

  lemma U16BytesOf(s: seq<byte>)
    requires |s| == 2
    ensures U16Bytes(U16Le(s)) == s
  {
    LeBytesOfValue(s);
  }

  lemma U32BytesOf(s: seq<byte>)
    requires |s| == 4
    ensures U32Bytes(U32Le(s)) == s
  {
    LeBytesOfValue(s);
  }

  lemma U128BytesOf(s: seq<byte>)
    requires |s| == 16
    ensures U128Bytes(U128Le(s)) == s
  {
    LeBytesOfValue(s);
  }

  lemma I16BytesOf(s: seq<byte>)
    requires |s| == 2
    ensures I16Bytes(I16Le(s)) == s
  {
    Pow256Values();
    LeValueBound(s);
    LeBytesOfValue(s);
  }

  lemma I32BytesOf(s: seq<byte>)
    requires |s| == 4
    ensures I32Bytes(I32Le(s)) == s
  {
    Pow256Values();
    LeValueBound(s);
    LeBytesOfValue(s);
  }

  lemma I8BytesOf(b: byte)
    ensures ByteOfI8(I8Of(b)) == b
  {
    Pow256Values();
    LeBytesOfValue([b]);
  }

  /** Rust's `v as i16` on an i32: keep the low 16 bits, read them as two's complement. */
  function WrapI16(x: int): i16
  {
    var u := x % 0x1_0000;
    if u >= 0x8000 then u - 0x1_0000 else u
  }

  /** i32 arithmetic as the release build performs it: wrapping modulo 2^32. */
  function WrapI32(x: int): (r: i32)
    ensures I32_MIN <= x <= I32_MAX ==> r == x
  {
    (x + 0x8000_0000) % 0x1_0000_0000 - 0x8000_0000
  }

  /** Wrapping after each step of `x * c + d` is wrapping once at the end. */
  lemma WrapI32Step(x: int, c: int, d: int)
    ensures WrapI32(WrapI32(x) * c + d) == WrapI32(x * c + d)
  {
    var q := (x + 0x8000_0000) / 0x1_0000_0000;
    assert WrapI32(x) == x - 0x1_0000_0000 * q;
    assert WrapI32(x) * c + d == x * c + d - 0x1_0000_0000 * (q * c);
    WrapI32Shift(x * c + d, q * c);
  }

  lemma WrapI32Shift(y: int, m: int)
    ensures WrapI32(y - 0x1_0000_0000 * m) == WrapI32(y)
  {
    var a := y + 0x8000_0000;
    assert (a - 0x1_0000_0000 * m) % 0x1_0000_0000 == a % 0x1_0000_0000 by {
      ModShift(a, m);
    }
  }

  lemma ModShift(a: int, m: int)
    ensures (a - 0x1_0000_0000 * m) % 0x1_0000_0000 == a % 0x1_0000_0000
  {
    var r := a % 0x1_0000_0000;
    var q := a / 0x1_0000_0000;
    assert a - 0x1_0000_0000 * m == 0x1_0000_0000 * (q - m) + r;
  }

  /** u16 arithmetic as the release build performs it: wrapping modulo 2^16. */
  function WrapAddU16(x: u16, y: nat): u16
  {
    (x + y) % 0x1_0000
  }

  function SaturatingAddU16(x: u16, y: nat): u16
  {
    if x + y > U16_MAX then U16_MAX else x + y
  }

  function SaturatingAddU64(x: u64, y: nat): u64
  {
    if x + y > U64_MAX then U64_MAX else x + y
  }

  function SaturatingAddI32(x: i32, y: i32): i32
  {
    if x + y > I32_MAX then I32_MAX else if x + y < I32_MIN then I32_MIN else x + y
  }

  function SaturatingSubI32(x: i32, y: i32): i32
  {
    if x - y > I32_MAX then I32_MAX else if x - y < I32_MIN then I32_MIN else x - y
  }

  function SaturatingAddI16(x: i16, y: i16): i16
  {
    if x + y > I16_MAX then I16_MAX else if x + y < I16_MIN then I16_MIN else x + y
  }

  function SaturatingSubI16(x: i16, y: i16): i16
  {
    if x - y > I16_MAX then I16_MAX else if x - y < I16_MIN then I16_MIN else x - y
  }
}
