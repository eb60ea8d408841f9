/** Bit-fields inside one byte. Fields are numbered from the least
    significant bit, as C bit-fields are laid out on a little-endian target
    and as the Rust `bitfield` crate's `hi, lo` ranges count. A setter masks
    its value to the field's width, as `direction & 1` and `type & 0x3F` do. */
module BitFields {
  import opened Bytes

  /** The mask of the low `width` bits. */
  function Ones(width: nat): byte
    requires 1 <= width <= 8
  {
    if width == 1 then 0x01 else if width == 2 then 0x03 else if width == 3 then 0x07
    else if width == 4 then 0x0F else if width == 5 then 0x1F else if width == 6 then 0x3F
    else if width == 7 then 0x7F else 0xFF
  }

  /** The field of `width` bits starting at bit `lo`, as a value. */
  function Field(b: byte, lo: nat, width: nat): byte
    requires 1 <= width && lo + width <= 8
  {
    (b >> lo) & Ones(width)
  }

  /** b with the field of `width` bits at `lo` replaced by the low bits of v. */
  function WithField(b: byte, lo: nat, width: nat, v: byte): byte
    requires 1 <= width && lo + width <= 8
  {
    (b & !(Ones(width) << lo)) | ((v & Ones(width)) << lo)
  }

  /** A one-bit field is set exactly when the corresponding MSB-first position is. */
  lemma FlagBit(b: byte, j: nat)
    requires j < 8
    ensures (Field(b, j, 1) == 1) == BitAt(b, 7 - j)
    ensures Field(b, j, 1) == 0 || Field(b, j, 1) == 1
  {
    BitTest(b, j);
  }

  /** A packed layout: the fields of the given widths start at the given
      offsets, each right after the previous one, and end at `size`. The same
      predicate describes the bytes of a packed struct and the bits of a byte
      of C bit-fields, which a compiler allocates from the least significant bit. */
  predicate Packed(widths: seq<nat>, offsets: seq<nat>, size: nat)
  {
    |widths| == |offsets| && 0 < |widths| && offsets[0] == 0 &&
    (forall i :: 0 < i < |widths| ==> offsets[i] == offsets[i - 1] + widths[i - 1]) &&
    offsets[|offsets| - 1] + widths[|widths| - 1] == size
  }

  /** The Rust `bitfield` ranges `hi, lo` name the same bits as C bit-fields
      of the given widths at the given offsets. */
  predicate SameBits(widths: seq<nat>, offsets: seq<nat>, ranges: seq<(nat, nat)>)
  {
    |widths| == |offsets| == |ranges| &&
    forall i :: 0 <= i < |ranges| ==> ranges[i].1 == offsets[i] && ranges[i].0 + 1 == offsets[i] + widths[i]
  }
}
