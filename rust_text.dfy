/** The standard-library number parsers the daemon calls on task text:
    `str::parse` for i32, u8, u16 and u32, and `u128::from_str_radix(_, 16)`.
    A parse either gives the value or fails; the error kind is not kept.
    Strings are sequences of Unicode scalar values; every character the
    parsers accept is ASCII, so reading characters instead of UTF-8 bytes
    accepts and rejects the same strings. */
module RustText {
  import opened Wrappers

  predicate IsDigit(c: char)
  {
    '0' <= c <= '9'
  }

  function DigitValue(c: char): (d: nat)
    requires IsDigit(c)
    ensures d < 10
  {
    c as int - '0' as int
  }

  predicate AllDigits(s: string)
  {
    forall i :: 0 <= i < |s| ==> IsDigit(s[i])
  }

  /** The value of a run of decimal digits, most significant first. */
  function DigitsValue(s: string): nat
    requires AllDigits(s)
  {
    if |s| == 0 then 0 else DigitsValue(s[.. |s| - 1]) * 10 + DigitValue(s[|s| - 1])
  }

  predicate IsHexDigit(c: char)
  {
    '0' <= c <= '9' || 'a' <= c <= 'f' || 'A' <= c <= 'F'
  }

  function HexDigitValue(c: char): (d: nat)
    requires IsHexDigit(c)
    ensures d < 16
  {
    if '0' <= c <= '9' then c as int - '0' as int
    else if 'a' <= c <= 'f' then c as int - 'a' as int + 10
    else c as int - 'A' as int + 10
  }

  predicate AllHexDigits(s: string)
  {
    forall i :: 0 <= i < |s| ==> IsHexDigit(s[i])
  }

  function HexDigitsValue(s: string): nat
    requires AllHexDigits(s)
  {
    if |s| == 0 then 0 else HexDigitsValue(s[.. |s| - 1]) * 16 + HexDigitValue(s[|s| - 1])
  }

  /** The digits after an optional leading sign, and whether the sign was `-`.
      A `-` is only a sign for a signed target type; for an unsigned one it
      stays in the digits, where it is rejected. */
  function Unsign(s: string, signed: bool): (r: (bool, string))
    ensures r.0 ==> signed && |s| > 0 && s[0] == '-' && r.1 == s[1..]
    ensures |r.1| <= |s|
  {
    if |s| > 0 && s[0] == '+' then (false, s[1..])
    else if |s| > 0 && s[0] == '-' && signed then (true, s[1..])
    else (false, s)
  }

  /** A magnitude with its sign. */
  function Apply(neg: bool, m: nat): (v: int)
    ensures neg ==> v == -(m as int)
    ensures !neg ==> v == m
  {
    if neg then -(m as int) else m
  }

  /** `s.parse::<i32>()`. */
  function ParseI32(s: string): (r: Option<int>)
    ensures r.Some? ==> -0x8000_0000 <= r.value <= 0x7FFF_FFFF
    ensures r.Some? <==>
      var (neg, d) := Unsign(s, true);
      && 0 < |d| && AllDigits(d)
      && (if neg then DigitsValue(d) <= 0x8000_0000 else DigitsValue(d) <= 0x7FFF_FFFF)
    ensures r.Some? ==>
      var (neg, d) := Unsign(s, true);
      r.value == Apply(neg, DigitsValue(d))
  {
    var (neg, d) := Unsign(s, true);
    if |d| == 0 || !AllDigits(d) then None
    else
      var v := Apply(neg, DigitsValue(d));
      if -0x8000_0000 <= v <= 0x7FFF_FFFF then Some(v) else None
  }

  /** `s.parse::<uN>()` for the unsigned type whose largest value is `max`. */
  function ParseUnsigned(s: string, max: nat): (r: Option<nat>)
    ensures r.Some? ==> r.value <= max
    ensures r.Some? <==> var d := Unsign(s, false).1; 0 < |d| && AllDigits(d) && DigitsValue(d) <= max
    ensures r.Some? ==> r.value == DigitsValue(Unsign(s, false).1)
    ensures |s| > 0 && s[0] == '-' ==> r.None?
  {
    var d := Unsign(s, false).1;
    if |d| == 0 || !AllDigits(d) || DigitsValue(d) > max then None else Some(DigitsValue(d))
  }

  const U8_MAX: nat := 0xFF
  const U16_MAX: nat := 0xFFFF
  const U32_MAX: nat := 0xFFFF_FFFF
  const U128_MAX: nat := 0xFFFF_FFFF_FFFF_FFFF_FFFF_FFFF_FFFF_FFFF

  /** `u128::from_str_radix(s, 16)`. */
  function ParseHexU128(s: string): (r: Option<nat>)
    ensures r.Some? ==> r.value <= U128_MAX
    ensures r.Some? <==> var d := Unsign(s, false).1; 0 < |d| && AllHexDigits(d) && HexDigitsValue(d) <= U128_MAX
    ensures r.Some? ==> r.value == HexDigitsValue(Unsign(s, false).1)
  {
    var d := Unsign(s, false).1;
    if |d| == 0 || !AllHexDigits(d) || HexDigitsValue(d) > U128_MAX then None else Some(HexDigitsValue(d))
  }

  // ---------------------------------------------------------------------
  // Renderings, the partners of the parsers: `n.to_string()` and `{:X}`.

  function DigitChar(d: nat): (c: char)
    requires d < 10
    ensures IsDigit(c) && DigitValue(c) == d
  {
    ('0' as int + d) as char
  }

  function HexDigitChar(d: nat): (c: char)
    requires d < 16
    ensures IsHexDigit(c) && HexDigitValue(c) == d
  {
    if d < 10 then ('0' as int + d) as char else ('A' as int + d - 10) as char
  }

  /** The decimal rendering of n, with no leading zero. */
  function Decimal(n: nat): (s: string)
    ensures 0 < |s| && AllDigits(s)
    ensures |s| > 1 ==> s[0] != '0'
  {
    if n < 10 then [DigitChar(n)] else Decimal(n / 10) + [DigitChar(n % 10)]
  }

  /** The upper-case hexadecimal rendering of n, with no leading zero. */
  function Hex(n: nat): (s: string)
    ensures 0 < |s| && AllHexDigits(s)
    ensures |s| > 1 ==> s[0] != '0'
  {
    if n < 16 then [HexDigitChar(n)] else Hex(n / 16) + [HexDigitChar(n % 16)]
  }

  lemma {:induction false} DecimalValue(n: nat)
    ensures DigitsValue(Decimal(n)) == n
  {
    var s := Decimal(n);
    if n >= 10 {
      DecimalValue(n / 10);
      assert s[.. |s| - 1] == Decimal(n / 10);
    }
  }

  lemma {:induction false} HexValue(n: nat)
    ensures HexDigitsValue(Hex(n)) == n
  {
    var s := Hex(n);
    if n >= 16 {
      HexValue(n / 16);
      assert s[.. |s| - 1] == Hex(n / 16);
    }
  }

  /** Every value of an unsigned type parses back from its decimal rendering,
      with or without a leading `+`. */
  lemma ParseDecimal(n: nat, max: nat)
    requires n <= max
    ensures ParseUnsigned(Decimal(n), max) == Some(n)
    ensures ParseUnsigned("+" + Decimal(n), max) == Some(n)
  {
    DecimalValue(n);
    assert ("+" + Decimal(n))[1..] == Decimal(n);
  }

  /** Every i32 parses back from its rendering, `-` and the magnitude for a
      negative value. */
  lemma ParseSignedDecimal(x: int)
    requires -0x8000_0000 <= x <= 0x7FFF_FFFF
    ensures x >= 0 ==> ParseI32(Decimal(x)) == Some(x)
    ensures x < 0 ==> ParseI32("-" + Decimal(-x)) == Some(x)
  {
    if x >= 0 {
      DecimalValue(x);
      assert Decimal(x)[0] != '-';
    } else {
      DecimalValue(-x);
      assert ("-" + Decimal(-x))[1..] == Decimal(-x);
    }
  }

  /** Every u128 parses back from its hexadecimal rendering. */
  lemma ParseHex(n: nat)
    requires n <= U128_MAX
    ensures ParseHexU128(Hex(n)) == Some(n)
  {
    HexValue(n);
    assert Hex(n)[0] != '+';
  }

  /** The empty string, a lone sign and a negative unsigned value are refused. */
  lemma Refused()
    ensures ParseI32("") == None && ParseI32("+") == None && ParseI32("-") == None
    ensures ParseUnsigned("-1", U32_MAX) == None && ParseUnsigned("", U32_MAX) == None
    ensures ParseHexU128("") == None && ParseHexU128("-1") == None
    ensures ParseI32(Decimal(0x8000_0000)) == None
    ensures ParseI32("-" + Decimal(0x8000_0000)) == Some(-0x8000_0000)
  {
    DecimalValue(0x8000_0000);
    ParseSignedDecimal(-0x8000_0000);
    assert Decimal(0x8000_0000)[0] != '-' && Decimal(0x8000_0000)[0] != '+';
  }
}
