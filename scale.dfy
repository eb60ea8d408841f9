/** `scale_up`: a decimal string such as "12.5" becomes the integer 12500 at
    scale 3. The text before the first '.' must parse as an i32; the piece
    after it defaults to "0". Each of the `scale` rounds multiplies by ten and
    adds the next fractional character's digit value, 0 for a non-digit or a
    missing character. The i32 arithmetic wraps. */
module Scale {
  import opened Bytes
  import opened Wrappers
  import opened RustText

  function Pow10(k: nat): (p: nat)
    ensures p >= 1
  {
    if k == 0 then 1 else 10 * Pow10(k - 1)
  }

  /** The text before the first '.', the first piece `split('.')` yields. */
  function Piece(s: string): (r: string)
    ensures '.' !in r && |r| <= |s| && r == s[.. |r|]
    ensures |r| < |s| ==> s[|r|] == '.'
  {
    if |s| == 0 || s[0] == '.' then [] else [s[0]] + Piece(s[1..])
  }

  /** The integer text of `s`. */
  function IntText(s: string): string
  {
    Piece(s)
  }

  /** The second piece of `split('.')`: the text between the first and the
      second '.', or "0" when there is no '.'. */
  function FracText(s: string): (r: string)
    ensures '.' !in r
  {
    var p := Piece(s);
    if |p| == |s| then "0" else Piece(s[|p| + 1 ..])
  }

  /** The digit one round adds: the value of the first character, if it is a
      decimal digit, else 0 (`to_digit(10).unwrap_or(0)`). */
  function Lead(d: string): (v: nat)
    ensures v < 10
  {
    if |d| > 0 && IsDigit(d[0]) then DigitValue(d[0]) else 0
  }

  /** `dec_side.get(1..).unwrap_or("")`: byte 1 is a character boundary
      exactly when the first character is ASCII, one byte in UTF-8. */
  function Rest(d: string): (r: string)
    ensures |r| < |d| || d == []
  {
    if |d| == 0 then d else if d[0] as int < 0x80 then d[1..] else []
  }

  /** The fractional text after n rounds. */
  function Advance(d: string, n: nat): string
  {
    if n == 0 then d else Rest(Advance(d, n - 1))
  }

  /** What the first k rounds add, as an unbounded number. */
  function FracValue(d: string, k: nat): nat
  {
    if k == 0 then 0 else FracValue(d, k - 1) * 10 + Lead(Advance(d, k - 1))
  }

  /** The integer part v after k rounds over d, as an unbounded number. */
  function Scaled(v: int, d: string, k: nat): int
  {
    v * Pow10(k) + FracValue(d, k)
  }

  /** The result of `scale_up(s, k)`: None for an integer part that does not
      parse, else the integer part times 10^k plus the fractional rounds,
      wrapped to i32. */
  function ScaleUpValue(s: string, k: nat): (r: Option<i32>)
    ensures r.None? <==> ParseI32(IntText(s)).None?
  {
    match ParseI32(IntText(s))
    case None => None
    case Some(v) => Some(WrapI32(Scaled(v, FracText(s), k)))
  }

  /** One more round multiplies by ten and adds the next digit. */
  lemma ScaledStep(v: int, d: string, n: nat)
    ensures Scaled(v, d, n + 1) == Scaled(v, d, n) * 10 + Lead(Advance(d, n))
  {
    assert v * Pow10(n + 1) == (v * Pow10(n)) * 10;
  }

  /** One round in i32 arithmetic agrees with the unbounded round, wrapped. */
  lemma RoundStep(x: int, side: i32, digit: nat)
    requires side == WrapI32(x) && digit < 10
    ensures WrapI32(side * 10) == WrapI32(x * 10)
    ensures WrapI32(WrapI32(side * 10) + digit) == WrapI32(x * 10 + digit)
  {
    WrapI32Step(x, 10, 0);
    WrapI32Step(x * 10, 1, digit);
  }

  /** scale_up, round by round as the source loops. */
  method ScaleUp(s: string, scale: nat) returns (r: Option<i32>)
    ensures r == ScaleUpValue(s, scale)
  {
    var parsed := ParseI32(IntText(s));
    if parsed.None? {
      return None;
    }
    ghost var v := parsed.value;
    ghost var d := FracText(s);
    var intSide: i32 := parsed.value;
    var decSide := FracText(s);
    var k: nat := scale;
    while k > 0
      invariant k <= scale
      invariant decSide == Advance(d, scale - k)
      invariant intSide == WrapI32(Scaled(v, d, scale - k))
    {
      ScaledStep(v, d, scale - k);
      RoundStep(Scaled(v, d, scale - k), intSide, Lead(decSide));
      k := k - 1;
      intSide := WrapI32(intSide * 10);
      if |decSide| == 0 {
        continue;
      }
      intSide := WrapI32(intSide + Lead(decSide));
      decSide := Rest(decSide);
    }
    assert ScaleUpValue(s, scale) == Some(WrapI32(Scaled(v, d, scale)));
    return Some(intSide);
  }

  // ---------------------------------------------------------------------

  /** After n rounds over ASCII digits the text is the digits from n on. */
  lemma {:induction false} AdvanceDigits(d: string, n: nat)
    requires AllDigits(d)
    ensures Advance(d, n) == if n < |d| then d[n ..] else []
  {
    if n > 0 {
      AdvanceDigits(d, n - 1);
    }
  }

  /** Within the digits, k rounds read the first k of them as a number. */
  lemma {:induction false} FracPrefix(d: string, k: nat)
    requires AllDigits(d) && k <= |d|
    ensures FracValue(d, k) == DigitsValue(d[.. k])
  {
    if k > 0 {
      FracPrefix(d, k - 1);
      AdvanceDigits(d, k - 1);
      assert d[.. k][.. k - 1] == d[.. k - 1];
    }
  }

  /** Past the digits, every further round contributes a 0. */
  lemma {:induction false} FracPadded(d: string, k: nat)
    requires AllDigits(d) && |d| <= k
    ensures FracValue(d, k) == DigitsValue(d) * Pow10(k - |d|)
  {
    if k == |d| {
      FracPrefix(d, k);
      assert d[.. k] == d;
    } else {
      FracPadded(d, k - 1);
      AdvanceDigits(d, k - 1);
      var m := DigitsValue(d);
      var p := Pow10(k - 1 - |d|);
      assert Pow10(k - |d|) == 10 * p;
      assert Lead(Advance(d, k - 1)) == 0;
      assert FracValue(d, k) == (m * p) * 10;
      TimesTen(m, p);
    }
  }

  lemma TimesTen(m: int, p: int)
    ensures (m * p) * 10 == m * (10 * p)
  {
  }

  /** On ASCII digits the rounds read the digits one by one, and missing
      digits count as 0: the first k digits as a number, padded with zeros. */
  lemma FracDigits(d: string, k: nat)
    requires AllDigits(d)
    ensures var m := if k < |d| then k else |d|;
      FracValue(d, k) == DigitsValue(d[.. m]) * Pow10(k - m)
  {
    if k < |d| {
      FracPrefix(d, k);
    } else {
      FracPadded(d, k);
      assert d[.. |d|] == d;
    }
  }

  /** A well-formed decimal scales exactly when it fits: the integer part
      times 10^k plus the first k fractional digits, zero-padded. */
  lemma ScaleUpDigits(s: string, k: nat)
    requires ParseI32(IntText(s)).Some? && AllDigits(FracText(s))
    ensures var d := FracText(s);
      var m := if k < |d| then k else |d|;
      ScaleUpValue(s, k) == Some(WrapI32(ParseI32(IntText(s)).value * Pow10(k) + DigitsValue(d[.. m]) * Pow10(k - m)))
  {
    FracDigits(FracText(s), k);
  }

  /** "12.5" at scale 3 is 12500, and "7" at scale 1 is 70. */
  lemma PositiveExamples()
    ensures ScaleUpValue("12.5", 3) == Some(12500)
    ensures ScaleUpValue("7", 1) == Some(70)
  {
    assert Piece("12.5") == "12" && FracText("12.5") == "5";
    assert DigitsValue("12") == 12;
    FracPadded("5", 3);
    assert Piece("7") == "7" && FracText("7") == "0";
    FracPadded("0", 1);
  }

  /** The digit values are added even when the integer part is negative, so
      "-1.5" at scale 1 is -5, not -15, and "-0.5" loses its sign. */
  lemma NegativeExamples()
    ensures ScaleUpValue("-1.5", 1) == Some(-5)
    ensures ScaleUpValue("-0.5", 1) == Some(5)
  {
    assert Piece("-1.5") == "-1" && FracText("-1.5") == "5";
    assert Piece("-0.5") == "-0" && FracText("-0.5") == "5";
    FracPadded("5", 1);
  }

  /** A piece after a second '.' is ignored; an integer part that is not a
      number, or is empty, fails. */
  lemma OddExamples()
    ensures ScaleUpValue("1.2.3", 2) == Some(120)
    ensures ScaleUpValue("x.5", 1) == None
    ensures ScaleUpValue(".5", 1) == None
  {
    assert Piece("1.2.3") == "1" && Piece("2.3") == "2" && FracText("1.2.3") == "2";
    FracPadded("2", 2);
    assert Piece("x.5") == "x";
    assert Piece(".5") == "";
  }
}
