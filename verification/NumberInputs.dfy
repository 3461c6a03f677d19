/** Numbers whose registers wrap, or whose table entry is missing. */
module NumberInputs {
  import opened Bytes
  import opened Decimal
  import opened Tokens
  import opened Documents
  import opened LexerMachine
  import opened Numbers
  import opened NumberValues

  /** 18446744073709551616, which is 2^64. */
  const WRAPPING: bytes :=
    [0x31, 0x38, 0x34, 0x34] + [0x36, 0x37, 0x34, 0x34] + [0x30, 0x37, 0x33, 0x37]
    + [0x30, 0x39, 0x35, 0x35] + [0x31, 0x36, 0x31, 0x36]

  lemma OneMore(ds: bytes, d: byte, es: bytes)
    requires Digits(ds) && Digit(d) && es == ds + [d]
    ensures Digits(es) && Numeral(es) == 10 * Numeral(ds) + DigitValue(d)
  {
    NumeralSnoc(ds, d);
  }

  lemma FourDigits(a: byte, b: byte, c: byte, d: byte)
    requires Digit(a) && Digit(b) && Digit(c) && Digit(d)
    ensures Digits([a, b, c, d])
    ensures Numeral([a, b, c, d]) == 1000 * DigitValue(a) + 100 * DigitValue(b) + 10 * DigitValue(c) + DigitValue(d)
  {
    OneMore([], a, [a]);
    OneMore([a], b, [a, b]);
    OneMore([a, b], c, [a, b, c]);
    OneMore([a, b, c], d, [a, b, c, d]);
  }

  lemma FourMore(front: bytes, a: byte, b: byte, c: byte, d: byte)
    requires Digits(front) && Digit(a) && Digit(b) && Digit(c) && Digit(d)
    ensures Digits(front + [a, b, c, d])
    ensures Numeral(front + [a, b, c, d])
            == 10_000 * Numeral(front)
               + (1000 * DigitValue(a) + 100 * DigitValue(b) + 10 * DigitValue(c) + DigitValue(d))
  {
    FourDigits(a, b, c, d);
    NumeralConcat(front, [a, b, c, d]);
    assert Pow10(4) == 10_000;
  }

  lemma WrappingValue()
    ensures Digits(WRAPPING) && |WRAPPING| == 20 && Numeral(WRAPPING) == 0x1_0000_0000_0000_0000
  {
    var a: bytes := [0x31, 0x38, 0x34, 0x34];
    FourDigits(0x31, 0x38, 0x34, 0x34);
    FourMore(a, 0x36, 0x37, 0x34, 0x34);
    FourMore(a + [0x36, 0x37, 0x34, 0x34], 0x30, 0x37, 0x33, 0x37);
    var b: bytes := a + [0x36, 0x37, 0x34, 0x34] + [0x30, 0x37, 0x33, 0x37];
    FourMore(b, 0x30, 0x39, 0x35, 0x35);
    FourMore(b + [0x30, 0x39, 0x35, 0x35], 0x31, 0x36, 0x31, 0x36);
  }

  /** A zero with a fraction. */
  function ZeroPoint(f: bytes): Number {
    Number(false, [0x30], Some(f), None)
  }

  lemma ZeroPointGrammar(cfg: Config, f: bytes)
    requires Digits(f) && U16(|f|) != 0
    ensures var n := ZeroPoint(f);
            NumberText(n) == [0x30, DOT] + f && Grammar(n) && Limits(cfg, n) && !Integral(n)
  {
  }

  lemma ZeroPointParts(f: bytes)
    requires Digits(f)
    ensures var n := ZeroPoint(f);
            && !n.minus && Digits(n.whole) && Numeral(n.whole) == 0 && FracDigits(n) == f && n.frac.Some? && n.exp.None?
            && ExpDigits(n) == []
  {
    OneMore([], 0x30, [0x30]);
  }

  /** The mantissa of a number that begins with zero is its fraction. */
  lemma ZeroMantissa(cfg: Config, n: Number, whole: nat, f: nat, k: nat)
    requires whole == 0 && !n.minus
    ensures Signed(n.minus, Mantissa(cfg, whole, f, k)) == Shifted(cfg, f as real, k)
  {
  }

  /** What is delivered for a fraction after a zero. */
  lemma ZeroPointToken(cfg: Config, n: Number, f: bytes)
    requires n == ZeroPoint(f) && Digits(f) && Digits(n.whole) && Digits(FracDigits(n)) && Digits(ExpDigits(n))
    ensures NumberToken(cfg, n) == Double(Shifted(cfg, U64(Numeral(f)) as real, U16(|f|)))
  {
    ZeroPointParts(f);
    FractionToken(cfg, n);
    ZeroMantissa(cfg, n, Numeral(n.whole), U64(Numeral(f)), U16(|f|));
  }

  lemma SmallCount(k: nat)
    requires k <= TABLE_MAX
    ensures U16(k) == k
  {
  }

  /** A fraction that is a multiple of 2^64 makes a zero, which it is not unless it is zero itself. */
  lemma WrappingToken(cfg: Config, f: bytes)
    requires Digits(f) && 0 < |f| <= TABLE_MAX && Numeral(f) != 0 && U64(Numeral(f)) == 0
    ensures Grammar(ZeroPoint(f)) && NumberToken(cfg, ZeroPoint(f)) == Double(0.0)
    ensures TextValue(ZeroPoint(f)) != 0.0
  {
    var n := ZeroPoint(f);
    SmallCount(|f|);
    ZeroPointGrammar(cfg, f);
    ZeroPointToken(cfg, n, f);
    NothingShifted(cfg, |f|);
    NotExact(cfg, n, f);
  }

  lemma NotExact(cfg: Config, n: Number, f: bytes)
    requires n == ZeroPoint(f) && Grammar(n) && |f| <= TABLE_MAX && Numeral(f) != 0 && U64(Numeral(f)) == 0
    ensures NumberToken(cfg, n) != Double(TextValue(n))
  {
    SmallCount(|f|);
    DoubleExact(cfg, n);
  }

  /** A fraction of 324 ones. */
  const LONG_FRACTION: bytes := seq(324, i => 0x31)

  lemma LongDigits()
    ensures Digits(LONG_FRACTION) && |LONG_FRACTION| == 324
  {
  }

  /** A fraction of 324 digits: what it makes depends on what is found at index 632 of a table of 632. */
  lemma LongToken(cfg: Config, f: bytes)
    requires Digits(f) && |f| == 324
    ensures NumberToken(cfg, ZeroPoint(f)) == Double(U64(Numeral(f)) as real * cfg.beyond(324))
    ensures TableIndices(Reading(FRESH, ZeroPoint(f))) == [632]
  {
    assert U16(324) == 324;
    ZeroPointParts(f);
    ZeroPointToken(cfg, ZeroPoint(f), f);
  }
}
