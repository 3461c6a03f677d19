/**
 * Numbers as a printer writes them, digit by digit, and which of them the lexer delivers. The
 * printer is told in integer arithmetic and the byte values of RFC 8259 alone.
 */
module PrintedNumbers {
  import opened Bytes
  import opened Decimal
  import opened Tokens
  import opened Documents
  import opened LexerMachine
  import opened Numbers
  import opened NumberValues
  import opened Terminals

  // ---- Digits ----

  function Figure(d: nat): byte
    requires d < 10
  {
    (0x30 + d) as byte
  }

  /** The decimal digits of n, with no zero in front. */
  function Shown(n: nat): bytes {
    (if n < 10 then [] else Shown(n / 10)) + [Figure(n % 10)]
  }

  /** The last k decimal digits of n. */
  function Padded(n: nat, k: nat): bytes {
    if k == 0 then [] else Padded(n / 10, k - 1) + [Figure(n % 10)]
  }

  lemma FigureAdds(ds: bytes, d: nat)
    requires Digits(ds) && d < 10
    ensures Digits(ds + [Figure(d)]) && Numeral(ds + [Figure(d)]) == 10 * Numeral(ds) + d
  {
    NumeralSnoc(ds, Figure(d));
  }

  lemma FirstFigure(d: nat)
    requires d < 10
    ensures Digits([Figure(d)]) && Numeral([Figure(d)]) == d
    ensures d > 0 ==> Figure(d) != ZERO_DIGIT
  {
    FigureAdds([], d);
    assert [] + [Figure(d)] == [Figure(d)];
  }

  /** Reading a numeral undoes writing it. */
  lemma {:induction false} ShownIsRead(n: nat)
    ensures Digits(Shown(n)) && Numeral(Shown(n)) == n
  {
    ShownParts(n);
    if n >= 10 {
      ShownIsRead(n / 10);
      LastFigure(n, Shown(n / 10), Shown(n));
    } else {
      FirstFigure(n);
    }
  }

  lemma ShownParts(n: nat)
    ensures Shown(n) == if n < 10 then [Figure(n)] else Shown(n / 10) + [Figure(n % 10)]
  {
  }

  lemma LastFigure(n: nat, front: bytes, ds: bytes)
    requires Digits(front) && Numeral(front) == n / 10 && ds == front + [Figure(n % 10)]
    ensures Digits(ds) && Numeral(ds) == n
  {
    FigureAdds(front, n % 10);
  }

  lemma {:induction false} ShownFront(n: nat)
    ensures Shown(n) != [] && (n > 0 ==> Shown(n)[0] != ZERO_DIGIT)
    ensures |Shown(n)| > 1 <==> n >= 10
  {
    if n >= 10 {
      ShownFront(n / 10);
    } else {
      FirstFigure(n);
    }
  }

  /** And writing undoes reading, but for zeros in front. */
  lemma {:induction false} ReadIsShown(ds: bytes)
    requires Digits(ds) && ds != [] && (|ds| > 1 ==> ds[0] != ZERO_DIGIT)
    ensures Shown(Numeral(ds)) == ds
    decreases |ds|
  {
    var front, d := ds[..|ds| - 1], ds[|ds| - 1];
    FrontAndLast(ds);
    if front != [] {
      ReadIsShown(front);
      LeadingDigit(front);
      ShownTens(Numeral(front), DigitValue(d));
    } else {
      ShownParts(DigitValue(d));
    }
  }

  lemma ShownTens(n: nat, d: nat)
    requires n > 0 && d < 10
    ensures Shown(10 * n + d) == Shown(n) + [Figure(d)]
  {
    ShownParts(10 * n + d);
  }

  lemma {:induction false} PaddedIsRead(n: nat, k: nat)
    requires n < Pow10(k)
    ensures Digits(Padded(n, k)) && |Padded(n, k)| == k && Numeral(Padded(n, k)) == n
    decreases k
  {
    if k > 0 {
      PaddedIsRead(n / 10, k - 1);
      FigureAdds(Padded(n / 10, k - 1), n % 10);
    }
  }

  // ---- Integers ----

  /** The text of an integer. */
  function ShownInt(i: int): bytes {
    if i < 0 then [0x2D] + Shown(-i) else Shown(i)
  }

  /** What the overflow guard lets through, told by the value alone. */
  predicate Admitted(cfg: Config, n: nat) {
    n < 10 || n / 10 + n % 10 <= cfg.intMax / 10
  }

  function Magnitude(i: int): nat { if i < 0 then -i else i }

  function IntNumber(i: int): Number {
    Number(i < 0, Shown(Magnitude(i)), None, None)
  }

  lemma IntNumberSays(cfg: Config, i: int)
    ensures var n := IntNumber(i);
            && NumberText(n) == ShownInt(i) && Grammar(n) && Integral(n)
            && (Limits(cfg, n) <==> Admitted(cfg, Magnitude(i)))
            && NumberToken(cfg, n) == Int(i)
  {
    IntNumberText(i);
    WholeAdmitted(cfg, Magnitude(i));
    ShownIsRead(Magnitude(i));
    IntNumberToken(cfg, IntNumber(i));
  }

  /** The overflow guard on the digits of n. */
  lemma WholeAdmitted(cfg: Config, n: nat)
    ensures Digits(Shown(n)) && (IntFits(cfg, Shown(n)) <==> Admitted(cfg, n))
  {
    ShownIsRead(n);
    ShownFront(n);
    GuardClosedForm(cfg, Shown(n));
  }

  lemma WholeGrammar(n: nat)
    ensures Figures(Shown(n)) && Shown(n) != [] && (|Shown(n)| > 1 ==> Shown(n)[0] != ZERO_DIGIT)
  {
    ShownIsRead(n);
    ShownFront(n);
  }

  lemma IntNumberText(i: int)
    ensures NumberText(IntNumber(i)) == ShownInt(i) && Grammar(IntNumber(i))
  {
    WholeGrammar(Magnitude(i));
    var front := (if i < 0 then [MINUS_SIGN] else []) + Shown(Magnitude(i));
    assert front + [] + [] == front;
    assert front == ShownInt(i);
  }

  lemma IntNumberToken(cfg: Config, n: Number)
    requires Integral(n) && Grammar(n)
    ensures NumberToken(cfg, n) == Int(if n.minus then 0 - Numeral(n.whole) else Numeral(n.whole))
    ensures Limits(cfg, n) <==> IntFits(cfg, n.whole)
  {
  }

  lemma ReadExactlyWithin(cfg: Config, l: Lexer, n: Number, d: byte, t: Token)
    requires cfg.Valid() && Idle(l) && Delimiter(d) && Grammar(n)
    ensures ReadAsNumber(cfg, l, NumberText(n), d, t) <==> Limits(cfg, n) && t == NumberToken(cfg, n)
  {
    if ReadAsNumber(cfg, l, NumberText(n), d, t) {
      MinusMeansSign(n);
      var m := OnlyNumbersAreRead(cfg, l, NumberText(n), d, t);
      NumberUnique(n, m);
    }
    if Limits(cfg, n) {
      NumberIsRead(cfg, l, n, d);
    }
  }

  /**
   * An integer printed in decimal, and a delimiter, are read as that integer if and only if its
   * size is admitted; and as no other number.
   */
  lemma PrintedIntegerIsRead(cfg: Config, l: Lexer, i: int, d: byte, t: Token)
    requires cfg.Valid() && Idle(l) && Delimiter(d)
    ensures ReadAsNumber(cfg, l, ShownInt(i), d, t) <==> Admitted(cfg, Magnitude(i)) && t == Int(i)
  {
    IntNumberSays(cfg, i);
    ReadExactlyWithin(cfg, l, IntNumber(i), d, t);
  }

  // ---- Powers of ten ----

  function Power(x: real, n: nat): real {
    if n == 0 then 1.0 else x * Power(x, n - 1)
  }

  /** The table holds the powers of ten: its entry for n is ten to the power -n. */
  lemma {:induction false} TableOfPowers(n: int)
    ensures n >= 0 ==> PowM10(n) * Power(10.0, n) == 1.0
    ensures n <= 0 ==> PowM10(n) == Power(10.0, -n)
    decreases if n < 0 then -n else n
  {
    if n > 0 {
      TableOfPowers(n - 1);
      Cancelled(PowM10(n - 1), Power(10.0, n - 1));
    } else if n < 0 {
      TableOfPowers(n + 1);
    }
  }

  lemma Cancelled(x: real, y: real)
    requires x * y == 1.0
    ensures (x / 10.0) * (10.0 * y) == 1.0
  {
    TenFold(x / 10.0, y);
    assert (x / 10.0) * (10.0 * y) == 10.0 * ((x / 10.0) * y);
    TenFold(y, x);
  }

  lemma {:induction false} PositivePower(n: nat)
    ensures Power(10.0, n) > 0.0
  {
    if n > 0 {
      PositivePower(n - 1);
    }
  }

  // ---- The exponent ----

  /** Where the table has its entry for the exponent of `n`: it begins with that for -308. */
  function TableIndex(n: Number): int
    requires Grammar(n)
  {
    Shift(n) + 308
  }

  /** The limits of the exponent are the ends of a table of 632 entries. */
  lemma ExponentTable(minus: bool, e: nat)
    ensures e <= ExpLimit(minus) <==> 0 <= (if minus then e else 0 - e) + 308 < 632
  {
  }

  lemma ExponentLimit(cfg: Config, n: Number)
    requires Grammar(n)
    ensures Numeral(ExpDigits(n)) <= ExpLimit(ExpMinus(n)) <==> 0 <= TableIndex(n) < 632
  {
    ExponentTable(ExpMinus(n), Numeral(ExpDigits(n)));
  }

  /** `n` with an exponent of the digits `ds` instead of its own. */
  function WithDigits(n: Number, ds: bytes): Number
    requires n.exp.Some?
  {
    n.(exp := Some(n.exp.value.(digits := ds)))
  }

  lemma WithDigitsText(n: Number, ds: bytes, d: byte)
    requires n.exp.Some?
    ensures NumberText(WithDigits(n, ds + [d])) == NumberText(WithDigits(n, ds)) + [d]
  {
    var e := n.exp.value;
    var front := (if n.minus then [MINUS_SIGN] else []) + n.whole + FracText(n.frac);
    Snoc([e.letter] + e.sign, ds, [d]);
    Snoc(front, [e.letter] + e.sign + ds, [d]);
  }

  /** The digit that makes the exponent too large. */
  lemma LargeDigitStops(cfg: Config, l: Lexer, m: Number, d: byte)
    requires cfg.Valid() && Idle(l) && SoFar(cfg, m) && m.exp.Some? && m.exp.value.digits != [] && Digit(d)
    requires 10 * Numeral(m.exp.value.digits) + DigitValue(d) > ExpLimit(ExpMinus(m))
    ensures Scan(cfg, l, NumberText(m) + [d]) == Scanned([], Stop(ExponentOverflow))
  {
    ScanNumber(cfg, l, m);
    ExpDigitFits(cfg, m, d);
    ExpDigitStep(cfg, Reading(l, m), d, 10 * Numeral(m.exp.value.digits) + DigitValue(d));
    ScanSnoc(cfg, l, NumberText(m), Reading(l, m), d);
  }

  lemma SoFarWith(cfg: Config, n: Number, ds: bytes)
    requires n.exp.Some? && SoFar(cfg, WithDigits(n, [])) && Digits(ds)
    ensures ExpMinus(WithDigits(n, ds)) == ExpMinus(n)
    ensures SoFar(cfg, WithDigits(n, ds)) <==> Numeral(ds) <= ExpLimit(ExpMinus(n))
  {
    var m := WithDigits(n, ds);
    assert ExpDigits(m) == ds && FracDigits(m) == FracDigits(WithDigits(n, []));
  }

  /** A digit by itself is not too large. */
  lemma DigitFits(ds: bytes, minus: bool)
    requires Digits(ds) && Numeral(ds) > ExpLimit(minus)
    ensures |ds| > 1
  {
    if ds != [] {
      LeadingDigit(ds);
    }
  }

  /** What follows the digit that is too much is not read. */
  lemma {:induction false} LargeExponentStops(cfg: Config, l: Lexer, n: Number, ds: bytes)
    requires cfg.Valid() && Idle(l) && n.exp.Some? && Digits(ds) && SoFar(cfg, WithDigits(n, []))
    requires Numeral(ds) > ExpLimit(ExpMinus(n))
    ensures Scan(cfg, l, NumberText(WithDigits(n, ds))) == Scanned([], Stop(ExponentOverflow))
    decreases |ds|
  {
    DigitFits(ds, ExpMinus(n));
    var front, d := ds[..|ds| - 1], ds[|ds| - 1];
    FrontAndLast(ds);
    WithDigitsText(n, front, d);
    SoFarWith(cfg, n, front);
    if Numeral(front) > ExpLimit(ExpMinus(n)) {
      LargeExponentStops(cfg, l, n, front);
      ScanConcat(cfg, l, NumberText(WithDigits(n, front)), [d]);
    } else {
      LargeDigitStops(cfg, l, WithDigits(n, front), d);
    }
  }

  /**
   * A number of the grammar that is fine up to its exponent is refused for the exponent if and
   * only if the table has no entry for it.
   */
  lemma ExponentRefused(cfg: Config, l: Lexer, n: Number)
    requires cfg.Valid() && Idle(l) && Grammar(n) && n.exp.Some? && SoFar(cfg, WithDigits(n, []))
    ensures Scan(cfg, l, NumberText(n))
            == Scanned([], if 0 <= TableIndex(n) < 632 then Go(Reading(l, n)) else Stop(ExponentOverflow))
  {
    ExponentLimit(cfg, n);
    var ds := n.exp.value.digits;
    assert WithDigits(n, ds) == n;
    if 0 <= TableIndex(n) < 632 {
      ScanNumber(cfg, l, n);
    } else {
      LargeExponentStops(cfg, l, n, ds);
    }
  }

  // ---- Decimal fractions ----

  /**
   * Sign, whole part, `places` digits of fraction with the value `frac`, and maybe an exponent,
   * with its letter capital or not, and with a plus or not if it is not negative.
   */
  datatype Decimally =
    Decimally(minus: bool, whole: nat, frac: nat, places: nat, exp: Option<int>, capital: bool, plus: bool)

  /** It is no integer, and the fraction has room for its digits. */
  predicate Proper(x: Decimally) {
    x.frac < Pow10(x.places) && (x.places > 0 || x.exp.Some?)
  }

  function ShownExp(x: Decimally): bytes {
    if x.exp.None? then []
    else
      [if x.capital then 0x45 else 0x65]
      + (if x.exp.value < 0 then [0x2D] else if x.plus then [0x2B] else [])
      + Shown(Magnitude(x.exp.value))
  }

  function ShownFrac(x: Decimally): bytes {
    if x.places == 0 then [] else [0x2E] + Padded(x.frac, x.places)
  }

  function ShownDecimal(x: Decimally): bytes {
    (if x.minus then [0x2D] else []) + Shown(x.whole) + ShownFrac(x) + ShownExp(x)
  }

  function Exp(x: Decimally): int { if x.exp.None? then 0 else x.exp.value }

  /** Ten to the power e. */
  function TenTo(e: int): real {
    PositivePower(if e < 0 then -e else e);
    if e < 0 then 1.0 / Power(10.0, -e) else Power(10.0, e)
  }

  /** The rational meant, without its sign. */
  function Size(whole: real, frac: real, places: nat, exp: int): real {
    (whole + frac * TenTo(0 - places)) * TenTo(exp)
  }

  /** The rational meant. */
  function Worth(x: Decimally): real {
    var r := Size(x.whole as real, x.frac as real, x.places, Exp(x));
    if x.minus then 0.0 - r else r
  }

  lemma TableEntryIs(n: int)
    ensures PowM10(n) == TenTo(-n)
  {
    TableOfPowers(n);
    PositivePower(if n < 0 then -n else n);
  }

  function DecimalNumber(x: Decimally): Number {
    Number(x.minus, Shown(x.whole),
           if x.places == 0 then None else Some(Padded(x.frac, x.places)),
           if x.exp.None? then None
           else Some(ExponentPart(if x.capital then 0x45 else 0x65,
                             if x.exp.value < 0 then [0x2D] else if x.plus then [0x2B] else [],
                             Shown(Magnitude(x.exp.value)))))
  }

  lemma ShownExpText(x: Decimally)
    ensures ExpText(DecimalNumber(x).exp) == ShownExp(x)
  {
  }

  /** The parts of the text are those of a number of the grammar. */
  lemma DecimalGrammar(x: Decimally)
    requires Proper(x)
    ensures NumberText(DecimalNumber(x)) == ShownDecimal(x)
    ensures Grammar(DecimalNumber(x)) && !Integral(DecimalNumber(x))
  {
    WholeGrammar(x.whole);
    PaddedIsRead(x.frac, x.places);
    WholeGrammar(Magnitude(Exp(x)));
    ShownExpText(x);
  }

  lemma DecimalParts(x: Decimally)
    requires Proper(x) && Grammar(DecimalNumber(x))
    ensures var n := DecimalNumber(x);
            Numeral(n.whole) == x.whole && |FracDigits(n)| == x.places && Numeral(FracDigits(n)) == x.frac
  {
    ShownIsRead(x.whole);
    PaddedIsRead(x.frac, x.places);
  }

  lemma DecimalShift(x: Decimally)
    requires Proper(x) && Grammar(DecimalNumber(x))
    ensures Shift(DecimalNumber(x)) == 0 - Exp(x)
  {
    ShownIsRead(Magnitude(Exp(x)));
  }

  /** All digits, shifted twice: for the places, and for the exponent. */
  lemma TextValueSplit(n: Number, w: nat, f: nat, k: nat, e: int)
    requires Grammar(n) && Numeral(n.whole) == w && Numeral(FracDigits(n)) == f && |FracDigits(n)| == k
    requires Shift(n) == 0 - e
    ensures TextValue(n) == Signed(n.minus, Scale(w as real + Scale(f as real, k), 0 - e))
  {
    DigitsShifted(n.whole, FracDigits(n));
    ScaleTwice(AllDigits(n), k, Shift(n));
  }

  /** A shift is the product with a power of ten. */
  lemma ScaledByPower(r: real, e: int)
    ensures Scale(r, 0 - e) == r * TenTo(e)
  {
    ScaleIsProduct(r, 0 - e);
    TableEntryIs(0 - e);
  }

  lemma SizeIsScaled(w: real, f: real, k: nat, e: int)
    ensures Size(w, f, k, e) == Scale(w + Scale(f, k), 0 - e)
  {
    ScaledByPower(f, 0 - k);
    ScaledByPower(w + Scale(f, k), e);
  }

  lemma TextIsWorth(n: Number, x: Decimally)
    requires Grammar(n) && n.minus == x.minus && Shift(n) == 0 - Exp(x)
    requires Numeral(n.whole) == x.whole && Numeral(FracDigits(n)) == x.frac && |FracDigits(n)| == x.places
    ensures TextValue(n) == Worth(x)
  {
    TextValueSplit(n, x.whole, x.frac, x.places, Exp(x));
    SizeIsScaled(x.whole as real, x.frac as real, x.places, Exp(x));
  }

  lemma DecimalWorth(x: Decimally)
    requires Proper(x) && Grammar(DecimalNumber(x))
    ensures TextValue(DecimalNumber(x)) == Worth(x)
  {
    DecimalParts(x);
    DecimalShift(x);
    TextIsWorth(DecimalNumber(x), x);
  }

  lemma DecimalLimits(cfg: Config, x: Decimally)
    requires Proper(x) && x.places <= 323 && Grammar(DecimalNumber(x))
    ensures Limits(cfg, DecimalNumber(x)) <==> Admitted(cfg, x.whole) && -323 <= Exp(x) <= 308
  {
    var n := DecimalNumber(x);
    WholeAdmitted(cfg, x.whole);
    DecimalParts(x);
    DecimalShift(x);
    ExponentLimit(cfg, n);
  }

  /** The double made of a printed fraction is what was meant if and only if the fraction fits 64 bits. */
  lemma DecimalToken(cfg: Config, x: Decimally)
    requires Proper(x) && x.places <= 323 && Grammar(DecimalNumber(x))
    ensures NumberToken(cfg, DecimalNumber(x)) == Double(Worth(x)) <==> x.frac < 0x1_0000_0000_0000_0000
  {
    DecimalGrammar(x);
    DecimalParts(x);
    DecimalWorth(x);
    TokenIsWorth(cfg, DecimalNumber(x), x);
  }

  lemma TokenIsWorth(cfg: Config, n: Number, x: Decimally)
    requires Grammar(n) && !Integral(n) && TextValue(n) == Worth(x)
    requires Numeral(FracDigits(n)) == x.frac && |FracDigits(n)| == x.places && x.places <= 323
    ensures NumberToken(cfg, n) == Double(Worth(x)) <==> x.frac < 0x1_0000_0000_0000_0000
  {
    SmallPlaces(x.places);
    DoubleExact(cfg, n);
  }

  lemma SmallPlaces(k: nat)
    requires k <= 323
    ensures U16(k) <= TABLE_MAX
  {
  }

  /**
   * A decimal fraction of up to 323 places, printed, and a delimiter, are read as exactly the
   * number that was meant if and only if the whole part is admitted, the exponent is from -323 to
   * 308, and the fraction as an integer fits 64 bits.
   */
  lemma PrintedDecimalIsRead(cfg: Config, l: Lexer, x: Decimally, d: byte)
    requires cfg.Valid() && Idle(l) && Delimiter(d) && Proper(x) && x.places <= 323
    ensures ReadAsNumber(cfg, l, ShownDecimal(x), d, Double(Worth(x)))
            <==> Admitted(cfg, x.whole) && -323 <= Exp(x) <= 308 && x.frac < 0x1_0000_0000_0000_0000
  {
    DecimalGrammar(x);
    DecimalLimits(cfg, x);
    DecimalToken(cfg, x);
    ReadExactlyWithin(cfg, l, DecimalNumber(x), d, Double(Worth(x)));
  }
}
