/** What the delivered numbers are worth, compared with the text they were read from. */
module NumberValues {
  import opened Bytes
  import opened Decimal
  import opened Tokens
  import opened LexerMachine
  import opened Numbers

  // ---- Integers ----

  function Pow2(k: nat): nat {
    if k == 0 then 1 else 2 * Pow2(k - 1)
  }

  /** A text that is an integer: no fraction and no exponent. */
  predicate Integral(n: Number) { n.frac.None? && n.exp.None? }

  /**
   * The overflow guard, in closed form: with v the value of the digits, the last digit plus what
   * stands before it must not exceed a tenth of the maximum. Earlier digits never matter more.
   */
  lemma {:induction false} GuardClosedForm(cfg: Config, ds: bytes)
    requires Digits(ds) && ds != [] && (|ds| > 1 ==> ds[0] != 0x30)
    ensures IntFits(cfg, ds) <==> |ds| == 1 || Numeral(ds) / 10 + Numeral(ds) % 10 <= cfg.intMax / 10
  {
    if |ds| > 1 {
      var front := ds[..|ds| - 1];
      GuardClosedForm(cfg, front);
      LeadingDigit(front);
      var p, d := Numeral(front), DigitValue(ds[|ds| - 1]);
      assert Numeral(ds) == 10 * p + d;
    }
  }

  /** A delivered integer is the signed value of its digits, and fits the integer type. */
  lemma IntegerExact(cfg: Config, n: Number)
    requires cfg.Valid() && Grammar(n) && Limits(cfg, n) && Integral(n)
    ensures NumberToken(cfg, n) == Int(if n.minus then 0 - Numeral(n.whole) else Numeral(n.whole))
    ensures Numeral(n.whole) <= cfg.intMax
  {
    GuardClosedForm(cfg, n.whole);
    LeadingDigit(n.whole);
  }

  /**
   * The guard is conservative: digits that spell the type's maximum are accepted if and only if
   * that maximum ends in a zero.
   */
  lemma MaximumRefused(cfg: Config, n: Number)
    requires cfg.Valid() && Grammar(n) && Integral(n) && Numeral(n.whole) == cfg.intMax
    ensures Limits(cfg, n) <==> cfg.intMax % 10 == 0
  {
    GuardClosedForm(cfg, n.whole);
    LeadingDigit(n.whole);
  }

  /** The maximum of a signed type: all bits but one. */
  predicate SignedMaximum(max: nat, bits: nat) {
    bits >= 8 && max == Pow2(bits - 1) - 1
  }

  /** The default integer type has 64 bits. */
  lemma DefaultMaximum()
    ensures SignedMaximum(LLONG_MAX, 64)
  {
    RegisterSize();
    assert Pow2(64) == 2 * Pow2(63);
  }

  /** That is an odd number, so no signed type has its maximum accepted. */
  lemma SignedMaximumRefused(cfg: Config, bits: nat, n: Number)
    requires SignedMaximum(cfg.intMax, bits)
    requires Grammar(n) && Integral(n) && Numeral(n.whole) == cfg.intMax
    ensures cfg.Valid() && !Limits(cfg, n)
  {
    LargeType(bits - 1);
    assert Pow2(bits - 1) == 2 * Pow2(bits - 2);
    MaximumRefused(cfg, n);
  }

  lemma {:induction false} LargeType(k: nat)
    requires k >= 7
    ensures Pow2(k) >= 128
    decreases k
  {
    if k == 7 {
      assert Pow2(7) == 128;
    } else {
      LargeType(k - 1);
    }
  }

  /** With 64 bits every integer of up to 18 digits is accepted. */
  lemma EighteenDigits(cfg: Config, n: Number)
    requires cfg.intMax == LLONG_MAX && Grammar(n) && Integral(n) && |n.whole| <= 18
    ensures Limits(cfg, n)
  {
    GuardClosedForm(cfg, n.whole);
    NumeralBound(n.whole);
    Pow10Grows(|n.whole|, 18);
    LargePowers();
  }

  lemma LargePowers()
    ensures Pow10(18) == 1_000_000_000_000_000_000
    ensures Pow10(19) == 10_000_000_000_000_000_000
  {
    assert Pow10(6) == 1_000_000;
    assert Pow10(12) == 1_000_000_000_000;
  }

  lemma {:induction false} Pow10Grows(a: nat, b: nat)
    requires a <= b
    ensures Pow10(a) <= Pow10(b)
  {
    if a < b {
      Pow10Grows(a, b - 1);
    }
  }

  // ---- Doubles ----

  /** The rational a text denotes: all its digits as one integer, shifted to where the point is. */
  function TextValue(n: Number): real
    requires Grammar(n)
  {
    var e: int := Numeral(ExpDigits(n));
    Signed(n.minus,
           Scale(Numeral(n.whole + FracDigits(n)) as real, |FracDigits(n)| + if ExpMinus(n) then e else 0 - e))
  }

  lemma DigitsShifted(whole: bytes, frac: bytes)
    requires Digits(whole) && Digits(frac)
    ensures Digits(whole + frac)
    ensures Scale(Numeral(whole + frac) as real, |frac|)
            == Numeral(whole) as real + Scale(Numeral(frac) as real, |frac|)
  {
    NumeralConcat(whole, frac);
    var i, f := Numeral(whole) * Pow10(|frac|), Numeral(frac);
    ScaleSum(i as real, f as real, |frac|);
    ScaleBack(Numeral(whole), |frac|);
  }

  lemma MantissaExact(cfg: Config, whole: bytes, frac: bytes)
    requires Digits(whole) && Digits(frac) && |frac| <= TABLE_MAX
    ensures Digits(whole + frac)
    ensures Mantissa(cfg, Numeral(whole), U64(Numeral(frac)), |frac|) == Scale(Numeral(whole + frac) as real, |frac|)
            <==> Numeral(frac) < 0x1_0000_0000_0000_0000
  {
    DigitsShifted(whole, frac);
    var f := Numeral(frac);
    if Scale(U64(f) as real, |frac|) == Scale(f as real, |frac|) {
      ScaleInjective(U64(f) as real, f as real, |frac|);
      assert U64(f) == f;
    }
  }

  lemma {:induction false} EvenPowers(n: nat, k: nat) returns (m: nat)
    requires k <= n
    ensures Pow10(n) == Pow2(k) * m
    decreases k
  {
    if k == 0 {
      m := Pow10(n);
    } else {
      var p := EvenPowers(n - 1, k - 1);
      m := 5 * p;
      assert Pow10(n) == 10 * (Pow2(k - 1) * p) == Pow2(k) * (5 * p);
    }
  }

  lemma RegisterSize()
    ensures Pow2(64) == 0x1_0000_0000_0000_0000
  {
    assert Pow2(8) == 0x100;
    assert Pow2(16) == 0x10000;
    assert Pow2(24) == 0x1000000;
    assert Pow2(32) == 0x100000000;
    assert Pow2(40) == 0x10000000000;
    assert Pow2(48) == 0x1000000000000;
    assert Pow2(56) == 0x100000000000000;
  }

  /** A power of ten from the 64th on is a multiple of 2^64. */
  lemma MultipleOfRegister(n: nat) returns (m: nat)
    requires n >= 64
    ensures Pow10(n) == 0x1_0000_0000_0000_0000 * m
  {
    RegisterSize();
    m := EvenPowers(n, 64);
  }

  lemma ShiftedByWrap(f: nat, q: nat)
    requires q >= 64 && U64(f) * Pow10(q) == f
    ensures f == 0
  {
    var m := MultipleOfRegister(q);
    var u := U64(f);
    Rearranged(u, m);
    WrapMultiple(0, u * m);
  }

  lemma Rearranged(u: nat, m: nat)
    ensures u * (0x1_0000_0000_0000_0000 * m) == 0x1_0000_0000_0000_0000 * (u * m)
  {
  }

  lemma WrapDistance(k: nat)
    requires U16(k) < k
    ensures k - U16(k) >= 0x1_0000
  {
  }

  /** A fraction register whose power register has wrapped holds the fraction only if that is zero. */
  lemma WrappedFraction(f: nat, k: nat)
    requires U16(k) < k
    ensures Scale(U64(f) as real, U16(k)) == Scale(f as real, k) <==> f == 0
  {
    var r, q := U16(k), k - U16(k);
    WrapDistance(k);
    if f == 0 {
      ScaleIsProduct(0.0, k);
      ScaleIsProduct(0.0, r);
    } else if Scale(U64(f) as real, r) == Scale(f as real, k) {
      ScaleTwice(f as real, q, r);
      ScaleInjective(U64(f) as real, Scale(f as real, q), r);
      ScaleBack(U64(f), q);
      ScaleInjective((U64(f) * Pow10(q)) as real, f as real, q);
      ShiftedByWrap(f, q);
    }
  }

  /** What the registers make of the digits is their value, if neither register has wrapped. */
  predicate NothingWrapped(frac: bytes)
    requires Digits(frac)
  {
    Numeral(frac) == 0 || (Numeral(frac) < 0x1_0000_0000_0000_0000 && |frac| < 0x1_0000)
  }

  lemma RegistersExact(cfg: Config, whole: bytes, frac: bytes)
    requires Digits(whole) && Digits(frac) && U16(|frac|) <= TABLE_MAX
    ensures Digits(whole + frac)
    ensures Mantissa(cfg, Numeral(whole), U64(Numeral(frac)), U16(|frac|))
            == Scale(Numeral(whole + frac) as real, |frac|)
            <==> NothingWrapped(frac)
  {
    if |frac| < 0x1_0000 {
      MantissaExact(cfg, whole, frac);
    } else {
      DigitsShifted(whole, frac);
      WrappedFraction(Numeral(frac), |frac|);
    }
  }

  /** The mantissa that is computed for `n`. */
  function MantissaOf(cfg: Config, n: Number): real
    requires Grammar(n)
  {
    Mantissa(cfg, Numeral(n.whole), U64(Numeral(FracDigits(n))), U16(|FracDigits(n)|))
  }

  /** All digits as one integer. */
  function AllDigits(n: Number): real
    requires Grammar(n)
  {
    Numeral(n.whole + FracDigits(n)) as real
  }

  /** The token of a number without an exponent. */
  lemma FractionToken(cfg: Config, n: Number)
    requires n.frac.Some? && n.exp.None? && Digits(n.whole) && Digits(FracDigits(n))
    ensures NumberToken(cfg, n)
            == Double(Signed(n.minus,
                             Mantissa(cfg, Numeral(n.whole), U64(Numeral(FracDigits(n))), U16(|FracDigits(n)|))))
  {
  }

  /** The exponent of a number, as a shift to the right. */
  function Shift(n: Number): int
    requires Grammar(n)
  {
    if ExpMinus(n) then Numeral(ExpDigits(n)) else 0 - Numeral(ExpDigits(n))
  }

  lemma ExponentToken(cfg: Config, n: Number)
    requires Grammar(n) && n.exp.Some?
    ensures NumberToken(cfg, n) == Double(Signed(n.minus, Scale(MantissaOf(cfg, n), Shift(n))))
  {
  }

  /** A double is exact if its mantissa is: sign and exponent do it no harm. */
  lemma MantissaDecides(cfg: Config, n: Number)
    requires Grammar(n) && !Integral(n)
    ensures NumberToken(cfg, n) == Double(TextValue(n))
            <==> MantissaOf(cfg, n) == Scale(AllDigits(n), |FracDigits(n)|)
  {
    var m, t, k := MantissaOf(cfg, n), AllDigits(n), |FracDigits(n)|;
    if n.exp.None? {
      FractionToken(cfg, n);
    } else {
      ExponentToken(cfg, n);
      ScaleTwice(t, k, Shift(n));
      if Scale(m, Shift(n)) == Scale(Scale(t, k), Shift(n)) {
        ScaleInjective(m, Scale(t, k), Shift(n));
      }
    }
  }

  /**
   * As long as the table has an entry for the number of digits, a delivered double is exactly the
   * rational its text denotes if and only if neither register of the fraction has wrapped: its
   * digits, read as an integer, are below 2^64, and their number is below 2^16. A fraction of
   * nothing but zeros may have any number of them.
   */
  lemma DoubleExact(cfg: Config, n: Number)
    requires Grammar(n) && !Integral(n) && U16(|FracDigits(n)|) <= TABLE_MAX
    ensures NumberToken(cfg, n) == Double(TextValue(n)) <==> NothingWrapped(FracDigits(n))
  {
    MantissaDecides(cfg, n);
    RegistersExact(cfg, n.whole, FracDigits(n));
  }

  /** Exact whatever is read beyond the end of the table. */
  ghost predicate CertainlyExact(cfg: Config, n: Number)
    requires Grammar(n)
  {
    forall b: nat -> real :: NumberToken(cfg.(beyond := b), n) == Double(TextValue(n))
  }

  lemma CertainInTable(cfg: Config, n: Number)
    requires Grammar(n) && !Integral(n) && U16(|FracDigits(n)|) <= TABLE_MAX
    ensures CertainlyExact(cfg, n) <==> NothingWrapped(FracDigits(n))
  {
    forall b: nat -> real
      ensures NumberToken(cfg.(beyond := b), n) == Double(TextValue(n)) <==> NothingWrapped(FracDigits(n))
    {
      DoubleExact(cfg.(beyond := b), n);
    }
    assert NumberToken(cfg.(beyond := cfg.beyond), n) == Double(TextValue(n)) <==> NothingWrapped(FracDigits(n));
  }

  lemma CertainIfZero(cfg: Config, n: Number)
    requires Grammar(n) && !Integral(n) && Numeral(FracDigits(n)) == 0
    ensures CertainlyExact(cfg, n)
  {
    forall b: nat -> real
      ensures NumberToken(cfg.(beyond := b), n) == Double(TextValue(n))
    {
      ZeroExact(cfg.(beyond := b), n);
    }
  }

  /**
   * Whatever is read beyond the end of the table, for all numbers: the delivered double is certain
   * to be exact if and only if the fraction is zero, or its digits fit 64 bits and the table.
   */
  lemma DoubleCertain(cfg: Config, n: Number)
    requires Grammar(n) && !Integral(n)
    ensures CertainlyExact(cfg, n)
            <==> var f := FracDigits(n);
                 Numeral(f) == 0 || (Numeral(f) < 0x1_0000_0000_0000_0000 && |f| <= TABLE_MAX)
  {
    var f := FracDigits(n);
    if Numeral(f) == 0 {
      CertainIfZero(cfg, n);
    } else if U16(|f|) <= TABLE_MAX {
      CertainInTable(cfg, n);
    } else {
      UncertainFraction(cfg, n);
    }
  }

  lemma NothingShifted(cfg: Config, k: nat)
    ensures Shifted(cfg, 0.0, k) == 0.0 && Scale(0.0, k) == 0.0
  {
    ScaleIsProduct(0.0, k);
  }

  lemma ZeroExact(cfg: Config, n: Number)
    requires Grammar(n) && !Integral(n) && Numeral(FracDigits(n)) == 0
    ensures NumberToken(cfg, n) == Double(TextValue(n))
  {
    MantissaDecides(cfg, n);
    DigitsShifted(n.whole, FracDigits(n));
    NothingShifted(cfg, |FracDigits(n)|);
    NothingShifted(cfg, U16(|FracDigits(n)|));
    assert U64(0) == 0;
  }

  /** Two contents of the memory beyond the table, of which one gives a wrong double. */
  lemma UncertainFraction(cfg: Config, n: Number)
    requires Grammar(n) && !Integral(n) && U16(|FracDigits(n)|) > TABLE_MAX && Numeral(FracDigits(n)) != 0
    ensures exists b: nat -> real :: NumberToken(cfg.(beyond := b), n) != Double(TextValue(n))
  {
    var zeros: nat -> real, ones: nat -> real := _ => 0.0, _ => 1.0;
    var c0, c1 := cfg.(beyond := zeros), cfg.(beyond := ones);
    MantissaDecides(c0, n);
    MantissaDecides(c1, n);
    if NumberToken(c0, n) == Double(TextValue(n)) && NumberToken(c1, n) == Double(TextValue(n)) {
      var f, k := Numeral(FracDigits(n)), |FracDigits(n)|;
      assert MantissaOf(c0, n) == MantissaOf(c1, n);
      assert U64(f) == 0;
      DigitsShifted(n.whole, FracDigits(n));
      ScaleIsProduct(0.0, k);
      ScaleInjective(f as real, 0.0, k);
    }
  }

  /** Up to 19 digits of fraction always fit. */
  lemma NineteenDigits(cfg: Config, n: Number)
    requires Grammar(n) && !Integral(n) && |FracDigits(n)| <= 19
    ensures NumberToken(cfg, n) == Double(TextValue(n))
  {
    DoubleExact(cfg, n);
    NumeralBound(FracDigits(n));
    Pow10Grows(|FracDigits(n)|, 19);
    assert |FracDigits(n)| < 0x1_0000;
    LargePowers();
  }

  // ---- The table ----

  /** The indices with which the table of 632 powers is read when a double is made. */
  function TableIndices(l: Lexer): seq<int> {
    [l.fracPower + 308]
    + if l.mode.InNumberExp? then [(if l.expMinus then l.expValue else 0 - l.expValue) + 308] else []
  }

  predicate InTable(l: Lexer) {
    forall i :: 0 <= i < |TableIndices(l)| ==> 0 <= TableIndices(l)[i] <= 631
  }

  /**
   * In every reachable state the exponent stays below 3240 even before it is checked, so its
   * register never wraps, and the entry for it is in the table. The entry for the fraction is
   * there if and only if the count of its digits is at most 323: the code does not test it.
   */
  lemma TableAccesses(cfg: Config, l: Lexer, b: byte)
    requires Inv(cfg, l) && (l.mode.InNumberFrac? || l.mode.InNumberExp?)
    ensures Digit(b) ==> U16(10 * l.expValue + DigitValue(b)) == 10 * l.expValue + DigitValue(b) < 3240
    ensures InTable(l) <==> l.fracPower <= TABLE_MAX
  {
    FractionDecides(l);
  }

  lemma FractionDecides(l: Lexer)
    requires l.expValue <= ExpLimit(l.expMinus)
    ensures InTable(l) <==> l.fracPower <= TABLE_MAX
  {
    assert TableIndices(l)[0] == l.fracPower + 308;
    if l.mode.InNumberExp? {
      assert TableIndices(l)[1] == (if l.expMinus then l.expValue else 0 - l.expValue) + 308;
    }
  }

  /**
   * The numbers for which the table is read past its end, when they are delivered in a push or at
   * the end of the input: those whose number of fraction digits, modulo 65536, is above 323.
   */
  lemma TableOverrun(cfg: Config, l: Lexer, n: Number)
    requires cfg.Valid() && Idle(l) && Grammar(n) && Limits(cfg, n) && !Integral(n)
    ensures Scan(cfg, l, NumberText(n)) == Scanned([], Go(Reading(l, n)))
    ensures Finish(cfg, Reading(l, n)).toks == [NumberToken(cfg, n)]
    ensures InTable(Reading(l, n)) <==> U16(|FracDigits(n)|) <= TABLE_MAX
  {
    CompleteIsGrammar(cfg, n);
    ScanNumber(cfg, l, n);
    DeliveredAtTheEnd(cfg, l, n);
    FractionDecides(Reading(l, n));
  }

  lemma DeliveredAtTheEnd(cfg: Config, l: Lexer, n: Number)
    requires Idle(l) && SoFar(cfg, n) && Complete(n)
    ensures Finish(cfg, Reading(l, n)).toks == [NumberToken(cfg, n)]
  {
    FinishOne(cfg, l, n);
  }
}
