/**
 * The number language. A `Number` is the text of a number cut into its parts; the registers of
 * the lexer are a function of that text, which gives both the language and the values.
 */
module Numbers {
  import opened Bytes
  import opened Decimal
  import opened Tokens
  import opened Documents
  import opened LexerMachine
  import opened Terminals

  datatype ExponentPart = ExponentPart(letter: byte, sign: bytes, digits: bytes)

  datatype Number = Number(minus: bool, whole: bytes, frac: Option<bytes>, exp: Option<ExponentPart>)

  const NO_NUMBER := Number(false, [], None, None)

  function FracText(frac: Option<bytes>): bytes {
    if frac.None? then [] else [DECIMAL_POINT] + frac.value
  }

  function ExpText(exp: Option<ExponentPart>): bytes {
    if exp.None? then [] else [exp.value.letter] + exp.value.sign + exp.value.digits
  }

  function NumberText(n: Number): bytes {
    (if n.minus then [MINUS_SIGN] else []) + n.whole + FracText(n.frac) + ExpText(n.exp)
  }

  // ---- The grammar, and the limits of the registers ----

  function FracDigits(n: Number): bytes { if n.frac.None? then [] else n.frac.value }
  function ExpDigits(n: Number): bytes { if n.exp.None? then [] else n.exp.value.digits }
  function ExpSign(n: Number): bytes { if n.exp.None? then [] else n.exp.value.sign }
  function ExpMinus(n: Number): bool { ExpSign(n) == [MINUS_SIGN] }

  predicate SignText(s: bytes) { s == [] || s == [MINUS_SIGN] || s == [PLUS_SIGN] }

  predicate Figures(ds: bytes) {
    forall i :: 0 <= i < |ds| ==> DecimalDigit(ds[i])
  }

  /** Section 6 of RFC 8259. */
  predicate Grammar(n: Number) {
    && n.whole != [] && Figures(n.whole) && (|n.whole| > 1 ==> n.whole[0] != ZERO_DIGIT)
    && (n.frac.Some? ==> n.frac.value != [] && Figures(n.frac.value))
    && (n.exp.Some? ==>
          && ExponentLetter(n.exp.value.letter)
          && SignText(n.exp.value.sign)
          && n.exp.value.digits != [] && Figures(n.exp.value.digits))
  }

  /** The guard against integer overflow passes at every digit after the first. */
  predicate IntFits(cfg: Config, ds: bytes)
    requires Digits(ds)
  {
    |ds| > 1 ==>
      && IntFits(cfg, ds[..|ds| - 1])
      && Numeral(ds[..|ds| - 1]) + DigitValue(ds[|ds| - 1]) <= cfg.intMax / 10
  }

  /** What the lexer can take of the grammar. Its count of fraction digits wraps at 65536. */
  predicate Limits(cfg: Config, n: Number)
    requires Grammar(n)
  {
    && IntFits(cfg, n.whole)
    && (n.frac.Some? ==> U16(|n.frac.value|) != 0)
    && Numeral(ExpDigits(n)) <= ExpLimit(ExpMinus(n))
  }

  // ---- A number while it is being read ----

  /** The lexer has read `n`, maybe the beginning of a number, without complaint. */
  predicate SoFar(cfg: Config, n: Number) {
    && Digits(n.whole) && (|n.whole| > 1 ==> n.whole[0] != 0x30) && IntFits(cfg, n.whole)
    && (n.whole == [] ==> n.frac.None? && n.exp.None?)
    && Digits(FracDigits(n)) && Digits(ExpDigits(n))
    && (n.exp.Some? ==>
          && Exponent(n.exp.value.letter)
          && SignText(n.exp.value.sign)
          && (n.frac.Some? ==> U16(|n.frac.value|) != 0)
          && Numeral(ExpDigits(n)) <= ExpLimit(ExpMinus(n)))
  }

  /** `n` may be followed by something else. */
  predicate Complete(n: Number) {
    && n.whole != []
    && (n.frac.Some? ==> U16(|n.frac.value|) != 0)
    && (n.exp.Some? ==> n.exp.value.digits != [])
  }

  /** `n` may end the input: `embedjson_lexer_finalize` does not ask for digits. */
  predicate EndsInput(n: Number) {
    && n.whole != []
    && (n.exp.Some? ==> n.exp.value.sign + n.exp.value.digits != [])
  }

  lemma CompleteIsGrammar(cfg: Config, n: Number)
    ensures SoFar(cfg, n) && Complete(n) <==> Grammar(n) && Limits(cfg, n)
  {
    assert |FracDigits(n)| == 0 ==> U16(|FracDigits(n)|) == 0;
  }

  function Phase(n: Number): Mode {
    if n.exp.Some? then
      if n.exp.value.sign == [] && n.exp.value.digits == [] then InNumberExpSign else InNumberExp
    else if n.frac.Some? then InNumberFrac
    else if n.whole != [] then InNumber
    else if n.minus then InNumberSign
    else LookupToken
  }

  /** The lexer once it has read `n`, started in `l`. */
  function Reading(l: Lexer, n: Number): Lexer
    requires Digits(n.whole) && Digits(FracDigits(n)) && Digits(ExpDigits(n))
  {
    l.(mode := Phase(n),
       minus := n.minus,
       intValue := Numeral(n.whole),
       fracValue := U64(Numeral(FracDigits(n))),
       fracPower := U16(|FracDigits(n)|),
       expMinus := ExpMinus(n),
       expValue := Numeral(ExpDigits(n)),
       expNotEmpty := ExpDigits(n) != [])
  }

  /** Between tokens, with no number left over from earlier ones. */
  predicate Idle(l: Lexer) {
    l.mode.LookupToken? && NoNumber(l)
  }

  /** Can `b` continue `n`, as opposed to ending it? */
  predicate Extends(n: Number, b: byte) {
    match Phase(n)
    case LookupToken => b == MINUS || Digit(b)
    case InNumberSign => Digit(b)
    case InNumber => Digit(b) || b == DOT || Exponent(b)
    case InNumberFrac => Digit(b) || Exponent(b)
    case InNumberExpSign => b == MINUS || b == PLUS || Digit(b)
    case _ => Digit(b)
  }

  function Append(n: Number, b: byte): Number
    requires Extends(n, b)
  {
    if n.exp.Some? then
      var e := n.exp.value;
      n.(exp := Some(if Digit(b) then e.(digits := e.digits + [b]) else e.(sign := [b])))
    else if Exponent(b) then n.(exp := Some(ExponentPart(b, [], [])))
    else if n.frac.Some? then n.(frac := Some(n.frac.value + [b]))
    else if b == DOT then n.(frac := Some([]))
    else if b == MINUS then n.(minus := true)
    else n.(whole := n.whole + [b])
  }

  lemma Snoc(a: bytes, b: bytes, c: bytes)
    ensures a + (b + c) == (a + b) + c
  {
  }

  lemma AppendExpText(n: Number, b: byte)
    requires Extends(n, b) && n.exp.Some?
    requires !Digit(b) ==> n.exp.value.digits == [] && n.exp.value.sign == []
    ensures ExpText(Append(n, b).exp) == ExpText(n.exp) + [b]
  {
    var e := n.exp.value;
    if Digit(b) {
      Snoc([e.letter] + e.sign, e.digits, [b]);
    }
  }

  lemma AppendText(n: Number, b: byte)
    requires Extends(n, b) && (n.whole == [] ==> n.frac.None? && n.exp.None?)
    ensures NumberText(Append(n, b)) == NumberText(n) + [b]
  {
    var sign := if n.minus then [MINUS] else [];
    if n.exp.Some? {
      AppendExpText(n, b);
      Snoc(sign + n.whole + FracText(n.frac), ExpText(n.exp), [b]);
    } else if Exponent(b) {
      assert ExpText(Append(n, b).exp) == [b];
    } else if n.frac.Some? {
      Snoc([DOT], n.frac.value, [b]);
      Snoc(sign + n.whole, FracText(n.frac), [b]);
    } else if b == DOT {
      assert FracText(Append(n, b).frac) == [DOT];
    } else if Digit(b) {
      Snoc(sign, n.whole, [b]);
    }
  }

  lemma {:induction false} WrapMultiple(a: nat, k: nat)
    ensures U64(a + 0x1_0000_0000_0000_0000 * k) == U64(a)
  {
    if k > 0 {
      WrapMultiple(a, k - 1);
      var y := a + 0x1_0000_0000_0000_0000 * (k - 1);
      assert U64(y + 0x1_0000_0000_0000_0000) == U64(y);
    }
  }

  lemma U64Digit(x: nat, d: nat)
    ensures U64(10 * U64(x) + d) == U64(10 * x + d)
  {
    var q := x / 0x1_0000_0000_0000_0000;
    WrapMultiple(10 * U64(x) + d, 10 * q);
  }

  /** The numeral's first digit is not a zero, so its value is not zero. */
  lemma {:induction false} LeadingDigit(ds: bytes)
    requires Digits(ds) && ds != []
    ensures ds[0] != 0x30 ==> Numeral(ds) > 0
    ensures |ds| == 1 ==> Numeral(ds) == DigitValue(ds[0])
  {
    if |ds| > 1 {
      LeadingDigit(ds[..|ds| - 1]);
    }
  }

  /** Reading `b` in state `l` leads to the state for `n`, silently, if `n` is fine so far; else to an error. */
  predicate Reads(cfg: Config, l: Lexer, from: Lexer, b: byte, n: Number) {
    if SoFar(cfg, n) then Step(cfg, from, b) == Scanned([], Go(Reading(l, n)))
    else Step(cfg, from, b).toks == [] && Step(cfg, from, b).next.Stop?
  }

  lemma ReadWholeDigit(cfg: Config, l: Lexer, n: Number, b: byte)
    requires cfg.Valid() && Idle(l) && SoFar(cfg, n) && Extends(n, b)
    requires n.frac.None? && n.exp.None? && Digit(b)
    ensures Reads(cfg, l, Reading(l, n), b, Append(n, b))
  {
    NumeralSnoc(n.whole, b);
    var ds := n.whole + [b];
    assert ds[..|ds| - 1] == n.whole;
    assert IntFits(cfg, ds) <==> n.whole == [] || Numeral(n.whole) + DigitValue(b) <= cfg.intMax / 10;
    if n.whole != [] {
      LeadingDigit(n.whole);
    }
  }

  lemma ReadWhole(cfg: Config, l: Lexer, n: Number, b: byte)
    requires cfg.Valid() && Idle(l) && SoFar(cfg, n) && Extends(n, b)
    requires n.frac.None? && n.exp.None?
    ensures Reads(cfg, l, Reading(l, n), b, Append(n, b))
  {
    if Digit(b) {
      ReadWholeDigit(cfg, l, n, b);
    }
  }

  lemma ReadFrac(cfg: Config, l: Lexer, n: Number, b: byte)
    requires Idle(l) && SoFar(cfg, n) && Extends(n, b)
    requires n.frac.Some? && n.exp.None?
    ensures Reads(cfg, l, Reading(l, n), b, Append(n, b))
  {
    if Digit(b) {
      var f := n.frac.value;
      NumeralSnoc(f, b);
      U64Digit(Numeral(f), DigitValue(b));
      U16Next(|f|);
      assert SoFar(cfg, Append(n, b));
    }
  }

  lemma U16Next(k: nat)
    ensures U16(U16(k) + 1) == U16(k + 1)
  {
  }

  lemma ExpDigitFits(cfg: Config, n: Number, b: byte)
    requires SoFar(cfg, n) && n.exp.Some? && Digit(b)
    ensures var e := 10 * Numeral(n.exp.value.digits) + DigitValue(b);
            && U16(e) == e
            && Digits(n.exp.value.digits + [b]) && Numeral(n.exp.value.digits + [b]) == e
            && (n.exp.value.digits == [] ==> e == DigitValue(b))
  {
    NumeralSnoc(n.exp.value.digits, b);
  }

  /** The registers after one more digit of the exponent. */
  lemma ExpDigitRegisters(cfg: Config, l: Lexer, n: Number, b: byte)
    requires SoFar(cfg, n) && Extends(n, b) && n.exp.Some? && Digit(b)
    ensures var m, e := Append(n, b), 10 * Numeral(n.exp.value.digits) + DigitValue(b);
            && (SoFar(cfg, m) <==> e <= ExpLimit(ExpMinus(n)))
            && Digits(m.whole) && Digits(FracDigits(m)) && Digits(ExpDigits(m))
            && Reading(l, m) == Reading(l, n).(mode := InNumberExp, expValue := e, expNotEmpty := true)
  {
    ExpDigitFits(cfg, n, b);
    ExpDigitParts(n, b);
  }

  /** One more digit of the exponent changes nothing but that. */
  lemma ExpDigitParts(n: Number, b: byte)
    requires Extends(n, b) && n.exp.Some? && Digit(b)
    ensures var m := Append(n, b);
            && m.whole == n.whole && m.frac == n.frac && m.minus == n.minus && m.exp.Some?
            && m.exp.value.letter == n.exp.value.letter && ExpSign(m) == ExpSign(n)
            && ExpDigits(m) == ExpDigits(n) + [b] && Phase(m) == InNumberExp
  {
  }

  lemma ReadFirstExpDigit(cfg: Config, l: Lexer, n: Number, b: byte)
    requires Idle(l) && SoFar(cfg, n) && Extends(n, b)
    requires n.exp.Some? && Digit(b) && Phase(n).InNumberExpSign?
    ensures Reads(cfg, l, Reading(l, n), b, Append(n, b))
  {
    ExpDigitFits(cfg, n, b);
    ExpDigitRegisters(cfg, l, n, b);
    assert Step(cfg, Reading(l, n), b) == Scanned([], ExpSignByte(Reading(l, n), b).next);
  }

  lemma ExpDigitStep(cfg: Config, r: Lexer, b: byte, e: nat)
    requires r.mode.InNumberExp? && Digit(b) && U16(10 * r.expValue + DigitValue(b)) == e
    ensures Step(cfg, r, b)
            == if e > ExpLimit(r.expMinus) then Scanned([], Stop(ExponentOverflow))
               else Scanned([], Go(r.(expValue := e, expNotEmpty := true)))
  {
    assert Iterate(cfg, r, b) == ExpByte(cfg, r, b);
  }

  lemma ReadExpDigit(cfg: Config, l: Lexer, n: Number, b: byte)
    requires Idle(l) && SoFar(cfg, n) && Extends(n, b)
    requires n.exp.Some? && Digit(b) && Phase(n).InNumberExp?
    ensures Reads(cfg, l, Reading(l, n), b, Append(n, b))
  {
    ExpDigitFits(cfg, n, b);
    ExpDigitRegisters(cfg, l, n, b);
    ExpDigitStep(cfg, Reading(l, n), b, 10 * Numeral(n.exp.value.digits) + DigitValue(b));
  }

  lemma ReadExp(cfg: Config, l: Lexer, n: Number, b: byte)
    requires Idle(l) && SoFar(cfg, n) && Extends(n, b)
    requires n.exp.Some?
    ensures Reads(cfg, l, Reading(l, n), b, Append(n, b))
  {
    if Phase(n).InNumberExp? {
      ReadExpDigit(cfg, l, n, b);
    } else if Digit(b) {
      ReadFirstExpDigit(cfg, l, n, b);
    } else {
      assert n.exp.value.digits == [] && n.exp.value.sign == [];
    }
  }

  lemma ReadOne(cfg: Config, l: Lexer, n: Number, b: byte)
    requires cfg.Valid() && Idle(l) && SoFar(cfg, n) && Extends(n, b)
    ensures Reads(cfg, l, Reading(l, n), b, Append(n, b))
  {
    if n.exp.Some? {
      ReadExp(cfg, l, n, b);
    } else if n.frac.Some? {
      ReadFrac(cfg, l, n, b);
    } else {
      ReadWhole(cfg, l, n, b);
    }
  }

  /** The token of a number, computed from the registers as the text leaves them. */
  function NumberToken(cfg: Config, n: Number): Token
    requires Digits(n.whole) && Digits(FracDigits(n)) && Digits(ExpDigits(n))
  {
    var l := Reading(FRESH, n);
    if n.exp.Some? then ExpToken(cfg, l) else if n.frac.Some? then FracToken(cfg, l) else IntToken(l)
  }

  predicate Ends(cfg: Config, l: Lexer, n: Number, b: byte)
    requires Digits(n.whole) && Digits(FracDigits(n)) && Digits(ExpDigits(n))
  {
    var s := Step(cfg, Reading(l, n), b);
    if Complete(n) then s == After([NumberToken(cfg, n)], Step(cfg, l, b)) else s.toks == [] && s.next.Stop?
  }

  lemma EndNumberResets(l: Lexer, n: Number, t: Token)
    requires Idle(l) && Digits(n.whole) && Digits(FracDigits(n)) && Digits(ExpDigits(n)) && Complete(n)
    ensures EndNumber(t, Reading(l, n)) == Iteration([t], Go(l), true)
  {
  }

  lemma ExpTokenOfText(cfg: Config, l: Lexer, n: Number)
    requires n.exp.Some? && Digits(n.whole) && Digits(FracDigits(n)) && Digits(ExpDigits(n))
    ensures ExpToken(cfg, Reading(l, n)) == NumberToken(cfg, n)
  {
  }

  lemma EndWhole(cfg: Config, l: Lexer, n: Number, b: byte)
    requires Idle(l) && SoFar(cfg, n) && !Extends(n, b) && Complete(n)
    requires n.frac.None? && n.exp.None?
    ensures Iterate(cfg, Reading(l, n), b) == Iteration([NumberToken(cfg, n)], Go(l), true)
  {
    var r := Reading(l, n);
    EndNumberResets(l, n, IntToken(r));
    assert NumberByte(cfg, r, b) == EndNumber(IntToken(r), r);
  }

  lemma EndFrac(cfg: Config, l: Lexer, n: Number, b: byte)
    requires Idle(l) && SoFar(cfg, n) && !Extends(n, b) && Complete(n)
    requires n.frac.Some? && n.exp.None?
    ensures Iterate(cfg, Reading(l, n), b) == Iteration([NumberToken(cfg, n)], Go(l), true)
  {
    var r := Reading(l, n);
    EndNumberResets(l, n, FracToken(cfg, r));
    assert FracByte(cfg, r, b) == EndNumber(FracToken(cfg, r), r);
  }

  lemma EndExp(cfg: Config, l: Lexer, n: Number, b: byte)
    requires Idle(l) && SoFar(cfg, n) && !Extends(n, b) && Complete(n)
    requires n.exp.Some?
    ensures Iterate(cfg, Reading(l, n), b) == Iteration([NumberToken(cfg, n)], Go(l), true)
  {
    var r := Reading(l, n);
    EndNumberResets(l, n, ExpToken(cfg, r));
    assert r.mode == InNumberExp;
    assert Iterate(cfg, r, b) == ExpByte(cfg, r, b);
    assert ExpByte(cfg, r, b) == EndNumber(ExpToken(cfg, r), r);
    ExpTokenOfText(cfg, l, n);
  }

  lemma EndEarly(cfg: Config, l: Lexer, n: Number, b: byte)
    requires Idle(l) && SoFar(cfg, n) && !Phase(n).LookupToken? && !Extends(n, b) && !Complete(n)
    ensures Ends(cfg, l, n, b)
  {
  }

  /** A byte that does not continue the number ends it, and is then read as if there had been none. */
  lemma EndOne(cfg: Config, l: Lexer, n: Number, b: byte)
    requires Idle(l) && SoFar(cfg, n) && !Phase(n).LookupToken? && !Extends(n, b)
    ensures Ends(cfg, l, n, b)
  {
    if !Complete(n) {
      EndEarly(cfg, l, n, b);
    } else {
      if n.exp.Some? {
        EndExp(cfg, l, n, b);
      } else if n.frac.Some? {
        EndFrac(cfg, l, n, b);
      } else {
        EndWhole(cfg, l, n, b);
      }
      assert Step(cfg, l, b) == Scanned(Iterate(cfg, l, b).toks, Iterate(cfg, l, b).next);
    }
  }

  lemma FinishOne(cfg: Config, l: Lexer, n: Number)
    requires Idle(l) && SoFar(cfg, n) && !Phase(n).LookupToken?
    ensures var f := Finish(cfg, Reading(l, n));
            if EndsInput(n) then f.toks == [NumberToken(cfg, n)] && f.next.Go? else f.next.Stop?
  {
  }

  // ---- Reading a whole number ----

  /** `n` without its last byte. */
  function Shorter(n: Number): Number
    requires n != NO_NUMBER
  {
    if n.exp.Some? then
      var e := n.exp.value;
      n.(exp := if e.digits != [] then Some(e.(digits := e.digits[..|e.digits| - 1]))
                else if e.sign != [] then Some(e.(sign := []))
                else None)
    else if n.frac.Some? then
      n.(frac := if n.frac.value != [] then Some(n.frac.value[..|n.frac.value| - 1]) else None)
    else if n.whole != [] then n.(whole := n.whole[..|n.whole| - 1])
    else NO_NUMBER
  }

  function LastByte(n: Number): byte
    requires n != NO_NUMBER
  {
    if n.exp.Some? then
      var e := n.exp.value;
      if e.digits != [] then e.digits[|e.digits| - 1] else if e.sign != [] then e.sign[|e.sign| - 1] else e.letter
    else if n.frac.Some? then
      if n.frac.value != [] then n.frac.value[|n.frac.value| - 1] else DOT
    else if n.whole != [] then n.whole[|n.whole| - 1]
    else MINUS
  }

  lemma FrontAndLast(s: bytes)
    requires s != []
    ensures s == s[..|s| - 1] + [s[|s| - 1]]
  {
  }

  lemma ShorterExp(cfg: Config, n: Number)
    requires n.exp.Some? && SoFar(cfg, n)
    ensures SoFar(cfg, Shorter(n)) && Extends(Shorter(n), LastByte(n))
    ensures Append(Shorter(n), LastByte(n)) == n
  {
    if n.exp.value.digits != [] {
      FrontAndLast(n.exp.value.digits);
    }
  }

  lemma ShorterFrac(cfg: Config, n: Number)
    requires n.frac.Some? && n.exp.None? && SoFar(cfg, n)
    ensures SoFar(cfg, Shorter(n)) && Extends(Shorter(n), LastByte(n))
    ensures Append(Shorter(n), LastByte(n)) == n
  {
    if n.frac.value != [] {
      FrontAndLast(n.frac.value);
    }
  }

  lemma ShorterDigits(cfg: Config, ds: bytes)
    requires Digits(ds) && ds != [] && (|ds| > 1 ==> ds[0] != 0x30) && IntFits(cfg, ds)
    ensures var front := ds[..|ds| - 1];
            Digits(front) && (|front| > 1 ==> front[0] != 0x30) && IntFits(cfg, front) && Digit(ds[|ds| - 1])
  {
  }

  lemma WholeBackOn(n: Number)
    requires n.whole != [] && n.frac.None? && n.exp.None? && Digit(n.whole[|n.whole| - 1])
    ensures Extends(Shorter(n), LastByte(n)) && Append(Shorter(n), LastByte(n)) == n
  {
    FrontAndLast(n.whole);
  }

  lemma ShorterWhole(cfg: Config, n: Number)
    requires n != NO_NUMBER && n.frac.None? && n.exp.None? && SoFar(cfg, n)
    ensures SoFar(cfg, Shorter(n)) && Extends(Shorter(n), LastByte(n))
    ensures Append(Shorter(n), LastByte(n)) == n
  {
    if n.whole != [] {
      ShorterDigits(cfg, n.whole);
      WholeBackOn(n);
      assert Shorter(n) == n.(whole := n.whole[..|n.whole| - 1]);
    }
  }

  lemma ShorterAppends(cfg: Config, n: Number)
    requires n != NO_NUMBER && SoFar(cfg, n)
    ensures SoFar(cfg, Shorter(n)) && Extends(Shorter(n), LastByte(n))
    ensures Append(Shorter(n), LastByte(n)) == n
  {
    if n.exp.Some? {
      ShorterExp(cfg, n);
    } else if n.frac.Some? {
      ShorterFrac(cfg, n);
    } else {
      ShorterWhole(cfg, n);
    }
  }

  lemma ScanSnoc(cfg: Config, l: Lexer, bs: bytes, l': Lexer, b: byte)
    requires Scan(cfg, l, bs).next == Go(l')
    ensures Scan(cfg, l, bs + [b]) == After(Scan(cfg, l, bs).toks, Step(cfg, l', b))
  {
    ScanConcat(cfg, l, bs, [b]);
    var s := Step(cfg, l', b);
    assert s.toks + [] == s.toks;
    assert Scan(cfg, l', [b]) == s;
  }

  /** The lexer reads a number's text silently, and its registers then hold what the text says. */
  lemma {:induction false} ScanNumber(cfg: Config, l: Lexer, n: Number)
    requires cfg.Valid() && Idle(l) && SoFar(cfg, n)
    ensures Scan(cfg, l, NumberText(n)) == Scanned([], Go(Reading(l, n)))
    decreases |NumberText(n)|
  {
    if n == NO_NUMBER {
      assert NumberText(n) == [];
      assert Reading(l, n) == l;
    } else {
      var m, b := Shorter(n), LastByte(n);
      ShorterAppends(cfg, n);
      AppendText(m, b);
      ScanNumber(cfg, l, m);
      ReadOne(cfg, l, m, b);
      ScanSnoc(cfg, l, NumberText(m), Reading(l, m), b);
    }
  }

  lemma TextOfSomething(n: Number)
    requires n.whole == [] ==> n.frac.None? && n.exp.None?
    ensures NumberText(n) == [] <==> Phase(n).LookupToken?
  {
  }

  /** A byte that is read silently after the beginning of a number continues it. */
  lemma SilentStep(cfg: Config, l: Lexer, m: Number, b: byte)
    requires cfg.Valid() && Idle(l) && SoFar(cfg, m) && (m == NO_NUMBER ==> b == MINUS || Digit(b))
    requires Step(cfg, Reading(l, m), b).toks == [] && Step(cfg, Reading(l, m), b).next.Go?
    ensures Extends(m, b) && SoFar(cfg, Append(m, b))
  {
    if Extends(m, b) {
      ReadOne(cfg, l, m, b);
    } else {
      EndOne(cfg, l, m, b);
    }
  }

  lemma SilentParts(cfg: Config, l: Lexer, front: bytes, b: byte)
    requires Scan(cfg, l, front + [b]).toks == [] && Scan(cfg, l, front + [b]).next.Go?
    ensures var s := Scan(cfg, l, front);
            && s.toks == [] && s.next.Go?
            && Step(cfg, s.next.lexer, b).toks == [] && Step(cfg, s.next.lexer, b).next.Go?
  {
    ScanConcat(cfg, l, front, [b]);
    var s := Scan(cfg, l, front);
    if s.next.Go? {
      ScanSnoc(cfg, l, front, s.next.lexer, b);
    }
  }

  /** A silent run from the first byte of a number is the reading of the text of a number so far. */
  lemma {:induction false} SilentRunIsNumber(cfg: Config, l: Lexer, text: bytes) returns (n: Number)
    requires cfg.Valid() && Idle(l)
    requires text != [] ==> text[0] == MINUS || Digit(text[0])
    requires Scan(cfg, l, text).toks == [] && Scan(cfg, l, text).next.Go?
    ensures SoFar(cfg, n) && NumberText(n) == text
    decreases |text|
  {
    if text == [] {
      n := NO_NUMBER;
    } else {
      var front, b := text[..|text| - 1], text[|text| - 1];
      FrontAndLast(text);
      SilentParts(cfg, l, front, b);
      var m := SilentRunIsNumber(cfg, l, front);
      ScanNumber(cfg, l, m);
      SilentStep(cfg, l, m, b);
      AppendText(m, b);
      n := Append(m, b);
    }
  }

  predicate NoDigitFirst(x: bytes) { x == [] || !Digit(x[0]) }

  lemma SameDigits(a: bytes, x: bytes, b: bytes, y: bytes)
    requires a + x == b + y && Digits(a) && Digits(b) && NoDigitFirst(x) && NoDigitFirst(y)
    ensures a == b && x == y
  {
    if |a| < |b| {
      DigitAfter(a, x, b, y);
    } else if |b| < |a| {
      DigitAfter(b, y, a, x);
    }
    var s := a + x;
    assert a == s[..|a|] && b == s[..|b|] && x == s[|a|..] && y == s[|b|..];
  }

  lemma DigitAfter(a: bytes, x: bytes, b: bytes, y: bytes)
    requires a + x == b + y && Digits(b) && |a| < |b|
    ensures !NoDigitFirst(x)
  {
    assert (a + x)[|a|] == x[0] && (b + y)[|a|] == b[|a|];
  }

  lemma SameExp(n: Number, m: Number)
    requires Grammar(n) && Grammar(m) && ExpText(n.exp) == ExpText(m.exp)
    ensures n.exp == m.exp
  {
    if n.exp.Some? && m.exp.Some? {
      var a, b := n.exp.value, m.exp.value;
      var s := ExpText(n.exp);
      assert s[0] == a.letter == b.letter;
      assert s[1] == (a.sign + a.digits)[0] && s[1] == (b.sign + b.digits)[0];
      assert a.sign == b.sign;
      assert a.digits == s[1 + |a.sign|..] && b.digits == s[1 + |b.sign|..];
    }
  }

  lemma AfterDot(f: bytes, e: bytes)
    ensures ([DOT] + f + e)[1..] == f + e
  {
  }

  lemma SameFracDigits(f: bytes, x: bytes, g: bytes, y: bytes)
    requires [DOT] + f + x == [DOT] + g + y && Digits(f) && Digits(g) && NoDigitFirst(x) && NoDigitFirst(y)
    ensures f == g && x == y
  {
    AfterDot(f, x);
    AfterDot(g, y);
    SameDigits(f, x, g, y);
  }

  lemma NothingBefore(x: bytes)
    ensures [] + x == x
  {
  }

  lemma SameFrac(n: Number, m: Number)
    requires Grammar(n) && Grammar(m)
    requires FracText(n.frac) + ExpText(n.exp) == FracText(m.frac) + ExpText(m.exp)
    ensures n.frac == m.frac && ExpText(n.exp) == ExpText(m.exp)
  {
    DotMeansFrac(n);
    DotMeansFrac(m);
    if n.frac.Some? {
      SameFracDigits(n.frac.value, ExpText(n.exp), m.frac.value, ExpText(m.exp));
    } else {
      NothingBefore(ExpText(n.exp));
      NothingBefore(ExpText(m.exp));
    }
  }

  lemma DotMeansFrac(n: Number)
    requires Grammar(n)
    ensures var s := FracText(n.frac) + ExpText(n.exp);
            && NoDigitFirst(s) && NoDigitFirst(ExpText(n.exp))
            && (n.frac.Some? <==> s != [] && s[0] == DOT)
  {
    assert n.exp.Some? ==> ExpText(n.exp)[0] == n.exp.value.letter;
  }

  lemma MinusMeansSign(n: Number)
    requires Grammar(n)
    ensures var s, x := NumberText(n), FracText(n.frac) + ExpText(n.exp);
            && s != [] && (n.minus <==> s[0] == MINUS)
            && s[if n.minus then 1 else 0..] == n.whole + x
  {
    var x := FracText(n.frac) + ExpText(n.exp);
    assert NumberText(n) == (if n.minus then [MINUS] else []) + (n.whole + x);
    assert (n.whole + x)[0] == n.whole[0];
  }

  /** The grammar is unambiguous: a text is that of one number only. */
  lemma NumberUnique(n: Number, m: Number)
    requires Grammar(n) && Grammar(m) && NumberText(n) == NumberText(m)
    ensures n == m
  {
    var x, y := FracText(n.frac) + ExpText(n.exp), FracText(m.frac) + ExpText(m.exp);
    MinusMeansSign(n);
    MinusMeansSign(m);
    DotMeansFrac(n);
    DotMeansFrac(m);
    SameDigits(n.whole, x, m.whole, y);
    SameFrac(n, m);
    SameExp(n, m);
  }

  /** A byte that ends a number and is a token or white space by itself. */
  predicate Delimiter(b: byte) { White(b) || Structural(b) }

  /** Reading `text` reports nothing, and the delimiter after it makes it one number. */
  predicate ReadAsNumber(cfg: Config, l: Lexer, text: bytes, d: byte, t: Token) {
    && Scan(cfg, l, text).toks == []
    && Scan(cfg, l, text + [d]) == After([t], Step(cfg, l, d))
    && (t.Int? || t.Double?)
  }

  lemma AfterNothing(s: Scanned)
    ensures After([], s) == s
  {
    assert [] + s.toks == s.toks;
  }

  lemma NumberTokenKind(cfg: Config, n: Number)
    requires Digits(n.whole) && Digits(FracDigits(n)) && Digits(ExpDigits(n))
    ensures NumberToken(cfg, n).Int? || NumberToken(cfg, n).Double?
  {
  }

  /** The delimiter after a number's text ends it. */
  lemma NumberThenDelimiter(cfg: Config, l: Lexer, n: Number, d: byte)
    requires cfg.Valid() && Idle(l) && Delimiter(d) && SoFar(cfg, n) && Complete(n)
    ensures Scan(cfg, l, NumberText(n) + [d]) == After([NumberToken(cfg, n)], Step(cfg, l, d))
  {
    ScanNumber(cfg, l, n);
    DelimiterEnds(cfg, l, n, d);
    EndOne(cfg, l, n, d);
    ScanSnoc(cfg, l, NumberText(n), Reading(l, n), d);
    AfterNothing(Step(cfg, Reading(l, n), d));
  }

  lemma NumberIsRead(cfg: Config, l: Lexer, n: Number, d: byte)
    requires cfg.Valid() && Idle(l) && Delimiter(d)
    requires Grammar(n) && Limits(cfg, n)
    ensures ReadAsNumber(cfg, l, NumberText(n), d, NumberToken(cfg, n))
  {
    CompleteIsGrammar(cfg, n);
    ScanNumber(cfg, l, n);
    NumberThenDelimiter(cfg, l, n, d);
    NumberTokenKind(cfg, n);
  }

  lemma SameHead(t: Token, u: Token, s: Scanned)
    requires After([t], s) == After([], After([u], s))
    ensures t == u
  {
    assert After([t], s).toks[0] == t && After([], After([u], s)).toks[0] == u;
  }

  lemma DelimiterEnds(cfg: Config, l: Lexer, n: Number, d: byte)
    requires Idle(l) && Delimiter(d)
    ensures Step(cfg, l, d).next.Go? && !Extends(n, d)
  {
  }

  lemma OnlyNumbersAreRead(cfg: Config, l: Lexer, text: bytes, d: byte, t: Token) returns (n: Number)
    requires cfg.Valid() && Idle(l) && Delimiter(d)
    requires text != [] && (text[0] == MINUS || Digit(text[0]))
    requires ReadAsNumber(cfg, l, text, d, t)
    ensures NumberText(n) == text && Grammar(n) && Limits(cfg, n) && t == NumberToken(cfg, n)
  {
    DelimiterEnds(cfg, l, NO_NUMBER, d);
    ScanConcat(cfg, l, text, [d]);
    n := SilentRunIsNumber(cfg, l, text);
    DelimiterEnds(cfg, l, n, d);
    ScanNumber(cfg, l, n);
    TextOfSomething(n);
    EndOne(cfg, l, n, d);
    ScanSnoc(cfg, l, text, Reading(l, n), d);
    CompleteIsGrammar(cfg, n);
    if Complete(n) {
      SameHead(t, NumberToken(cfg, n), Step(cfg, l, d));
    }
  }

  /**
   * The number language. Whatever came before, a text that begins like a number is read as one
   * number, up to the delimiter, exactly when it is in the grammar of RFC 8259 and within the
   * limits of the registers; and the token is that of the text.
   */
  lemma NumberLanguage(cfg: Config, l: Lexer, text: bytes, d: byte)
    requires cfg.Valid() && Idle(l) && Delimiter(d)
    requires text != [] && (text[0] == MINUS || Digit(text[0]))
    ensures forall t :: ReadAsNumber(cfg, l, text, d, t)
                        <==> exists n :: NumberText(n) == text && Grammar(n) && Limits(cfg, n)
                                         && t == NumberToken(cfg, n)
  {
    forall t | ReadAsNumber(cfg, l, text, d, t)
      ensures exists n :: NumberText(n) == text && Grammar(n) && Limits(cfg, n) && t == NumberToken(cfg, n)
    {
      var n := OnlyNumbersAreRead(cfg, l, text, d, t);
    }
    forall n | NumberText(n) == text && Grammar(n) && Limits(cfg, n)
      ensures ReadAsNumber(cfg, l, text, d, NumberToken(cfg, n))
    {
      NumberIsRead(cfg, l, n, d);
    }
  }
}
