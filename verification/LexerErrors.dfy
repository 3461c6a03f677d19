/**
 * What the lexer's error codes say: the places at which an input can stand that has met no error,
 * told by the text being read, and the byte that gives each code at each place.
 */
module LexerErrors {
  import opened Bytes
  import opened Decimal
  import opened Tokens
  import opened LexerMachine
  import opened Numbers
  import opened Strings
  import opened PrintedStrings
  import opened Layouts
  import opened Terminals

  /**
   * Between two tokens; k letters into a word; in a number, of which `n` has been read; between two
   * pieces of a string, or right after a loose lead; where k continuation bytes are pending, or the
   * second byte after a lead that restricts it; and in an escape.
   */
  datatype Place =
    | Start
    | Word(t: Token, k: nat)
    | Numeric(n: Number)
    | Body
    | AfterLoose
    | Missing(k: nat)
    | Second(lead: byte)
    | Backslash
    | Hexadecimal(h: bytes)

  /** The end of the input that the place accounts for. */
  function PlaceText(p: Place): bytes {
    match p
    case Word(t, k) => if k <= |FixedText(t)| then FixedText(t)[..k] else []
    case Numeric(n) => NumberText(n)
    case Second(lead) => [lead]
    case Backslash => [0x5C]
    case Hexadecimal(h) => [0x5C, 0x75] + h
    case _ => []
  }

  // ---- The byte that gives a code ----

  /** The bytes with which a token can begin, and white space. */
  predicate CanStart(b: byte) {
    White(b) || Structural(b) || b == 0x22 || b == 0x74 || b == 0x66 || b == 0x6E || b == 0x2D || DecimalDigit(b)
  }

  /** The second bytes that E0, F0 and F4 admit. */
  predicate MayFollow(lead: byte, b: byte) {
    match lead
    case 0xE0 => 0xA0 <= b <= 0xBF
    case 0xF0 => 0x90 <= b <= 0x9F || 0xB0 <= b <= 0xBF
    case 0xF4 => 0x80 <= b <= 0x8F
    case _ => Utf8Tail(b)
  }

  function BadWord(t: Token): Error {
    if t.True? then BadTrue else if t.False? then BadFalse else BadNull
  }

  function EndInWord(t: Token): Error {
    if t.True? then EofInTrue else if t.False? then EofInFalse else EofInNull
  }

  predicate OnlyDigits(n: Number) { n.whole != [] && n.frac.None? && n.exp.None? }
  predicate OnlyMinus(n: Number) { n == NO_NUMBER.(minus := true) }
  predicate OnlyLetter(n: Number) { n.exp.Some? && ExpSign(n) == [] && ExpDigits(n) == [] }

  /** In the middle of a number. */
  predicate NumberFault(cfg: Config, n: Number, b: byte, e: Error)
    requires Digits(n.whole) && Digits(ExpDigits(n))
  {
    match e
    case EofInString => OnlyMinus(n) && !DecimalDigit(b)
    case LeadingZero => OnlyDigits(n) && n.whole == [0x30] && DecimalDigit(b)
    case IntOverflow =>
      OnlyDigits(n) && n.whole != [0x30] && DecimalDigit(b) && Numeral(n.whole) + (b as int - 0x30) > cfg.intMax / 10
    case EmptyFrac => n.frac.Some? && n.exp.None? && U16(|n.frac.value|) == 0 && !DecimalDigit(b)
    case BadExponent => OnlyLetter(n) && !DecimalDigit(b) && b != 0x2B && b != 0x2D
    case EmptyExp => n.exp.Some? && ExpDigits(n) == [] && ExpSign(n) != [] && !DecimalDigit(b)
    case ExponentOverflow =>
      n.exp.Some? && DecimalDigit(b)
      && 10 * Numeral(ExpDigits(n)) + (b as int - 0x30) > if ExpSign(n) == [0x2D] then 323 else 308
    case _ => false
  }

  predicate StartFault(b: byte, e: Error) {
    match e
    case LeadingPlus => b == 0x2B
    case UnexpSymbol => !CanStart(b) && b != 0x2B
    case _ => false
  }

  /** The code e, for the byte b. */
  predicate Fault(cfg: Config, p: Place, b: byte, e: Error)
    requires p.Numeric? ==> Digits(p.n.whole) && Digits(ExpDigits(p.n))
  {
    match p
    case Start => StartFault(b, e)
    case Word(t, k) => k < |FixedText(t)| && b != FixedText(t)[k] && e == BadWord(t)
    case Numeric(n) => NumberFault(cfg, n, b, e) || (Complete(n) && !Extends(n, b) && StartFault(b, e))
    case Body => (e == BadUtf8 && b < 0x20) || (e == LongUtf8 && b >= 0xF8)
    case AfterLoose => e == LongUtf8 && b >= 0xF8
    case Missing(_) => e == BadUtf8 && !Utf8Tail(b)
    case Second(lead) => e == BadUtf8 && !MayFollow(lead, b)
    case Backslash => e == BadEscape && b != 0x75 && forall c: byte :: !EscapePair(b, c)
    case Hexadecimal(_) => e == BadUnicodeEscape && !HexDigit(b)
  }

  /** The code e, for the end of the input. */
  predicate EndFault(p: Place, e: Error) {
    match p
    case Start => false
    case Word(t, _) => e == EndInWord(t)
    case Numeric(n) => (OnlyMinus(n) && e == EofInString) || (OnlyLetter(n) && e == EofInExponent)
    case _ => e == EofInString
  }

  // ---- The lexer at a place ----

  /** The lexer without the word or number being read. */
  function Home(r: Lexer): Lexer {
    r.(mode := LookupToken, minus := false, expMinus := false, expNotEmpty := false,
       intValue := 0, fracValue := 0, fracPower := 0, expValue := 0)
  }

  predicate InBody(r: Lexer, mode: Mode, nb: nat, cc: nat) {
    r.mode == mode && NoNumber(r) && r.nb == nb && r.cc == cc
  }

  predicate StandsAt(cfg: Config, r: Lexer, p: Place) {
    match p
    case Start => Resting(r, r.nb)
    case Word(t, k) =>
      IsKeyword(t) && 1 <= k < |Keyword(t)| && Resting(Home(r), r.nb) && r == InKeyword(Home(r), t, k)
    case Numeric(n) =>
      SoFar(cfg, n) && !Phase(n).LookupToken? && Resting(Home(r), r.nb) && r == Reading(Home(r), n)
    case Body => InBody(r, InString, 0, 0)
    case AfterLoose => InBody(r, InString, 3, 0)
    case Missing(k) => (k == 1 || k == 2) && InBody(r, InString, k, 0)
    case Second(lead) =>
      || (lead == 0xE0 && InBody(r, InString, 2, 1))
      || (lead == 0xF0 && InBody(r, InString, 3, 2))
      || (lead == 0xF4 && InBody(r, InString, 3, 3))
    case Backslash => (r.nb == 0 || r.nb == 2) && InBody(r, InStringEscape, r.nb, 0)
    case Hexadecimal(h) =>
      && |h| < 4 && r.offset == |h| && (forall i :: 0 <= i < |h| ==> HexDigit(h[i]))
      && (r.nb == 0 || r.nb == 2) && InBody(r, InStringUnicodeEscape, r.nb, 0)
  }

  /** The end of `bs` is `x`. */
  predicate EndsWith(bs: bytes, x: bytes) {
    |x| <= |bs| && bs[|bs| - |x|..] == x
  }

  // ---- Codes ----

  lemma StartFaults(cfg: Config, r: Lexer, b: byte, e: Error)
    requires Idle(r)
    ensures Step(cfg, r, b).next == Stop(e) <==> StartFault(b, e)
  {
  }

  lemma WordFaults(cfg: Config, r: Lexer, t: Token, k: nat, b: byte, e: Error)
    requires StandsAt(cfg, r, Word(t, k))
    ensures Step(cfg, r, b).next == Stop(e) <==> Fault(cfg, Word(t, k), b, e)
  {
  }

  lemma BodyFaults(cfg: Config, r: Lexer, p: Place, b: byte, e: Error)
    requires StandsAt(cfg, r, p) && (p.Body? || p.AfterLoose? || p.Missing? || p.Second?)
    ensures Step(cfg, r, b).next == Stop(e) <==> Fault(cfg, p, b, e)
  {
    StringStep(cfg, r, b);
  }

  lemma EscapeFaults(cfg: Config, r: Lexer, p: Place, b: byte, e: Error)
    requires StandsAt(cfg, r, p) && p.Backslash?
    ensures Step(cfg, r, b).next == Stop(e) <==> Fault(cfg, p, b, e)
  {
    forall c: byte
      ensures Unescaped(b) == [c] <==> EscapePair(b, c)
    {
      ShortEscapes(b, c);
    }
    assert Unescaped(b) != [] ==> Unescaped(b) == [Unescaped(b)[0]];
    assert Step(cfg, r, b) == Scanned(EscapeByte(r, b).toks, EscapeByte(r, b).next);
  }

  lemma HexFaults(cfg: Config, r: Lexer, p: Place, b: byte, e: Error)
    requires StandsAt(cfg, r, p) && p.Hexadecimal?
    ensures Step(cfg, r, b).next == Stop(e) <==> Fault(cfg, p, b, e)
  {
    LexerTests(b);
    assert Step(cfg, r, b) == Scanned(UnicodeByte(r, b).toks, UnicodeByte(r, b).next);
  }

  // In a number, by the part that is being read.

  lemma SignFaults(cfg: Config, l: Lexer, n: Number, b: byte, e: Error)
    requires Idle(l) && SoFar(cfg, n) && Phase(n).InNumberSign?
    ensures Step(cfg, Reading(l, n), b).next == Stop(e) <==> NumberFault(cfg, n, b, e)
  {
    assert Iterate(cfg, Reading(l, n), b) == SignByte(Reading(l, n), b);
  }

  lemma OneZero(ds: bytes)
    requires Digits(ds) && ds != [] && (|ds| > 1 ==> ds[0] != 0x30)
    ensures Numeral(ds) == 0 <==> ds == [0x30]
  {
    LeadingDigit(ds);
  }

  lemma WholeFaults(cfg: Config, l: Lexer, n: Number, b: byte, e: Error)
    requires cfg.Valid() && Idle(l) && SoFar(cfg, n) && Phase(n).InNumber? && Extends(n, b)
    ensures Step(cfg, Reading(l, n), b).next == Stop(e) <==> NumberFault(cfg, n, b, e)
  {
    OneZero(n.whole);
    assert Iterate(cfg, Reading(l, n), b) == NumberByte(cfg, Reading(l, n), b);
  }

  lemma FracFaults(cfg: Config, l: Lexer, n: Number, b: byte, e: Error)
    requires Idle(l) && SoFar(cfg, n) && Phase(n).InNumberFrac? && (Extends(n, b) || !Complete(n))
    ensures Step(cfg, Reading(l, n), b).next == Stop(e) <==> NumberFault(cfg, n, b, e)
  {
    assert Iterate(cfg, Reading(l, n), b) == FracByte(cfg, Reading(l, n), b);
  }

  lemma LetterFaults(cfg: Config, l: Lexer, n: Number, b: byte, e: Error)
    requires Idle(l) && SoFar(cfg, n) && Phase(n).InNumberExpSign?
    ensures Step(cfg, Reading(l, n), b).next == Stop(e) <==> NumberFault(cfg, n, b, e)
  {
    assert Iterate(cfg, Reading(l, n), b) == ExpSignByte(Reading(l, n), b);
    if DecimalDigit(b) {
      FigureByItself(b);
    }
  }

  lemma FigureByItself(b: byte)
    requires Digit(b)
    ensures 10 * Numeral([]) + DigitValue(b) < 10
  {
  }

  lemma ExpFaults(cfg: Config, l: Lexer, n: Number, b: byte, e: Error)
    requires Idle(l) && SoFar(cfg, n) && Phase(n).InNumberExp? && (Extends(n, b) || !Complete(n))
    ensures Step(cfg, Reading(l, n), b).next == Stop(e) <==> NumberFault(cfg, n, b, e)
  {
    if Digit(b) {
      ExpDigitFaults(cfg, l, n, b, e);
    } else {
      assert Iterate(cfg, Reading(l, n), b) == ExpByte(cfg, Reading(l, n), b);
    }
  }

  lemma ExpDigitFaults(cfg: Config, l: Lexer, n: Number, b: byte, e: Error)
    requires Idle(l) && SoFar(cfg, n) && Phase(n).InNumberExp? && Digit(b)
    ensures Step(cfg, Reading(l, n), b).next == Stop(e) <==> NumberFault(cfg, n, b, e)
  {
    ExpDigitFits(cfg, n, b);
    ExpDigitStep(cfg, Reading(l, n), b, 10 * Numeral(n.exp.value.digits) + DigitValue(b));
    ExpDigitFault(cfg, n, b, e);
  }

  lemma ExpDigitFault(cfg: Config, n: Number, b: byte, e: Error)
    requires SoFar(cfg, n) && Phase(n).InNumberExp? && Digit(b)
    ensures NumberFault(cfg, n, b, e)
            <==> e == ExponentOverflow && 10 * Numeral(n.exp.value.digits) + DigitValue(b) > ExpLimit(ExpMinus(n))
  {
  }

  /** A byte that continues a number, or ends it too early. */
  lemma InsideFaults(cfg: Config, l: Lexer, n: Number, b: byte, e: Error)
    requires cfg.Valid() && Idle(l) && SoFar(cfg, n) && !Phase(n).LookupToken?
    requires Extends(n, b) || !Complete(n)
    ensures Step(cfg, Reading(l, n), b).next == Stop(e) <==> NumberFault(cfg, n, b, e)
  {
    match Phase(n)
    case InNumberSign => SignFaults(cfg, l, n, b, e);
    case InNumber => WholeFaults(cfg, l, n, b, e);
    case InNumberFrac => FracFaults(cfg, l, n, b, e);
    case InNumberExpSign => LetterFaults(cfg, l, n, b, e);
    case InNumberExp => ExpFaults(cfg, l, n, b, e);
  }

  lemma NoFaultAfter(cfg: Config, n: Number, b: byte, e: Error)
    requires SoFar(cfg, n) && Complete(n) && !Extends(n, b)
    ensures !NumberFault(cfg, n, b, e)
  {
  }

  lemma NumericFaults(cfg: Config, r: Lexer, n: Number, b: byte, e: Error)
    requires cfg.Valid() && StandsAt(cfg, r, Numeric(n))
    ensures Step(cfg, r, b).next == Stop(e) <==> Fault(cfg, Numeric(n), b, e)
  {
    var l := Home(r);
    if Extends(n, b) || !Complete(n) {
      InsideFaults(cfg, l, n, b, e);
    } else {
      NoFaultAfter(cfg, n, b, e);
      EndOne(cfg, l, n, b);
      StartFaults(cfg, l, b, e);
    }
  }

  /** At every place exactly the bytes said give the code e. */
  lemma FaultsAt(cfg: Config, r: Lexer, p: Place, b: byte, e: Error)
    requires cfg.Valid() && StandsAt(cfg, r, p)
    ensures Step(cfg, r, b).next == Stop(e) <==> Fault(cfg, p, b, e)
  {
    match p
    case Start => StartFaults(cfg, r, b, e);
    case Word(t, k) => WordFaults(cfg, r, t, k, b, e);
    case Numeric(n) => NumericFaults(cfg, r, n, b, e);
    case Backslash => EscapeFaults(cfg, r, p, b, e);
    case Hexadecimal(_) => HexFaults(cfg, r, p, b, e);
    case _ => BodyFaults(cfg, r, p, b, e);
  }

  lemma EndFaultsAt(cfg: Config, r: Lexer, p: Place, e: Error)
    requires StandsAt(cfg, r, p)
    ensures Finish(cfg, r).next == Stop(e) <==> EndFault(p, e)
  {
    if p.Numeric? {
      EndOfNumber(cfg, Home(r), p.n, e);
    }
  }

  lemma EndOfNumber(cfg: Config, l: Lexer, n: Number, e: Error)
    requires SoFar(cfg, n) && !Phase(n).LookupToken?
    ensures Finish(cfg, Reading(l, n)).next == Stop(e) <==> EndFault(Numeric(n), e)
  {
  }

  // ---- From place to place ----

  /** From place p the byte b leads to place q. */
  predicate Moves(cfg: Config, r: Lexer, p: Place, b: byte, q: Place) {
    var s := Step(cfg, r, b);
    s.next.Go? && StandsAt(cfg, s.next.lexer, q) && EndsWith(PlaceText(p) + [b], PlaceText(q))
  }

  lemma EndsWithAll(x: bytes)
    ensures EndsWith(x, x) && EndsWith(x, [])
  {
  }

  /** In a string, where the pending bytes allow no more than a continuation byte, or anything. */
  function Within(nb: nat): Place {
    if nb == 0 then Body else if nb == 3 then AfterLoose else Missing(nb)
  }

  lemma StartMoves(cfg: Config, l: Lexer, b: byte) returns (q: Place)
    requires cfg.Valid() && Resting(l, l.nb) && Step(cfg, l, b).next.Go?
    ensures Moves(cfg, l, Start, b, q) && PlaceText(q) <= [b]
  {
    EndsWithAll([b]);
    assert [] + [b] == [b];
    if White(b) || Structural(b) {
      q := Start;
    } else if b == 0x22 {
      q := Within(l.nb);
    } else if b == 0x2D || DecimalDigit(b) {
      q := FigureMoves(cfg, l, b);
    } else {
      q := WordMoves(cfg, l, b);
    }
  }

  lemma FigureMoves(cfg: Config, l: Lexer, b: byte) returns (q: Place)
    requires cfg.Valid() && Resting(l, l.nb) && Step(cfg, l, b).next.Go? && (b == 0x2D || DecimalDigit(b))
    ensures StandsAt(cfg, Step(cfg, l, b).next.lexer, q) && PlaceText(q) == [b]
  {
    FirstFigure(cfg, l, b);
    ReadOne(cfg, l, NO_NUMBER, b);
    q := Numeric(Append(NO_NUMBER, b));
    assert Home(Reading(l, Append(NO_NUMBER, b))) == l;
  }

  lemma WordMoves(cfg: Config, l: Lexer, b: byte) returns (q: Place)
    requires Resting(l, l.nb) && Step(cfg, l, b).next.Go? && !White(b) && !Structural(b)
    requires b != 0x22 && b != 0x2D && !DecimalDigit(b)
    ensures q.Word? && StandsAt(cfg, Step(cfg, l, b).next.lexer, q) && PlaceText(q) == [b]
  {
    var t := if b == 0x74 then True else if b == 0x66 then False else Null;
    q := Word(t, 1);
    assert FixedText(t)[..1] == [b];
  }

  lemma LettersMove(cfg: Config, r: Lexer, t: Token, k: nat, b: byte) returns (q: Place)
    requires StandsAt(cfg, r, Word(t, k)) && Step(cfg, r, b).next.Go?
    ensures Moves(cfg, r, Word(t, k), b, q)
  {
    var w := FixedText(t);
    WordFaults(cfg, r, t, k, b, BadWord(t));
    LetterMoves(cfg, r, t, k);
    EndsWithAll(w[..k] + [b]);
    q := if k + 1 < |w| then Word(t, k + 1) else Start;
    TakeOneMore(w, k);
  }

  lemma LetterMoves(cfg: Config, r: Lexer, t: Token, k: nat)
    requires StandsAt(cfg, r, Word(t, k))
    ensures var w, s := FixedText(t), Step(cfg, r, FixedText(t)[k]);
            s.next.Go? && StandsAt(cfg, s.next.lexer, if k + 1 < |w| then Word(t, k + 1) else Start)
  {
    KeywordStep(cfg, Home(r), t, k);
  }

  lemma HomeAgain(l: Lexer, n: Number)
    requires Idle(l) && Digits(n.whole) && Digits(FracDigits(n)) && Digits(ExpDigits(n))
    ensures Home(Reading(l, n)) == l
  {
  }

  lemma NumberGrowsTo(cfg: Config, l: Lexer, n: Number, b: byte)
    requires cfg.Valid() && Resting(l, l.nb) && SoFar(cfg, n) && !Phase(n).LookupToken? && Extends(n, b)
    requires Step(cfg, Reading(l, n), b).next.Go?
    ensures StandsAt(cfg, Step(cfg, Reading(l, n), b).next.lexer, Numeric(Append(n, b)))
  {
    var m := Append(n, b);
    ReadOne(cfg, l, n, b);
    HomeAgain(l, m);
  }

  lemma FigureMore(cfg: Config, r: Lexer, n: Number, b: byte)
    requires cfg.Valid() && StandsAt(cfg, r, Numeric(n)) && Step(cfg, r, b).next.Go? && Extends(n, b)
    ensures Moves(cfg, r, Numeric(n), b, Numeric(Append(n, b)))
  {
    EndsWithAll(NumberText(n) + [b]);
    NumberGrowsTo(cfg, Home(r), n, b);
    AppendText(n, b);
  }

  lemma FiguresEnd(cfg: Config, r: Lexer, n: Number, b: byte) returns (q: Place)
    requires cfg.Valid() && StandsAt(cfg, r, Numeric(n)) && Step(cfg, r, b).next.Go? && !Extends(n, b)
    ensures Moves(cfg, r, Numeric(n), b, q)
  {
    EndOne(cfg, Home(r), n, b);
    q := StartMoves(cfg, Home(r), b);
    EndsWithPart(NumberText(n), [b], PlaceText(q));
  }

  lemma EndsWithPart(a: bytes, b: bytes, x: bytes)
    requires EndsWith(b, x)
    ensures EndsWith(a + b, x)
  {
    assert (a + b)[|a + b| - |x|..] == b[|b| - |x|..];
  }

  /** Where the lexer then stands, by its registers. */
  function PlaceAfter(r: Lexer, b: byte): Place {
    if r.mode.LookupToken? then Start
    else if r.mode.InStringEscape? then Backslash
    else if r.cc != 0 then Second(b)
    else Within(r.nb)
  }

  lemma PieceMoves(cfg: Config, r: Lexer, p: Place, b: byte)
    requires StandsAt(cfg, r, p) && (p.Body? || p.AfterLoose?) && InStringByte(r, b).next.Go?
    ensures var r' := InStringByte(r, b).next.lexer; StandsAt(cfg, r', PlaceAfter(r', b))
  {
  }

  lemma PendingMoves(cfg: Config, r: Lexer, p: Place, b: byte)
    requires StandsAt(cfg, r, p) && (p.Missing? || p.Second?) && InStringByte(r, b).next.Go?
    ensures var r' := InStringByte(r, b).next.lexer; StandsAt(cfg, r', PlaceAfter(r', b))
  {
    assert Continuation(b);
  }

  lemma BodyMoves(cfg: Config, r: Lexer, p: Place, b: byte) returns (q: Place)
    requires StandsAt(cfg, r, p) && (p.Body? || p.AfterLoose? || p.Missing? || p.Second?)
    requires Step(cfg, r, b).next.Go?
    ensures Moves(cfg, r, p, b, q)
  {
    StringStep(cfg, r, b);
    EndsWithAll([b]);
    EndsWithPart(PlaceText(p), [b], [b]);
    EndsWithPart(PlaceText(p), [b], []);
    if p.Body? || p.AfterLoose? {
      PieceMoves(cfg, r, p, b);
    } else {
      PendingMoves(cfg, r, p, b);
    }
    BackslashMoves(r, b);
    q := PlaceAfter(Step(cfg, r, b).next.lexer, b);
  }

  lemma BackslashMoves(r: Lexer, b: byte)
    requires r.mode.InString? && InStringByte(r, b).next.Go?
    ensures InStringByte(r, b).next.lexer.mode.InStringEscape? ==> b == 0x5C
  {
  }

  lemma EscapeMoves(cfg: Config, r: Lexer, b: byte) returns (q: Place)
    requires StandsAt(cfg, r, Backslash) && Step(cfg, r, b).next.Go?
    ensures Moves(cfg, r, Backslash, b, q)
  {
    assert Step(cfg, r, b) == Scanned(EscapeByte(r, b).toks, EscapeByte(r, b).next);
    EndsWithAll([0x5C, 0x75]);
    q := if Unescaped(b) != [] then Within(r.nb) else Hexadecimal([]);
    assert [0x5C] + [0x75] == [0x5C, 0x75] + [];
  }

  lemma HexMoves(cfg: Config, r: Lexer, h: bytes, b: byte) returns (q: Place)
    requires StandsAt(cfg, r, Hexadecimal(h)) && Step(cfg, r, b).next.Go?
    ensures Moves(cfg, r, Hexadecimal(h), b, q)
  {
    LexerTests(b);
    assert Step(cfg, r, b) == Scanned(UnicodeByte(r, b).toks, UnicodeByte(r, b).next);
    EndsWithAll([0x5C, 0x75] + h + [b]);
    q := if |h| == 3 then Within(r.nb) else Hexadecimal(h + [b]);
    assert [0x5C, 0x75] + (h + [b]) == [0x5C, 0x75] + h + [b];
  }

  lemma NextPlace(cfg: Config, r: Lexer, p: Place, b: byte) returns (q: Place)
    requires cfg.Valid() && StandsAt(cfg, r, p) && Step(cfg, r, b).next.Go?
    ensures Moves(cfg, r, p, b, q)
  {
    match p
    case Start => q := StartMoves(cfg, r, b);
    case Word(t, k) => q := LettersMove(cfg, r, t, k, b);
    case Numeric(n) =>
      if Extends(n, b) {
        FigureMore(cfg, r, n, b);
        q := Numeric(Append(n, b));
      } else {
        q := FiguresEnd(cfg, r, n, b);
      }
    case Backslash => q := EscapeMoves(cfg, r, b);
    case Hexadecimal(h) => q := HexMoves(cfg, r, h, b);
    case _ => q := BodyMoves(cfg, r, p, b);
  }

  lemma EndsWithMore(bs: bytes, x: bytes, b: byte, y: bytes)
    requires EndsWith(bs, x) && EndsWith(x + [b], y)
    ensures EndsWith(bs + [b], y)
  {
    var k := |bs| - |x|;
    assert bs == bs[..k] + x;
    assert bs + [b] == bs[..k] + (x + [b]);
    EndsWithPart(bs[..k], x + [b], y);
  }

  /** `bs` has met no error and ends at place p. */
  predicate Reaches(cfg: Config, bs: bytes, p: Place) {
    var s := Scan(cfg, FRESH, bs);
    s.next.Go? && StandsAt(cfg, s.next.lexer, p) && EndsWith(bs, PlaceText(p))
  }

  /** Every input that has met no error ends at some place, with the text of that place. */
  lemma {:induction false} SomePlace(cfg: Config, bs: bytes) returns (p: Place)
    requires cfg.Valid() && Scan(cfg, FRESH, bs).next.Go?
    ensures Reaches(cfg, bs, p)
    decreases |bs|
  {
    if bs == [] {
      p := Start;
    } else {
      var front, b := bs[..|bs| - 1], bs[|bs| - 1];
      FrontAndLast(bs);
      ScanConcat(cfg, FRESH, front, [b]);
      var q := SomePlace(cfg, front);
      var r := Scan(cfg, FRESH, front).next.lexer;
      ScanSnoc(cfg, FRESH, front, r, b);
      p := NextPlace(cfg, r, q, b);
      EndsWithMore(front, PlaceText(q), b, PlaceText(p));
    }
  }

  /** The first k bytes reach a place where the next byte, or the end of the input, gives the code e. */
  ghost predicate FaultAfter(cfg: Config, bs: bytes, k: nat, p: Place, e: Error)
    requires k <= |bs|
  {
    Reaches(cfg, bs[..k], p) && FaultNext(cfg, p, bs[k..], e)
  }

  /** At place p the rest of the input begins with a fault, or is empty and that is one. */
  ghost predicate FaultNext(cfg: Config, p: Place, rest: bytes, e: Error)
    requires p.Numeric? ==> Digits(p.n.whole) && Digits(ExpDigits(p.n))
  {
    if rest != [] then Fault(cfg, p, rest[0], e) else EndFault(p, e)
  }

  lemma {:induction false} FirstStop(cfg: Config, l: Lexer, bs: bytes, e: Error) returns (k: nat)
    requires Scan(cfg, l, bs).next == Stop(e)
    ensures k < |bs| && Scan(cfg, l, bs[..k]).next.Go?
    ensures Step(cfg, Scan(cfg, l, bs[..k]).next.lexer, bs[k]).next == Stop(e)
    decreases |bs|
  {
    var s := Step(cfg, l, bs[0]);
    if s.next.Stop? {
      k := 0;
    } else {
      var j := FirstStop(cfg, s.next.lexer, bs[1..], e);
      k := j + 1;
      assert bs[..k][0] == bs[0] && bs[..k][1..] == bs[1..][..j];
    }
  }

  lemma FaultAtOnce(cfg: Config, r: Lexer, p: Place, rest: bytes, e: Error)
    requires cfg.Valid() && StandsAt(cfg, r, p) && FaultNext(cfg, p, rest, e)
    ensures ScanAll(cfg, r, rest).next == Stop(e)
  {
    if rest != [] {
      FaultsAt(cfg, r, p, rest[0], e);
      FirstByteOfAll(cfg, r, rest);
    } else {
      EndFaultsAt(cfg, r, p, e);
    }
  }

  lemma FaultStops(cfg: Config, bs: bytes, k: nat, p: Place, e: Error)
    requires cfg.Valid() && k <= |bs| && FaultAfter(cfg, bs, k, p, e)
    ensures ScanAll(cfg, FRESH, bs).next == Stop(e)
  {
    FaultAtOnce(cfg, Scan(cfg, FRESH, bs[..k]).next.lexer, p, bs[k..], e);
    StopsAfter(cfg, bs[..k], bs[k..], e);
    assert bs[..k] + bs[k..] == bs;
  }

  lemma StopsAfter(cfg: Config, a: bytes, b: bytes, e: Error)
    requires Scan(cfg, FRESH, a).next.Go? && ScanAll(cfg, Scan(cfg, FRESH, a).next.lexer, b).next == Stop(e)
    ensures ScanAll(cfg, FRESH, a + b).next == Stop(e)
  {
    ScanAllConcat(cfg, FRESH, a, b);
  }

  lemma FaultFound(cfg: Config, bs: bytes, e: Error) returns (k: nat, p: Place)
    requires cfg.Valid() && ScanAll(cfg, FRESH, bs).next == Stop(e)
    ensures k <= |bs| && FaultAfter(cfg, bs, k, p, e)
  {
    var s := Scan(cfg, FRESH, bs);
    if s.next.Stop? {
      k := FirstStop(cfg, FRESH, bs, e);
      p := SomePlace(cfg, bs[..k]);
      FaultsAt(cfg, Scan(cfg, FRESH, bs[..k]).next.lexer, p, bs[k], e);
    } else {
      k := |bs|;
      assert bs[..k] == bs;
      p := SomePlace(cfg, bs);
      EndFaultsAt(cfg, s.next.lexer, p, e);
    }
  }

  /**
   * The inputs that give each code: the lexer stops with the code e if and only if, after some
   * bytes without an error, the text being read and the next byte, or the end, are a fault of e.
   */
  lemma LexicalErrorMeaning(cfg: Config, bs: bytes, e: Error)
    requires cfg.Valid()
    ensures ScanAll(cfg, FRESH, bs).next == Stop(e)
            <==> exists k: nat, p :: k <= |bs| && FaultAfter(cfg, bs, k, p, e)
  {
    if ScanAll(cfg, FRESH, bs).next == Stop(e) {
      var k, p := FaultFound(cfg, bs, e);
    }
    forall k: nat, p | k <= |bs| && FaultAfter(cfg, bs, k, p, e)
      ensures ScanAll(cfg, FRESH, bs).next == Stop(e)
    {
      FaultStops(cfg, bs, k, p, e);
    }
  }
}
