/**
 * The incremental lexer as a function of one byte at a time. `Iterate` is one pass through the
 * body of the loop of `embedjson_lexer_push`; `Scan` runs the loop over a byte string, and
 * `ScanAll` also finishes the input as `embedjson_lexer_finalize` does.
 */
module LexerMachine {
  import opened Bytes
  import opened Decimal
  import opened Tokens

  datatype Mode =
    | LookupToken
    | InString
    | InStringEscape
    | InStringUnicodeEscape
    | InNumberSign
    | InNumber
    | InNumberFrac
    | InNumberExpSign
    | InNumberExp
    | InTrue
    | InFalse
    | InNull

  /** The fields of `embedjson_lexer`, without those that only guess the encoding. */
  datatype Lexer = Lexer(
    mode: Mode,
    offset: nat,
    cp0: byte, cp1: byte,
    minus: bool, expMinus: bool, expNotEmpty: bool,
    intValue: int,
    fracValue: nat, fracPower: nat,
    expValue: nat,
    nb: nat, cc: nat)

  const FRESH := Lexer(LookupToken, 0, 0, 0, false, false, false, 0, 0, 0, 0, 0, 0)

  datatype Next = Go(lexer: Lexer) | Stop(error: Error)

  /** The tokens found, in order, and where that left the lexer. */
  datatype Scanned = Scanned(toks: seq<Token>, next: Next)

  /** One pass through the loop body. With `again` the same byte is read once more. */
  datatype Iteration = Iteration(toks: seq<Token>, next: Next, again: bool)

  function Quiet(l: Lexer): Iteration { Iteration([], Go(l), false) }
  function Emit(t: Token, l: Lexer): Iteration { Iteration([t], Go(l), false) }
  function Reject(e: Error): Iteration { Iteration([], Stop(e), false) }

  /** Conversion to the widths of `frac_value` and of `frac_power` and `exp_value`. */
  function U64(n: nat): nat { n % 0x1_0000_0000_0000_0000 }
  function U16(n: nat): nat { n % 0x1_0000 }

  const KW_TRUE: bytes := [0x74, 0x72, 0x75, 0x65]
  const KW_FALSE: bytes := [0x66, 0x61, 0x6C, 0x73, 0x65]
  const KW_NULL: bytes := [0x6E, 0x75, 0x6C, 0x6C]

  /** A character of a C string literal: past its end there is the terminating zero. */
  function CharAt(word: bytes, i: nat): byte {
    if i < |word| then word[i] else 0
  }

  // ---- One iteration, by mode ----

  function Punctuation(b: byte): (ts: seq<Token>)
    ensures |ts| <= 1
    ensures ts != [] ==> !Blank(b) && b != QUOTE
    ensures ts != [] ==> var t := ts[0];
              t.Colon? || t.Comma? || t.OpenCurly? || t.CloseCurly? || t.OpenBracket? || t.CloseBracket?
  {
    if b == COLON then [Colon]
    else if b == COMMA then [Comma]
    else if b == OPEN_CURLY then [OpenCurly]
    else if b == CLOSE_CURLY then [CloseCurly]
    else if b == OPEN_BRACKET then [OpenBracket]
    else if b == CLOSE_BRACKET then [CloseBracket]
    else []
  }

  function LookupByte(l: Lexer, b: byte): (r: Iteration)
    ensures !r.again
  {
    if Blank(b) then Quiet(l)
    else if Punctuation(b) != [] then Emit(Punctuation(b)[0], l)
    else if b == QUOTE then Emit(StringBegin, l.(mode := InString))
    else if b == KW_TRUE[0] then Quiet(l.(offset := 1, mode := InTrue))
    else if b == KW_FALSE[0] then Quiet(l.(offset := 1, mode := InFalse))
    else if b == KW_NULL[0] then Quiet(l.(offset := 1, mode := InNull))
    else if b == MINUS then Quiet(l.(minus := true, mode := InNumberSign))
    else if b == PLUS then Reject(LeadingPlus)
    else if Digit(b) then Quiet(l.(intValue := DigitValue(b), mode := InNumber))
    else Reject(UnexpSymbol)
  }

  /** May `b` stand where `nb` bytes of a multibyte sequence are missing, in corner case `cc`? */
  predicate Continues(nb: nat, cc: nat, b: byte) {
    if nb == 2 && cc == 1 then 0xA0 <= b <= 0xBF
    else if nb == 3 then (cc == 2 ==> AfterF0(b)) && (cc == 3 ==> 0x80 <= b <= 0x8F)
    else Continuation(b)
  }

  /** The UTF-8 registers once `b` was counted towards the sequence it continues, if any. */
  function Counted(l: Lexer, b: byte): Lexer {
    if l.nb == 0 then l
    else if (l.nb == 2 && l.cc == 1) || (l.nb == 3 && (l.cc == 2 || l.cc == 3)) then l.(nb := l.nb - 1, cc := 0)
    else l.(nb := l.nb - 1)
  }

  function StringPlainByte(l: Lexer, b: byte): (r: Iteration)
    ensures !r.again
  {
    if Lead2(b) then Emit(StringByte(b), l.(nb := 1))
    else if Lead3(b) then Emit(StringByte(b), l.(nb := 2, cc := if b == 0xE0 then 1 else l.cc))
    else if Lead4(b) then
      Emit(StringByte(b), l.(nb := 3, cc := if b == 0xF0 then 2 else if b == 0xF4 then 3 else l.cc))
    else if b >= 0xF8 then Reject(LongUtf8)
    else if b == BACKSLASH then Quiet(l.(mode := InStringEscape))
    else if b == QUOTE then Emit(StringEnd, l.(mode := LookupToken))
    else if l.nb == 0 && b < 0x20 then Reject(BadUtf8)
    else Emit(StringByte(b), l)
  }

  function InStringByte(l: Lexer, b: byte): (r: Iteration)
    ensures !r.again
  {
    if l.nb > 0 && !Continues(l.nb, l.cc, b) then Reject(BadUtf8)
    else StringPlainByte(Counted(l, b), b)
  }

  /** The byte a two-character escape stands for. */
  function Unescaped(b: byte): (r: seq<byte>)
    ensures |r| <= 1
  {
    if b == QUOTE then [QUOTE]
    else if b == BACKSLASH then [BACKSLASH]
    else if b == SLASH then [SLASH]
    else if b == 0x62 then [0x08]
    else if b == 0x66 then [0x0C]
    else if b == 0x6E then [LF]
    else if b == 0x72 then [CR]
    else if b == 0x74 then [TAB]
    else []
  }

  function EscapeByte(l: Lexer, b: byte): (r: Iteration)
    ensures !r.again
  {
    if Unescaped(b) != [] then Emit(StringByte(Unescaped(b)[0]), l.(mode := InString))
    else if b == 0x75 then Quiet(l.(mode := InStringUnicodeEscape, offset := 0))
    else Reject(BadEscape)
  }

  /** `cp` with its lower half set to `v`. */
  function WithLowNibble(cp: byte, v: byte): byte
    requires v < 16
  {
    cp / 16 * 16 + v
  }

  function UnicodeByte(l: Lexer, b: byte): (r: Iteration)
    ensures !r.again
  {
    if !Hex(b) then Reject(BadUnicodeEscape)
    else
      var v := HexValue(b);
      if l.offset == 0 then Quiet(l.(cp0 := v * 16, offset := 1))
      else if l.offset == 1 then Quiet(l.(cp0 := WithLowNibble(l.cp0, v), offset := 2))
      else if l.offset == 2 then Quiet(l.(cp1 := v * 16, offset := 3))
      else if l.offset == 3 then
        var cp1 := WithLowNibble(l.cp1, v);
        Iteration([StringByte(l.cp0), StringByte(cp1)], Go(l.(cp1 := cp1, offset := 4, mode := InString)), false)
      else Quiet(l.(offset := l.offset + 1))
  }

  function KeywordByte(l: Lexer, word: bytes, t: Token, e: Error, b: byte): (r: Iteration)
    ensures !r.again
  {
    if b != CharAt(word, l.offset) then Reject(e)
    else if l.offset + 1 > |word| - 1 then Emit(t, l.(offset := l.offset + 1, mode := LookupToken))
    else Quiet(l.(offset := l.offset + 1))
  }

  // ---- Numbers ----

  function Signed(minus: bool, r: real): real { if minus then 0.0 - r else r }

  /** The last entry of the table of powers of ten is that for 323. */
  const TABLE_MAX := 323

  /** The product with `powm10(n)`, which is read without a test of n. */
  function Shifted(cfg: Config, r: real, n: nat): real {
    if n <= TABLE_MAX then Scale(r, n) else r * cfg.beyond(n)
  }

  function Mantissa(cfg: Config, intValue: int, fracValue: nat, fracPower: nat): real {
    intValue as real + Shifted(cfg, fracValue as real, fracPower)
  }

  /** The double handed over after a fraction. */
  function FracReal(cfg: Config, minus: bool, intValue: int, fracValue: nat, fracPower: nat): real {
    Signed(minus, Mantissa(cfg, intValue, fracValue, fracPower))
  }

  /** The double handed over after an exponent. */
  function ExpReal(
      cfg: Config, minus: bool, intValue: int, fracValue: nat, fracPower: nat, expMinus: bool, expValue: nat): real
  {
    Signed(minus, Scale(Mantissa(cfg, intValue, fracValue, fracPower), if expMinus then expValue else 0 - expValue))
  }

  function FracToken(cfg: Config, l: Lexer): Token {
    Double(FracReal(cfg, l.minus, l.intValue, l.fracValue, l.fracPower))
  }

  function ExpToken(cfg: Config, l: Lexer): Token {
    Double(ExpReal(cfg, l.minus, l.intValue, l.fracValue, l.fracPower, l.expMinus, l.expValue))
  }

  function IntToken(l: Lexer): Token {
    Int(if l.minus then 0 - l.intValue else l.intValue)
  }

  /**
   * The registers that are cleared after a number, which depend on the state that ends it: an
   * integer clears the fewest, an exponent all of them.
   */
  function Cleared(l: Lexer): Lexer {
    var whole := l.(mode := LookupToken, intValue := 0, minus := false);
    if l.mode.InNumber? then whole
    else
      var frac := whole.(fracPower := 0, fracValue := 0);
      if l.mode.InNumberFrac? then frac else frac.(expValue := 0, expMinus := false, expNotEmpty := false)
  }

  /** A finished number: the byte that ended it is read again. */
  function EndNumber(t: Token, l: Lexer): Iteration {
    Iteration([t], Go(Cleared(l)), true)
  }

  function NumberByte(cfg: Config, l: Lexer, b: byte): Iteration {
    if Digit(b) then
      if l.intValue == 0 then Reject(LeadingZero)
      else if l.intValue + DigitValue(b) > cfg.intMax / 10 then Reject(IntOverflow)
      else Quiet(l.(intValue := 10 * l.intValue + DigitValue(b)))
    else if b == DOT then Quiet(l.(mode := InNumberFrac))
    else if Exponent(b) then Quiet(l.(mode := InNumberExpSign))
    else EndNumber(IntToken(l), l)
  }

  function FracByte(cfg: Config, l: Lexer, b: byte): Iteration {
    if Digit(b) then
      Quiet(l.(fracValue := U64(10 * l.fracValue + DigitValue(b)), fracPower := U16(l.fracPower + 1)))
    else if l.fracPower == 0 then Reject(EmptyFrac)
    else if Exponent(b) then Quiet(l.(mode := InNumberExpSign))
    else EndNumber(FracToken(cfg, l), l)
  }

  function ExpSignByte(l: Lexer, b: byte): Iteration {
    if b == MINUS then Quiet(l.(expMinus := true, mode := InNumberExp))
    else if Digit(b) then Quiet(l.(expValue := DigitValue(b), expNotEmpty := true, mode := InNumberExp))
    else if b == PLUS then Quiet(l.(mode := InNumberExp))
    else Reject(BadExponent)
  }

  function ExpLimit(expMinus: bool): nat { if expMinus then 323 else 308 }

  function ExpByte(cfg: Config, l: Lexer, b: byte): Iteration {
    if Digit(b) then
      var e := U16(10 * l.expValue + DigitValue(b));
      if e > ExpLimit(l.expMinus) then Reject(ExponentOverflow)
      else Quiet(l.(expValue := e, expNotEmpty := true))
    else if !l.expNotEmpty then Reject(EmptyExp)
    else EndNumber(ExpToken(cfg, l), l)
  }

  function SignByte(l: Lexer, b: byte): Iteration {
    if Digit(b) then Quiet(l.(intValue := 10 * l.intValue + DigitValue(b), mode := InNumber))
    else Reject(EofInString)
  }

  // ---- The loop ----

  function Iterate(cfg: Config, l: Lexer, b: byte): (r: Iteration)
    ensures r.again ==> r.next.Go? && r.next.lexer.mode == LookupToken && l.mode != LookupToken
  {
    match l.mode
    case LookupToken => LookupByte(l, b)
    case InString => InStringByte(l, b)
    case InStringEscape => EscapeByte(l, b)
    case InStringUnicodeEscape => UnicodeByte(l, b)
    case InNumberSign => SignByte(l, b)
    case InNumber => NumberByte(cfg, l, b)
    case InNumberFrac => FracByte(cfg, l, b)
    case InNumberExpSign => ExpSignByte(l, b)
    case InNumberExp => ExpByte(cfg, l, b)
    case InTrue => KeywordByte(l, KW_TRUE, True, BadTrue, b)
    case InFalse => KeywordByte(l, KW_FALSE, False, BadFalse, b)
    case InNull => KeywordByte(l, KW_NULL, Null, BadNull, b)
  }

  /** Everything that reading one byte does. */
  function Step(cfg: Config, l: Lexer, b: byte): Scanned {
    var first := Iterate(cfg, l, b);
    if first.again then
      var second := Iterate(cfg, first.next.lexer, b);
      Scanned(first.toks + second.toks, second.next)
    else Scanned(first.toks, first.next)
  }

  function After(toks: seq<Token>, s: Scanned): Scanned {
    Scanned(toks + s.toks, s.next)
  }

  /** `embedjson_lexer_push` over a whole buffer. */
  function Scan(cfg: Config, l: Lexer, bs: bytes): Scanned
    decreases |bs|
  {
    if bs == [] then Scanned([], Go(l))
    else
      var s := Step(cfg, l, bs[0]);
      match s.next
      case Stop(_) => s
      case Go(l') => After(s.toks, Scan(cfg, l', bs[1..]))
  }

  /** `embedjson_lexer_finalize`. */
  function Finish(cfg: Config, l: Lexer): Scanned {
    match l.mode
    case LookupToken => Scanned([], Go(l))
    case InString => Scanned([], Stop(EofInString))
    case InStringEscape => Scanned([], Stop(EofInString))
    case InStringUnicodeEscape => Scanned([], Stop(EofInString))
    case InNumberSign => Scanned([], Stop(EofInString))
    case InNumber => Scanned([IntToken(l)], Go(l))
    case InNumberFrac => Scanned([FracToken(cfg, l)], Go(l))
    case InNumberExpSign => Scanned([], Stop(EofInExponent))
    case InNumberExp => Scanned([ExpToken(cfg, l)], Go(l))
    case InTrue => Scanned([], Stop(EofInTrue))
    case InFalse => Scanned([], Stop(EofInFalse))
    case InNull => Scanned([], Stop(EofInNull))
  }

  function ScanAll(cfg: Config, l: Lexer, bs: bytes): Scanned {
    var s := Scan(cfg, l, bs);
    if s.next.Stop? then s else After(s.toks, Finish(cfg, s.next.lexer))
  }

  // ---- Resumption ----

  lemma AfterAfter(a: seq<Token>, b: seq<Token>, s: Scanned)
    ensures After(a, After(b, s)) == After(a + b, s)
  {
    assert a + (b + s.toks) == (a + b) + s.toks;
  }

  /** Cutting the input anywhere and resuming changes neither the tokens nor the outcome. */
  lemma {:induction false} ScanConcat(cfg: Config, l: Lexer, a: bytes, b: bytes)
    ensures var s := Scan(cfg, l, a);
            Scan(cfg, l, a + b) == if s.next.Stop? then s else After(s.toks, Scan(cfg, s.next.lexer, b))
    decreases |a|
  {
    if a == [] {
      assert a + b == b;
    } else {
      assert (a + b)[1..] == a[1..] + b;
      var s := Step(cfg, l, a[0]);
      if s.next.Go? {
        ScanConcat(cfg, s.next.lexer, a[1..], b);
        var t := Scan(cfg, s.next.lexer, a[1..]);
        if t.next.Go? {
          AfterAfter(s.toks, t.toks, Scan(cfg, t.next.lexer, b));
        }
      }
    }
  }

  /** `ScanAll` consumes a byte string the same way. */
  lemma ScanAllConcat(cfg: Config, l: Lexer, a: bytes, b: bytes)
    ensures var s := Scan(cfg, l, a);
            ScanAll(cfg, l, a + b) == if s.next.Stop? then s else After(s.toks, ScanAll(cfg, s.next.lexer, b))
  {
    ScanConcat(cfg, l, a, b);
    var s := Scan(cfg, l, a);
    if s.next.Go? {
      var t := Scan(cfg, s.next.lexer, b);
      if t.next.Go? {
        AfterAfter(s.toks, t.toks, Finish(cfg, t.next.lexer));
      }
    }
  }

  // ---- What every step keeps ----

  predicate NumberMode(m: Mode) {
    m.InNumberSign? || m.InNumber? || m.InNumberFrac? || m.InNumberExpSign? || m.InNumberExp?
  }

  predicate StringMode(m: Mode) {
    m.InString? || m.InStringEscape? || m.InStringUnicodeEscape?
  }

  /** The registers that a number uses are clear. */
  predicate NoNumber(l: Lexer) {
    && l.intValue == 0 && l.fracValue == 0 && l.fracPower == 0 && l.expValue == 0
    && !l.minus && !l.expMinus && !l.expNotEmpty
  }

  /**
   * The invariant of the lexer: number registers are clear outside numbers and in range inside
   * them; a UTF-8 corner case is only pending with the count that goes with it, and outside plain
   * string contents none or two bytes are pending; the offset stays inside the word or the escape
   * being read.
   */
  predicate Inv(cfg: Config, l: Lexer) {
    && (!NumberMode(l.mode) ==> NoNumber(l))
    && (l.mode.InNumberSign? ==> l.intValue == 0)
    && (l.mode.InNumberSign? || l.mode.InNumber? ==> l.fracPower == 0 && l.fracValue == 0)
    && (l.mode.InNumberSign? || l.mode.InNumber? || l.mode.InNumberFrac? || l.mode.InNumberExpSign? ==>
          l.expValue == 0 && !l.expMinus && !l.expNotEmpty)
    && 0 <= l.intValue <= cfg.intMax
    && l.fracValue < 0x1_0000_0000_0000_0000 && l.fracPower < 0x1_0000
    && l.expValue <= 323
    && (!l.expMinus ==> l.expValue <= 308)
    && (!l.expNotEmpty ==> l.expValue == 0)
    && l.nb <= 3 && l.cc <= 3
    && (l.cc == 1 ==> l.nb == 2) && (l.cc >= 2 ==> l.nb == 3)
    && (!l.mode.InString? ==> l.cc == 0 && (l.nb == 0 || l.nb == 2))
    && (l.mode.InTrue? || l.mode.InNull? ==> 1 <= l.offset <= 3)
    && (l.mode.InFalse? ==> 1 <= l.offset <= 4)
    && (l.mode.InStringUnicodeEscape? ==>
          && l.offset <= 3
          && (l.offset == 1 ==> l.cp0 % 16 == 0)
          && (l.offset == 3 ==> l.cp1 % 16 == 0))
  }

  predicate KeptBy(cfg: Config, r: Iteration) {
    r.next.Go? ==> Inv(cfg, r.next.lexer)
  }

  lemma IterateKeepsInv(cfg: Config, l: Lexer, b: byte)
    requires cfg.Valid() && Inv(cfg, l)
    ensures KeptBy(cfg, Iterate(cfg, l, b))
  {
    match l.mode
    case LookupToken => assert KeptBy(cfg, LookupByte(l, b));
    case InString => StringKeepsInv(cfg, l, b);
    case InStringEscape => EscapeKeepsInv(cfg, l, b);
    case InStringUnicodeEscape => EscapeKeepsInv(cfg, l, b);
    case InNumberSign => SignsKeepInv(cfg, l, b);
    case InNumber => NumberKeepsInv(cfg, l, b);
    case InNumberFrac => FracKeepsInv(cfg, l, b);
    case InNumberExpSign => SignsKeepInv(cfg, l, b);
    case InNumberExp => ExpKeepsInv(cfg, l, b);
    case InTrue => KeywordKeepsInv(cfg, l, b);
    case InFalse => KeywordKeepsInv(cfg, l, b);
    case InNull => KeywordKeepsInv(cfg, l, b);
  }

  lemma CountedKeepsInv(cfg: Config, l: Lexer, b: byte)
    requires Inv(cfg, l) && l.mode.InString? && (l.nb > 0 ==> Continues(l.nb, l.cc, b))
    ensures var c := Counted(l, b);
            && Inv(cfg, c) && c.mode.InString? && c.cc == 0 && c.nb <= 2
            && (c.nb == 1 || l.nb == 1 || (l.nb > 0 && l.cc > 0) ==> Continuation(b))
  {
  }

  lemma PlainKeepsInv(cfg: Config, c: Lexer, b: byte)
    requires Inv(cfg, c) && c.mode.InString? && c.cc == 0 && c.nb <= 2 && (c.nb == 1 ==> Continuation(b))
    ensures KeptBy(cfg, StringPlainByte(c, b))
  {
  }

  lemma StringKeepsInv(cfg: Config, l: Lexer, b: byte)
    requires Inv(cfg, l) && l.mode.InString?
    ensures KeptBy(cfg, InStringByte(l, b))
  {
    if l.nb == 0 || Continues(l.nb, l.cc, b) {
      CountedKeepsInv(cfg, l, b);
      PlainKeepsInv(cfg, Counted(l, b), b);
    }
  }

  lemma EscapeKeepsInv(cfg: Config, l: Lexer, b: byte)
    requires Inv(cfg, l)
    ensures l.mode.InStringEscape? ==> KeptBy(cfg, EscapeByte(l, b))
    ensures l.mode.InStringUnicodeEscape? ==> KeptBy(cfg, UnicodeByte(l, b))
  {
  }

  lemma SignsKeepInv(cfg: Config, l: Lexer, b: byte)
    requires cfg.Valid() && Inv(cfg, l)
    ensures l.mode.InNumberSign? ==> KeptBy(cfg, SignByte(l, b))
    ensures l.mode.InNumberExpSign? ==> KeptBy(cfg, ExpSignByte(l, b))
  {
  }

  lemma NumberKeepsInv(cfg: Config, l: Lexer, b: byte)
    requires cfg.Valid() && Inv(cfg, l) && l.mode.InNumber?
    ensures KeptBy(cfg, NumberByte(cfg, l, b))
  {
  }

  lemma FracKeepsInv(cfg: Config, l: Lexer, b: byte)
    requires Inv(cfg, l) && l.mode.InNumberFrac?
    ensures KeptBy(cfg, FracByte(cfg, l, b))
  {
  }

  lemma ExpKeepsInv(cfg: Config, l: Lexer, b: byte)
    requires Inv(cfg, l) && l.mode.InNumberExp?
    ensures KeptBy(cfg, ExpByte(cfg, l, b))
  {
  }

  lemma KeywordKeepsInv(cfg: Config, l: Lexer, b: byte)
    requires Inv(cfg, l)
    ensures l.mode.InTrue? ==> KeptBy(cfg, KeywordByte(l, KW_TRUE, True, BadTrue, b))
    ensures l.mode.InFalse? ==> KeptBy(cfg, KeywordByte(l, KW_FALSE, False, BadFalse, b))
    ensures l.mode.InNull? ==> KeptBy(cfg, KeywordByte(l, KW_NULL, Null, BadNull, b))
  {
  }

  lemma {:induction false} ScanKeepsInv(cfg: Config, l: Lexer, bs: bytes)
    requires cfg.Valid() && Inv(cfg, l)
    ensures Scan(cfg, l, bs).next.Go? ==> Inv(cfg, Scan(cfg, l, bs).next.lexer)
    decreases |bs|
  {
    if bs != [] {
      var first := Iterate(cfg, l, bs[0]);
      IterateKeepsInv(cfg, l, bs[0]);
      if first.again {
        IterateKeepsInv(cfg, first.next.lexer, bs[0]);
      }
      var s := Step(cfg, l, bs[0]);
      if s.next.Go? {
        ScanKeepsInv(cfg, s.next.lexer, bs[1..]);
      }
    }
  }
}
