/**
 * Where the code departs from what its documentation, or the standard, leads one to expect: an
 * input for each. The general statements, with the exact conditions, are in the other modules.
 */
module Departures {
  import opened Bytes
  import opened Decimal
  import opened Tokens
  import opened Documents
  import opened LexerMachine
  import opened Pushdown
  import opened Language
  import opened Numbers
  import opened NumberInputs
  import opened NumberValues
  import opened StringReading
  import opened Strings
  import opened Layouts
  import opened System
  import opened Terminals
  import opened ByteLanguage
  import opened Utf8
  import opened PrintedNumbers
  import opened TokenErrors

  // ---- An empty array that is not the last member ----

  /**
   * After a member whose value is the empty array the diagram expects a comma and the code the
   * next key: each refuses, there, what the other takes.
   */
  lemma AfterEmptyArrayMember(limit: nat, p: Pda)
    requires p.state.ExpectObjectValue? && Coupled(p) && |p.stack| < limit
    ensures var q := Pda(MaybeObjectKey, p.stack);
            && Feed(Shipped, limit, p, [OpenBracket, CloseBracket]).next == Ready(q)
            && Advance(Shipped, limit, q, Comma).next == Broken(ExpObjectKey)
            && Advance(Shipped, limit, q, StringBegin).next == Ready(q)
    ensures var q := Pda(MaybeObjectComma, p.stack);
            && Feed(Drawn, limit, p, [OpenBracket, CloseBracket]).next == Ready(q)
            && Advance(Drawn, limit, q, Comma).next == Ready(Pda(ExpectObjectKey, p.stack))
            && Advance(Drawn, limit, q, StringBegin).next == Broken(ExpCommaOrCloseCurly)
  {
    EmptyArrayFed(Shipped, limit, p);
    EmptyArrayFed(Drawn, limit, p);
  }

  lemma EmptyArrayFed(rules: Rules, limit: nat, p: Pda)
    requires p.state.ExpectObjectValue? && Coupled(p) && |p.stack| < limit
    ensures Feed(rules, limit, p, [OpenBracket, CloseBracket]).next
            == Ready(Pda(if rules == Shipped then MaybeObjectKey else MaybeObjectComma, p.stack))
  {
    FeedArray(rules, limit, p, NoItems);
    EmptyArrayTokens(rules);
  }

  lemma EmptyArrayTokens(rules: Rules)
    ensures TokensOf(rules, EMPTY_ARRAY) == [OpenBracket, CloseBracket]
  {
  }

  /** The bytes of {"a":[] and of "b":null}, and the two documents they make. */
  const OPENING: bytes := [0x7B, 0x22, 0x61, 0x22, 0x3A, 0x5B, 0x5D]
  const CLOSING: bytes := [0x22, 0x62, 0x22, 0x3A, 0x6E, 0x75, 0x6C, 0x6C, 0x7D]
  const WITH_COMMA: bytes := OPENING + [0x2C] + CLOSING
  const WITHOUT_COMMA: bytes := OPENING + [0x20] + CLOSING

  const FIRST_MEMBER := Members(NoMembers, [0x61], EMPTY_ARRAY)
  const TWO_MEMBERS := ObjectValue(Members(FIRST_MEMBER, [0x62], NullValue))

  /** Between two tokens, `text` is read as the tokens `ts`. */
  predicate Reads(cfg: Config, l: Lexer, text: bytes, ts: seq<Token>, r: Lexer) {
    Resting(l, 0) && Resting(r, 0) && Scan(cfg, l, text) == Scanned(ts, Go(r))
  }

  lemma ReadsOn(cfg: Config, l: Lexer, a: bytes, ts: seq<Token>, r: Lexer, b: bytes, us: seq<Token>, q: Lexer)
    requires Reads(cfg, l, a, ts, r) && Reads(cfg, r, b, us, q)
    ensures Reads(cfg, l, a + b, ts + us, q)
  {
    ScanConcat(cfg, l, a, b);
  }

  lemma ReadsFixed(cfg: Config, l: Lexer, t: Token) returns (r: Lexer)
    requires Resting(l, 0) && Fixed(t)
    ensures Reads(cfg, l, FixedText(t), [t], r)
  {
    r := ScanFixed(cfg, l, 0, t);
  }

  /** A key of one small letter, and the colon after it. */
  lemma ReadsKey(cfg: Config, l: Lexer, k: byte) returns (r: Lexer)
    requires Resting(l, 0) && 0x61 <= k <= 0x7A
    ensures Reads(cfg, l, [QUOTE, k, QUOTE, COLON], StringTokens([k]) + [Colon], r)
  {
    var ps := [Plain([k])];
    OneUnit([k]);
    var q := ScanString(cfg, l, 0, ps);
    assert [QUOTE] + [k] + [QUOTE] == [QUOTE, k, QUOTE];
    r := ReadsFixed(cfg, q, Colon);
    ReadsOn(cfg, l, [QUOTE, k, QUOTE], StringTokens([k]), q, [COLON], [Colon], r);
    assert [QUOTE, k, QUOTE] + [COLON] == [QUOTE, k, QUOTE, COLON];
  }

  lemma OneUnit(u: bytes)
    requires Unit(u)
    ensures IsBody(0, [Plain(u)]) && BodyText([Plain(u)]) == u && BodyBytes([Plain(u)]) == u
    ensures StringPending(0, [Plain(u)]) == 0
  {
    var ps := [Plain(u)];
    assert ps[1..] == [];
    assert u + [] == u;
    OrderlyIsBody(ps);
  }

  lemma ReadsBrackets(cfg: Config, l: Lexer) returns (r: Lexer)
    requires Resting(l, 0)
    ensures Reads(cfg, l, [OPEN_BRACKET, CLOSE_BRACKET], [OpenBracket, CloseBracket], r)
  {
    var c := ReadsFixed(cfg, l, OpenBracket);
    r := ReadsFixed(cfg, c, CloseBracket);
    ReadsOn(cfg, l, [OPEN_BRACKET], [OpenBracket], c, [CLOSE_BRACKET], [CloseBracket], r);
    assert [OPEN_BRACKET] + [CLOSE_BRACKET] == [OPEN_BRACKET, CLOSE_BRACKET];
    assert [OpenBracket] + [CloseBracket] == [OpenBracket, CloseBracket];
  }

  lemma ReadsOpening(cfg: Config) returns (r: Lexer)
    ensures Reads(cfg, FRESH, OPENING, [OpenCurly] + MemberTokens(Shipped, FIRST_MEMBER), r)
  {
    var key, brackets := StringTokens([0x61]) + [Colon], [OpenBracket, CloseBracket];
    var a := ReadsFixed(cfg, FRESH, OpenCurly);
    var b := ReadsKey(cfg, a, 0x61);
    r := ReadsBrackets(cfg, b);
    ReadsOn(cfg, a, [QUOTE, 0x61, QUOTE, COLON], key, b, [OPEN_BRACKET, CLOSE_BRACKET], brackets, r);
    ReadsOn(cfg, FRESH, [OPEN_CURLY], [OpenCurly], a,
            [QUOTE, 0x61, QUOTE, COLON] + [OPEN_BRACKET, CLOSE_BRACKET], key + brackets, r);
    OpeningText();
    FirstMemberTokens();
  }

  lemma OpeningText()
    ensures [OPEN_CURLY] + ([QUOTE, 0x61, QUOTE, COLON] + [OPEN_BRACKET, CLOSE_BRACKET]) == OPENING
  {
  }

  lemma FirstMemberTokens()
    ensures MemberTokens(Shipped, FIRST_MEMBER) == StringTokens([0x61]) + [Colon] + [OpenBracket, CloseBracket]
  {
    EmptyArrayTokens(Shipped);
    assert MemberTokens(Shipped, NoMembers) == [] && Separator(Shipped, NoMembers) == [];
    assert [] + [] + StringTokens([0x61]) == StringTokens([0x61]);
  }

  lemma ReadsClosing(cfg: Config, l: Lexer) returns (r: Lexer)
    requires Resting(l, 0)
    ensures Reads(cfg, l, CLOSING, StringTokens([0x62]) + [Colon] + [Null] + [CloseCurly], r)
  {
    var a := ReadsNullMember(cfg, l);
    r := ReadsFixed(cfg, a, CloseCurly);
    ReadsOn(cfg, l, [QUOTE, 0x62, QUOTE, COLON] + NULL_WORD, StringTokens([0x62]) + [Colon] + [Null], a,
            [END_OBJECT], [CloseCurly], r);
    assert [QUOTE, 0x62, QUOTE, COLON] + NULL_WORD + [END_OBJECT] == CLOSING;
  }

  lemma ReadsNullMember(cfg: Config, l: Lexer) returns (r: Lexer)
    requires Resting(l, 0)
    ensures Reads(cfg, l, [QUOTE, 0x62, QUOTE, COLON] + NULL_WORD, StringTokens([0x62]) + [Colon] + [Null], r)
  {
    var a := ReadsKey(cfg, l, 0x62);
    r := ReadsFixed(cfg, a, Null);
    ReadsOn(cfg, l, [QUOTE, 0x62, QUOTE, COLON], StringTokens([0x62]) + [Colon], a, NULL_WORD, [Null], r);
  }

  lemma FeedFirstMember(limit: nat)
    requires limit >= 2
    ensures Feed(Shipped, limit, START, [OpenCurly] + MemberTokens(Shipped, FIRST_MEMBER)).next
            == Ready(Pda(MaybeObjectKey, [CURLY]))
  {
    var p := Pda(MaybeObjectKey, [CURLY]);
    FeedOne(Shipped, limit, START, OpenCurly);
    FeedMembers(Shipped, limit, [CURLY], FIRST_MEMBER);
    FeedThen(Shipped, limit, START, [OpenCurly], p, MemberTokens(Shipped, FIRST_MEMBER));
  }

  lemma ReadsSecondComma(cfg: Config) returns (r: Lexer)
    ensures Reads(cfg, FRESH, OPENING + [0x2C], [OpenCurly] + MemberTokens(Shipped, FIRST_MEMBER) + [Comma], r)
  {
    var q := ReadsOpening(cfg);
    r := ReadsFixed(cfg, q, Comma);
    ReadsOn(cfg, FRESH, OPENING, [OpenCurly] + MemberTokens(Shipped, FIRST_MEMBER), q, [0x2C], [Comma], r);
  }

  /** After the bytes `bs` the parser refuses their last token; whatever follows is not read. */
  lemma RefusedThere(cfg: Config, bs: bytes, ts: seq<Token>, r: Lexer, p: Pda, u: Token, e: Error, more: bytes)
    requires Reads(cfg, FRESH, bs, ts + [u], r) && Feed(Shipped, cfg.Limit(), START, ts).next == Ready(p)
    requires Advance(Shipped, cfg.Limit(), p, u) == Fail(e)
    ensures Run(cfg, [bs + more]).end == Error(e)
  {
    ScanAllConcat(cfg, FRESH, bs, more);
    RunByTokens(cfg, bs + more);
    FeedOne(Shipped, cfg.Limit(), p, u);
    FeedThen(Shipped, cfg.Limit(), START, ts, p, [u]);
    FeedConcat(Shipped, cfg.Limit(), START, ts + [u], ScanAll(cfg, r, more).toks);
  }

  /** {"a":[],"b":null} is refused at its second comma. */
  lemma EmptyArrayThenComma(cfg: Config)
    requires cfg.Limit() >= 2
    ensures Run(cfg, [WITH_COMMA]).end == Error(ExpObjectKey)
  {
    var r := ReadsSecondComma(cfg);
    FeedFirstMember(cfg.Limit());
    RefusedThere(cfg, OPENING + [0x2C], [OpenCurly] + MemberTokens(Shipped, FIRST_MEMBER), r,
                 Pda(MaybeObjectKey, [CURLY]), Comma, ExpObjectKey, CLOSING);
  }

  lemma ReadsFirstMember(cfg: Config) returns (r: Lexer)
    ensures Reads(cfg, FRESH, OPENING + [0x20], [OpenCurly] + MemberTokens(Shipped, FIRST_MEMBER), r)
  {
    r := ReadsOpening(cfg);
    ScanBlanks(cfg, r, [0x20]);
    ReadsOn(cfg, FRESH, OPENING, [OpenCurly] + MemberTokens(Shipped, FIRST_MEMBER), r, [0x20], [], r);
    PlusNothing([OpenCurly] + MemberTokens(Shipped, FIRST_MEMBER));
  }

  lemma ReadsWithoutComma(cfg: Config) returns (r: Lexer)
    ensures Reads(cfg, FRESH, WITHOUT_COMMA, TokensOf(Shipped, TWO_MEMBERS), r)
  {
    var q := ReadsFirstMember(cfg);
    r := ReadsClosing(cfg, q);
    TwoMemberTokens();
    ReadsOn(cfg, FRESH, OPENING + [0x20], [OpenCurly] + MemberTokens(Shipped, FIRST_MEMBER), q, CLOSING,
            StringTokens([0x62]) + [Colon] + [Null] + [CloseCurly], r);
  }

  /** {"a":[] "b":null} is accepted, and reported as the document that was meant. */
  lemma EmptyArrayWithoutComma(cfg: Config)
    requires cfg.Limit() >= 2
    ensures Accepted(cfg, WITHOUT_COMMA) && Run(cfg, [WITHOUT_COMMA]).events == Traversal(TWO_MEMBERS)
  {
    var r := ReadsWithoutComma(cfg);
    AcceptedValue(cfg, WITHOUT_COMMA, TWO_MEMBERS);
  }

  lemma TwoMemberTokens()
    ensures TokensOf(Shipped, TWO_MEMBERS)
            == [OpenCurly] + MemberTokens(Shipped, FIRST_MEMBER)
               + (StringTokens([0x62]) + [Colon] + [Null] + [CloseCurly])
  {
    var ms := Members(FIRST_MEMBER, [0x62], NullValue);
    assert Separator(Shipped, FIRST_MEMBER) == [];
    assert MemberTokens(Shipped, ms)
        == MemberTokens(Shipped, FIRST_MEMBER) + [] + StringTokens([0x62]) + [Colon] + [Null];
  }

  lemma AcceptedValue(cfg: Config, bs: bytes, v: Value)
    requires Scan(cfg, FRESH, bs).toks == TokensOf(Shipped, v) && Depth(v) <= cfg.Limit()
    requires Scan(cfg, FRESH, bs).next.Go? && Scan(cfg, FRESH, bs).next.lexer.mode.LookupToken?
    ensures Accepted(cfg, bs) && Run(cfg, [bs]).events == Traversal(v)
  {
    var ts := TokensOf(Shipped, v);
    RunByTokens(cfg, bs);
    assert ts + [] == ts;
    EverySpellingAccepted(Shipped, cfg.Limit(), v);
    SpellingsShaped(Shipped, v);
    FeedKeepsSound(Shipped, cfg.Limit(), START, ts, false);
    TokensReportTraversal(Shipped, v);
  }

  // ---- Strings ----

  /** Reading a loose lead, inside a string that has just begun. */
  lemma ReadLooseLead(cfg: Config, b: byte)
    requires LooseLead(b)
    ensures Scan(cfg, FRESH, [QUOTE, b])
            == Scanned([StringBegin, StringByte(b)], Go(FRESH.(mode := InString, nb := 3)))
  {
    ScanOne(cfg, FRESH, QUOTE);
    assert [QUOTE, b] == [QUOTE] + [b];
    ScanSnoc(cfg, FRESH, [QUOTE], FRESH.(mode := InString), b);
  }

  /**
   * After F1..F3 and F5..F7 the quote ends the string at once: a string that is no UTF-8 is
   * delivered, and the bytes still missing are asked of the next string, which is refused.
   */
  lemma LooseLeadLeaks(cfg: Config, b: byte, c: byte)
    requires LooseLead(b) && 0x20 <= c <= 0x7F && c != QUOTE && c != BACKSLASH
    ensures Scan(cfg, FRESH, [QUOTE, b, QUOTE]) == Scanned(StringTokens([b]), Go(FRESH.(nb := 2)))
    ensures Accepted(cfg, [QUOTE, b, QUOTE]) && Run(cfg, [[QUOTE, b, QUOTE]]).events == StringCallbacks([b])
    ensures Scan(cfg, FRESH, [QUOTE, c]).next.Go?
    ensures Scan(cfg, FRESH.(nb := 2), [QUOTE, c]).next == Stop(BadUtf8)
  {
    var bs := [QUOTE, b, QUOTE];
    ReadLooseLead(cfg, b);
    assert bs == [QUOTE, b] + [QUOTE];
    ScanSnoc(cfg, FRESH, [QUOTE, b], FRESH.(mode := InString, nb := 3), QUOTE);
    StringBytesOne(b);
    AcceptedValue(cfg, bs, StringValue([b]));
    assert [QUOTE, c] == [QUOTE] + [c];
    ScanOne(cfg, FRESH, QUOTE);
    ScanSnoc(cfg, FRESH, [QUOTE], FRESH.(mode := InString), c);
    ScanOne(cfg, FRESH.(nb := 2), QUOTE);
    ScanSnoc(cfg, FRESH.(nb := 2), [QUOTE], FRESH.(nb := 2, mode := InString), c);
  }

  /**
   * What the lexer takes besides UTF-8: a string of one ill-formed unit is accepted and delivered
   * as it stands. 80 is a stray continuation byte, C0 80 an overlong zero, ED A0 80 a surrogate,
   * and F5 80 80 80 is beyond the last code point.
   */
  lemma IllFormedUnits(cfg: Config, u: bytes)
    requires u == [0x80] || u == [0xC0, 0x80] || u == [0xED, 0xA0, 0x80] || u == [0xF5, 0x80, 0x80, 0x80]
    ensures IllFormed(u) && !WellFormed([QUOTE] + u + [QUOTE])
    ensures Accepted(cfg, [QUOTE] + u + [QUOTE])
    ensures Run(cfg, [[QUOTE] + u + [QUOTE]]).events == StringCallbacks(u)
  {
    assert Unit(u) && IllFormed(u);
    OneUnitString(cfg, u);
    IllFormedBefore(u, [QUOTE]);
    WellFormedAfterAscii([QUOTE], u + [QUOTE]);
    assert [QUOTE] + u + [QUOTE] == [QUOTE] + (u + [QUOTE]);
  }

  lemma OneUnitString(cfg: Config, u: bytes)
    requires Unit(u)
    ensures Accepted(cfg, [QUOTE] + u + [QUOTE])
    ensures Run(cfg, [[QUOTE] + u + [QUOTE]]).events == StringCallbacks(u)
  {
    OneUnit(u);
    var r := ScanString(cfg, FRESH, 0, [Plain(u)]);
    AcceptedValue(cfg, [QUOTE] + u + [QUOTE], StringValue(u));
  }

  /** The character U+20000, encoded F0 A0 80 80, is refused. */
  lemma SecondPlaneInput(cfg: Config)
    ensures Utf8Char([0xF0, 0xA0, 0x80, 0x80])
    ensures Run(cfg, [[QUOTE, 0xF0, 0xA0, 0x80, 0x80, QUOTE]]).end == Error(BadUtf8)
  {
    var l := FRESH.(mode := InString);
    var bs: bytes := [QUOTE, 0xF0, 0xA0, 0x80, 0x80, QUOTE];
    ScanOne(cfg, FRESH, QUOTE);
    StringStep(cfg, l, 0xF0);
    ScanSnoc(cfg, FRESH, [QUOTE], l, 0xF0);
    StringStep(cfg, Inside(l, [0xF0]), 0xA0);
    ScanSnoc(cfg, FRESH, [QUOTE] + [0xF0], Inside(l, [0xF0]), 0xA0);
    assert bs == [QUOTE] + [0xF0] + [0xA0] + [0x80, 0x80, QUOTE];
    ScanAllConcat(cfg, FRESH, [QUOTE] + [0xF0] + [0xA0], [0x80, 0x80, QUOTE]);
    StoppedString(cfg, bs, 0xF0);
  }

  lemma StoppedString(cfg: Config, bs: bytes, b: byte)
    requires Scan(cfg, FRESH, bs) == Scanned([StringBegin, StringByte(b)], Stop(BadUtf8))
    ensures Run(cfg, [bs]).end == Error(BadUtf8)
  {
    PushesAreOnePush(cfg, INITIAL, [bs]);
    OneConcatenated(bs);
    StringBegun(cfg.Limit(), b);
  }

  lemma StringBegun(limit: nat, b: byte)
    ensures Feed(Shipped, limit, START, [StringBegin, StringByte(b)]).next == Ready(START)
  {
    FeedOne(Shipped, limit, START, StringBegin);
    FeedOne(Shipped, limit, START, StringByte(b));
    FeedThen(Shipped, limit, START, [StringBegin], START, [StringByte(b)]);
    assert [StringBegin] + [StringByte(b)] == [StringBegin, StringByte(b)];
  }

  // ---- Numbers ----

  lemma AcceptedNumber(cfg: Config, bs: bytes, t: Token)
    requires ScanAll(cfg, FRESH, bs).toks == [t] && NumberTok(t) && Good(cfg, FRESH, bs)
    ensures Accepted(cfg, bs) && Run(cfg, [bs]).events == EventsOf(t)
  {
    RunByTokens(cfg, bs);
    FeedOne(Shipped, cfg.Limit(), START, t);
  }

  /**
   * A number whose fraction or exponent was announced but has no digit ("1.", "1e+") is accepted
   * at the end of the input, and refused before white space.
   */
  lemma UnfinishedAtTheEnd(cfg: Config, n: Number)
    requires cfg.Valid() && SoFar(cfg, n) && EndsInput(n)
    requires if n.exp.Some? then ExpDigits(n) == [] else n.frac == Some([])
    ensures Accepted(cfg, NumberText(n))
    ensures Scan(cfg, FRESH, NumberText(n) + [SPACE]).next == Stop(if n.exp.Some? then EmptyExp else EmptyFrac)
    ensures !Grammar(n)
  {
    ScanNumber(cfg, FRESH, n);
    FinishOne(cfg, FRESH, n);
    AcceptedNumber(cfg, NumberText(n), NumberToken(cfg, n));
    UnfinishedBeforeSpace(cfg, n);
    ScanSnoc(cfg, FRESH, NumberText(n), Reading(FRESH, n), SPACE);
  }

  lemma UnfinishedBeforeSpace(cfg: Config, n: Number)
    requires SoFar(cfg, n) && EndsInput(n)
    requires if n.exp.Some? then ExpDigits(n) == [] else n.frac == Some([])
    ensures Step(cfg, Reading(FRESH, n), SPACE) == Scanned([], Stop(if n.exp.Some? then EmptyExp else EmptyFrac))
  {
    var l := Reading(FRESH, n);
    assert l.mode == if n.exp.Some? then InNumberExp else InNumberFrac;
  }

  /** The largest integer of a signed type is refused, though it fits, before any delimiter. */
  lemma LargestInteger(cfg: Config, bits: nat, n: Number, d: byte, t: Token)
    requires SignedMaximum(cfg.intMax, bits) && Delimiter(d)
    requires Grammar(n) && Integral(n) && Numeral(n.whole) == cfg.intMax
    ensures !ReadAsNumber(cfg, FRESH, NumberText(n), d, t)
  {
    SignedMaximumRefused(cfg, bits, n);
    if ReadAsNumber(cfg, FRESH, NumberText(n), d, t) {
      MinusMeansSign(n);
      var m := OnlyNumbersAreRead(cfg, FRESH, NumberText(n), d, t);
      NumberUnique(n, m);
    }
  }

  lemma ZeroPointIsRead(cfg: Config, f: bytes, t: Token)
    requires cfg.Valid() && Digits(f) && U16(|f|) != 0 && t == NumberToken(cfg, ZeroPoint(f))
    ensures Accepted(cfg, [0x30, DOT] + f) && Run(cfg, [[0x30, DOT] + f]).events == EventsOf(t)
    ensures Scan(cfg, FRESH, [0x30, DOT] + f + [SPACE]).toks == [t]
  {
    var n := ZeroPoint(f);
    ZeroPointGrammar(cfg, f);
    CompleteIsGrammar(cfg, n);
    ScanNumber(cfg, FRESH, n);
    FinishOne(cfg, FRESH, n);
    AcceptedNumber(cfg, NumberText(n), t);
    NumberIsRead(cfg, FRESH, n, SPACE);
    assert Step(cfg, FRESH, SPACE).toks == [];
  }

  /** 0.18446744073709551616 is accepted and delivered as zero. */
  lemma WrappedFractionInput(cfg: Config)
    requires cfg.Valid()
    ensures Run(cfg, [[0x30, DOT] + WRAPPING]).events == [DoubleEvent(0.0)]
    ensures Grammar(ZeroPoint(WRAPPING)) && NumberText(ZeroPoint(WRAPPING)) == [0x30, DOT] + WRAPPING
    ensures TextValue(ZeroPoint(WRAPPING)) != 0.0
  {
    WrappingValue();
    WrappingToken(cfg, WRAPPING);
    ZeroPointGrammar(cfg, WRAPPING);
    DeliveredAsZero(cfg, WRAPPING);
  }

  lemma DeliveredAsZero(cfg: Config, f: bytes)
    requires cfg.Valid() && Digits(f) && U16(|f|) != 0 && NumberToken(cfg, ZeroPoint(f)) == Double(0.0)
    ensures Run(cfg, [[0x30, DOT] + f]).events == [DoubleEvent(0.0)]
  {
    ZeroPointIsRead(cfg, f, Double(0.0));
  }

  /**
   * 0.111...1 with 324 digits is accepted, at the end of the input and before a space, and the
   * double delivered is made with what lies beyond the table.
   */
  lemma TableOverrunInput(cfg: Config)
    requires cfg.Valid()
    ensures Digits(LONG_FRACTION)
    ensures var bs, t := [0x30, DOT] + LONG_FRACTION, Double(U64(Numeral(LONG_FRACTION)) as real * cfg.beyond(324));
            && Accepted(cfg, bs) && Run(cfg, [bs]).events == EventsOf(t)
            && Scan(cfg, FRESH, bs + [SPACE]).toks == [t]
    ensures !InTable(Reading(FRESH, ZeroPoint(LONG_FRACTION)))
  {
    LongDigits();
    BeyondTheTable(cfg, LONG_FRACTION);
  }

  lemma BeyondTheTable(cfg: Config, f: bytes)
    requires cfg.Valid() && Digits(f) && |f| == 324
    ensures var bs, t := [0x30, DOT] + f, Double(U64(Numeral(f)) as real * cfg.beyond(324));
            && Accepted(cfg, bs) && Run(cfg, [bs]).events == EventsOf(t)
            && Scan(cfg, FRESH, bs + [SPACE]).toks == [t]
    ensures !InTable(Reading(FRESH, ZeroPoint(f)))
  {
    LongToken(cfg, f);
    ZeroPointIsRead(cfg, f, NumberToken(cfg, ZeroPoint(f)));
    assert TableIndices(Reading(FRESH, ZeroPoint(f)))[0] == 632;
  }

  // ---- Error codes that name what could not come ----

  /** The bytes of {"a":1 2} and of [1 2]. */
  const OBJECT_LACKS_COMMA: bytes := [0x7B, 0x22, 0x61, 0x22, 0x3A, 0x31, 0x20, 0x32, 0x7D]
  const ARRAY_LACKS_COMMA: bytes := [0x5B, 0x31, 0x20, 0x32, 0x5D]

  /** The digit d, and a delimiter after it. */
  lemma ReadsDigit(cfg: Config, l: Lexer, d: nat, after: byte, ts: seq<Token>, r: Lexer)
    requires cfg.Valid() && d < 10 && Delimiter(after) && Reads(cfg, l, [after], ts, r)
    ensures Reads(cfg, l, [Figure(d), after], [Int(d)] + ts, r)
  {
    PrintedIntegerIsRead(cfg, l, d, after, Int(d));
    ShownParts(d);
    ScanOne(cfg, l, after);
    assert Shown(d) + [after] == [Figure(d), after];
  }

  lemma ReadsDigitSpace(cfg: Config, l: Lexer, d: nat)
    requires cfg.Valid() && Resting(l, 0) && d < 10
    ensures Reads(cfg, l, [Figure(d), 0x20], [Int(d)] + [], l)
  {
    ScanBlanks(cfg, l, [0x20]);
    ReadsDigit(cfg, l, d, 0x20, [], l);
  }

  lemma ReadsDigitBracket(cfg: Config, l: Lexer, d: nat, c: Token) returns (r: Lexer)
    requires cfg.Valid() && Resting(l, 0) && d < 10 && (c.CloseCurly? || c.CloseBracket?)
    ensures Reads(cfg, l, [Figure(d)] + FixedText(c), [Int(d)] + [c], r)
  {
    r := ReadsFixed(cfg, l, c);
    ReadsDigit(cfg, l, d, FixedText(c)[0], [c], r);
    assert [Figure(d), FixedText(c)[0]] == [Figure(d)] + FixedText(c);
  }

  /** Two digits with a space between them and a bracket after them. */
  lemma ReadsTwoDigits(cfg: Config, l: Lexer, c: Token) returns (r: Lexer)
    requires cfg.Valid() && Resting(l, 0) && (c.CloseCurly? || c.CloseBracket?)
    ensures Reads(cfg, l, [0x31, 0x20, 0x32] + FixedText(c), [Int(1), Int(2), c], r)
  {
    ReadsDigitSpace(cfg, l, 1);
    r := ReadsDigitBracket(cfg, l, 2, c);
    ReadsOn(cfg, l, [0x31, 0x20], [Int(1)] + [], l, [0x32] + FixedText(c), [Int(2)] + [c], r);
    assert [0x31, 0x20] + ([0x32] + FixedText(c)) == [0x31, 0x20, 0x32] + FixedText(c);
    assert [Int(1)] + [] + ([Int(2)] + [c]) == [Int(1), Int(2), c];
  }

  /** What is read to a point where the parser gives an error: the run ends with it. */
  lemma RunBreaks(cfg: Config, bs: bytes, ts: seq<Token>, r: Lexer, p: Pda, u: Token, us: seq<Token>, e: Error)
    requires Reads(cfg, FRESH, bs, ts + ([u] + us), r)
    requires Feed(Shipped, cfg.Limit(), START, ts).next == Ready(p)
    requires Advance(Shipped, cfg.Limit(), p, u) == Fail(e)
    ensures Run(cfg, [bs]).end == Error(e)
  {
    RunByTokens(cfg, bs);
    assert Feed(Shipped, cfg.Limit(), p, [u] + us).next == Broken(e);
    FeedThen(Shipped, cfg.Limit(), START, ts, p, [u] + us);
    PlusNothing(ts + ([u] + us));
  }

  lemma ObjectUpToOne(limit: nat)
    requires limit >= 1
    ensures Feed(Shipped, limit, START, OBJECT_FRONT).next == Ready(Pda(MaybeObjectComma, [CURLY]))
  {
    var p, c, v := Pda(MaybeObjectKey, [CURLY]), Pda(ExpectColon, [CURLY]), Pda(ExpectObjectValue, [CURLY]);
    FeedOne(Shipped, limit, START, OpenCurly);
    FeedString(Shipped, limit, p, [0x61]);
    FeedOne(Shipped, limit, c, Colon);
    FeedThen(Shipped, limit, p, StringTokens([0x61]), c, [Colon]);
    FeedThen(Shipped, limit, START, [OpenCurly], p, StringTokens([0x61]) + [Colon]);
    FeedOne(Shipped, limit, v, Int(1));
    FeedThen(Shipped, limit, START, [OpenCurly] + (StringTokens([0x61]) + [Colon]), v, [Int(1)]);
  }

  const OBJECT_FRONT: seq<Token> := [OpenCurly] + (StringTokens([0x61]) + [Colon]) + [Int(1)]
  const ARRAY_FRONT: seq<Token> := [OpenBracket] + [Int(1)]

  /** The bytes of {"a": and their tokens. */
  lemma ReadsObjectFront(cfg: Config) returns (r: Lexer)
    ensures Reads(cfg, FRESH, [0x7B] + [0x22, 0x61, 0x22, 0x3A], [OpenCurly] + (StringTokens([0x61]) + [Colon]), r)
  {
    var a := ReadsFixed(cfg, FRESH, OpenCurly);
    r := ReadsKey(cfg, a, 0x61);
    ReadsOn(cfg, FRESH, [0x7B], [OpenCurly], a, [0x22, 0x61, 0x22, 0x3A], StringTokens([0x61]) + [Colon], r);
  }

  lemma ReadsObjectLacksComma(cfg: Config) returns (r: Lexer)
    requires cfg.Valid()
    ensures Reads(cfg, FRESH, OBJECT_LACKS_COMMA, OBJECT_FRONT + ([Int(2)] + [CloseCurly]), r)
  {
    var b := ReadsObjectFront(cfg);
    r := ReadsTwoDigits(cfg, b, CloseCurly);
    ReadsOn(cfg, FRESH, [0x7B] + [0x22, 0x61, 0x22, 0x3A], [OpenCurly] + (StringTokens([0x61]) + [Colon]), b,
            [0x31, 0x20, 0x32] + [0x7D], [Int(1), Int(2), CloseCurly], r);
    assert [0x7B] + [0x22, 0x61, 0x22, 0x3A] + ([0x31, 0x20, 0x32] + [0x7D]) == OBJECT_LACKS_COMMA;
    TwoMore([OpenCurly] + (StringTokens([0x61]) + [Colon]), Int(1), Int(2), CloseCurly);
  }

  lemma TwoMore(ts: seq<Token>, a: Token, b: Token, c: Token)
    ensures ts + [a, b, c] == ts + [a] + ([b] + [c])
  {
  }

  lemma ReadsArrayLacksComma(cfg: Config) returns (r: Lexer)
    requires cfg.Valid()
    ensures Reads(cfg, FRESH, ARRAY_LACKS_COMMA, ARRAY_FRONT + ([Int(2)] + [CloseBracket]), r)
  {
    var a := ReadsFixed(cfg, FRESH, OpenBracket);
    r := ReadsTwoDigits(cfg, a, CloseBracket);
    ReadsOn(cfg, FRESH, [0x5B], [OpenBracket], a, [0x31, 0x20, 0x32] + [0x5D], [Int(1), Int(2), CloseBracket], r);
    assert [0x5B] + ([0x31, 0x20, 0x32] + [0x5D]) == ARRAY_LACKS_COMMA;
    assert [OpenBracket] + [Int(1), Int(2), CloseBracket] == [OpenBracket] + [Int(1)] + ([Int(2)] + [CloseBracket]);
  }

  lemma ArrayUpToOne(limit: nat)
    requires limit >= 1
    ensures Feed(Shipped, limit, START, ARRAY_FRONT).next == Ready(Pda(MaybeArrayComma, [SQUARE]))
  {
    var p := Pda(MaybeArrayValue, [SQUARE]);
    FeedOne(Shipped, limit, START, OpenBracket);
    FeedOne(Shipped, limit, p, Int(1));
    FeedThen(Shipped, limit, START, [OpenBracket], p, [Int(1)]);
  }

  /** Where a member or an element has ended, a number breaks the run with the code for the other bracket. */
  lemma NumberBreaks(cfg: Config, bs: bytes, ts: seq<Token>, r: Lexer, bracket: bool, i: int, c: Token)
    requires Reads(cfg, FRESH, bs, ts + ([Int(i)] + [c]), r)
    requires Feed(Shipped, cfg.Limit(), START, ts).next
             == Ready(Pda(if bracket == CURLY then MaybeObjectComma else MaybeArrayComma, [bracket]))
    ensures Run(cfg, [bs]).end == Error(if bracket == CURLY then ExpCommaOrCloseBracket else ExpCommaOrCloseCurly)
  {
    var p := Pda(if bracket == CURLY then MaybeObjectComma else MaybeArrayComma, [bracket]);
    RunBreaks(cfg, bs, ts, r, p, Int(i), [c], NumberError(p.state));
  }

  /** {"a":1 2} is refused at the 2 because "a comma or a closing square bracket" was expected. */
  lemma NumberForObjectComma(cfg: Config)
    requires cfg.Valid() && cfg.Limit() >= 1
    ensures Run(cfg, [OBJECT_LACKS_COMMA]).end == Error(ExpCommaOrCloseBracket)
  {
    var r := ReadsObjectLacksComma(cfg);
    ObjectUpToOne(cfg.Limit());
    NumberBreaks(cfg, OBJECT_LACKS_COMMA, OBJECT_FRONT, r, CURLY, 2, CloseCurly);
  }

  /** [1 2] is refused at the 2 because "a comma or a closing curly bracket" was expected. */
  lemma NumberForArrayComma(cfg: Config)
    requires cfg.Valid() && cfg.Limit() >= 1
    ensures Run(cfg, [ARRAY_LACKS_COMMA]).end == Error(ExpCommaOrCloseCurly)
  {
    var r := ReadsArrayLacksComma(cfg);
    ArrayUpToOne(cfg.Limit());
    NumberBreaks(cfg, ARRAY_LACKS_COMMA, ARRAY_FRONT, r, SQUARE, 2, CloseBracket);
  }

  /** {[ is refused because "a key" was expected, though the end of the object could have come. */
  lemma EndLeftOut(cfg: Config)
    requires cfg.Limit() >= 1
    ensures Run(cfg, [[0x7B, 0x5B]]).end == Error(ExpObjectKey)
    ensures Welcome(Shipped, Pda(MaybeObjectKey, [CURLY]), CloseCurly)
  {
    var a := ReadsFixed(cfg, FRESH, OpenCurly);
    var r := ReadsFixed(cfg, a, OpenBracket);
    ReadsOn(cfg, FRESH, [0x7B], [OpenCurly], a, [0x5B], [OpenBracket], r);
    assert [0x7B] + [0x5B] == [0x7B, 0x5B];
    FeedOne(Shipped, cfg.Limit(), START, OpenCurly);
    assert [OpenBracket] + [] == [OpenBracket];
    RunBreaks(cfg, [0x7B, 0x5B], [OpenCurly], r, Pda(MaybeObjectKey, [CURLY]), OpenBracket, [], ExpObjectKey);
  }

  /** A run whose bytes stop the lexer after the tokens `ts`, which the parser takes. */
  lemma RunStops(cfg: Config, bs: bytes, ts: seq<Token>, e: Error)
    requires Scan(cfg, FRESH, bs) == Scanned(ts, Stop(e)) && Feed(Shipped, cfg.Limit(), START, ts).next.Ready?
    ensures Run(cfg, [bs]).end == Error(e)
  {
    PushesAreOnePush(cfg, INITIAL, [bs]);
    OneConcatenated(bs);
  }

  /** A minus without a digit, before a letter and at the end, is told as the end of a string. */
  lemma MinusIsNoString(cfg: Config)
    ensures Run(cfg, [[0x2D, 0x78]]).end == Error(EofInString)
    ensures ScanAll(cfg, FRESH, [0x2D]).next == Stop(EofInString)
  {
    var l := FRESH.(minus := true, mode := InNumberSign);
    ScanOne(cfg, FRESH, 0x2D);
    assert [0x2D, 0x78] == [0x2D] + [0x78];
    ScanSnoc(cfg, FRESH, [0x2D], l, 0x78);
    RunStops(cfg, [0x2D, 0x78], [], EofInString);
  }

  /** A control character in a string is told as malformed UTF-8; the code meant for it is never used. */
  lemma ControlCharacter(cfg: Config, b: byte)
    requires b < 0x20
    ensures Run(cfg, [[0x22, b]]).end == Error(BadUtf8)
  {
    var l := FRESH.(mode := InString);
    ScanOne(cfg, FRESH, 0x22);
    StringStep(cfg, l, b);
    assert [0x22, b] == [0x22] + [b];
    ScanSnoc(cfg, FRESH, [0x22], l, b);
    FeedOne(Shipped, cfg.Limit(), START, StringBegin);
    assert [StringBegin] + [] == [StringBegin];
    RunStops(cfg, [0x22, b], [StringBegin], BadUtf8);
  }

  // ---- The capacity in an unsigned char ----

  /** With a stack of 32 bytes, which should hold 256 levels, the first bracket overflows. */
  lemma ThirtyTwoBytes(cfg: Config)
    requires cfg.stackBytes == 32
    ensures Run(cfg, [[OPEN_BRACKET]]).end == Error(StackOverflow)
  {
  }
}
