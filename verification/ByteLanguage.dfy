/** The language of the whole parser over bytes, and the callbacks it makes for each document. */
module ByteLanguage {
  import opened Bytes
  import opened Tokens
  import opened Documents
  import opened LexerMachine
  import opened Pushdown
  import opened Language
  import opened Numbers
  import opened Strings
  import opened Layouts
  import opened System
  import opened Utf8

  /** A run in one push, by the tokens of the whole input. */
  lemma RunByTokens(cfg: Config, bs: bytes)
    ensures var s := ScanAll(cfg, FRESH, bs);
            var m := Feed(Shipped, cfg.Limit(), START, s.toks);
            && Run(cfg, [bs]).events == m.events
            && Run(cfg, [bs]).end.Running? == (s.next.Go? && Accepts(Shipped, cfg.Limit(), s.toks))
            && (m.next.Broken? ==> Run(cfg, [bs]).end == Error(m.next.error))
  {
    PushesAreOnePush(cfg, INITIAL, [bs]);
    OneConcatenated(bs);
    var s := Scan(cfg, FRESH, bs);
    if s.next.Go? {
      CombineAfter(cfg, START, s.toks, Finish(cfg, s.next.lexer));
      FeedConcat(Shipped, cfg.Limit(), START, s.toks, Finish(cfg, s.next.lexer).toks);
    }
  }

  /** `bs` is laid out as the shipped spelling of `v`, a value that is not too deep. */
  predicate Spells(cfg: Config, y: Layout, v: Value, bs: bytes) {
    && Valid(cfg, 0, y) && Text(y) == bs && AllReadable(cfg, y)
    && LayoutTokens(cfg, y) == TokensOf(Shipped, v) && Depth(v) <= cfg.Limit()
  }

  lemma SpellingIsAccepted(cfg: Config, y: Layout, v: Value, bs: bytes)
    requires cfg.Valid() && Spells(cfg, y, v, bs)
    ensures Accepted(cfg, bs) && Run(cfg, [bs]).events == Traversal(v)
  {
    RunByTokens(cfg, bs);
    LayoutIsRead(cfg, FRESH, 0, y);
    EverySpellingAccepted(Shipped, cfg.Limit(), v);
    SpellingsShaped(Shipped, v);
    FeedKeepsSound(Shipped, cfg.Limit(), START, TokensOf(Shipped, v), false);
    TokensReportTraversal(Shipped, v);
  }

  lemma ScanAllShaped(cfg: Config, bs: bytes)
    ensures Shaped(false, ScanAll(cfg, FRESH, bs).toks)
  {
    var s := Scan(cfg, FRESH, bs);
    ScanShaped(cfg, FRESH, bs);
    if s.next.Go? {
      FinishShaped(cfg, s.next.lexer);
      ShapedConcat(false, s.toks, Finish(cfg, s.next.lexer).toks);
    }
  }

  /**
   * The byte language, for all bytes: an input is accepted exactly when it is laid out, with any white space, as
   * the spelling of a value within the depth limit. By `SpellingIsAccepted` the callbacks are then
   * the traversal of that value.
   */
  lemma AcceptsExactlyDocuments(cfg: Config, bs: bytes)
    requires cfg.Valid()
    ensures Accepted(cfg, bs) <==> exists y, v :: Spells(cfg, y, v, bs)
  {
    if Accepted(cfg, bs) {
      RunByTokens(cfg, bs);
      var y := TakeLayout(cfg, FRESH, 0, bs);
      LayoutIsRead(cfg, FRESH, 0, y);
      ScanAllShaped(cfg, bs);
      var v := AcceptedIsSpelling(Shipped, cfg.Limit(), LayoutTokens(cfg, y));
      assert Spells(cfg, y, v, bs);
    }
    forall y, v | Spells(cfg, y, v, bs)
      ensures Accepted(cfg, bs)
    {
      SpellingIsAccepted(cfg, y, v, bs);
    }
  }

  /**
   * Soundness of the callbacks: after every accepted run, however cut, and whatever its bytes, a
   * consumer that follows the callbacks holds one whole value, and they are its traversal.
   */
  lemma AcceptedRunReportsOneValue(cfg: Config, chunks: seq<bytes>) returns (v: Value)
    requires cfg.Valid() && Run(cfg, chunks).end.Running?
    ensures Run(cfg, chunks).events == Traversal(v) && Depth(v) <= cfg.Limit()
    ensures AbsorbAll(NOTHING, Run(cfg, chunks).events) == Builder(Whole(v), None)
    ensures forall w :: Run(cfg, chunks).events == Traversal(w) ==> w == v
  {
    var bs := Concatenated(chunks);
    RunIgnoresCuts(cfg, chunks);
    RunByTokens(cfg, bs);
    ScanAllShaped(cfg, bs);
    v := AcceptedIsSpelling(Shipped, cfg.Limit(), ScanAll(cfg, FRESH, bs).toks);
    TraversalRebuilds(Empty, v);
    forall w | Run(cfg, chunks).events == Traversal(w)
      ensures w == v
    {
      TraversalInjective(w, v);
    }
  }

  // ---- Standard documents ----

  predicate NoNumberAtEnds(ts: seq<Token>) {
    ts != [] && !NumberTok(ts[0]) && !NumberTok(ts[|ts| - 1])
  }

  lemma ApartConcat(a: seq<Token>, b: seq<Token>)
    requires Apart(a) && Apart(b)
    requires a != [] && b != [] ==> !NumberTok(a[|a| - 1]) || !NumberTok(b[0])
    ensures Apart(a + b)
  {
  }

  lemma StringApart(s: bytes)
    ensures Apart(StringTokens(s)) && NoNumberAtEnds(StringTokens(s))
  {
  }

  lemma {:induction false} SpellingApart(rules: Rules, v: Value)
    ensures Apart(TokensOf(rules, v)) && TokensOf(rules, v) != []
    decreases v
  {
    match v
    case StringValue(s) => StringApart(s);
    case ArrayValue(items) =>
      ItemsApart(rules, items);
      ApartConcat([OpenBracket], ItemTokens(rules, items));
      ApartConcat([OpenBracket] + ItemTokens(rules, items), [CloseBracket]);
    case ObjectValue(members) =>
      MembersApart(rules, members);
      ApartConcat([OpenCurly], MemberTokens(rules, members));
      ApartConcat([OpenCurly] + MemberTokens(rules, members), [CloseCurly]);
    case _ =>
  }

  lemma {:induction false} ItemsApart(rules: Rules, items: Items)
    ensures Apart(ItemTokens(rules, items))
    decreases items
  {
    if items.Items? {
      var a, sep := ItemTokens(rules, items.init), ItemSeparator(items.init);
      ItemsApart(rules, items.init);
      SpellingApart(rules, items.last);
      ApartConcat(a, sep);
      assert sep == [] ==> a + sep == [];
      ApartConcat(a + sep, TokensOf(rules, items.last));
    }
  }

  lemma {:induction false} MembersApart(rules: Rules, ms: Members)
    ensures Apart(MemberTokens(rules, ms))
    decreases ms
  {
    if ms.Members? {
      var a, sep, k := MemberTokens(rules, ms.init), Separator(rules, ms.init), StringTokens(ms.key);
      MembersApart(rules, ms.init);
      SpellingApart(rules, ms.value);
      StringApart(ms.key);
      ApartConcat(a, sep);
      ApartConcat(a + sep, k);
      ApartConcat(a + sep + k, [Colon]);
      ApartConcat(a + sep + k + [Colon], TokensOf(rules, ms.value));
    }
  }

  /** A layout, in the lexical grammar of JSON, of the standard spelling of `v`. */
  predicate Standard(cfg: Config, y: Layout, v: Value) {
    Lawful(cfg, y) && AllReadable(cfg, y) && LayoutTokens(cfg, y) == TokensOf(Drawn, v)
  }

  /**
   * Round trip for standard documents. Laid out in any way and cut in any way, the standard
   * spelling of a value is accepted exactly when the value is regular and within the depth limit;
   * the callbacks are then its traversal, and too deep a regular value is a stack overflow.
   */
  lemma StandardDocuments(cfg: Config, y: Layout, v: Value, chunks: seq<bytes>)
    requires cfg.Valid() && Standard(cfg, y, v) && Concatenated(chunks) == Text(y)
    ensures Depth(v) <= cfg.Limit() ==> (Run(cfg, chunks).end.Running? <==> Regular(v))
    ensures Regular(v) && Depth(v) <= cfg.Limit() ==> Run(cfg, chunks).events == Traversal(v)
    ensures Regular(v) && Depth(v) > cfg.Limit() ==> Run(cfg, chunks).end == Error(StackOverflow)
  {
    var bs := Text(y);
    SpellingApart(Drawn, v);
    LawfulIsValid(cfg, y);
    RunIgnoresCuts(cfg, chunks);
    RunByTokens(cfg, bs);
    LayoutIsRead(cfg, FRESH, 0, y);
    CommasLeftOut(v);
    DepthDecides(Shipped, cfg.Limit(), v);
    if Depth(v) <= cfg.Limit() {
      ShippedAcceptsStandardSpelling(cfg.Limit(), v);
      if Regular(v) {
        SpellingIsAccepted(cfg, y, v, bs);
      }
    }
  }

  /** The documented limit, eight levels for each byte of the stack, is the actual one up to 31 bytes. */
  lemma DocumentedLimit(cfg: Config)
    ensures cfg.Limit() == 8 * cfg.stackBytes <==> cfg.stackBytes <= 31
    ensures cfg.stackBytes == STACK_BYTES ==> cfg.Limit() == 128
  {
  }

  // ---- Well-formed documents ----

  /** Every string of the layout is UTF-8. */
  predicate ProperLayout(y: Layout) {
    y.Cons? ==> (y.lx.Str? ==> AllProper(y.lx.ps)) && ProperLayout(y.rest)
  }

  predicate Ascii(bs: bytes) {
    forall i :: 0 <= i < |bs| ==> bs[i] < 0x80
  }

  lemma NumberAscii(cfg: Config, n: Number)
    requires SoFar(cfg, n)
    ensures Ascii(NumberText(n))
  {
    assert Ascii(n.whole) && Ascii(FracDigits(n)) && Ascii(ExpDigits(n)) && Ascii(ExpSign(n));
    assert Ascii(FracText(n.frac));
    assert Ascii(ExpText(n.exp));
  }

  lemma StringDecides(ps: seq<Piece>, x: bytes)
    requires IsBody(0, ps)
    ensures WellFormed([QUOTE] + BodyText(ps) + [QUOTE] + x) <==> AllProper(ps) && WellFormed(x)
    ensures AllProper(ps) ==> StringPending(0, ps) == 0
  {
    var rest := [QUOTE] + x;
    assert [QUOTE] + BodyText(ps) + [QUOTE] + x == [QUOTE] + (BodyText(ps) + rest);
    WellFormedAfterAscii([QUOTE], BodyText(ps) + rest);
    BodyWellFormed(ps, rest);
    WellFormedAfterAscii([QUOTE], x);
    if AllProper(ps) {
      OrderlyIsBody(ps);
    }
  }

  lemma LexemeDecides(cfg: Config, lx: Lexeme, x: bytes)
    requires Lexes(cfg, 0, lx, x)
    ensures WellFormed(LexemeText(lx) + x) <==> (lx.Str? ==> AllProper(lx.ps)) && WellFormed(x)
    ensures (lx.Str? ==> AllProper(lx.ps)) ==> PendingNext(0, lx) == 0
  {
    match lx
    case Plainly(t) => WellFormedAfterAscii(FixedText(t), x);
    case Num(n) =>
      NumberAscii(cfg, n);
      WellFormedAfterAscii(NumberText(n), x);
    case Str(ps) => StringDecides(ps, x);
  }

  lemma {:induction false} LayoutWellFormed(cfg: Config, y: Layout)
    requires Valid(cfg, 0, y)
    ensures WellFormed(Text(y)) <==> ProperLayout(y)
    decreases y
  {
    match y
    case Tail(ws) =>
      assert ws + [] == ws;
      assert AllUtf8([]) && Concatenated([]) == [];
      WellFormedAfterAscii(ws, []);
    case Cons(ws, lx, rest) =>
      assert Text(y) == ws + (LexemeText(lx) + Text(rest));
      WellFormedAfterAscii(ws, LexemeText(lx) + Text(rest));
      LexemeDecides(cfg, lx, Text(rest));
      if lx.Str? ==> AllProper(lx.ps) {
        LayoutWellFormed(cfg, rest);
      }
  }

  /**
   * Accepted documents and UTF-8: an accepted input is well-formed if and only if none of its
   * strings has an ill-formed unit or a loose lead by itself.
   */
  lemma AcceptedWellFormed(cfg: Config, bs: bytes) returns (y: Layout)
    requires cfg.Valid() && Accepted(cfg, bs)
    ensures Valid(cfg, 0, y) && Text(y) == bs
    ensures WellFormed(bs) <==> ProperLayout(y)
  {
    RunByTokens(cfg, bs);
    y := TakeLayout(cfg, FRESH, 0, bs);
    LayoutWellFormed(cfg, y);
  }

  // ---- The final call ----

  /**
   * A number whose exponent has been announced but has no digit, or whose fraction has none by the
   * count of the lexer, which is modulo 65536.
   */
  predicate Unfinished(l: Lexer) {
    (l.mode.InNumberFrac? && l.fracPower == 0) || (l.mode.InNumberExp? && !l.expNotEmpty)
  }

  /** Push one space, then finalize. */
  function SpaceThenFinalize(cfg: Config, sys: Sys): Outcome {
    var o := Push(cfg, sys, [SPACE]);
    if o.end.Error? then o else Prefixed(o.events, Finalize(cfg, o.end.sys))
  }

  lemma SpaceTokens(cfg: Config, l: Lexer)
    requires Inv(cfg, l)
    ensures var f, s := Finish(cfg, l), Step(cfg, l, SPACE);
            if f.next.Go? && !Unfinished(l) then s.toks == f.toks && s.next.Go? && s.next.lexer.mode.LookupToken?
            else s.next.Stop? || StringMode(s.next.lexer.mode)
  {
    if NumberMode(l.mode) {
      SpaceAfterNumber(cfg, l);
    }
  }

  lemma SpaceAfterNumber(cfg: Config, l: Lexer)
    requires Inv(cfg, l) && NumberMode(l.mode)
    ensures var f, s := Finish(cfg, l), Step(cfg, l, SPACE);
            if f.next.Go? && !Unfinished(l) then s.toks == f.toks && s.next.Go? && s.next.lexer.mode.LookupToken?
            else s.next.Stop?
  {
    var first := Iterate(cfg, l, SPACE);
    if first.again {
      assert first.toks + [] == first.toks;
    }
  }

  /**
   * The final call agrees with white space: it succeeds, with the same callbacks, as if a space
   * had been pushed first, except that it also lets an unfinished number pass.
   */
  lemma FinalizeLikeSpace(cfg: Config, sys: Sys)
    requires SysInv(cfg, sys)
    ensures SpaceThenFinalize(cfg, sys).end.Running?
            <==> Finalize(cfg, sys).end.Running? && !Unfinished(sys.lexer)
    ensures SpaceThenFinalize(cfg, sys).end.Running? ==>
              SpaceThenFinalize(cfg, sys).events == Finalize(cfg, sys).events
  {
    SpaceTokens(cfg, sys.lexer);
    ScanOne(cfg, sys.lexer, SPACE);
    var o := Push(cfg, sys, [SPACE]);
    if o.end.Running? {
      assert o.events + [] == o.events;
    }
  }
}
