/**
 * Viable prefixes of bytes: from which states the lexer and the parser can still be brought to
 * accept, by some further bytes.
 */
module Viable {
  import opened Bytes
  import opened Tokens
  import opened Documents
  import opened LexerMachine
  import opened Pushdown
  import opened Language
  import opened StringReading
  import opened Strings
  import opened Layouts
  import opened System

  /** Pushing `bs` and finalizing, from a state in the middle of a run, succeeds. */
  predicate Completes(cfg: Config, sys: Sys, bs: bytes) {
    var o := Push(cfg, sys, bs);
    o.end.Running? && Finalize(cfg, o.end.sys).end.Running?
  }

  /** By the tokens of the rest of the input. */
  lemma CompletesByTokens(cfg: Config, sys: Sys, bs: bytes)
    ensures var s := ScanAll(cfg, sys.lexer, bs);
            var m := Feed(Shipped, cfg.Limit(), sys.pda, s.toks);
            Completes(cfg, sys, bs) <==> s.next.Go? && m.next.Ready? && m.next.pda.state == Done
  {
    var s := Scan(cfg, sys.lexer, bs);
    if s.next.Go? {
      CombineAfter(cfg, sys.pda, s.toks, Finish(cfg, s.next.lexer));
      FeedConcat(Shipped, cfg.Limit(), sys.pda, s.toks, Finish(cfg, s.next.lexer).toks);
    }
  }

  /** Bytes that are read without an error can be put first. */
  lemma CompletesAfter(cfg: Config, sys: Sys, a: bytes, next: Sys, b: bytes)
    requires Push(cfg, sys, a).end == Running(next) && Completes(cfg, next, b)
    ensures Completes(cfg, sys, a + b)
  {
    PushConcat(cfg, sys, a, b);
  }

  /** Silent bytes leave the parser where it is. */
  lemma PushSilently(cfg: Config, sys: Sys, a: bytes, l': Lexer)
    requires Scan(cfg, sys.lexer, a) == Scanned([], Go(l'))
    ensures Push(cfg, sys, a).end == Running(Sys(l', sys.pda))
  {
  }

  lemma PushString(cfg: Config, sys: Sys, a: bytes, s: bytes, l': Lexer)
    requires Scan(cfg, sys.lexer, a) == Scanned(StringBytes(s), Go(l')) && !sys.pda.state.Invalid?
    ensures Push(cfg, sys, a).end == Running(Sys(l', sys.pda))
  {
    FeedBytes(Shipped, cfg.Limit(), sys.pda, s);
  }

  // ---- Between two tokens ----

  function Closing(stack: seq<bool>): Layout {
    if stack == [] then Layout.Tail([])
    else Cons([], Plainly(if Top(stack) == CURLY then CloseCurly else CloseBracket), Closing(Pop(stack)))
  }

  /** The pieces of a key that can be written where `nb` bytes are pending. */
  function KeyPieces(nb: nat): seq<Piece> {
    if nb == 2 then [Remains(0x80, 0x80)] else []
  }

  function KeyBytes(nb: nat): bytes {
    if nb == 2 then [0x80, 0x80] else []
  }

  lemma KeyIsBody(nb: nat)
    requires nb == 0 || nb == 2
    ensures IsBody(nb, KeyPieces(nb)) && BodyBytes(KeyPieces(nb)) == KeyBytes(nb)
    ensures StringPending(nb, KeyPieces(nb)) == 0
  {
    if nb == 2 {
      var ps := [Remains(0x80, 0x80)];
      assert AllCorrect(ps) && ps[1..] == [];
      assert BodyBytes(ps) == PieceBytes(ps[0]) + BodyBytes([]);
      assert [0x80, 0x80] + [] == [0x80, 0x80];
    }
  }

  /** A layout of the tokens that settle state `s` and then close everything. */
  function Ending(s: State, nb: nat, stack: seq<bool>): Layout
    decreases if s.ExpectObjectKey? then 2 else if s.ExpectColon? then 1 else 0
  {
    match s
    case ExpectObjectKey => Cons([], Str(KeyPieces(nb)), Ending(ExpectColon, 0, stack))
    case ExpectColon => Cons([], Plainly(Colon), Ending(ExpectObjectValue, nb, stack))
    case ExpectValue => Cons([], Plainly(Null), Closing(stack))
    case ExpectObjectValue => Cons([], Plainly(Null), Closing(stack))
    case ExpectArrayValue => Cons([], Plainly(Null), Closing(stack))
    case _ => Closing(stack)
  }

  lemma {:induction false} ClosingLayout(cfg: Config, nb: nat, stack: seq<bool>)
    ensures Valid(cfg, nb, Closing(stack)) && AllReadable(cfg, Closing(stack))
    ensures LayoutTokens(cfg, Closing(stack)) == Closers(stack)
    decreases |stack|
  {
    if stack != [] {
      ClosingLayout(cfg, nb, Pop(stack));
    }
  }

  lemma {:induction false} EndingLayout(cfg: Config, s: State, nb: nat, stack: seq<bool>)
    requires nb == 0 || nb == 2
    ensures Lays(cfg, nb, Ending(s, nb, stack), Settle(s, KeyBytes(nb)) + Closers(stack))
    decreases if s.ExpectObjectKey? then 2 else if s.ExpectColon? then 1 else 0
  {
    ClosingLayout(cfg, nb, stack);
    if s.ExpectObjectKey? {
      KeyIsBody(nb);
      EndingLayout(cfg, ExpectColon, 0, stack);
      SettleKeys(KeyBytes(nb));
      LaysMore(cfg, nb, Str(KeyPieces(nb)), Ending(ExpectColon, 0, stack),
               Settle(ExpectColon, []) + Closers(stack));
      Regroup3(StringTokens(KeyBytes(nb)), Settle(ExpectColon, []), Closers(stack));
    } else if s.ExpectColon? {
      EndingLayout(cfg, ExpectObjectValue, nb, stack);
      LaysMore(cfg, nb, Plainly(Colon), Ending(ExpectObjectValue, nb, stack),
               Settle(ExpectObjectValue, KeyBytes(nb)) + Closers(stack));
      Regroup3([Colon], Settle(ExpectObjectValue, KeyBytes(nb)), Closers(stack));
    } else if Settle(s, KeyBytes(nb)) == [] {
      assert [] + Closers(stack) == Closers(stack);
    } else {
      LaysMore(cfg, nb, Plainly(Null), Closing(stack), Closers(stack));
    }
  }

  /** `y` can be read where `nb` bytes are pending, and has the tokens `ts`. */
  predicate Lays(cfg: Config, nb: nat, y: Layout, ts: seq<Token>) {
    Valid(cfg, nb, y) && AllReadable(cfg, y) && LayoutTokens(cfg, y) == ts
  }

  lemma LaysMore(cfg: Config, nb: nat, lx: Lexeme, y: Layout, ts: seq<Token>)
    requires !lx.Num? && Lexes(cfg, nb, lx, Text(y)) && Lays(cfg, PendingNext(nb, lx), y, ts)
    ensures Lays(cfg, nb, Cons([], lx, y), LexemeTokens(cfg, lx) + ts)
  {
  }

  /** After the key none is needed. */
  lemma SettleKeys(key: bytes)
    ensures Settle(ExpectColon, key) == Settle(ExpectColon, [])
  {
  }

  /** Between two tokens there is always a way to finish. */
  lemma LookupCompletes(cfg: Config, sys: Sys, nb: nat) returns (bs: bytes)
    requires cfg.Valid() && Resting(sys.lexer, nb) && Sound(cfg.Limit(), sys.pda, false)
    ensures Completes(cfg, sys, bs)
  {
    var y := Ending(sys.pda.state, nb, sys.pda.stack);
    bs := Text(y);
    EndingLayout(cfg, sys.pda.state, nb, sys.pda.stack);
    LayoutIsRead(cfg, sys.lexer, nb, y);
    CompletionFinishes(Shipped, cfg.Limit(), sys.pda, false, KeyBytes(nb));
    CompletesByTokens(cfg, sys, bs);
  }

  // ---- Inside a string ----

  /** A byte that is good where continuation bytes are pending. */
  function Missing(l: Lexer): byte {
    if l.cc == 1 then 0xA0 else if l.cc == 2 then 0x90 else 0x80
  }

  lemma MissingStep(cfg: Config, l: Lexer)
    requires Inv(cfg, l) && l.mode.InString? && l.nb > 0
    ensures Scan(cfg, l, [Missing(l)]) == Scanned(StringBytes([Missing(l)]), Go(l.(nb := l.nb - 1, cc := 0)))
  {
    StringStep(cfg, l, Missing(l));
    ScanOne(cfg, l, Missing(l));
    StringBytesOne(Missing(l));
  }

  lemma {:induction false} StringCompletes(cfg: Config, sys: Sys) returns (bs: bytes)
    requires cfg.Valid() && SysInv(cfg, sys) && sys.lexer.mode.InString?
    ensures Completes(cfg, sys, bs)
    decreases sys.lexer.nb
  {
    var l := sys.lexer;
    if l.nb > 0 {
      var l' := l.(nb := l.nb - 1, cc := 0);
      MissingStep(cfg, l);
      PushString(cfg, sys, [Missing(l)], [Missing(l)], l');
      var rest := StringCompletes(cfg, Sys(l', sys.pda));
      CompletesAfter(cfg, sys, [Missing(l)], Sys(l', sys.pda), rest);
      bs := [Missing(l)] + rest;
    } else {
      bs := QuoteCompletes(cfg, sys);
    }
  }

  lemma QuoteCompletes(cfg: Config, sys: Sys) returns (bs: bytes)
    requires cfg.Valid() && Between(sys.lexer, 0) && Sound(cfg.Limit(), sys.pda, true)
    ensures Completes(cfg, sys, bs)
  {
    var next := Sys(sys.lexer.(mode := LookupToken), Pda(AfterString(sys.pda.state), sys.pda.stack));
    PushQuote(cfg, sys, next);
    AdvanceKeepsSound(Shipped, cfg.Limit(), sys.pda, StringEnd, true);
    var rest := LookupCompletes(cfg, next, 0);
    CompletesAfter(cfg, sys, [QUOTE], next, rest);
    bs := [QUOTE] + rest;
  }

  lemma PushQuote(cfg: Config, sys: Sys, next: Sys)
    requires Between(sys.lexer, 0) && TakesString(sys.pda.state)
    requires next == Sys(sys.lexer.(mode := LookupToken), Pda(AfterString(sys.pda.state), sys.pda.stack))
    ensures Push(cfg, sys, [QUOTE]).end == Running(next)
  {
    CloseQuote(cfg, sys.lexer, 0);
    ScanOne(cfg, sys.lexer, QUOTE);
    FeedOne(Shipped, cfg.Limit(), sys.pda, StringEnd);
  }

  lemma EscapeCompletes(cfg: Config, sys: Sys) returns (bs: bytes)
    requires cfg.Valid() && SysInv(cfg, sys) && sys.lexer.mode.InStringEscape?
    ensures Completes(cfg, sys, bs)
  {
    var next := Sys(sys.lexer.(mode := InString), sys.pda);
    assert Unescaped(SLASH) == [SLASH];
    ScanOne(cfg, sys.lexer, SLASH);
    StringBytesOne(SLASH);
    PushString(cfg, sys, [SLASH], [SLASH], next.lexer);
    var rest := StringCompletes(cfg, next);
    CompletesAfter(cfg, sys, [SLASH], next, rest);
    bs := [SLASH] + rest;
  }

  lemma {:induction false} UnicodeCompletes(cfg: Config, sys: Sys) returns (bs: bytes)
    requires cfg.Valid() && SysInv(cfg, sys) && sys.lexer.mode.InStringUnicodeEscape?
    ensures Completes(cfg, sys, bs)
    decreases 4 - sys.lexer.offset
  {
    var l := sys.lexer;
    var r := UnicodeByte(l, 0x30);
    var next := Sys(r.next.lexer, sys.pda);
    assert Iterate(cfg, l, 0x30) == r;
    IterateKeepsInv(cfg, l, 0x30);
    ScanOne(cfg, l, 0x30);
    var rest: bytes;
    if l.offset < 3 {
      PushSilently(cfg, sys, [0x30], next.lexer);
      rest := UnicodeCompletes(cfg, next);
    } else {
      var cp := [l.cp0, r.next.lexer.cp1];
      assert StringBytes(cp) == [StringByte(cp[0]), StringByte(cp[1])];
      PushString(cfg, sys, [0x30], cp, next.lexer);
      rest := StringCompletes(cfg, next);
    }
    CompletesAfter(cfg, sys, [0x30], next, rest);
    bs := [0x30] + rest;
  }

  // ---- Inside a word or a number ----

  predicate KeywordMode(m: Mode) {
    m.InTrue? || m.InFalse? || m.InNull?
  }

  function WordOf(m: Mode): Token { if m.InTrue? then True else if m.InFalse? then False else Null }

  lemma WordByte(cfg: Config, l: Lexer, b: byte)
    requires KeywordMode(l.mode)
    ensures Iterate(cfg, l, b)
            == KeywordByte(l, Keyword(WordOf(l.mode)), WordOf(l.mode),
                           if l.mode.InTrue? then BadTrue else if l.mode.InFalse? then BadFalse else BadNull, b)
  {
  }

  /** A value token, where one is expected, and then the rest. */
  lemma ValueCompletes(cfg: Config, sys: Sys, a: bytes, t: Token, l': Lexer, nb: nat) returns (bs: bytes)
    requires cfg.Valid() && Sound(cfg.Limit(), sys.pda, false) && TakesValue(sys.pda.state)
    requires Scan(cfg, sys.lexer, a) == Scanned([t], Go(l')) && Resting(l', nb)
    requires t.True? || t.False? || t.Null? || t.Int? || t.Double?
    ensures Completes(cfg, sys, bs)
  {
    var next := Sys(l', Pda(AfterValue(sys.pda.state), sys.pda.stack));
    FeedOne(Shipped, cfg.Limit(), sys.pda, t);
    AdvanceKeepsSound(Shipped, cfg.Limit(), sys.pda, t, false);
    var rest := LookupCompletes(cfg, next, nb);
    CompletesAfter(cfg, sys, a, next, rest);
    bs := a + rest;
  }

  lemma {:induction false} WordCompletes(cfg: Config, sys: Sys) returns (bs: bytes)
    requires cfg.Valid() && SysInv(cfg, sys) && KeywordMode(sys.lexer.mode) && TakesValue(sys.pda.state)
    ensures Completes(cfg, sys, bs)
    decreases 5 - sys.lexer.offset
  {
    var l := sys.lexer;
    var w := Keyword(WordOf(l.mode));
    var b := w[l.offset];
    WordByte(cfg, l, b);
    ScanOne(cfg, l, b);
    var l' := Iterate(cfg, l, b).next.lexer;
    IterateKeepsInv(cfg, l, b);
    if l.offset + 1 < |w| {
      PushSilently(cfg, sys, [b], l');
      var rest := WordCompletes(cfg, Sys(l', sys.pda));
      CompletesAfter(cfg, sys, [b], Sys(l', sys.pda), rest);
      bs := [b] + rest;
    } else {
      bs := ValueCompletes(cfg, sys, [b], WordOf(l.mode), l', l.nb);
    }
  }

  /** A number that a space may end. */
  predicate SpaceEnds(l: Lexer) {
    l.mode.InNumber? || (l.mode.InNumberFrac? && l.fracPower != 0) || (l.mode.InNumberExp? && l.expNotEmpty)
  }

  lemma SpaceEndsNumber(cfg: Config, l: Lexer) returns (t: Token, l': Lexer)
    requires Inv(cfg, l) && SpaceEnds(l)
    ensures (t.Int? || t.Double?) && Resting(l', l.nb) && Scan(cfg, l, [SPACE]) == Scanned([t], Go(l'))
  {
    var r := Iterate(cfg, l, SPACE);
    t, l' := r.toks[0], r.next.lexer;
    assert r == Iteration([t], Go(l'), true);
    assert LookupByte(l', SPACE) == Quiet(l');
    assert [t] + [] == [t];
    ScanOne(cfg, l, SPACE);
  }

  /** A zero brings a number that is not there yet to where a space may end it. */
  lemma ZeroHelps(cfg: Config, l: Lexer) returns (l': Lexer)
    requires cfg.Valid() && Inv(cfg, l) && NumberMode(l.mode) && !SpaceEnds(l)
    ensures Inv(cfg, l') && SpaceEnds(l') && Scan(cfg, l, [0x30]) == Scanned([], Go(l'))
  {
    var r := Iterate(cfg, l, 0x30);
    ZeroStep(cfg, l);
    l' := r.next.lexer;
    IterateKeepsInv(cfg, l, 0x30);
    ScanOne(cfg, l, 0x30);
  }

  lemma ZeroStep(cfg: Config, l: Lexer)
    requires Inv(cfg, l) && NumberMode(l.mode) && !SpaceEnds(l)
    ensures var r := Iterate(cfg, l, 0x30);
            r.toks == [] && r.next.Go? && !r.again && SpaceEnds(r.next.lexer)
  {
    match l.mode
    case InNumberSign => assert Iterate(cfg, l, 0x30) == SignByte(l, 0x30);
    case InNumberFrac => assert Iterate(cfg, l, 0x30) == FracByte(cfg, l, 0x30);
    case InNumberExpSign => assert Iterate(cfg, l, 0x30) == ExpSignByte(l, 0x30);
    case InNumberExp => assert Iterate(cfg, l, 0x30) == ExpByte(cfg, l, 0x30);
  }

  lemma NumberCompletes(cfg: Config, sys: Sys) returns (bs: bytes)
    requires cfg.Valid() && SysInv(cfg, sys) && NumberMode(sys.lexer.mode) && TakesValue(sys.pda.state)
    ensures Completes(cfg, sys, bs)
  {
    if SpaceEnds(sys.lexer) {
      var t, l' := SpaceEndsNumber(cfg, sys.lexer);
      bs := ValueCompletes(cfg, sys, [SPACE], t, l', sys.lexer.nb);
    } else {
      var l' := ZeroHelps(cfg, sys.lexer);
      var next := Sys(l', sys.pda);
      PushSilently(cfg, sys, [0x30], l');
      var t, l'' := SpaceEndsNumber(cfg, l');
      var rest := ValueCompletes(cfg, next, [SPACE], t, l'', l'.nb);
      CompletesAfter(cfg, sys, [0x30], next, rest);
      bs := [0x30] + rest;
    }
  }

  // ---- What a word or a number commits to ----

  predicate ValueTok(t: Token) { NumberTok(t) || t.True? || t.False? || t.Null? }

  /** The token of a word or number, once it is made, or else more of the word or number. */
  predicate Commits(r: Iteration) {
    r.next.Go? ==>
      if r.toks == [] then !r.again && (NumberMode(r.next.lexer.mode) || KeywordMode(r.next.lexer.mode))
      else ValueTok(r.toks[0])
  }

  lemma NumberStep(cfg: Config, l: Lexer, b: byte)
    requires NumberMode(l.mode)
    ensures Commits(Iterate(cfg, l, b))
  {
  }

  lemma WordOrNumberStep(cfg: Config, l: Lexer, b: byte)
    requires NumberMode(l.mode) || KeywordMode(l.mode)
    ensures Commits(Iterate(cfg, l, b))
  {
    if KeywordMode(l.mode) {
      WordByte(cfg, l, b);
    } else {
      NumberStep(cfg, l, b);
    }
  }

  /** A word or number that has begun is the first token of whatever is read to its end. */
  lemma {:induction false} FirstToken(cfg: Config, l: Lexer, bs: bytes)
    requires (NumberMode(l.mode) || KeywordMode(l.mode)) && Good(cfg, l, bs)
    ensures ScanAll(cfg, l, bs).toks != [] && ValueTok(ScanAll(cfg, l, bs).toks[0])
    decreases |bs|
  {
    if bs != [] {
      var r, s := Iterate(cfg, l, bs[0]), Step(cfg, l, bs[0]);
      WordOrNumberStep(cfg, l, bs[0]);
      FirstByteOfAll(cfg, l, bs);
      if r.toks == [] {
        FirstToken(cfg, s.next.lexer, bs[1..]);
        assert [] + ScanAll(cfg, s.next.lexer, bs[1..]).toks == ScanAll(cfg, s.next.lexer, bs[1..]).toks;
      } else {
        assert s.toks[0] == r.toks[0];
      }
    }
  }

  lemma ValueRefused(cfg: Config, sys: Sys, bs: bytes)
    requires NumberMode(sys.lexer.mode) || KeywordMode(sys.lexer.mode)
    requires Coupled(sys.pda) && !TakesValue(sys.pda.state)
    ensures !Completes(cfg, sys, bs)
  {
    CompletesByTokens(cfg, sys, bs);
    if Completes(cfg, sys, bs) {
      FirstToken(cfg, sys.lexer, bs);
      RefusedAtOnce(cfg.Limit(), sys.pda, ScanAll(cfg, sys.lexer, bs).toks);
    }
  }

  lemma RefusedAtOnce(limit: nat, p: Pda, ts: seq<Token>)
    requires ts != [] && ValueTok(ts[0]) && Coupled(p) && !TakesValue(p.state)
    ensures Feed(Shipped, limit, p, ts).next.Broken?
  {
  }

  // ---- The theorem ----

  /** A word or a number is being read where the parser does not take a value. */
  predicate Doomed(sys: Sys) {
    (NumberMode(sys.lexer.mode) || KeywordMode(sys.lexer.mode)) && !TakesValue(sys.pda.state)
  }

  lemma Rescue(cfg: Config, sys: Sys) returns (bs: bytes)
    requires cfg.Valid() && SysInv(cfg, sys) && !Doomed(sys)
    ensures Completes(cfg, sys, bs)
  {
    if NumberMode(sys.lexer.mode) {
      bs := NumberCompletes(cfg, sys);
    } else if KeywordMode(sys.lexer.mode) {
      bs := WordCompletes(cfg, sys);
    } else if sys.lexer.mode.InString? {
      bs := StringCompletes(cfg, sys);
    } else if sys.lexer.mode.InStringEscape? {
      bs := EscapeCompletes(cfg, sys);
    } else if sys.lexer.mode.InStringUnicodeEscape? {
      bs := UnicodeCompletes(cfg, sys);
    } else {
      bs := LookupCompletes(cfg, sys, sys.lexer.nb);
    }
  }

  /**
   * Viable prefixes, by byte: an input that has met no error begins an accepted one, except while a
   * word or a number is being read where no value can come. Then the error is certain, but is only
   * reported when the word or number ends.
   */
  lemma ViableInput(cfg: Config, bs: bytes)
    requires cfg.Valid() && Push(cfg, INITIAL, bs).end.Running?
    ensures (exists more: bytes :: Accepted(cfg, bs + more)) <==> !Doomed(Push(cfg, INITIAL, bs).end.sys)
  {
    var sys := Push(cfg, INITIAL, bs).end.sys;
    InitialInv(cfg);
    PushKeepsInv(cfg, INITIAL, bs);
    if !Doomed(sys) {
      var more := Rescue(cfg, sys);
      AcceptedAfter(cfg, bs, sys, more);
    }
    forall more: bytes | Accepted(cfg, bs + more)
      ensures !Doomed(sys)
    {
      AcceptedAfter(cfg, bs, sys, more);
      if Doomed(sys) {
        ValueRefused(cfg, sys, more);
      }
    }
  }

  lemma AcceptedAfter(cfg: Config, bs: bytes, sys: Sys, more: bytes)
    requires Push(cfg, INITIAL, bs).end == Running(sys)
    ensures Accepted(cfg, bs + more) <==> Completes(cfg, sys, more)
  {
    PushesAreOnePush(cfg, INITIAL, [bs + more]);
    OneConcatenated(bs + more);
    PushConcat(cfg, INITIAL, bs, more);
  }
}
