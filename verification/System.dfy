/**
 * Lexer and parser together: what pushes and the final call do to the state of both, and which
 * callbacks they make. String contents count as one chunk per byte.
 */
module System {
  import opened Bytes
  import opened Tokens
  import opened LexerMachine
  import opened Pushdown
  import opened Strings

  datatype Sys = Sys(lexer: Lexer, pda: Pda)

  /** A zero-initialised `embedjson_parser`. */
  const INITIAL := Sys(FRESH, START)

  datatype End = Running(sys: Sys) | Error(error: Error)

  datatype Outcome = Outcome(events: seq<Event>, end: End)

  /** The parser takes the lexer's tokens; the first error, in the order of the input, ends it all. */
  function Combine(cfg: Config, p: Pda, s: Scanned): Outcome {
    var m := Feed(Shipped, cfg.Limit(), p, s.toks);
    match m.next
    case Broken(e) => Outcome(m.events, Error(e))
    case Ready(q) => Outcome(m.events, if s.next.Stop? then Error(s.next.error) else Running(Sys(s.next.lexer, q)))
  }

  /** `embedjson_push`. */
  function Push(cfg: Config, sys: Sys, bs: bytes): Outcome {
    Combine(cfg, sys.pda, Scan(cfg, sys.lexer, bs))
  }

  /** `embedjson_finalize`. */
  function Finalize(cfg: Config, sys: Sys): Outcome {
    var o := Combine(cfg, sys.pda, Finish(cfg, sys.lexer));
    if o.end.Running? && o.end.sys.pda.state != Done then Outcome(o.events, Error(InsufficientInput)) else o
  }

  function Prefixed(es: seq<Event>, o: Outcome): Outcome {
    Outcome(es + o.events, o.end)
  }

  function PushAll(cfg: Config, sys: Sys, chunks: seq<bytes>): Outcome
    decreases |chunks|
  {
    if chunks == [] then Outcome([], Running(sys))
    else
      var o := Push(cfg, sys, chunks[0]);
      if o.end.Error? then o else Prefixed(o.events, PushAll(cfg, o.end.sys, chunks[1..]))
  }

  /** A whole run: the pushes, up to the first that fails, and the final call. */
  function Run(cfg: Config, chunks: seq<bytes>): Outcome {
    var o := PushAll(cfg, INITIAL, chunks);
    if o.end.Error? then o else Prefixed(o.events, Finalize(cfg, o.end.sys))
  }

  predicate Accepted(cfg: Config, bs: bytes) {
    Run(cfg, [bs]).end.Running?
  }

  // ---- Cutting the input ----

  lemma CombineAfter(cfg: Config, p: Pda, a: seq<Token>, s: Scanned)
    ensures var m := Feed(Shipped, cfg.Limit(), p, a);
            Combine(cfg, p, After(a, s))
            == if m.next.Broken? then Outcome(m.events, Error(m.next.error))
               else Prefixed(m.events, Combine(cfg, m.next.pda, s))
  {
    FeedConcat(Shipped, cfg.Limit(), p, a, s.toks);
  }

  lemma PushConcat(cfg: Config, sys: Sys, a: bytes, b: bytes)
    ensures var o := Push(cfg, sys, a);
            Push(cfg, sys, a + b) == if o.end.Error? then o else Prefixed(o.events, Push(cfg, o.end.sys, b))
  {
    ScanConcat(cfg, sys.lexer, a, b);
    var s := Scan(cfg, sys.lexer, a);
    if s.next.Go? {
      CombineAfter(cfg, sys.pda, s.toks, Scan(cfg, s.next.lexer, b));
    }
  }

  /**
   * Cut invariance: whatever the pieces an input is pushed in, empty ones included, the callbacks
   * (by byte), the first error and the final state are those of a single push.
   */
  lemma {:induction false} PushesAreOnePush(cfg: Config, sys: Sys, chunks: seq<bytes>)
    ensures PushAll(cfg, sys, chunks) == Push(cfg, sys, Concatenated(chunks))
    decreases |chunks|
  {
    if chunks == [] {
      assert Scan(cfg, sys.lexer, []) == Scanned([], Go(sys.lexer));
    } else {
      PushConcat(cfg, sys, chunks[0], Concatenated(chunks[1..]));
      var o := Push(cfg, sys, chunks[0]);
      if o.end.Running? {
        PushesAreOnePush(cfg, o.end.sys, chunks[1..]);
      }
    }
  }

  lemma RunIgnoresCuts(cfg: Config, chunks: seq<bytes>)
    ensures Run(cfg, chunks) == Run(cfg, [Concatenated(chunks)])
  {
    PushesAreOnePush(cfg, INITIAL, chunks);
    PushesAreOnePush(cfg, INITIAL, [Concatenated(chunks)]);
    OneConcatenated(Concatenated(chunks));
  }

  lemma OneConcatenated(bs: bytes)
    ensures Concatenated([bs]) == bs
  {
    assert bs + [] == bs;
  }

  // ---- What every run keeps ----

  lemma ShapedOne(inString: bool, a: Token)
    ensures Shaped(inString, [a]) == OpensOrCloses(inString, a)
    ensures InStringAtEnd(inString, [a]) == InStringAfter(inString, a)
  {
  }

  /** The tokens of one iteration open and close strings as the lexer's mode says. */
  predicate InShape(l: Lexer, toks: seq<Token>, next: Next) {
    && Shaped(StringMode(l.mode), toks)
    && (next.Go? ==> InStringAtEnd(StringMode(l.mode), toks) == StringMode(next.lexer.mode))
  }

  /** How many tokens one iteration makes, and of which kind. */
  predicate AtMostTwo(l: Lexer, r: Iteration) {
    var before := StringMode(l.mode);
    && |r.toks| <= 2
    && (|r.toks| == 0 && r.next.Go? ==> StringMode(r.next.lexer.mode) == before)
    && (|r.toks| == 1 ==>
          && OpensOrCloses(before, r.toks[0])
          && r.next.Go? && StringMode(r.next.lexer.mode) == InStringAfter(before, r.toks[0]))
    && (|r.toks| == 2 ==>
          before && r.toks[0].StringByte? && r.toks[1].StringByte? && r.next.Go? && StringMode(r.next.lexer.mode))
  }

  lemma LookupFits(l: Lexer, b: byte)
    requires l.mode.LookupToken?
    ensures AtMostTwo(l, LookupByte(l, b))
  {
  }

  lemma InStringFits(l: Lexer, b: byte)
    requires l.mode.InString?
    ensures AtMostTwo(l, InStringByte(l, b))
  {
  }

  lemma EscapesFit(l: Lexer, b: byte)
    ensures l.mode.InStringEscape? ==> AtMostTwo(l, EscapeByte(l, b))
    ensures l.mode.InStringUnicodeEscape? ==> AtMostTwo(l, UnicodeByte(l, b))
  {
  }

  lemma NumbersFit(cfg: Config, l: Lexer, b: byte)
    requires NumberMode(l.mode)
    ensures AtMostTwo(l, Iterate(cfg, l, b))
  {
  }

  lemma IterateFew(cfg: Config, l: Lexer, b: byte)
    ensures AtMostTwo(l, Iterate(cfg, l, b))
  {
    match l.mode
    case LookupToken => LookupFits(l, b);
    case InString => InStringFits(l, b);
    case InStringEscape => EscapesFit(l, b);
    case InStringUnicodeEscape => EscapesFit(l, b);
    case InTrue => assert AtMostTwo(l, KeywordByte(l, KW_TRUE, True, BadTrue, b));
    case InFalse => assert AtMostTwo(l, KeywordByte(l, KW_FALSE, False, BadFalse, b));
    case InNull => assert AtMostTwo(l, KeywordByte(l, KW_NULL, Null, BadNull, b));
    case _ => NumbersFit(cfg, l, b);
  }

  lemma IterateShaped(cfg: Config, l: Lexer, b: byte)
    ensures InShape(l, Iterate(cfg, l, b).toks, Iterate(cfg, l, b).next)
  {
    IterateFew(cfg, l, b);
    var ts := Iterate(cfg, l, b).toks;
    if |ts| == 1 {
      ShapedOne(StringMode(l.mode), ts[0]);
      assert ts == [ts[0]];
    } else if |ts| == 2 {
      ShapedOne(true, ts[0]);
      ShapedOne(true, ts[1]);
      ShapedConcat(true, [ts[0]], [ts[1]]);
      assert ts == [ts[0]] + [ts[1]];
    }
  }

  lemma StepShaped(cfg: Config, l: Lexer, b: byte)
    ensures InShape(l, Step(cfg, l, b).toks, Step(cfg, l, b).next)
  {
    var first := Iterate(cfg, l, b);
    IterateShaped(cfg, l, b);
    if first.again {
      var second := Iterate(cfg, first.next.lexer, b);
      IterateShaped(cfg, first.next.lexer, b);
      ShapedConcat(StringMode(l.mode), first.toks, second.toks);
    }
  }

  lemma {:induction false} ScanShaped(cfg: Config, l: Lexer, bs: bytes)
    ensures InShape(l, Scan(cfg, l, bs).toks, Scan(cfg, l, bs).next)
    decreases |bs|
  {
    if bs != [] {
      var s := Step(cfg, l, bs[0]);
      StepShaped(cfg, l, bs[0]);
      if s.next.Go? {
        ScanShaped(cfg, s.next.lexer, bs[1..]);
        ShapedConcat(StringMode(l.mode), s.toks, Scan(cfg, s.next.lexer, bs[1..]).toks);
      }
    }
  }

  lemma FinishShaped(cfg: Config, l: Lexer)
    ensures Shaped(StringMode(l.mode), Finish(cfg, l).toks)
    ensures Finish(cfg, l).next.Go? ==> !StringMode(l.mode) && !InStringAtEnd(false, Finish(cfg, l).toks)
  {
    if Finish(cfg, l).toks != [] {
      ShapedOne(false, Finish(cfg, l).toks[0]);
      assert Finish(cfg, l).toks == [Finish(cfg, l).toks[0]];
    }
  }

  /**
   * The invariant of a run: the lexer's own; state and stack of the parser coupled, and the depth
   * within the limit; and inside a string the parser is still in a state that let it begin, so
   * that the table of states after a string never gives the invalid one.
   */
  predicate SysInv(cfg: Config, sys: Sys) {
    Inv(cfg, sys.lexer) && Sound(cfg.Limit(), sys.pda, StringMode(sys.lexer.mode))
  }

  lemma PushKeepsInv(cfg: Config, sys: Sys, bs: bytes)
    requires cfg.Valid() && SysInv(cfg, sys)
    ensures match Push(cfg, sys, bs).end
            case Running(sys') => SysInv(cfg, sys') && !sys'.pda.state.Invalid?
            case Error(e) => e != InternalError
  {
    ScanShaped(cfg, sys.lexer, bs);
    ScanKeepsInv(cfg, sys.lexer, bs);
    NoInternalError(cfg, sys.lexer, bs);
    FeedKeepsSound(Shipped, cfg.Limit(), sys.pda, Scan(cfg, sys.lexer, bs).toks, StringMode(sys.lexer.mode));
  }

  lemma {:induction false} NoInternalError(cfg: Config, l: Lexer, bs: bytes)
    ensures Scan(cfg, l, bs).next != Stop(InternalError)
    decreases |bs|
  {
    if bs != [] {
      IterateNoInternalError(cfg, l, bs[0]);
      var first := Iterate(cfg, l, bs[0]);
      if first.again {
        IterateNoInternalError(cfg, first.next.lexer, bs[0]);
      }
      if Step(cfg, l, bs[0]).next.Go? {
        NoInternalError(cfg, Step(cfg, l, bs[0]).next.lexer, bs[1..]);
      }
    }
  }

  lemma IterateNoInternalError(cfg: Config, l: Lexer, b: byte)
    ensures Iterate(cfg, l, b).next != Stop(InternalError)
  {
  }

  lemma InitialInv(cfg: Config)
    ensures SysInv(cfg, INITIAL)
  {
  }

  lemma FinalizeSound(cfg: Config, sys: Sys)
    requires SysInv(cfg, sys)
    ensures Finalize(cfg, sys).end != Error(InternalError)
  {
    FinishShaped(cfg, sys.lexer);
    FeedKeepsSound(Shipped, cfg.Limit(), sys.pda, Finish(cfg, sys.lexer).toks, StringMode(sys.lexer.mode));
  }

  /** Over whole runs, cut anywhere: no internal error, and no container closed but the innermost. */
  lemma RunsAreSound(cfg: Config, chunks: seq<bytes>)
    requires cfg.Valid()
    ensures Run(cfg, chunks).end != Error(InternalError)
    ensures var o := PushAll(cfg, INITIAL, chunks);
            o.end.Running? ==> SysInv(cfg, o.end.sys)
                               && Matched([], o.events) && o.end.sys.pda.stack == Unclosed([], o.events)
  {
    var bs := Concatenated(chunks);
    PushesAreOnePush(cfg, INITIAL, chunks);
    InitialInv(cfg);
    PushKeepsInv(cfg, INITIAL, bs);
    var o := Push(cfg, INITIAL, bs);
    if o.end.Running? {
      FinalizeSound(cfg, o.end.sys);
      ScanShaped(cfg, FRESH, bs);
      StackIsUnclosed(Shipped, cfg.Limit(), START, Scan(cfg, FRESH, bs).toks, false);
    }
  }

  // ---- One pass through the loop ----

  lemma ScanIteration(cfg: Config, l: Lexer, bs: bytes)
    requires bs != []
    ensures var r := Iterate(cfg, l, bs[0]);
            Scan(cfg, l, bs)
            == if r.next.Stop? then Scanned(r.toks, r.next)
               else After(r.toks, Scan(cfg, r.next.lexer, if r.again then bs else bs[1..]))
  {
    var r := Iterate(cfg, l, bs[0]);
    if r.again {
      var second := Iterate(cfg, r.next.lexer, bs[0]);
      assert Step(cfg, r.next.lexer, bs[0]) == Scanned(second.toks, second.next);
      if second.next.Go? {
        AfterAfter(r.toks, second.toks, Scan(cfg, second.next.lexer, bs[1..]));
      }
    }
  }

  /**
   * One pass through the loop of `embedjson_lexer_push` does what it should to the rest of the
   * push: it takes its own tokens off the front, and leaves the same byte to be read again or not.
   */
  lemma PushIteration(cfg: Config, sys: Sys, bs: bytes)
    requires bs != []
    ensures var r := Iterate(cfg, sys.lexer, bs[0]);
            var m := Feed(Shipped, cfg.Limit(), sys.pda, r.toks);
            Push(cfg, sys, bs)
            == if m.next.Broken? then Outcome(m.events, Error(m.next.error))
               else if r.next.Stop? then Outcome(m.events, Error(r.next.error))
               else Prefixed(m.events,
                             Push(cfg, Sys(r.next.lexer, m.next.pda), if r.again then bs else bs[1..]))
  {
    var r := Iterate(cfg, sys.lexer, bs[0]);
    ScanIteration(cfg, sys.lexer, bs);
    if r.next.Go? {
      CombineAfter(cfg, sys.pda, r.toks, Scan(cfg, r.next.lexer, if r.again then bs else bs[1..]));
    }
  }

  lemma IterationKeepsInv(cfg: Config, sys: Sys, b: byte)
    requires cfg.Valid() && SysInv(cfg, sys)
    ensures var r := Iterate(cfg, sys.lexer, b);
            var m := Feed(Shipped, cfg.Limit(), sys.pda, r.toks);
            m.next.Ready? && r.next.Go? ==> SysInv(cfg, Sys(r.next.lexer, m.next.pda))
  {
    IterateKeepsInv(cfg, sys.lexer, b);
    IterateShaped(cfg, sys.lexer, b);
    FeedKeepsSound(Shipped, cfg.Limit(), sys.pda, Iterate(cfg, sys.lexer, b).toks, StringMode(sys.lexer.mode));
  }
}
