/** The error of a whole run: which of the two machines gives it, and what its code says. */
module RunErrors {
  import opened Bytes
  import opened Tokens
  import opened LexerMachine
  import opened Pushdown
  import opened TokenErrors
  import opened LexerErrors
  import opened Strings
  import opened System
  import opened ByteLanguage

  /** Whether the bytes `bs` are at fault, and the code is e. */
  ghost predicate BytesAtFault(cfg: Config, bs: bytes, e: Error) {
    exists k: nat, p :: k <= |bs| && FaultAfter(cfg, bs, k, p, e)
  }

  /** After j tokens the machine refuses the next one, and the code e says why. */
  ghost predicate TokenFault(limit: nat, ts: seq<Token>, j: nat, q: Pda, e: Error)
    requires j < |ts|
  {
    && Feed(Shipped, limit, START, ts[..j]).next == Ready(q) && Coupled(q) && Begins(ts[j]) && |q.stack| <= limit
    && if Welcome(Shipped, q, ts[j]) then e == StackOverflow && |q.stack| == limit && Opens(ts[j])
       else Explains(Shipped, q, ts[j], e)
  }

  ghost predicate TokensAtFault(limit: nat, ts: seq<Token>, e: Error) {
    exists j: nat, q :: j < |ts| && TokenFault(limit, ts, j, q, e)
  }

  lemma TokenFaultBreaks(limit: nat, ts: seq<Token>, j: nat, q: Pda, e: Error)
    requires j < |ts| && TokenFault(limit, ts, j, q, e)
    ensures Feed(Shipped, limit, START, ts).next == Broken(e)
  {
    if Welcome(Shipped, q, ts[j]) {
      OverflowMeaning(Shipped, limit, q, ts[j]);
    } else {
      RefusalMeaning(Shipped, limit, q, ts[j], e);
    }
    RefusalBreaks(limit, ts, j, q, e);
  }

  lemma RefusalBreaks(limit: nat, ts: seq<Token>, j: nat, q: Pda, e: Error)
    requires j < |ts| && Feed(Shipped, limit, START, ts[..j]).next == Ready(q)
    requires Advance(Shipped, limit, q, ts[j]).next == Broken(e)
    ensures Feed(Shipped, limit, START, ts).next == Broken(e)
  {
    FeedConcat(Shipped, limit, START, ts[..j], ts[j..]);
    assert ts[..j] + ts[j..] == ts;
    assert Feed(Shipped, limit, q, ts[j..]).next == Broken(e);
  }

  lemma TokensMeaning(limit: nat, ts: seq<Token>, e: Error)
    requires Shaped(false, ts)
    ensures Feed(Shipped, limit, START, ts).next == Broken(e) <==> TokensAtFault(limit, ts, e)
  {
    if Feed(Shipped, limit, START, ts).next == Broken(e) {
      var j, q := FirstErrorMeaning(Shipped, limit, ts, e);
      assert TokenFault(limit, ts, j, q, e);
    }
    forall j: nat, q | j < |ts| && TokenFault(limit, ts, j, q, e)
      ensures Feed(Shipped, limit, START, ts).next == Broken(e)
    {
      TokenFaultBreaks(limit, ts, j, q, e);
    }
  }

  /** How a run ends, by the tokens of its input. */
  lemma RunEnds(cfg: Config, bs: bytes)
    ensures var s := ScanAll(cfg, FRESH, bs);
            var m := Feed(Shipped, cfg.Limit(), START, s.toks);
            match Run(cfg, [bs]).end
            case Running(_) => s.next.Go? && m.next.Ready? && m.next.pda.state == Done
            case Error(e) =>
              || m.next == Broken(e)
              || (m.next.Ready? && s.next == Stop(e))
              || (m.next.Ready? && s.next.Go? && m.next.pda.state != Done && e == InsufficientInput)
  {
    PushesAreOnePush(cfg, INITIAL, [bs]);
    OneConcatenated(bs);
    var s := Scan(cfg, FRESH, bs);
    if s.next.Go? {
      CombineAfter(cfg, START, s.toks, Finish(cfg, s.next.lexer));
      FeedConcat(Shipped, cfg.Limit(), START, s.toks, Finish(cfg, s.next.lexer).toks);
    }
  }

  /**
   * The error of a run, cut in any way: e is reported if and only if the tokens of the input have a
   * fault of e; or they have none, and its bytes do; or neither has, and the document is not whole.
   */
  lemma RunErrorMeaning(cfg: Config, chunks: seq<bytes>, e: Error)
    requires cfg.Valid()
    ensures var bs := Concatenated(chunks);
            var s := ScanAll(cfg, FRESH, bs);
            var m := Feed(Shipped, cfg.Limit(), START, s.toks);
            Run(cfg, chunks).end == Error(e)
            <==>
            || TokensAtFault(cfg.Limit(), s.toks, e)
            || (m.next.Ready? && BytesAtFault(cfg, bs, e))
            || (m.next.Ready? && s.next.Go? && m.next.pda.state != Done && e == InsufficientInput)
  {
    var bs := Concatenated(chunks);
    RunIgnoresCuts(cfg, chunks);
    RunEnds(cfg, bs);
    ScanAllShaped(cfg, bs);
    TokensMeaning(cfg.Limit(), ScanAll(cfg, FRESH, bs).toks, e);
    LexicalErrorMeaning(cfg, bs, e);
  }
}
