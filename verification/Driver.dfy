/** How a client uses the parser: a zeroed object, a push per buffer, and the final call. */
module Driver {
  import opened Bytes
  import opened Tokens
  import opened Documents
  import opened LexerMachine
  import opened Pushdown
  import opened Language
  import opened Strings
  import opened System
  import opened Traces
  import opened ByteLanguage
  import opened EmbedJson

  lemma AllButNothing(tr: seq<Event>)
    ensures AllButSlice(tr, Bytewise(tr))
  {
    assert Bytewise(tr) + AllEvents(StringBytes([])) == Bytewise(tr);
  }

  /** One push per piece, until one fails. */
  method PushPieces(parser: Parser, chunks: seq<bytes>) returns (st: Status)
    requires parser.Valid()
    modifies parser, parser.stack
    ensures NoEmptyChunks(parser.trace)
    ensures parser.trace
            == old(parser.trace) + TracedAll(parser.cfg, Sys(old(parser.lexer), old(parser.View())), chunks)
    ensures match PushAll(parser.cfg, Sys(old(parser.lexer), old(parser.View())), chunks).end
            case Running(sys) => st == Ok && parser.Valid() && Sys(parser.lexer, parser.View()) == sys
            case Error(e) => st == Failed(e)
  {
    ghost var cfg, sys, told := parser.cfg, Sys(parser.lexer, parser.View()), parser.trace;
    assert chunks[0..] == chunks;
    st := Ok;
    for k := 0 to |chunks|
      invariant parser.Valid() && st == Ok
      invariant PushAll(cfg, sys, chunks).end
                == PushAll(cfg, Sys(parser.lexer, parser.View()), chunks[k..]).end
      invariant told + TracedAll(cfg, sys, chunks)
                == parser.trace + TracedAll(cfg, Sys(parser.lexer, parser.View()), chunks[k..])
    {
      ghost var now, before := Sys(parser.lexer, parser.View()), parser.trace;
      var buffer := new byte[|chunks[k]|](i requires 0 <= i < |chunks[k]| => chunks[k][i]);
      assert buffer[..] == chunks[k];
      PieceFirst(cfg, now, chunks[k..], before);
      assert chunks[k..][1..] == chunks[k + 1..];
      ghost var passes;
      st, passes := parser.Push(buffer);
      if st.Failed? {
        return;
      }
    }
    assert chunks[|chunks|..] == [];
    assert parser.trace + [] == parser.trace;
  }

  lemma PieceFirst(cfg: Config, sys: Sys, chunks: seq<bytes>, told: seq<Event>)
    requires chunks != []
    ensures var o, now := Push(cfg, sys, chunks[0]), told + Traced(cfg, sys, [], chunks[0]);
            if o.end.Error? then PushAll(cfg, sys, chunks).end == o.end && told + TracedAll(cfg, sys, chunks) == now
            else PushAll(cfg, sys, chunks).end == PushAll(cfg, o.end.sys, chunks[1..]).end
                 && told + TracedAll(cfg, sys, chunks) == now + TracedAll(cfg, o.end.sys, chunks[1..])
  {
    var o, now := Push(cfg, sys, chunks[0]), Traced(cfg, sys, [], chunks[0]);
    if o.end.Error? {
      assert now + [] == now;
    } else {
      Associate(told, now, TracedAll(cfg, o.end.sys, chunks[1..]));
    }
  }

  /** The callbacks of the pieces and of the final call. */
  function TracedRun(cfg: Config, chunks: seq<bytes>): seq<Event> {
    var o := PushAll(cfg, INITIAL, chunks);
    TracedAll(cfg, INITIAL, chunks) + if o.end.Error? then [] else Finalize(cfg, o.end.sys).events
  }

  lemma TracedRunByByte(cfg: Config, chunks: seq<bytes>)
    requires cfg.Valid()
    ensures NoEmptyChunks(TracedRun(cfg, chunks))
    ensures var o := Run(cfg, chunks);
            if o.end.Running? then Bytewise(TracedRun(cfg, chunks)) == o.events
            else AllButSlice(TracedRun(cfg, chunks), o.events)
  {
    var o, tr := PushAll(cfg, INITIAL, chunks), TracedAll(cfg, INITIAL, chunks);
    InitialInv(cfg);
    TracedAllByByte(cfg, INITIAL, chunks);
    if o.end.Running? {
      var es := Finalize(cfg, o.end.sys).events;
      RunsAreSound(cfg, chunks);
      FinalizeChunks(cfg, o.end.sys);
      BytewiseConcat(tr, es);
      NoEmptyConcat(tr, es);
      AllButNothing(tr + es);
    } else {
      assert tr + [] == tr;
    }
  }

  lemma FinalizeChunks(cfg: Config, sys: Sys)
    requires SysInv(cfg, sys)
    ensures var es := Finalize(cfg, sys).events; Bytewise(es) == es && NoEmptyChunks(es)
  {
    var f := Finish(cfg, sys.lexer);
    if f.toks != [] {
      assert f.toks == [f.toks[0]];
      OneTokenChunks(cfg.Limit(), sys.pda, f.toks[0]);
    }
  }

  lemma OneTokenChunks(limit: nat, p: Pda, t: Token)
    requires Coupled(p) && (t.Int? || t.Double?)
    ensures var es := Feed(Shipped, limit, p, [t]).events; Bytewise(es) == es && NoEmptyChunks(es)
  {
    FeedOne(Shipped, limit, p, t);
    AdvanceNumber(limit, p, t);
    FewChunks(t, Feed(Shipped, limit, p, [t]).events);
  }

  lemma FewChunks(t: Token, es: seq<Event>)
    requires (t.Int? || t.Double?) && (es == [] || es == EventsOf(t))
    ensures Bytewise(es) == es && NoEmptyChunks(es)
  {
    CallbackByByte(t);
  }

  lemma AdvanceNumber(limit: nat, p: Pda, t: Token)
    requires Coupled(p) && (t.Int? || t.Double?)
    ensures var es := Advance(Shipped, limit, p, t).events; es == [] || es == EventsOf(t)
  {
  }

  /**
   * Parses a document that arrives in pieces. The status and, by byte, the callbacks are those of
   * the whole input, wherever it was cut, but that a failure can lose a last slice of a string; no
   * chunk is empty; and after a success a consumer of the callbacks holds the one value that they
   * are the traversal of.
   */
  method ParseDocument(cfg: Config, chunks: seq<bytes>) returns (st: Status, ghost trace: seq<Event>)
    requires cfg.Valid()
    ensures st == Ok <==> Accepted(cfg, Concatenated(chunks))
    ensures st.Failed? ==> Run(cfg, [Concatenated(chunks)]).end == Error(st.error) && st.error != InternalError
    ensures trace == TracedRun(cfg, chunks) && NoEmptyChunks(trace)
    ensures st == Ok ==> Bytewise(trace) == Run(cfg, [Concatenated(chunks)]).events
    ensures st.Failed? ==> AllButSlice(trace, Run(cfg, [Concatenated(chunks)]).events)
    ensures st == Ok ==> exists v :: Bytewise(trace) == Traversal(v) && Depth(v) <= cfg.Limit()
                                     && AbsorbAll(NOTHING, trace) == Builder(Whole(v), None)
  {
    RunIgnoresCuts(cfg, chunks);
    RunsAreSound(cfg, chunks);
    TracedRunByByte(cfg, chunks);
    var parser := new Parser(cfg);
    st := PushPieces(parser, chunks);
    assert [] + TracedAll(cfg, INITIAL, chunks) == TracedAll(cfg, INITIAL, chunks);
    if st == Ok {
      st := parser.Finalize();
    } else {
      assert parser.trace + [] == parser.trace;
    }
    trace := parser.trace;
    if st == Ok {
      ghost var v := AcceptedRunReportsOneValue(cfg, chunks);
      ChunksDoNotMatter(NOTHING, trace);
      assert Bytewise(trace) == Traversal(v);
    }
  }
}
