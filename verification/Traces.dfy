/**
 * The callbacks of a push one by one, with every chunk where the lexer cuts it: a slice of the
 * buffer ends before a backslash, before the closing quote and at the end of the buffer, and an
 * escape is a chunk by itself.
 */
module Traces {
  import opened Bytes
  import opened Tokens
  import opened Documents
  import opened LexerMachine
  import opened Pushdown
  import opened Language
  import opened System

  /** A slice is handed over unless it is empty. */
  function Flush(slice: bytes): seq<Event> {
    if slice == [] then [] else [Chunk(slice)]
  }

  function Contents(ts: seq<Token>): bytes {
    if ts == [] then [] else (if ts[0].StringByte? then [ts[0].b] else []) + Contents(ts[1..])
  }

  /** The callbacks of the tokens of one pass, of which several are the bytes of one escape. */
  function Callbacks(ts: seq<Token>): seq<Event> {
    if ts == [] then []
    else if ts[0].StringByte? then [Chunk(Contents(ts))]
    else EventsOf(ts[0])
  }

  /** The byte that was read joins the slice. */
  predicate Joins(l: Lexer, r: Iteration) {
    l.mode.InString? && r.next.Go? && r.next.lexer.mode.InString?
  }

  /** The callbacks of one pass, with `slice` not yet handed over. */
  function Made(l: Lexer, r: Iteration, slice: bytes): seq<Event> {
    if Joins(l, r) then [] else Flush(slice) + Callbacks(r.toks)
  }

  function SliceAfter(l: Lexer, r: Iteration, slice: bytes, b: byte): bytes {
    if Joins(l, r) then slice + [b] else []
  }

  /** The callbacks of a push, or of the rest of one, up to its end or its first error. */
  function Traced(cfg: Config, sys: Sys, slice: bytes, bs: bytes): seq<Event>
    decreases |bs|, if sys.lexer.mode.LookupToken? then 0 else 1
  {
    if bs == [] then Flush(slice)
    else
      var r := Iterate(cfg, sys.lexer, bs[0]);
      var m := Feed(Shipped, cfg.Limit(), sys.pda, r.toks);
      if m.next.Broken? || r.next.Stop? then []
      else
        Made(sys.lexer, r, slice)
        + Traced(cfg, Sys(r.next.lexer, m.next.pda), SliceAfter(sys.lexer, r, slice, bs[0]),
                 if r.again then bs else bs[1..])
  }

  /** The callbacks of several pushes. What is sliced in one buffer is never held over to the next. */
  function TracedAll(cfg: Config, sys: Sys, chunks: seq<bytes>): seq<Event>
    decreases |chunks|
  {
    if chunks == [] then []
    else
      var o := Push(cfg, sys, chunks[0]);
      Traced(cfg, sys, [], chunks[0])
      + if o.end.Error? then [] else TracedAll(cfg, o.end.sys, chunks[1..])
  }

  // ---- No chunk is empty ----

  predicate NoEmptyChunks(es: seq<Event>) {
    forall i :: 0 <= i < |es| && es[i].Chunk? ==> es[i].data != []
  }

  lemma NoEmptyConcat(a: seq<Event>, b: seq<Event>)
    requires NoEmptyChunks(a) && NoEmptyChunks(b)
    ensures NoEmptyChunks(a + b)
  {
  }

  lemma MadeNoEmpty(l: Lexer, r: Iteration, slice: bytes)
    ensures NoEmptyChunks(Made(l, r, slice))
  {
    NoEmptyConcat(Flush(slice), Callbacks(r.toks));
  }

  lemma {:induction false} TracedNoEmpty(cfg: Config, sys: Sys, slice: bytes, bs: bytes)
    ensures NoEmptyChunks(Traced(cfg, sys, slice, bs))
    decreases |bs|, if sys.lexer.mode.LookupToken? then 0 else 1
  {
    if bs != [] {
      var r := Iterate(cfg, sys.lexer, bs[0]);
      var m := Feed(Shipped, cfg.Limit(), sys.pda, r.toks);
      if m.next.Ready? && r.next.Go? {
        var next, rest := SliceAfter(sys.lexer, r, slice, bs[0]), if r.again then bs else bs[1..];
        MadeNoEmpty(sys.lexer, r, slice);
        TracedNoEmpty(cfg, Sys(r.next.lexer, m.next.pda), next, rest);
        NoEmptyConcat(Made(sys.lexer, r, slice), Traced(cfg, Sys(r.next.lexer, m.next.pda), next, rest));
      }
    }
  }

  // ---- By byte, these are the callbacks of the push ----

  /** The callbacks made are all those due, but for a last slice of a string, not yet handed over. */
  ghost predicate AllButSlice(tr: seq<Event>, due: seq<Event>) {
    exists slice: bytes :: Bytewise(tr) + AllEvents(StringBytes(slice)) == due
  }

  function ByByte(slice: bytes): seq<Event> {
    AllEvents(StringBytes(slice))
  }

  lemma FlushByByte(slice: bytes)
    ensures Bytewise(Flush(slice)) == ByByte(slice)
  {
    if slice != [] {
      assert Bytewise([Chunk(slice)]) == ByByte(slice) + Bytewise([]);
      assert ByByte(slice) + [] == ByByte(slice);
    }
  }

  lemma ByByteGrows(slice: bytes, b: byte)
    ensures ByByte(slice + [b]) == ByByte(slice) + [Chunk([b])]
  {
    StringBytesSnoc(slice, b);
    AllEventsConcat(StringBytes(slice), [StringByte(b)]);
    assert AllEvents([StringByte(b)]) == [Chunk([b])];
  }

  lemma ContentsTwo(a: byte, b: byte)
    ensures Contents([StringByte(a), StringByte(b)]) == [a, b]
  {
    assert [StringByte(a), StringByte(b)][1..] == [StringByte(b)];
    assert Contents([StringByte(b)]) == [b];
  }

  lemma CallbacksByByte(l: Lexer, r: Iteration)
    requires AtMostTwo(l, r)
    ensures Bytewise(Callbacks(r.toks)) == AllEvents(r.toks)
  {
    var ts := r.toks;
    if |ts| == 1 {
      OneEvent(ts[0]);
      assert ts == [ts[0]];
      CallbackByByte(ts[0]);
    } else if |ts| == 2 {
      var s := [ts[0].b, ts[1].b];
      assert ts == StringBytes(s);
      ContentsTwo(ts[0].b, ts[1].b);
      assert ts == [StringByte(s[0]), StringByte(s[1])];
      FlushByByte(s);
    }
  }

  lemma CallbackByByte(t: Token)
    ensures Bytewise(Callbacks([t])) == EventsOf(t)
  {
    if t.StringByte? {
      assert Contents([t]) == [t.b];
      FlushByByte([t.b]);
      assert StringBytes([t.b]) == [t];
      OneEvent(t);
    } else if EventsOf(t) != [] {
      assert EventsOf(t) == [EventsOf(t)[0]];
      assert Bytewise(EventsOf(t)) == CutUp(EventsOf(t)[0]) + Bytewise([]);
    }
  }

  lemma JoinsOne(cfg: Config, l: Lexer, b: byte)
    requires Joins(l, Iterate(cfg, l, b))
    ensures Iterate(cfg, l, b).toks == [StringByte(b)]
  {
  }

  /** One pass: what was made, with what joined the slice, is what the tokens say. */
  lemma MadeByByte(cfg: Config, l: Lexer, b: byte, slice: bytes)
    ensures var r := Iterate(cfg, l, b);
            Bytewise(Made(l, r, slice)) + ByByte(SliceAfter(l, r, slice, b)) == ByByte(slice) + AllEvents(r.toks)
  {
    var r := Iterate(cfg, l, b);
    if Joins(l, r) {
      JoinsOne(cfg, l, b);
      ByByteGrows(slice, b);
      OneEvent(StringByte(b));
      assert [] + ByByte(slice + [b]) == ByByte(slice + [b]);
    } else {
      IterateFew(cfg, l, b);
      BytewiseConcat(Flush(slice), Callbacks(r.toks));
      FlushByByte(slice);
      CallbacksByByte(l, r);
      assert ByByte([]) == [];
    }
  }

  lemma FourParts(
      made: seq<Event>, later: seq<Event>, now: seq<Event>, next: seq<Event>, es: seq<Event>, rest: seq<Event>)
    requires made + next == now + es && later == next + rest
    ensures made + later == now + (es + rest)
  {
    assert made + later == (made + next) + rest;
  }

  /**
   * By byte, and with the slice that is pending before it, the exact callbacks of a push are those
   * of the pure push; after an error no more than a last slice is missing.
   */
  lemma {:induction false} TracedByByte(cfg: Config, sys: Sys, slice: bytes, bs: bytes)
    requires cfg.Valid() && SysInv(cfg, sys)
    ensures var o := Push(cfg, sys, bs);
            if o.end.Running? then Bytewise(Traced(cfg, sys, slice, bs)) == ByByte(slice) + o.events
            else AllButSlice(Traced(cfg, sys, slice, bs), ByByte(slice) + o.events)
    decreases |bs|, if sys.lexer.mode.LookupToken? then 0 else 1
  {
    if bs == [] {
      FlushByByte(slice);
      assert Push(cfg, sys, []).events == [];
      assert ByByte(slice) + [] == ByByte(slice);
    } else {
      var r := Iterate(cfg, sys.lexer, bs[0]);
      var m := Feed(Shipped, cfg.Limit(), sys.pda, r.toks);
      PushIteration(cfg, sys, bs);
      if m.next.Ready? && r.next.Go? {
        var next, rest := Sys(r.next.lexer, m.next.pda), if r.again then bs else bs[1..];
        IterationKeepsInv(cfg, sys, bs[0]);
        PassEvents(cfg, sys, bs[0]);
        TracedByByte(cfg, next, SliceAfter(sys.lexer, r, slice, bs[0]), rest);
        TracedStep(cfg, sys, slice, bs);
      } else {
        NothingMade(cfg, sys, bs[0]);
        SliceMissing(slice);
        assert ByByte(slice) + [] == ByByte(slice);
      }
    }
  }

  lemma SliceMissing(slice: bytes)
    ensures AllButSlice([], ByByte(slice))
  {
    assert Bytewise([]) + AllEvents(StringBytes(slice)) == ByByte(slice);
  }

  /** A pass that is carried out reports just its own tokens. */
  lemma PassEvents(cfg: Config, sys: Sys, b: byte)
    requires SysInv(cfg, sys)
    ensures var r := Iterate(cfg, sys.lexer, b);
            var m := Feed(Shipped, cfg.Limit(), sys.pda, r.toks);
            m.next.Ready? ==> m.events == AllEvents(r.toks)
  {
    IterateShaped(cfg, sys.lexer, b);
    FeedKeepsSound(Shipped, cfg.Limit(), sys.pda, Iterate(cfg, sys.lexer, b).toks, StringMode(sys.lexer.mode));
  }

  /** A pass that fails reports nothing. */
  lemma NothingMade(cfg: Config, sys: Sys, b: byte)
    requires SysInv(cfg, sys)
    ensures var r := Iterate(cfg, sys.lexer, b);
            var m := Feed(Shipped, cfg.Limit(), sys.pda, r.toks);
            m.next.Broken? || r.next.Stop? ==> m.events == []
  {
    IterateFew(cfg, sys.lexer, b);
    var ts := Iterate(cfg, sys.lexer, b).toks;
    if |ts| == 1 {
      assert ts == [ts[0]];
      FeedOne(Shipped, cfg.Limit(), sys.pda, ts[0]);
    } else if |ts| == 2 {
      assert ts == StringBytes([ts[0].b, ts[1].b]);
      FeedBytes(Shipped, cfg.Limit(), sys.pda, [ts[0].b, ts[1].b]);
    }
  }

  lemma TracedStep(cfg: Config, sys: Sys, slice: bytes, bs: bytes)
    requires bs != []
    requires var r := Iterate(cfg, sys.lexer, bs[0]);
             var m := Feed(Shipped, cfg.Limit(), sys.pda, r.toks);
             m.next.Ready? && r.next.Go? && m.events == AllEvents(r.toks)
    requires var r := Iterate(cfg, sys.lexer, bs[0]);
             var next := Sys(r.next.lexer, Feed(Shipped, cfg.Limit(), sys.pda, r.toks).next.pda);
             var rest, later := if r.again then bs else bs[1..], SliceAfter(sys.lexer, r, slice, bs[0]);
             var o := Push(cfg, next, rest);
             if o.end.Running? then Bytewise(Traced(cfg, next, later, rest)) == ByByte(later) + o.events
             else AllButSlice(Traced(cfg, next, later, rest), ByByte(later) + o.events)
    ensures var o := Push(cfg, sys, bs);
            if o.end.Running? then Bytewise(Traced(cfg, sys, slice, bs)) == ByByte(slice) + o.events
            else AllButSlice(Traced(cfg, sys, slice, bs), ByByte(slice) + o.events)
  {
    var r := Iterate(cfg, sys.lexer, bs[0]);
    var m := Feed(Shipped, cfg.Limit(), sys.pda, r.toks);
    var next, rest := Sys(r.next.lexer, m.next.pda), if r.again then bs else bs[1..];
    var later := SliceAfter(sys.lexer, r, slice, bs[0]);
    var made, after := Made(sys.lexer, r, slice), Traced(cfg, next, later, rest);
    var o := Push(cfg, next, rest);
    PushIteration(cfg, sys, bs);
    MadeByByte(cfg, sys.lexer, bs[0], slice);
    BytewiseConcat(made, after);
    if o.end.Running? {
      FourParts(Bytewise(made), Bytewise(after), ByByte(slice), ByByte(later), m.events, o.events);
    } else {
      var last: bytes :| Bytewise(after) + AllEvents(StringBytes(last)) == ByByte(later) + o.events;
      FourParts(Bytewise(made), Bytewise(after) + ByByte(last), ByByte(slice), ByByte(later), m.events, o.events);
      Associate(Bytewise(made), Bytewise(after), ByByte(last));
    }
  }

  /** The same of several pushes. */
  lemma {:induction false} TracedAllByByte(cfg: Config, sys: Sys, chunks: seq<bytes>)
    requires cfg.Valid() && SysInv(cfg, sys)
    ensures var o := PushAll(cfg, sys, chunks);
            if o.end.Running? then Bytewise(TracedAll(cfg, sys, chunks)) == o.events
            else AllButSlice(TracedAll(cfg, sys, chunks), o.events)
    ensures NoEmptyChunks(TracedAll(cfg, sys, chunks))
    decreases |chunks|
  {
    if chunks != [] {
      var o, now := Push(cfg, sys, chunks[0]), Traced(cfg, sys, [], chunks[0]);
      TracedByByte(cfg, sys, [], chunks[0]);
      TracedNoEmpty(cfg, sys, [], chunks[0]);
      assert ByByte([]) + o.events == o.events;
      if o.end.Running? {
        var later := TracedAll(cfg, o.end.sys, chunks[1..]);
        PushKeepsInv(cfg, sys, chunks[0]);
        TracedAllByByte(cfg, o.end.sys, chunks[1..]);
        NoEmptyConcat(now, later);
        BytewiseConcat(now, later);
        DueLater(now, later, o.events, PushAll(cfg, o.end.sys, chunks[1..]).events);
      } else {
        assert now + [] == now;
      }
    }
  }

  lemma DueLater(now: seq<Event>, later: seq<Event>, es: seq<Event>, due: seq<Event>)
    requires Bytewise(now) == es
    ensures AllButSlice(later, due) ==> AllButSlice(now + later, es + due)
  {
    BytewiseConcat(now, later);
    if AllButSlice(later, due) {
      var slice: bytes :| Bytewise(later) + AllEvents(StringBytes(slice)) == due;
      Associate(es, Bytewise(later), AllEvents(StringBytes(slice)));
    }
  }
}
