/**
 * Where a string is cut: the chunks of a body that lies within one buffer, as a function of its
 * pieces.
 */
module Chunks {
  import opened Bytes
  import opened Tokens
  import opened LexerMachine
  import opened Pushdown
  import opened Language
  import opened Layouts
  import opened Strings
  import opened System
  import opened Traces

  /**
   * The chunks of a body, with `slice` read before it: an escape is a chunk by itself, and whatever
   * stands between two escapes is one.
   */
  function BodyChunks(slice: bytes, ps: seq<Piece>): seq<Event>
    requires AllCorrect(ps)
    decreases |ps|
  {
    if ps == [] then Flush(slice)
    else if EscapePiece(ps[0]) then Flush(slice) + [Chunk(PieceBytes(ps[0]))] + BodyChunks([], ps[1..])
    else BodyChunks(slice + PieceText(ps[0]), ps[1..])
  }

  /** The callbacks of the rest of a push, as a function of the bytes that come. */
  function From(cfg: Config, s: Sys, slice: bytes): bytes -> seq<Event> {
    (x: bytes) => Traced(cfg, s, slice, x)
  }

  ghost predicate Leads(f: bytes -> seq<Event>, u: bytes, es: seq<Event>, g: bytes -> seq<Event>) {
    forall x: bytes :: f(u + x) == es + g(x)
  }

  lemma LeadsOn(
      f: bytes -> seq<Event>, u: bytes, es: seq<Event>, g: bytes -> seq<Event>, v: bytes, fs: seq<Event>,
      h: bytes -> seq<Event>)
    requires Leads(f, u, es, g) && Leads(g, v, fs, h)
    ensures Leads(f, u + v, es + fs, h)
  {
    forall x: bytes
      ensures f(u + v + x) == es + fs + h(x)
    {
      assert u + v + x == u + (v + x);
      assert f(u + (v + x)) == es + g(v + x);
      assert g(v + x) == fs + h(x);
      Associate(es, fs, h(x));
    }
  }

  /** Reading `u` makes the callbacks `es`, whatever follows, and leads from one state and slice to others. */
  ghost predicate Yields(
    cfg: Config, s: Sys, slice: bytes, u: bytes, es: seq<Event>, s': Sys, slice': bytes)
  {
    Leads(From(cfg, s, slice), u, es, From(cfg, s', slice'))
  }

  lemma YieldsNothing(cfg: Config, s: Sys, slice: bytes)
    ensures Yields(cfg, s, slice, [], [], s, slice)
  {
    forall x: bytes
      ensures From(cfg, s, slice)([] + x) == [] + From(cfg, s, slice)(x)
    {
      assert [] + x == x;
    }
  }

  lemma YieldsOn(
      cfg: Config, s: Sys, slice: bytes, u: bytes, es: seq<Event>, s': Sys, slice': bytes, v: bytes, fs: seq<Event>,
      t: Sys, slice'': bytes)
    requires Yields(cfg, s, slice, u, es, s', slice') && Yields(cfg, s', slice', v, fs, t, slice'')
    ensures Yields(cfg, s, slice, u + v, es + fs, t, slice'')
  {
    LeadsOn(From(cfg, s, slice), u, es, From(cfg, s', slice'), v, fs, From(cfg, t, slice''));
  }

  lemma TwoBytes(a: byte, b: byte)
    ensures [a] + [b] == [a, b]
  {
  }

  lemma FourBytes(h: bytes)
    requires |h| == 4
    ensures [h[0], h[1]] + [h[2], h[3]] == h
  {
  }

  lemma NothingFirst(es: seq<Event>)
    ensures [] + es == es
  {
  }

  /** One byte that is not read again. */
  lemma YieldsByte(cfg: Config, s: Sys, slice: bytes, b: byte, l': Lexer, q: Pda)
    requires var r := Iterate(cfg, s.lexer, b);
             r.next == Go(l') && !r.again && Feed(Shipped, cfg.Limit(), s.pda, r.toks).next == Ready(q)
    ensures var r := Iterate(cfg, s.lexer, b);
            Yields(cfg, s, slice, [b], Made(s.lexer, r, slice), Sys(l', q), SliceAfter(s.lexer, r, slice, b))
  {
    var r := Iterate(cfg, s.lexer, b);
    var s' := Sys(l', q);
    forall x: bytes
      ensures From(cfg, s, slice)([b] + x)
              == Made(s.lexer, r, slice) + From(cfg, s', SliceAfter(s.lexer, r, slice, b))(x)
    {
      assert ([b] + x)[1..] == x;
      assert From(cfg, s, slice)([b] + x) == Traced(cfg, s, slice, [b] + x);
    }
  }

  /** Where a string is read on, the parser stays. */
  lemma StringTokensFeed(limit: nat, p: Pda, data: bytes)
    requires !p.state.Invalid?
    ensures Feed(Shipped, limit, p, StringBytes(data)).next == Ready(p)
  {
    FeedBytes(Shipped, limit, p, data);
  }

  predicate NoMark(u: bytes) {
    forall i :: 0 <= i < |u| ==> u[i] != QUOTE && u[i] != BACKSLASH
  }

  lemma PlainByteJoins(cfg: Config, l: Lexer, b: byte)
    requires l.mode.InString? && b != QUOTE && b != BACKSLASH && Step(cfg, l, b).next.Go?
    ensures var r := Iterate(cfg, l, b);
            r == Emit(StringByte(b), Step(cfg, l, b).next.lexer) && Joins(l, r)
  {
    StringStep(cfg, l, b);
  }

  lemma YieldsPlainByte(cfg: Config, l: Lexer, p: Pda, slice: bytes, b: byte)
    requires l.mode.InString? && !p.state.Invalid? && b != QUOTE && b != BACKSLASH && Step(cfg, l, b).next.Go?
    ensures var l' := Step(cfg, l, b).next.lexer;
            l'.mode.InString? && Yields(cfg, Sys(l, p), slice, [b], [], Sys(l', p), slice + [b])
  {
    PlainByteJoins(cfg, l, b);
    StringTokensFeed(cfg.Limit(), p, [b]);
    StringBytesOne(b);
    YieldsByte(cfg, Sys(l, p), slice, b, Step(cfg, l, b).next.lexer, p);
  }

  lemma ScanTail(cfg: Config, l: Lexer, u: bytes, l': Lexer)
    requires u != [] && Scan(cfg, l, u).next == Go(l')
    ensures Step(cfg, l, u[0]).next.Go? && Scan(cfg, Step(cfg, l, u[0]).next.lexer, u[1..]).next == Go(l')
  {
  }

  /** Bytes other than quote and backslash join the slice. */
  lemma {:induction false} YieldsPlain(cfg: Config, l: Lexer, p: Pda, slice: bytes, u: bytes, l': Lexer)
    requires l.mode.InString? && !p.state.Invalid? && NoMark(u) && Scan(cfg, l, u).next == Go(l')
    ensures Yields(cfg, Sys(l, p), slice, u, [], Sys(l', p), slice + u)
    decreases |u|
  {
    if u == [] {
      YieldsNothing(cfg, Sys(l, p), slice);
      assert slice + u == slice;
    } else {
      var q := Step(cfg, l, u[0]).next.lexer;
      ScanTail(cfg, l, u, l');
      YieldsPlainByte(cfg, l, p, slice, u[0]);
      YieldsPlain(cfg, q, p, slice + [u[0]], u[1..], l');
      YieldsOn(cfg, Sys(l, p), slice, [u[0]], [], Sys(q, p), slice + [u[0]], u[1..], [],
               Sys(l', p), slice + [u[0]] + u[1..]);
      assert [u[0]] + u[1..] == u && slice + [u[0]] + u[1..] == slice + u;
    }
  }

  lemma CallbacksOfFew(data: bytes)
    requires |data| <= 2
    ensures Callbacks(StringBytes(data)) == Flush(data)
  {
    var ts := StringBytes(data);
    if |data| == 1 {
      assert ts == [StringByte(data[0])];
      assert Contents(ts) == data;
    } else if |data| == 2 {
      ContentsTwo(data[0], data[1]);
      assert ts == [StringByte(data[0]), StringByte(data[1])] && data == [data[0], data[1]];
    } else {
      assert ts == [];
    }
  }

  /** A byte inside an escape, or the backslash before it. */
  lemma YieldsEscapeByte(cfg: Config, l: Lexer, p: Pda, slice: bytes, b: byte, l': Lexer, data: bytes)
    requires !l.mode.InString? || !l'.mode.InString?
    requires Iterate(cfg, l, b) == Iteration(StringBytes(data), Go(l'), false) && |data| <= 2
    requires !p.state.Invalid?
    ensures Yields(cfg, Sys(l, p), slice, [b], Flush(slice) + Flush(data), Sys(l', p), [])
  {
    StringTokensFeed(cfg.Limit(), p, data);
    var r := Iterate(cfg, l, b);
    CallbacksOfFew(data);
    assert !Joins(l, r) && Made(l, r, slice) == Flush(slice) + Flush(data);
    YieldsByte(cfg, Sys(l, p), slice, b, l', p);
  }

  lemma YieldsBackslash(cfg: Config, l: Lexer, p: Pda, nb: nat, slice: bytes)
    requires Between(l, nb) && nb != 2 && !p.state.Invalid?
    ensures Yields(cfg, Sys(l, p), slice, [BACKSLASH], Flush(slice),
                   Sys(l.(mode := InStringEscape, nb := Spent(nb)), p), [])
  {
    StringStep(cfg, l, BACKSLASH);
    YieldsEscapeByte(cfg, l, p, slice, BACKSLASH, l.(mode := InStringEscape, nb := Spent(nb)), []);
    assert Flush(slice) + Flush([]) == Flush(slice);
  }

  lemma YieldsLetter(cfg: Config, l: Lexer, p: Pda, c: byte)
    requires l.mode.InStringEscape? && Unescaped(c) != [] && !p.state.Invalid?
    ensures Yields(cfg, Sys(l, p), [], [c], [Chunk(Unescaped(c))], Sys(l.(mode := InString), p), [])
  {
    StringBytesOne(Unescaped(c)[0]);
    assert StringBytes(Unescaped(c)) == [StringByte(Unescaped(c)[0])];
    YieldsEscapeByte(cfg, l, p, [], c, l.(mode := InString), Unescaped(c));
    assert Flush([]) + Flush(Unescaped(c)) == [Chunk(Unescaped(c))];
  }

  lemma YieldsUnicodeLetter(cfg: Config, l: Lexer, p: Pda)
    requires l.mode.InStringEscape? && !p.state.Invalid?
    ensures Yields(cfg, Sys(l, p), [], [0x75], [], Sys(l.(mode := InStringUnicodeEscape, offset := 0), p), [])
  {
    YieldsEscapeByte(cfg, l, p, [], 0x75, l.(mode := InStringUnicodeEscape, offset := 0), []);
  }

  /** One of the first three digits of a hexadecimal escape. */
  lemma YieldsDigit(cfg: Config, l: Lexer, p: Pda, b: byte, l': Lexer)
    requires l.mode.InStringUnicodeEscape? && UnicodeByte(l, b) == Quiet(l') && !p.state.Invalid?
    ensures Yields(cfg, Sys(l, p), [], [b], [], Sys(l', p), [])
  {
    YieldsEscapeByte(cfg, l, p, [], b, l', []);
  }

  lemma YieldsLastDigit(cfg: Config, l: Lexer, p: Pda, b: byte, cp: bytes, l': Lexer)
    requires l.mode.InStringUnicodeEscape? && |cp| == 2 && !p.state.Invalid?
    requires UnicodeByte(l, b) == Iteration(StringBytes(cp), Go(l'), false)
    ensures Yields(cfg, Sys(l, p), [], [b], [Chunk(cp)], Sys(l', p), [])
  {
    YieldsEscapeByte(cfg, l, p, [], b, l', cp);
    NothingFirst([Chunk(cp)]);
  }

  lemma FirstDigits(l: Lexer, a: byte, b: byte)
    requires l.mode.InStringUnicodeEscape? && l.offset == 0 && Hex(a) && Hex(b)
    ensures var k := Escaping(l, 1, 16 * HexValue(a), l.cp1);
            && UnicodeByte(l, a) == Quiet(k)
            && UnicodeByte(k, b) == Quiet(Escaping(l, 2, 16 * HexValue(a) + HexValue(b), l.cp1))
  {
    LowNibble(HexValue(a), HexValue(b));
  }

  lemma LastDigits(l: Lexer, a: byte, b: byte)
    requires l.mode.InStringUnicodeEscape? && l.offset == 2 && Hex(a) && Hex(b)
    ensures var k, v := Escaping(l, 3, l.cp0, 16 * HexValue(a)), 16 * HexValue(a) + HexValue(b);
            && UnicodeByte(l, a) == Quiet(k)
            && UnicodeByte(k, b)
               == Iteration(StringBytes([l.cp0, v]), Go(Escaping(l, 4, l.cp0, v).(mode := InString)), false)
  {
    LowNibble(HexValue(a), HexValue(b));
    var v := 16 * HexValue(a) + HexValue(b);
    assert StringBytes([l.cp0, v]) == [StringByte(l.cp0), StringByte(v)];
  }

  lemma YieldsFirstHex(cfg: Config, l: Lexer, p: Pda, a: byte, b: byte, k: Lexer, l': Lexer)
    requires l.mode.InStringUnicodeEscape? && k.mode.InStringUnicodeEscape? && !p.state.Invalid?
    requires UnicodeByte(l, a) == Quiet(k) && UnicodeByte(k, b) == Quiet(l')
    ensures Yields(cfg, Sys(l, p), [], [a, b], [], Sys(l', p), [])
  {
    YieldsDigit(cfg, l, p, a, k);
    YieldsDigit(cfg, k, p, b, l');
    YieldsOn(cfg, Sys(l, p), [], [a], [], Sys(k, p), [], [b], [], Sys(l', p), []);
    TwoBytes(a, b);
  }

  lemma YieldsLastHex(cfg: Config, l: Lexer, p: Pda, a: byte, b: byte, k: Lexer, cp: bytes, l': Lexer)
    requires l.mode.InStringUnicodeEscape? && k.mode.InStringUnicodeEscape? && |cp| == 2 && !p.state.Invalid?
    requires UnicodeByte(l, a) == Quiet(k) && UnicodeByte(k, b) == Iteration(StringBytes(cp), Go(l'), false)
    ensures Yields(cfg, Sys(l, p), [], [a, b], [Chunk(cp)], Sys(l', p), [])
  {
    YieldsDigit(cfg, l, p, a, k);
    YieldsLastDigit(cfg, k, p, b, cp, l');
    YieldsOn(cfg, Sys(l, p), [], [a], [], Sys(k, p), [], [b], [Chunk(cp)], Sys(l', p), []);
    NothingFirst([Chunk(cp)]);
    TwoBytes(a, b);
  }

  lemma YieldsDigits(cfg: Config, l: Lexer, k: Lexer, p: Pda, h: bytes, cp: bytes, l': Lexer)
    requires |h| == 4
    requires Yields(cfg, Sys(l, p), [], [h[0], h[1]], [], Sys(k, p), [])
    requires Yields(cfg, Sys(k, p), [], [h[2], h[3]], [Chunk(cp)], Sys(l', p), [])
    ensures Yields(cfg, Sys(l, p), [], h, [Chunk(cp)], Sys(l', p), [])
  {
    YieldsOn(cfg, Sys(l, p), [], [h[0], h[1]], [], Sys(k, p), [], [h[2], h[3]], [Chunk(cp)], Sys(l', p), []);
    NothingFirst([Chunk(cp)]);
    FourBytes(h);
  }

  lemma YieldsHighByte(cfg: Config, l: Lexer, p: Pda, a: byte, b: byte) returns (k: Lexer)
    requires l.mode.InStringUnicodeEscape? && l.offset == 0 && Hex(a) && Hex(b) && !p.state.Invalid?
    ensures k == l.(offset := 2, cp0 := 16 * HexValue(a) + HexValue(b))
    ensures Yields(cfg, Sys(l, p), [], [a, b], [], Sys(k, p), [])
  {
    k := Escaping(l, 2, 16 * HexValue(a) + HexValue(b), l.cp1);
    FirstDigits(l, a, b);
    YieldsFirstHex(cfg, l, p, a, b, Escaping(l, 1, 16 * HexValue(a), l.cp1), k);
  }

  lemma YieldsLowByte(cfg: Config, l: Lexer, p: Pda, a: byte, b: byte) returns (l': Lexer)
    requires l.mode.InStringUnicodeEscape? && l.offset == 2 && Hex(a) && Hex(b) && !p.state.Invalid?
    ensures l' == l.(mode := InString, offset := 4, cp1 := 16 * HexValue(a) + HexValue(b))
    ensures Yields(cfg, Sys(l, p), [], [a, b], [Chunk([l.cp0, l'.cp1])], Sys(l', p), [])
  {
    var v := 16 * HexValue(a) + HexValue(b);
    l' := Escaping(l, 4, l.cp0, v).(mode := InString);
    LastDigits(l, a, b);
    YieldsLastHex(cfg, l, p, a, b, Escaping(l, 3, l.cp0, 16 * HexValue(a)), [l.cp0, v], l');
  }

  lemma HexBytes(h: bytes, v: byte, w: byte)
    requires Correct(Unicode(h))
    requires v == 16 * HexValue(h[0]) + HexValue(h[1]) && w == 16 * HexValue(h[2]) + HexValue(h[3])
    ensures PieceBytes(Unicode(h)) == [v, w]
  {
  }

  lemma YieldsHex(cfg: Config, l: Lexer, p: Pda, h: bytes) returns (l': Lexer, cp: bytes)
    requires l.mode.InStringUnicodeEscape? && l.offset == 0 && !p.state.Invalid? && Correct(Unicode(h))
    ensures l' == l.(mode := InString, offset := 4, cp0 := l'.cp0, cp1 := l'.cp1)
    ensures cp == PieceBytes(Unicode(h)) && Yields(cfg, Sys(l, p), [], h, [Chunk(cp)], Sys(l', p), [])
  {
    var k := YieldsHighByte(cfg, l, p, h[0], h[1]);
    l' := YieldsLowByte(cfg, k, p, h[2], h[3]);
    cp := [k.cp0, l'.cp1];
    HexBytes(h, k.cp0, l'.cp1);
    YieldsDigits(cfg, l, k, p, h, cp, l');
  }

  lemma YieldsTwoLetters(cfg: Config, l: Lexer, p: Pda, nb: nat, slice: bytes, c: byte) returns (l': Lexer)
    requires Between(l, nb) && nb != 2 && !p.state.Invalid? && Unescaped(c) != []
    ensures Between(l', Spent(nb))
    ensures Yields(cfg, Sys(l, p), slice, [BACKSLASH, c], Flush(slice) + [Chunk(Unescaped(c))], Sys(l', p), [])
  {
    var q := l.(mode := InStringEscape, nb := Spent(nb));
    l' := l.(nb := Spent(nb));
    YieldsBackslash(cfg, l, p, nb, slice);
    YieldsLetter(cfg, q, p, c);
    YieldsOn(cfg, Sys(l, p), slice, [BACKSLASH], Flush(slice), Sys(q, p), [], [c], [Chunk(Unescaped(c))],
             Sys(l', p), []);
    TwoBytes(BACKSLASH, c);
  }

  lemma YieldsUnicode(cfg: Config, l: Lexer, p: Pda, nb: nat, slice: bytes, h: bytes) returns (l': Lexer)
    requires Between(l, nb) && nb != 2 && !p.state.Invalid? && Correct(Unicode(h))
    ensures Between(l', Spent(nb))
    ensures Yields(cfg, Sys(l, p), slice, [BACKSLASH, 0x75] + h, Flush(slice) + [Chunk(PieceBytes(Unicode(h)))],
                   Sys(l', p), [])
  {
    var q := l.(mode := InStringEscape, nb := Spent(nb));
    var u, cp := q.(mode := InStringUnicodeEscape, offset := 0), [];
    YieldsBackslash(cfg, l, p, nb, slice);
    YieldsUnicodeLetter(cfg, q, p);
    YieldsOn(cfg, Sys(l, p), slice, [BACKSLASH], Flush(slice), Sys(q, p), [], [0x75], [], Sys(u, p), []);
    l', cp := YieldsHex(cfg, u, p, h);
    YieldsOn(cfg, Sys(l, p), slice, [BACKSLASH] + [0x75], Flush(slice) + [], Sys(u, p), [], h, [Chunk(cp)],
             Sys(l', p), []);
    assert [BACKSLASH] + [0x75] == [BACKSLASH, 0x75] && Flush(slice) + [] == Flush(slice);
  }

  /** A piece: an escape sends the slice and its own chunk, anything else joins the slice. */
  lemma YieldsPiece(cfg: Config, l: Lexer, p: Pda, nb: nat, slice: bytes, piece: Piece) returns (l': Lexer)
    requires Between(l, nb) && !p.state.Invalid? && Correct(piece) && Follows(nb, piece)
    ensures Between(l', PendingAfter(nb, piece))
    ensures if EscapePiece(piece)
            then Yields(cfg, Sys(l, p), slice, PieceText(piece), Flush(slice) + [Chunk(PieceBytes(piece))],
                        Sys(l', p), [])
            else Yields(cfg, Sys(l, p), slice, PieceText(piece), [], Sys(l', p), slice + PieceText(piece))
  {
    match piece
    case Escape(c) => l' := YieldsTwoLetters(cfg, l, p, nb, slice, c);
    case Unicode(h) => l' := YieldsUnicode(cfg, l, p, nb, slice, h);
    case _ =>
      l' := ScanPiece(cfg, l, nb, piece);
      PlainPieceNoMark(piece);
      YieldsPlain(cfg, l, p, slice, PieceText(piece), l');
  }

  lemma PlainPieceNoMark(piece: Piece)
    requires Correct(piece) && !EscapePiece(piece)
    ensures NoMark(PieceText(piece))
  {
    if piece.Plain? {
      UnitIsGrown(piece.unit);
    }
  }

  /** The closing quote sends the slice before the end. */
  lemma YieldsQuote(cfg: Config, l: Lexer, p: Pda, nb: nat, slice: bytes) returns (next: Sys)
    requires Between(l, nb) && nb != 2 && TakesString(p.state)
    ensures next == Sys(l.(mode := LookupToken, nb := Spent(nb)), Pda(AfterString(p.state), p.stack))
    ensures Yields(cfg, Sys(l, p), slice, [QUOTE], Flush(slice) + [EndString], next, [])
  {
    next := Sys(l.(mode := LookupToken, nb := Spent(nb)), Pda(AfterString(p.state), p.stack));
    StringStep(cfg, l, QUOTE);
    FeedOne(Shipped, cfg.Limit(), p, StringEnd);
    YieldsByte(cfg, Sys(l, p), slice, QUOTE, next.lexer, next.pda);
  }

  /**
   * Conservation, chunk by chunk: the body of a string that lies within one buffer is reported in
   * the chunks that `BodyChunks` says, and then ended.
   */
  lemma {:induction false} YieldsBody(cfg: Config, l: Lexer, p: Pda, nb: nat, slice: bytes, ps: seq<Piece>)
    returns (next: Sys)
    requires Between(l, nb) && IsBody(nb, ps) && TakesString(p.state)
    ensures next.pda == Pda(AfterString(p.state), p.stack) && Resting(next.lexer, StringPending(nb, ps))
    ensures Yields(cfg, Sys(l, p), slice, BodyText(ps) + [QUOTE], BodyChunks(slice, ps) + [EndString], next, [])
    decreases |ps|
  {
    if ps == [] {
      next := YieldsQuote(cfg, l, p, nb, slice);
      assert BodyText(ps) + [QUOTE] == [QUOTE];
    } else {
      var piece, qs := ps[0], ps[1..];
      var l' := YieldsPiece(cfg, l, p, nb, slice, piece);
      var es, s := if EscapePiece(piece) then Flush(slice) + [Chunk(PieceBytes(piece))] else [],
                   if EscapePiece(piece) then [] else slice + PieceText(piece);
      next := YieldsBody(cfg, l', p, PendingAfter(nb, piece), s, qs);
      YieldsOn(cfg, Sys(l, p), slice, PieceText(piece), es, Sys(l', p), s, BodyText(qs) + [QUOTE],
               BodyChunks(s, qs) + [EndString], next, []);
      BodyParts(slice, ps, es, s);
    }
  }

  lemma BodyParts(slice: bytes, ps: seq<Piece>, es: seq<Event>, s: bytes)
    requires AllCorrect(ps) && ps != []
    requires es == if EscapePiece(ps[0]) then Flush(slice) + [Chunk(PieceBytes(ps[0]))] else []
    requires s == if EscapePiece(ps[0]) then [] else slice + PieceText(ps[0])
    ensures PieceText(ps[0]) + (BodyText(ps[1..]) + [QUOTE]) == BodyText(ps) + [QUOTE]
    ensures es + (BodyChunks(s, ps[1..]) + [EndString]) == BodyChunks(slice, ps) + [EndString]
  {
    Associate(es, BodyChunks(s, ps[1..]), [EndString]);
    assert [] + BodyChunks(s, ps[1..]) == BodyChunks(s, ps[1..]);
  }

  /** At the end of the buffer the slice that is pending is sent, and the next buffer begins another. */
  lemma {:induction false} BodyCut(cfg: Config, l: Lexer, p: Pda, nb: nat, slice: bytes, ps: seq<Piece>)
    requires Between(l, nb) && AllCorrect(ps) && Flows(nb, ps) && !p.state.Invalid?
    ensures Traced(cfg, Sys(l, p), slice, BodyText(ps)) == BodyChunks(slice, ps)
    decreases |ps|
  {
    if ps != [] {
      var piece, qs := ps[0], ps[1..];
      var l' := YieldsPiece(cfg, l, p, nb, slice, piece);
      var es, s := if EscapePiece(piece) then Flush(slice) + [Chunk(PieceBytes(piece))] else [],
                   if EscapePiece(piece) then [] else slice + PieceText(piece);
      YieldsThen(cfg, Sys(l, p), slice, PieceText(piece), es, Sys(l', p), s, BodyText(qs));
      BodyCut(cfg, l', p, PendingAfter(nb, piece), s, qs);
      NothingFirst(BodyChunks(s, qs));
    }
  }

  lemma YieldsThen(
      cfg: Config, s: Sys, slice: bytes, u: bytes, es: seq<Event>, s': Sys, slice': bytes, x: bytes)
    requires Yields(cfg, s, slice, u, es, s', slice')
    ensures Traced(cfg, s, slice, u + x) == es + Traced(cfg, s', slice', x)
  {
    assert From(cfg, s, slice)(u + x) == es + From(cfg, s', slice')(x);
  }
}
