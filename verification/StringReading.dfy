/**
 * The other half of the string language: what is read as a string is a body of pieces, and the
 * split into pieces is unique.
 */
module StringReading {
  import opened Bytes
  import opened Tokens
  import opened LexerMachine
  import opened Numbers
  import opened Strings

  // ---- Only such strings are read ----

  predicate Good(cfg: Config, l: Lexer, bs: bytes) { ScanAll(cfg, l, bs).next.Go? }

  lemma GoodSplit(cfg: Config, l: Lexer, bs: bytes, k: nat)
    requires Good(cfg, l, bs) && k <= |bs|
    ensures var s := Scan(cfg, l, bs[..k]); s.next.Go? && Good(cfg, s.next.lexer, bs[k..])
  {
    assert bs == bs[..k] + bs[k..];
    ScanAllConcat(cfg, l, bs[..k], bs[k..]);
  }

  lemma GoodPrefix(cfg: Config, l: Lexer, text: bytes, bs: bytes)
    requires Good(cfg, l, bs) && text <= bs
    ensures var s := Scan(cfg, l, text); s.next.Go? && Good(cfg, s.next.lexer, bs[|text|..])
  {
    assert bs[..|text|] == text;
    GoodSplit(cfg, l, bs, |text|);
  }

  /** A string in progress cannot be the end of the input. */
  lemma GoodGoesOn(cfg: Config, l: Lexer, bs: bytes)
    requires Good(cfg, l, bs) && StringMode(l.mode)
    ensures bs != [] && Step(cfg, l, bs[0]).next.Go?
    ensures Good(cfg, Step(cfg, l, bs[0]).next.lexer, bs[1..])
  {
    if bs != [] {
      GoodSplit(cfg, l, bs, 1);
      assert bs[..1] == [bs[0]];
      ScanOne(cfg, l, bs[0]);
    }
  }

  /** The unit that `bs` begins with, of which k bytes are known. */
  lemma {:induction false} TakeUnit(cfg: Config, l: Lexer, nb: nat, bs: bytes, k: nat) returns (n: nat)
    requires Between(l, nb) && Good(cfg, l, bs)
    requires 1 <= k <= |bs| && Grows(bs[..k]) && UnitMayBegin(nb, bs[0])
    requires k == 1 && LooseLead(bs[0]) ==> |bs| > 1 && Continuation(bs[1])
    ensures k <= n <= |bs| && Unit(bs[..n])
    decreases UnitLength(bs[0]) - k
  {
    var u := bs[..k];
    if k == UnitLength(bs[0]) {
      UnitIsGrown(u);
      n := k;
    } else {
      GoodSplit(cfg, l, bs, k);
      ScanGrowing(cfg, l, nb, u);
      GoodGoesOn(cfg, Inside(l, u), bs[k..]);
      UnitStep(cfg, l, nb, u, bs[k]);
      assert bs[..k + 1] == u + [bs[k]];
      n := TakeUnit(cfg, l, nb, bs, k + 1);
    }
  }

  lemma TakeEscape(cfg: Config, l: Lexer, nb: nat, bs: bytes) returns (p: Piece)
    requires Between(l, nb) && nb != 2 && Good(cfg, l, bs) && bs != [] && bs[0] == BACKSLASH
    ensures Correct(p) && PieceText(p) <= bs && (p.Escape? || p.Unicode?)
  {
    var r := l.(mode := InStringEscape, nb := Spent(nb));
    ScanBackslash(cfg, l, nb);
    ScanOne(cfg, l, BACKSLASH);
    GoodGoesOn(cfg, l, bs);
    GoodGoesOn(cfg, r, bs[1..]);
    if Unescaped(bs[1]) != [] {
      p := Escape(bs[1]);
    } else {
      assert bs[1..][1..] == bs[2..];
      var h := TakeHex(cfg, Escaping(r, 0, l.cp0, l.cp1), bs[2..], 0);
      p := Unicode(h);
      assert [BACKSLASH, 0x75] + h <= bs;
    }
  }

  /** The digits that are still missing from a hexadecimal escape of which k have been read. */
  lemma {:induction false} TakeHex(cfg: Config, l: Lexer, bs: bytes, k: nat) returns (h: bytes)
    requires l.mode.InStringUnicodeEscape? && l.offset == k <= 3 && Good(cfg, l, bs)
    ensures |h| == 4 - k && h <= bs && forall i :: 0 <= i < |h| ==> Hex(h[i])
    decreases 4 - k
  {
    GoodGoesOn(cfg, l, bs);
    if k == 3 {
      h := [bs[0]];
    } else {
      var t := TakeHex(cfg, Step(cfg, l, bs[0]).next.lexer, bs[1..], k + 1);
      h := [bs[0]] + t;
    }
  }

  /** The two bytes that are pending. */
  lemma TakeRemains(cfg: Config, l: Lexer, bs: bytes) returns (p: Piece)
    requires Between(l, 2) && Good(cfg, l, bs)
    ensures p.Remains? && Correct(p) && PieceText(p) <= bs
  {
    GoodGoesOn(cfg, l, bs);
    PendingStep(cfg, l, bs[0]);
    GoodGoesOn(cfg, l.(nb := 1), bs[1..]);
    PendingStep(cfg, l.(nb := 1), bs[1]);
    p := Remains(bs[0], bs[1]);
  }

  /** A byte that is neither quote nor backslash, where three or none are pending. */
  lemma TakePlain(cfg: Config, l: Lexer, nb: nat, bs: bytes) returns (p: Piece)
    requires Between(l, nb) && nb != 2 && Good(cfg, l, bs)
    requires bs != [] && bs[0] != QUOTE && bs[0] != BACKSLASH && (nb == 3 ==> !Continuation(bs[0]))
    ensures Correct(p) && Follows(nb, p) && PieceText(p) <= bs
    ensures p.Loose? ==> |bs| > 1 && !Continuation(bs[1])
    ensures p.Plain? || p.Filler? || p.Loose?
  {
    GoodGoesOn(cfg, l, bs);
    if nb == 0 {
      FirstStep(cfg, l, bs[0]);
    } else {
      StepAfterLoose(cfg, l, bs[0]);
    }
    if nb == 3 && bs[0] < 0x80 {
      p := Filler(bs[0]);
    } else {
      p := TakeLead(cfg, l, nb, bs);
    }
  }

  lemma TakeLead(cfg: Config, l: Lexer, nb: nat, bs: bytes) returns (p: Piece)
    requires Between(l, nb) && Good(cfg, l, bs) && bs != [] && Grows(bs[..1]) && UnitMayBegin(nb, bs[0])
    ensures Correct(p) && Follows(nb, p) && PieceText(p) <= bs
    ensures p.Loose? ==> |bs| > 1 && !Continuation(bs[1])
    ensures p.Plain? || p.Loose?
  {
    if LooseLead(bs[0]) {
      ScanLoose(cfg, l, nb, bs[0]);
      ScanOne(cfg, l, bs[0]);
      GoodGoesOn(cfg, l, bs);
      GoodGoesOn(cfg, l.(nb := 3), bs[1..]);
    }
    if LooseLead(bs[0]) && !Continuation(bs[1]) {
      p := Loose(bs[0]);
    } else {
      var n := TakeUnit(cfg, l, nb, bs, 1);
      p := Plain(bs[..n]);
    }
  }

  lemma TakePiece(cfg: Config, l: Lexer, nb: nat, bs: bytes) returns (p: Piece)
    requires Between(l, nb) && Good(cfg, l, bs) && bs != [] && bs[0] != QUOTE
    requires nb == 3 ==> !Continuation(bs[0])
    ensures Correct(p) && Follows(nb, p) && PieceText(p) <= bs && PieceText(p) != []
    ensures p.Loose? ==> |bs| > 1 && !Continuation(bs[1])
  {
    if nb == 2 {
      p := TakeRemains(cfg, l, bs);
    } else if bs[0] == BACKSLASH {
      p := TakeEscape(cfg, l, nb, bs);
    } else {
      p := TakePlain(cfg, l, nb, bs);
    }
  }

  lemma PrefixOn(a: bytes, b: bytes, c: bytes, bs: bytes)
    requires a <= bs && b + c <= bs[|a|..]
    ensures a + b + c <= bs
  {
    assert bs == a + bs[|a|..];
    assert a + b + c == a + (b + c);
  }

  lemma ConsPiece(nb: nat, p: Piece, qs: seq<Piece>)
    requires Correct(p) && Follows(nb, p) && IsBody(PendingAfter(nb, p), qs)
    ensures IsBody(nb, [p] + qs) && BodyText([p] + qs) == PieceText(p) + BodyText(qs)
  {
    assert ([p] + qs)[1..] == qs;
  }

  /** What follows an opening quote, in an input that is read to its end, is a body and a quote. */
  lemma {:induction false} TakeBody(cfg: Config, l: Lexer, nb: nat, bs: bytes) returns (ps: seq<Piece>)
    requires Between(l, nb) && Good(cfg, l, bs) && (nb == 3 ==> bs != [] && !Continuation(bs[0]))
    ensures IsBody(nb, ps) && BodyText(ps) + [QUOTE] <= bs
    decreases |bs|
  {
    GoodGoesOn(cfg, l, bs);
    if bs[0] == QUOTE {
      CloseQuote(cfg, l, nb);
      ps := [];
      assert [] + [QUOTE] <= bs;
    } else {
      var p := TakePiece(cfg, l, nb, bs);
      var k := |PieceText(p)|;
      GoodSplit(cfg, l, bs, k);
      assert bs[..k] == PieceText(p);
      var r := ScanPiece(cfg, l, nb, p);
      var qs := TakeBody(cfg, r, PendingAfter(nb, p), bs[k..]);
      ps := [p] + qs;
      ConsPiece(nb, p, qs);
      PrefixOn(PieceText(p), BodyText(qs), [QUOTE], bs);
    }
  }

  // ---- The language of strings ----

  /**
   * Inside a string, `body` and the quote after it are read as the rest of the string, with the
   * contents `out`, and leave `pending` bytes pending.
   */
  predicate ReadAsString(cfg: Config, l: Lexer, body: bytes, out: bytes, pending: nat) {
    var s := Scan(cfg, l, body + [QUOTE]);
    && s.toks == StringBytes(out) + [StringEnd]
    && s.next.Go? && s.next.lexer.mode.LookupToken? && s.next.lexer.nb == pending
  }

  lemma BodyIsRead(cfg: Config, l: Lexer, nb: nat, ps: seq<Piece>)
    requires Between(l, nb) && IsBody(nb, ps)
    ensures ReadAsString(cfg, l, BodyText(ps), BodyBytes(ps), StringPending(nb, ps))
  {
    var r := ScanBody(cfg, l, nb, ps);
    CloseQuote(cfg, r, EndPending(nb, ps));
    ScanSnoc(cfg, l, BodyText(ps), r, QUOTE);
  }

  lemma ScanMore(cfg: Config, l: Lexer, a: bytes, b: bytes)
    requires Scan(cfg, l, a).next.Go?
    ensures Scan(cfg, l, a).toks <= Scan(cfg, l, a + b).toks
  {
    ScanConcat(cfg, l, a, b);
  }

  lemma EndsOnce(a: bytes, b: bytes, ts: seq<Token>)
    requires StringBytes(a) + [StringEnd] <= ts && ts == StringBytes(b) + [StringEnd]
    ensures a == b
  {
    EndAt(a, ts);
    assert |a| == |b|;
    assert StringBytes(a) == ts[..|a|] && StringBytes(b) == ts[..|a|];
    SameBytes(a, b);
  }

  lemma EndAt(a: bytes, ts: seq<Token>)
    requires StringBytes(a) + [StringEnd] <= ts
    ensures ts[|a|] == StringEnd
  {
    assert ts[|a|] == (StringBytes(a) + [StringEnd])[|a|];
  }

  lemma SameBytes(a: bytes, b: bytes)
    requires StringBytes(a) == StringBytes(b)
    ensures a == b
  {
    assert |StringBytes(a)| == |a| && |StringBytes(b)| == |b|;
    forall i | 0 <= i < |a|
      ensures a[i] == b[i]
    {
      assert StringBytes(a)[i] == StringByte(a[i]) && StringBytes(b)[i] == StringByte(b[i]);
    }
  }

  lemma StringIsBody(cfg: Config, l: Lexer, nb: nat, body: bytes, out: bytes, pending: nat) returns (ps: seq<Piece>)
    requires Between(l, nb) && nb != 3 && ReadAsString(cfg, l, body, out, pending)
    ensures IsBody(nb, ps) && BodyText(ps) == body && BodyBytes(ps) == out && StringPending(nb, ps) == pending
  {
    var bs := body + [QUOTE];
    ps := TakeBody(cfg, l, nb, bs);
    BodyIsRead(cfg, l, nb, ps);
    var text := BodyText(ps) + [QUOTE];
    assert bs == text + bs[|text|..];
    ScanMore(cfg, l, text, bs[|text|..]);
    EndsOnce(BodyBytes(ps), out, Scan(cfg, l, bs).toks);
    WholeString(cfg, l, nb, ps, bs);
    assert body == bs[..|body|] && BodyText(ps) == bs[..|body|];
  }

  /** Nothing but the quote of a body comes after it, if there is just one end of a string. */
  lemma WholeString(cfg: Config, l: Lexer, nb: nat, ps: seq<Piece>, bs: bytes)
    requires Between(l, nb) && IsBody(nb, ps) && BodyText(ps) + [QUOTE] <= bs
    requires bs[|bs| - 1] == QUOTE && Scan(cfg, l, bs).next.Go? && Scan(cfg, l, bs).next.lexer.mode.LookupToken?
    requires Scan(cfg, l, bs).toks == StringBytes(BodyBytes(ps)) + [StringEnd]
    ensures bs == BodyText(ps) + [QUOTE]
  {
    var text := BodyText(ps) + [QUOTE];
    if |text| < |bs| {
      BodyIsRead(cfg, l, nb, ps);
      var front := bs[..|bs| - 1];
      assert front == text + front[|text|..] && bs == front + [QUOTE];
      ScanMore(cfg, l, text, front[|text|..]);
      ScanConcat(cfg, l, front, [QUOTE]);
      var r := Scan(cfg, l, front).next.lexer;
      ScanOne(cfg, r, QUOTE);
      QuoteSpeaks(cfg, r);
    }
  }

  /** A quote makes a token, or an error, wherever it is read. */
  lemma QuoteSpeaks(cfg: Config, l: Lexer)
    ensures Step(cfg, l, QUOTE).next.Go? ==> Step(cfg, l, QUOTE).toks != []
  {
    var first := Iterate(cfg, l, QUOTE);
    if l.mode.InString? {
      StringStep(cfg, l, QUOTE);
    } else if l.mode.LookupToken? {
      assert first == LookupByte(l, QUOTE);
    }
  }

  /**
   * The string language, for all bytes: from where a string begins, with none or two bytes
   * pending, `body` and a quote are read as one string if and only if `body` splits into correct
   * pieces that follow each other and leave no two bytes pending at the quote. What is delivered is
   * what the decoder makes of the pieces, and the bytes left pending are those of a loose lead at
   * the end.
   */
  lemma StringLanguage(cfg: Config, l: Lexer, nb: nat, body: bytes, out: bytes, pending: nat)
    requires Between(l, nb) && nb != 3
    ensures ReadAsString(cfg, l, body, out, pending)
            <==> exists ps :: IsBody(nb, ps) && BodyText(ps) == body && BodyBytes(ps) == out
                              && StringPending(nb, ps) == pending
  {
    if ReadAsString(cfg, l, body, out, pending) {
      var ps := StringIsBody(cfg, l, nb, body, out, pending);
    }
    forall ps | IsBody(nb, ps) && BodyText(ps) == body && BodyBytes(ps) == out && StringPending(nb, ps) == pending
      ensures ReadAsString(cfg, l, body, out, pending)
    {
      BodyIsRead(cfg, l, nb, ps);
    }
  }

  // ---- The split is unique ----

  predicate NoContinuationFirst(x: bytes) { x == [] || !Continuation(x[0]) }

  /** No piece that comes right after a loose lead begins with a continuation byte. */
  lemma AfterLoose(ps: seq<Piece>)
    requires AllCorrect(ps) && Flows(3, ps)
    ensures NoContinuationFirst(BodyText(ps))
  {
    if ps != [] {
      assert PieceText(ps[0]) != [];
      assert BodyText(ps)[0] == PieceText(ps[0])[0];
    }
  }

  lemma SameUnit(u: bytes, v: bytes, x: bytes, y: bytes)
    requires Unit(u) && Unit(v) && u + x == v + y
    ensures u == v
  {
    UnitIsGrown(u);
    UnitIsGrown(v);
    var s := u + x;
    assert s[0] == u[0] && s[0] == v[0];
    assert u == s[..|u|] && v == s[..|v|];
  }

  lemma SameEscape(p: Piece, q: Piece, x: bytes, y: bytes)
    requires Correct(p) && Correct(q) && (p.Escape? || p.Unicode?) && (q.Escape? || q.Unicode?)
    requires PieceText(p) + x == PieceText(q) + y
    ensures p == q
  {
    var s := PieceText(p) + x;
    assert s[1] == PieceText(p)[1] && s[1] == PieceText(q)[1];
    if p.Unicode? {
      assert s[2..6] == p.hex && s[2..6] == q.hex;
    }
  }

  /** A loose lead by itself is no unit with what comes after it. */
  lemma LooseIsNoUnit(b: byte, u: bytes, x: bytes, y: bytes)
    requires LooseLead(b) && Unit(u) && [b] + x == u + y
    ensures !NoContinuationFirst(x)
  {
    var s := u + y;
    assert s[0] == u[0] && s[0] == b;
    assert s[1] == u[1] && s[1] == x[0];
  }

  lemma FirstBytes(nb: nat, p: Piece)
    requires Correct(p) && Follows(nb, p)
    ensures PieceText(p) != [] && (EscapePiece(p) <==> PieceText(p)[0] == BACKSLASH)
    ensures p.Remains? <==> nb == 2
    ensures nb == 3 ==> (p.Filler? <==> PieceText(p)[0] < 0x80 && PieceText(p)[0] != BACKSLASH)
    ensures p.Filler? ==> nb == 3
  {
  }

  lemma PieceByPrefix(nb: nat, p: Piece, q: Piece, x: bytes, y: bytes)
    requires Correct(p) && Correct(q) && Follows(nb, p) && Follows(nb, q) && PieceText(p) + x == PieceText(q) + y
    requires p.Loose? ==> NoContinuationFirst(x)
    requires q.Loose? ==> NoContinuationFirst(y)
    ensures p == q
  {
    FirstBytes(nb, p);
    FirstBytes(nb, q);
    var s := PieceText(p) + x;
    assert s[0] == PieceText(p)[0] && s[0] == PieceText(q)[0];
    if p.Remains? {
      assert s[1] == PieceText(p)[1] && s[1] == PieceText(q)[1];
    } else if EscapePiece(p) {
      SameEscape(p, q, x, y);
    } else if p.Plain? && q.Plain? {
      SameUnit(p.unit, q.unit, x, y);
    } else if p.Plain? && q.Loose? {
      LooseIsNoUnit(q.lead, p.unit, y, x);
    } else if p.Loose? && q.Plain? {
      LooseIsNoUnit(p.lead, q.unit, x, y);
    }
  }

  /** Two ways to split a body into pieces are the same. */
  lemma {:induction false} SplitUnique(nb: nat, ps: seq<Piece>, qs: seq<Piece>)
    requires AllCorrect(ps) && AllCorrect(qs) && Flows(nb, ps) && Flows(nb, qs) && BodyText(ps) == BodyText(qs)
    ensures ps == qs
    decreases |ps|
  {
    if ps != [] {
      FirstBytes(nb, ps[0]);
    }
    if qs != [] {
      FirstBytes(nb, qs[0]);
    }
    if ps != [] && qs != [] {
      SamePieceFirst(nb, ps, qs);
      var k := |PieceText(ps[0])|;
      assert BodyText(ps)[k..] == BodyText(ps[1..]) && BodyText(qs)[k..] == BodyText(qs[1..]);
      SplitUnique(PendingAfter(nb, ps[0]), ps[1..], qs[1..]);
    }
  }

  lemma SamePieceFirst(nb: nat, ps: seq<Piece>, qs: seq<Piece>)
    requires AllCorrect(ps) && AllCorrect(qs) && Flows(nb, ps) && Flows(nb, qs)
    requires ps != [] && qs != [] && BodyText(ps) == BodyText(qs)
    ensures ps[0] == qs[0]
  {
    if ps[0].Loose? {
      AfterLoose(ps[1..]);
    }
    if qs[0].Loose? {
      AfterLoose(qs[1..]);
    }
    PieceByPrefix(nb, ps[0], qs[0], BodyText(ps[1..]), BodyText(qs[1..]));
  }
}
