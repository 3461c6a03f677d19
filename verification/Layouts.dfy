/**
 * The byte language of the lexer as a whole: an input is read to its end exactly when it is laid
 * out as lexemes with white space around them.
 */
module Layouts {
  import opened Bytes
  import opened Tokens
  import opened Documents
  import opened LexerMachine
  import opened Terminals
  import opened Numbers
  import opened StringReading
  import opened Strings

  /** Punctuation and keywords are their tokens; a number and a string also have a text. */
  datatype Lexeme = Plainly(t: Token) | Num(n: Number) | Str(ps: seq<Piece>)

  /** Lexemes in order, each with the white space before it, and the white space at the end. */
  datatype Layout = Tail(ws: bytes) | Cons(ws: bytes, lx: Lexeme, rest: Layout)

  predicate Blanks(ws: bytes) {
    forall i :: 0 <= i < |ws| ==> White(ws[i])
  }

  predicate Fixed(t: Token) {
    t.OpenCurly? || t.CloseCurly? || t.OpenBracket? || t.CloseBracket? || t.Comma? || t.Colon?
    || t.True? || t.False? || t.Null?
  }

  function FixedText(t: Token): bytes {
    match t
    case OpenCurly => [BEGIN_OBJECT]
    case CloseCurly => [END_OBJECT]
    case OpenBracket => [BEGIN_ARRAY]
    case CloseBracket => [END_ARRAY]
    case Comma => [VALUE_SEPARATOR]
    case Colon => [NAME_SEPARATOR]
    case True => TRUE_WORD
    case False => FALSE_WORD
    case Null => NULL_WORD
    case _ => []
  }

  function LexemeText(lx: Lexeme): bytes {
    match lx
    case Plainly(t) => FixedText(t)
    case Num(n) => NumberText(n)
    case Str(ps) => [QUOTATION_MARK] + BodyText(ps) + [QUOTATION_MARK]
  }

  function Text(y: Layout): bytes {
    match y
    case Tail(ws) => ws
    case Cons(ws, lx, rest) => ws + LexemeText(lx) + Text(rest)
  }

  /** Taken by itself, `lx` can be read. */
  predicate Readable(cfg: Config, lx: Lexeme) {
    match lx
    case Plainly(t) => Fixed(t)
    case Num(n) => SoFar(cfg, n) && !Phase(n).LookupToken?
    case Str(ps) => AllCorrect(ps)
  }

  /**
   * Is `lx` a lexeme when a string before it has left `nb` bytes pending, and the bytes `after`
   * follow it? The one matters to a string, the other to a number.
   */
  predicate Lexes(cfg: Config, nb: nat, lx: Lexeme, after: bytes) {
    && Readable(cfg, lx)
    && (lx.Str? ==> IsBody(nb, lx.ps))
    && (lx.Num? ==> if after == [] then EndsInput(lx.n) else Complete(lx.n) && !Extends(lx.n, after[0]))
  }

  /** The bytes left pending after `lx`. Only strings ask for them, and leave them. */
  function PendingNext(nb: nat, lx: Lexeme): nat {
    if lx.Str? then StringPending(nb, lx.ps) else nb
  }

  predicate AllReadable(cfg: Config, y: Layout) {
    y.Cons? ==> Readable(cfg, y.lx) && AllReadable(cfg, y.rest)
  }

  /** A layout that can be read where `nb` bytes are pending. At the start of an input none are. */
  predicate Valid(cfg: Config, nb: nat, y: Layout)
    decreases y
  {
    && Blanks(y.ws)
    && (y.Cons? ==> Lexes(cfg, nb, y.lx, Text(y.rest)) && Valid(cfg, PendingNext(nb, y.lx), y.rest))
  }

  /** Between tokens, with `nb` bytes pending. */
  predicate Resting(l: Lexer, nb: nat) {
    Idle(l) && l.nb == nb && l.cc == 0 && (nb == 0 || nb == 2)
  }

  lemma {:induction false} ValidIsReadable(cfg: Config, nb: nat, y: Layout)
    requires Valid(cfg, nb, y)
    ensures AllReadable(cfg, y)
    decreases y
  {
    if y.Cons? {
      ValidIsReadable(cfg, PendingNext(nb, y.lx), y.rest);
    }
  }

  function LexemeTokens(cfg: Config, lx: Lexeme): seq<Token>
    requires Readable(cfg, lx)
  {
    match lx
    case Plainly(t) => [t]
    case Num(n) => [NumberToken(cfg, n)]
    case Str(ps) => StringTokens(BodyBytes(ps))
  }

  function LayoutTokens(cfg: Config, y: Layout): seq<Token>
    requires AllReadable(cfg, y)
  {
    if y.Tail? then [] else LexemeTokens(cfg, y.lx) + LayoutTokens(cfg, y.rest)
  }

  // ---- Every layout is read ----

  lemma {:induction false} ScanBlanks(cfg: Config, l: Lexer, ws: bytes)
    requires Idle(l) && Blanks(ws)
    ensures Scan(cfg, l, ws) == Scanned([], Go(l))
    decreases |ws|
  {
    if ws != [] {
      ScanBlanks(cfg, l, ws[1..]);
    }
  }

  function Keyword(t: Token): bytes { if t.True? then KW_TRUE else if t.False? then KW_FALSE else KW_NULL }
  function KeywordMode(t: Token): Mode { if t.True? then InTrue else if t.False? then InFalse else InNull }

  predicate IsKeyword(t: Token) { t.True? || t.False? || t.Null? }

  function InKeyword(l: Lexer, t: Token, k: nat): Lexer {
    if k < |Keyword(t)| then l.(mode := KeywordMode(t), offset := k) else l.(offset := k)
  }

  lemma KeywordStep(cfg: Config, l: Lexer, t: Token, k: nat)
    requires Idle(l) && IsKeyword(t) && 1 <= k < |Keyword(t)|
    ensures Step(cfg, InKeyword(l, t, k), Keyword(t)[k])
            == Scanned(if k + 1 < |Keyword(t)| then [] else [t], Go(InKeyword(l, t, k + 1)))
  {
  }

  lemma TakeOneMore(w: bytes, k: nat)
    requires k < |w|
    ensures w[..k + 1] == w[..k] + [w[k]] && w[..0] == []
  {
  }

  lemma {:induction false} ScanKeyword(cfg: Config, l: Lexer, t: Token, w: bytes, k: nat)
    requires Idle(l) && IsKeyword(t) && w == Keyword(t) && 1 <= k <= |w|
    ensures Scan(cfg, l, w[..k]) == Scanned(if k < |w| then [] else [t], Go(InKeyword(l, t, k)))
    decreases k
  {
    TakeOneMore(w, k - 1);
    if k == 1 {
      ScanOne(cfg, l, w[0]);
      FirstLetter(cfg, l, t);
      assert [] + [w[0]] == [w[0]];
    } else {
      ScanKeyword(cfg, l, t, w, k - 1);
      KeywordStep(cfg, l, t, k - 1);
      ScanSnoc(cfg, l, w[..k - 1], InKeyword(l, t, k - 1), w[k - 1]);
    }
  }

  lemma FirstLetter(cfg: Config, l: Lexer, t: Token)
    requires Idle(l) && IsKeyword(t)
    ensures |Keyword(t)| > 1 && Step(cfg, l, Keyword(t)[0]) == Scanned([], Go(InKeyword(l, t, 1)))
  {
  }

  lemma ScanFixed(cfg: Config, l: Lexer, nb: nat, t: Token) returns (l': Lexer)
    requires Resting(l, nb) && Fixed(t)
    ensures Resting(l', nb) && Scan(cfg, l, FixedText(t)) == Scanned([t], Go(l'))
  {
    if IsKeyword(t) {
      var k := |Keyword(t)|;
      ScanKeyword(cfg, l, t, Keyword(t), k);
      assert Keyword(t)[..k] == FixedText(t);
      l' := InKeyword(l, t, k);
    } else {
      ScanOne(cfg, l, FixedText(t)[0]);
      l' := l;
    }
  }

  lemma ScanString(cfg: Config, l: Lexer, nb: nat, ps: seq<Piece>) returns (l': Lexer)
    requires Resting(l, nb) && IsBody(nb, ps)
    ensures Resting(l', StringPending(nb, ps))
    ensures Scan(cfg, l, [QUOTE] + BodyText(ps) + [QUOTE]) == Scanned(StringTokens(BodyBytes(ps)), Go(l'))
  {
    var q := l.(mode := InString);
    ScanOne(cfg, l, QUOTE);
    var r := ScanBody(cfg, q, nb, ps);
    CloseQuote(cfg, r, EndPending(nb, ps));
    ScanConcat(cfg, l, [QUOTE], BodyText(ps));
    ScanSnoc(cfg, l, [QUOTE] + BodyText(ps), r, QUOTE);
    l' := r.(mode := LookupToken, nb := StringPending(nb, ps));
  }

  /** A number followed by something that ends it, or by nothing. */
  lemma ScanNumberThen(cfg: Config, l: Lexer, n: Number, after: bytes)
    requires cfg.Valid() && Idle(l) && Lexes(cfg, l.nb, Num(n), after) && Good(cfg, l, after)
    ensures ScanAll(cfg, l, NumberText(n) + after)
            == Scanned([NumberToken(cfg, n)] + ScanAll(cfg, l, after).toks, ScanAll(cfg, l, NumberText(n) + after).next)
    ensures Good(cfg, l, NumberText(n) + after)
  {
    ScanNumber(cfg, l, n);
    ScanAllConcat(cfg, l, NumberText(n), after);
    var r := Reading(l, n);
    if after == [] {
      FinishOne(cfg, l, n);
    } else {
      EndOne(cfg, l, n, after[0]);
      FirstByteOfAll(cfg, r, after);
      FirstByteOfAll(cfg, l, after);
      var s := Step(cfg, l, after[0]);
      AfterAfter([NumberToken(cfg, n)], s.toks, ScanAll(cfg, s.next.lexer, after[1..]));
    }
  }

  lemma FirstByteOfAll(cfg: Config, l: Lexer, bs: bytes)
    requires bs != []
    ensures var s := Step(cfg, l, bs[0]);
            ScanAll(cfg, l, bs) == if s.next.Stop? then s else After(s.toks, ScanAll(cfg, s.next.lexer, bs[1..]))
  {
    assert bs == [bs[0]] + bs[1..];
    ScanOne(cfg, l, bs[0]);
    ScanAllConcat(cfg, l, [bs[0]], bs[1..]);
  }

  lemma {:induction false} LayoutIsRead(cfg: Config, l: Lexer, nb: nat, y: Layout)
    requires cfg.Valid() && Resting(l, nb) && Valid(cfg, nb, y)
    ensures AllReadable(cfg, y) && Good(cfg, l, Text(y)) && ScanAll(cfg, l, Text(y)).toks == LayoutTokens(cfg, y)
    decreases y
  {
    ScanBlanks(cfg, l, y.ws);
    match y
    case Tail(ws) =>
    case Cons(ws, lx, rest) =>
      var text, after := LexemeText(lx), Text(rest);
      assert Text(y) == ws + (text + after);
      ScanAllConcat(cfg, l, ws, text + after);
      match lx {
        case Plainly(t) =>
          var l' := ScanFixed(cfg, l, nb, t);
          ScanAllConcat(cfg, l, text, after);
          LayoutIsRead(cfg, l', nb, rest);
        case Num(n) =>
          LayoutIsRead(cfg, l, nb, rest);
          ScanNumberThen(cfg, l, n, after);
        case Str(ps) =>
          var l' := ScanString(cfg, l, nb, ps);
          ScanAllConcat(cfg, l, text, after);
          LayoutIsRead(cfg, l', StringPending(nb, ps), rest);
      }
  }

  // ---- Only layouts are read ----

  lemma GoodStep(cfg: Config, l: Lexer, bs: bytes)
    requires Good(cfg, l, bs) && bs != []
    ensures var s := Step(cfg, l, bs[0]); s.next.Go? && Good(cfg, s.next.lexer, bs[1..])
  {
    FirstByteOfAll(cfg, l, bs);
  }

  lemma {:induction false} TakeKeyword(cfg: Config, l: Lexer, t: Token, bs: bytes, k: nat)
    requires Idle(l) && IsKeyword(t) && 1 <= k <= |Keyword(t)| && k <= |bs|
    requires bs[..k] == Keyword(t)[..k] && Good(cfg, l, bs)
    ensures Keyword(t) <= bs
    decreases |Keyword(t)| - k
  {
    var w := Keyword(t);
    if k < |w| {
      GoodSplit(cfg, l, bs, k);
      ScanKeyword(cfg, l, t, w, k);
      var r := InKeyword(l, t, k);
      KeywordGoesOn(cfg, l, t, k, bs[k..]);
      assert bs[..k + 1] == w[..k + 1];
      TakeKeyword(cfg, l, t, bs, k + 1);
    } else {
      assert w[..k] == w;
    }
  }

  lemma KeywordGoesOn(cfg: Config, l: Lexer, t: Token, k: nat, bs: bytes)
    requires IsKeyword(t) && 1 <= k < |Keyword(t)| && Good(cfg, InKeyword(l, t, k), bs)
    ensures bs != [] && bs[0] == Keyword(t)[k]
  {
    if bs != [] {
      GoodStep(cfg, InKeyword(l, t, k), bs);
    }
  }

  /** Nothing, or a byte that does not continue `n`, comes next: then `n` was complete. */
  lemma NumberStops(cfg: Config, l: Lexer, n: Number, after: bytes)
    requires Idle(l) && SoFar(cfg, n) && !Phase(n).LookupToken? && Good(cfg, Reading(l, n), after)
    requires after == [] || !Extends(n, after[0])
    ensures Lexes(cfg, l.nb, Num(n), after) && Good(cfg, l, after)
  {
    if after == [] {
      FinishOne(cfg, l, n);
    } else {
      GoodStep(cfg, Reading(l, n), after);
      EndOne(cfg, l, n, after[0]);
      FirstByteOfAll(cfg, l, after);
    }
  }

  lemma NumberGoesOn(cfg: Config, l: Lexer, n: Number, after: bytes)
    requires cfg.Valid() && Idle(l) && SoFar(cfg, n) && Good(cfg, Reading(l, n), after)
    requires after != [] && Extends(n, after[0])
    ensures SoFar(cfg, Append(n, after[0]))
  {
    GoodStep(cfg, Reading(l, n), after);
    ReadOne(cfg, l, n, after[0]);
  }

  /** One more byte of the number that `bs` begins with. */
  lemma NumberGrows(cfg: Config, l: Lexer, bs: bytes, n: Number)
    requires cfg.Valid() && Idle(l) && SoFar(cfg, n) && NumberText(n) < bs
    requires Good(cfg, Reading(l, n), bs[|NumberText(n)|..]) && Extends(n, bs[|NumberText(n)|])
    ensures var m := Append(n, bs[|NumberText(n)|]);
            SoFar(cfg, m) && NumberText(m) <= bs && |NumberText(m)| == |NumberText(n)| + 1
  {
    var k := |NumberText(n)|;
    NumberGoesOn(cfg, l, n, bs[k..]);
    AppendText(n, bs[k]);
    PrefixGrows(NumberText(n), bs);
  }

  lemma PrefixGrows(a: bytes, bs: bytes)
    requires a < bs
    ensures a + [bs[|a|]] <= bs
  {
  }

  /** The number that `bs` begins with, of which the text of `n` has been read. */
  lemma {:induction false} TakeNumber(cfg: Config, l: Lexer, bs: bytes, n: Number) returns (m: Number)
    requires cfg.Valid() && Idle(l) && SoFar(cfg, n) && NumberText(n) != []
    requires Good(cfg, l, bs) && NumberText(n) <= bs
    ensures NumberText(m) <= bs && NumberText(m) != []
    ensures Lexes(cfg, l.nb, Num(m), bs[|NumberText(m)|..]) && Good(cfg, l, bs[|NumberText(m)|..])
    decreases |bs| - |NumberText(n)|
  {
    var k := |NumberText(n)|;
    GoodPrefix(cfg, l, NumberText(n), bs);
    ScanNumber(cfg, l, n);
    if k < |bs| && Extends(n, bs[k]) {
      NumberGrows(cfg, l, bs, n);
      m := TakeNumber(cfg, l, bs, Append(n, bs[k]));
    } else {
      TextOfSomething(n);
      NumberStops(cfg, l, n, bs[k..]);
      m := n;
    }
  }

  lemma ConsText(lx: Lexeme, rest: Layout, bs: bytes)
    requires LexemeText(lx) <= bs && Text(rest) == bs[|LexemeText(lx)|..]
    ensures Text(Cons([], lx, rest)) == bs
  {
  }

  /** `lx` begins `bs`, and the rest of `bs` is read from `l'`. */
  predicate Taken(cfg: Config, nb: nat, bs: bytes, lx: Lexeme, l': Lexer) {
    && LexemeText(lx) != [] && LexemeText(lx) <= bs
    && Lexes(cfg, nb, lx, bs[|LexemeText(lx)|..])
    && Resting(l', PendingNext(nb, lx)) && Good(cfg, l', bs[|LexemeText(lx)|..])
  }

  lemma TakeString(cfg: Config, l: Lexer, nb: nat, bs: bytes) returns (lx: Lexeme, l': Lexer)
    requires Resting(l, nb) && Good(cfg, l, bs) && bs != [] && bs[0] == QUOTE
    ensures Taken(cfg, nb, bs, lx, l')
  {
    GoodStep(cfg, l, bs);
    var ps := TakeBody(cfg, l.(mode := InString), nb, bs[1..]);
    lx := Str(ps);
    assert bs == [QUOTE] + bs[1..];
    assert LexemeText(lx) == [QUOTE] + (BodyText(ps) + [QUOTE]);
    l' := ScanString(cfg, l, nb, ps);
    GoodPrefix(cfg, l, LexemeText(lx), bs);
  }

  lemma TakeWord(cfg: Config, l: Lexer, nb: nat, bs: bytes, t: Token) returns (lx: Lexeme, l': Lexer)
    requires Resting(l, nb) && Good(cfg, l, bs) && IsKeyword(t) && bs != [] && bs[0] == Keyword(t)[0]
    ensures Taken(cfg, nb, bs, lx, l')
  {
    assert bs[..1] == Keyword(t)[..1];
    TakeKeyword(cfg, l, t, bs, 1);
    lx := Plainly(t);
    l' := TakenWord(cfg, l, nb, bs, t);
  }

  lemma TakenWord(cfg: Config, l: Lexer, nb: nat, bs: bytes, t: Token) returns (l': Lexer)
    requires Resting(l, nb) && Good(cfg, l, bs) && IsKeyword(t) && FixedText(t) <= bs
    ensures Taken(cfg, nb, bs, Plainly(t), l')
  {
    l' := ScanFixed(cfg, l, nb, t);
    GoodPrefix(cfg, l, FixedText(t), bs);
  }

  lemma FirstFigure(cfg: Config, l: Lexer, b: byte)
    requires Idle(l) && (Digit(b) || b == MINUS)
    ensures Reading(l, NO_NUMBER) == l && Extends(NO_NUMBER, b) && NumberText(NO_NUMBER) == []
    ensures SoFar(cfg, NO_NUMBER)
    ensures NumberText(Append(NO_NUMBER, b)) == [b]
  {
    AppendText(NO_NUMBER, b);
  }

  lemma TakeFigure(cfg: Config, l: Lexer, nb: nat, bs: bytes) returns (lx: Lexeme)
    requires cfg.Valid() && Resting(l, nb) && Good(cfg, l, bs) && bs != [] && (Digit(bs[0]) || bs[0] == MINUS)
    ensures Taken(cfg, nb, bs, lx, l)
  {
    FirstFigure(cfg, l, bs[0]);
    NumberGoesOn(cfg, l, NO_NUMBER, bs);
    var m := TakeNumber(cfg, l, bs, Append(NO_NUMBER, bs[0]));
    lx := Num(m);
  }

  /** What the first byte of a lexeme announces. */
  lemma TakeLexeme(cfg: Config, l: Lexer, nb: nat, bs: bytes) returns (lx: Lexeme, l': Lexer)
    requires cfg.Valid() && Resting(l, nb) && Good(cfg, l, bs)
    requires bs != [] && !Blank(bs[0])
    ensures Taken(cfg, nb, bs, lx, l')
  {
    GoodStep(cfg, l, bs);
    var b := bs[0];
    if Punctuation(b) != [] {
      lx, l' := Plainly(Punctuation(b)[0]), l;
    } else if b == QUOTE {
      lx, l' := TakeString(cfg, l, nb, bs);
    } else if b == KW_TRUE[0] || b == KW_FALSE[0] || b == KW_NULL[0] {
      lx, l' := TakeWord(cfg, l, nb, bs, if b == KW_TRUE[0] then True else if b == KW_FALSE[0] then False else Null);
    } else {
      lx := TakeFigure(cfg, l, nb, bs);
      l' := l;
    }
  }

  lemma MoreBlanks(cfg: Config, nb: nat, b: byte, z: Layout)
    requires Blank(b) && Valid(cfg, nb, z)
    ensures Valid(cfg, nb, z.(ws := [b] + z.ws)) && Text(z.(ws := [b] + z.ws)) == [b] + Text(z)
  {
  }

  lemma {:induction false} TakeLayout(cfg: Config, l: Lexer, nb: nat, bs: bytes) returns (y: Layout)
    requires cfg.Valid() && Resting(l, nb) && Good(cfg, l, bs)
    ensures Valid(cfg, nb, y) && Text(y) == bs
    decreases |bs|
  {
    if bs == [] {
      y := Tail([]);
    } else if Blank(bs[0]) {
      GoodStep(cfg, l, bs);
      var z := TakeLayout(cfg, l, nb, bs[1..]);
      y := z.(ws := [bs[0]] + z.ws);
      MoreBlanks(cfg, nb, bs[0], z);
    } else {
      var lx, l' := TakeLexeme(cfg, l, nb, bs);
      var rest := TakeLayout(cfg, l', PendingNext(nb, lx), bs[|LexemeText(lx)|..]);
      y := Cons([], lx, rest);
      ConsText(lx, rest, bs);
    }
  }

  /**
   * The byte language of the lexer, for all bytes: an input, read from between two tokens to its
   * end, meets no error exactly when it is the text of a layout for the number of bytes pending,
   * and then its tokens are those of the layout.
   */
  lemma LexerLanguage(cfg: Config, l: Lexer, nb: nat, bs: bytes)
    requires cfg.Valid() && Resting(l, nb)
    ensures Good(cfg, l, bs) <==> exists y :: Valid(cfg, nb, y) && Text(y) == bs
    ensures forall y | Valid(cfg, nb, y) && Text(y) == bs ::
              AllReadable(cfg, y) && ScanAll(cfg, l, bs).toks == LayoutTokens(cfg, y)
  {
    if Good(cfg, l, bs) {
      var y := TakeLayout(cfg, l, nb, bs);
    }
    forall y | Valid(cfg, nb, y) && Text(y) == bs
      ensures AllReadable(cfg, y) && Good(cfg, l, bs) && ScanAll(cfg, l, bs).toks == LayoutTokens(cfg, y)
    {
      LayoutIsRead(cfg, l, nb, y);
    }
  }

  /** Tokens of one byte: a byte is such a token exactly as the grammar has it. */
  lemma StructuralTokens(b: byte, t: Token)
    ensures Punctuation(b) == [t] <==> Fixed(t) && !IsKeyword(t) && FixedText(t) == [b]
    ensures Punctuation(b) != [] <==> Structural(b)
  {
  }

  /**
   * Words: of what is read to its end the first token is a word if and only if the word stands
   * there, letter by letter.
   */
  lemma WordsAreSpelled(cfg: Config, l: Lexer, nb: nat, bs: bytes, t: Token)
    requires cfg.Valid() && Resting(l, nb) && Good(cfg, l, bs) && bs != [] && !White(bs[0]) && IsKeyword(t)
    ensures ScanAll(cfg, l, bs).toks != []
    ensures ScanAll(cfg, l, bs).toks[0] == t <==> FixedText(t) <= bs
  {
    var y := TakeLayout(cfg, l, nb, bs);
    LayoutIsRead(cfg, l, nb, y);
    FirstIsWord(cfg, y, bs, t);
  }

  lemma FirstIsWord(cfg: Config, y: Layout, bs: bytes, t: Token)
    requires AllReadable(cfg, y) && Blanks(y.ws) && Text(y) == bs && bs != [] && !White(bs[0]) && IsKeyword(t)
    ensures LayoutTokens(cfg, y) != [] && (LayoutTokens(cfg, y)[0] == t <==> FixedText(t) <= bs)
  {
    BeginsAtOnce(y, bs);
    LexemeWord(cfg, y.lx, t);
    WordInFront(LexemeText(y.lx), Text(y.rest), FixedText(t), bs);
  }

  lemma BeginsAtOnce(y: Layout, bs: bytes)
    requires Text(y) == bs && bs != [] && !White(bs[0]) && Blanks(y.ws)
    ensures y.Cons? && bs == LexemeText(y.lx) + Text(y.rest)
  {
    var rest := if y.Cons? then LexemeText(y.lx) + Text(y.rest) else [];
    assert bs == y.ws + rest;
    WhiteFirst(y.ws, rest);
  }

  lemma WhiteFirst(ws: bytes, x: bytes)
    requires Blanks(ws)
    ensures ws != [] ==> White((ws + x)[0])
  {
  }

  lemma WordInFront(text: bytes, rest: bytes, w: bytes, bs: bytes)
    requires bs == text + rest && text != [] && w != []
    ensures w <= bs ==> text[0] == w[0]
    ensures text == w ==> w <= bs
  {
  }

  /** A lexeme begins with the letter of a word only if it is that word. */
  lemma LexemeWord(cfg: Config, lx: Lexeme, t: Token)
    requires Readable(cfg, lx) && IsKeyword(t)
    ensures LexemeText(lx) != [] && LexemeTokens(cfg, lx) != []
    ensures LexemeText(lx)[0] == FixedText(t)[0] <==> lx == Plainly(t)
    ensures LexemeTokens(cfg, lx)[0] == t <==> lx == Plainly(t)
  {
    if lx.Num? {
      TextOfSomething(lx.n);
      NumberBegins(cfg, lx.n);
    }
  }

  lemma NumberBegins(cfg: Config, n: Number)
    requires SoFar(cfg, n) && NumberText(n) != []
    ensures NumberText(n)[0] == MINUS_SIGN || DecimalDigit(NumberText(n)[0])
  {
    if !n.minus && n.whole != [] {
      assert NumberText(n)[0] == n.whole[0];
    }
  }

  // ---- Lawful layouts ----

  /** `lx` is in the grammar of JSON and within the limits, seen by itself. */
  predicate LawfulLexeme(cfg: Config, lx: Lexeme) {
    match lx
    case Plainly(t) => Fixed(t)
    case Num(n) => Grammar(n) && Limits(cfg, n)
    case Str(ps) => AllCorrect(ps) && Orderly(ps)
  }

  predicate Lawful(cfg: Config, y: Layout) {
    Blanks(y.ws) && (y.Cons? ==> LawfulLexeme(cfg, y.lx) && Lawful(cfg, y.rest))
  }

  predicate NumberTok(t: Token) { t.Int? || t.Double? }

  /** No number is followed directly by a number. */
  predicate Apart(ts: seq<Token>) {
    forall i :: 0 <= i < |ts| - 1 && NumberTok(ts[i]) ==> !NumberTok(ts[i + 1])
  }

  lemma LawfulLexemeReadable(cfg: Config, lx: Lexeme)
    requires LawfulLexeme(cfg, lx)
    ensures Readable(cfg, lx) && (lx.Num? ==> Complete(lx.n))
    ensures (lx.Str? ==> IsBody(0, lx.ps)) && PendingNext(0, lx) == 0
  {
    if lx.Num? {
      CompleteIsGrammar(cfg, lx.n);
    } else if lx.Str? {
      OrderlyIsBody(lx.ps);
    }
  }

  lemma {:induction false} LawfulIsReadable(cfg: Config, y: Layout)
    requires Lawful(cfg, y)
    ensures AllReadable(cfg, y)
    decreases y
  {
    if y.Cons? {
      LawfulLexemeReadable(cfg, y.lx);
      LawfulIsReadable(cfg, y.rest);
    }
  }

  /** What begins with neither a number nor white space of its own does not continue a number. */
  lemma NotContinued(cfg: Config, n: Number, y: Layout)
    requires Lawful(cfg, y) && !Phase(n).LookupToken? && n.whole != [] && Text(y) != []
    requires y.Cons? ==> !y.lx.Num?
    ensures !Extends(n, Text(y)[0]) || Phase(n).InNumberExpSign?
  {
    if y.ws != [] {
      assert Text(y)[0] == y.ws[0];
    } else if y.Cons? {
      assert LexemeText(y.lx) != [];
      assert Text(y)[0] == LexemeText(y.lx)[0];
    }
  }

  lemma ApartParts(ts: seq<Token>, us: seq<Token>)
    requires Apart(ts + us)
    ensures Apart(us)
    ensures |ts| == 1 && us != [] && NumberTok(ts[0]) ==> !NumberTok(us[0])
  {
    var all := ts + us;
    forall i | 0 <= i < |us| - 1 && NumberTok(us[i])
      ensures !NumberTok(us[i + 1])
    {
      assert all[|ts| + i] == us[i] && all[|ts| + i + 1] == us[i + 1];
    }
    if |ts| == 1 && us != [] {
      assert all[0] == ts[0] && all[1] == us[0];
    }
  }

  /** In a lawful layout without neighbouring numbers every lexeme ends where it should. */
  lemma {:induction false} LawfulIsValid(cfg: Config, y: Layout)
    requires Lawful(cfg, y) && AllReadable(cfg, y) && Apart(LayoutTokens(cfg, y))
    ensures Valid(cfg, 0, y)
    decreases y
  {
    if y.Cons? {
      var ts, us := LexemeTokens(cfg, y.lx), LayoutTokens(cfg, y.rest);
      LawfulLexemeReadable(cfg, y.lx);
      ApartParts(ts, us);
      LawfulIsValid(cfg, y.rest);
      if y.lx.Num? && Text(y.rest) != [] {
        assert y.rest.Cons? && y.rest.lx.Num? ==> NumberTok(us[0]);
        NotContinued(cfg, y.lx.n, y.rest);
      }
    }
  }
}
