/**
 * Whole documents as a printer writes them, down to the last byte: the text is told in the byte
 * values of RFC 8259 alone, and what comes back from the parser is the value that was printed.
 */
module JsonText {
  import opened Bytes
  import opened Tokens
  import opened Documents
  import opened Pushdown
  import opened Language
  import opened Numbers
  import opened PrintedNumbers
  import opened PrintedStrings
  import opened Strings
  import opened Layouts
  import opened System
  import opened ByteLanguage

  /** A value, and how it is to be written: the white space before each lexeme, and all spellings. */
  datatype Doc =
    | NullDoc(ws: bytes)
    | BoolDoc(ws: bytes, b: bool)
    | IntDoc(ws: bytes, i: int)
    | RealDoc(ws: bytes, x: Decimally)
    | StringDoc(ws: bytes, parts: seq<Part>)
    | ArrayDoc(ws: bytes, elements: Elements, end: bytes)
    | ObjectDoc(ws: bytes, pairs: Pairs, end: bytes)

  datatype Elements = NoElements | Elements(init: Elements, comma: bytes, last: Doc)

  datatype Pairs =
    | NoPairs
    | Pairs(init: Pairs, comma: bytes, before: bytes, key: seq<Part>, colon: bytes, value: Doc)

  // ---- What is meant ----

  /** Strings can be printed, and a number that is no integer can be written as such. */
  predicate Printed(d: Doc) {
    match d
    case RealDoc(_, x) => Proper(x)
    case StringDoc(_, parts) => AllPrintable(parts)
    case ArrayDoc(_, es, _) => PrintedElements(es)
    case ObjectDoc(_, ps, _) => PrintedPairs(ps)
    case _ => true
  }

  predicate PrintedElements(es: Elements) {
    es.Elements? ==> PrintedElements(es.init) && Printed(es.last)
  }

  predicate PrintedPairs(ps: Pairs) {
    ps.Pairs? ==> PrintedPairs(ps.init) && AllPrintable(ps.key) && Printed(ps.value)
  }

  function ValueOf(d: Doc): Value
    requires Printed(d)
  {
    match d
    case NullDoc(_) => NullValue
    case BoolDoc(_, b) => BoolValue(b)
    case IntDoc(_, i) => IntValue(i)
    case RealDoc(_, x) => RealValue(Worth(x))
    case StringDoc(_, parts) => StringValue(AllMeant(parts))
    case ArrayDoc(_, es, _) => ArrayValue(ItemsOf(es))
    case ObjectDoc(_, ps, _) => ObjectValue(MembersOf(ps))
  }

  function ItemsOf(es: Elements): Items
    requires PrintedElements(es)
  {
    if es.NoElements? then NoItems else Items(ItemsOf(es.init), ValueOf(es.last))
  }

  function MembersOf(ps: Pairs): Members
    requires PrintedPairs(ps)
  {
    if ps.NoPairs? then NoMembers else Members(MembersOf(ps.init), AllMeant(ps.key), ValueOf(ps.value))
  }

  // ---- What is written ----

  function StringJson(parts: seq<Part>): bytes
    requires AllPrintable(parts)
  {
    [0x22] + PrintAll(parts) + [0x22]
  }

  function Json(d: Doc): bytes
    requires Printed(d)
  {
    match d
    case NullDoc(ws) => ws + [0x6E, 0x75, 0x6C, 0x6C]
    case BoolDoc(ws, b) => ws + if b then [0x74, 0x72, 0x75, 0x65] else [0x66, 0x61, 0x6C, 0x73, 0x65]
    case IntDoc(ws, i) => ws + ShownInt(i)
    case RealDoc(ws, x) => ws + ShownDecimal(x)
    case StringDoc(ws, parts) => ws + StringJson(parts)
    case ArrayDoc(ws, es, end) => ws + [0x5B] + ElementsJson(es) + (end + [0x5D])
    case ObjectDoc(ws, ps, end) => ws + [0x7B] + PairsJson(ps) + (end + [0x7D])
  }

  function ElementsJson(es: Elements): bytes
    requires PrintedElements(es)
  {
    if es.NoElements? then []
    else ElementsJson(es.init) + (if es.init.NoElements? then [] else es.comma + [0x2C]) + Json(es.last)
  }

  function PairsJson(ps: Pairs): bytes
    requires PrintedPairs(ps)
  {
    if ps.NoPairs? then []
    else
      PairsJson(ps.init) + (if ps.init.NoPairs? then [] else ps.comma + [0x2C])
      + (ps.before + StringJson(ps.key)) + (ps.colon + [0x3A]) + Json(ps.value)
  }

  // ---- What the parser can hold ----

  /** The white space is white, and every number is one the registers hold. */
  predicate Fits(cfg: Config, d: Doc)
  {
    && Blanks(d.ws)
    && match d
       case IntDoc(_, i) => Admitted(cfg, Magnitude(i))
       case RealDoc(_, x) =>
         x.places <= 323 && Admitted(cfg, x.whole) && -323 <= Exp(x) <= 308 && x.frac < 0x1_0000_0000_0000_0000
       case ArrayDoc(_, es, end) => Blanks(end) && ElementsFit(cfg, es)
       case ObjectDoc(_, ps, end) => Blanks(end) && PairsFit(cfg, ps)
       case _ => true
  }

  predicate ElementsFit(cfg: Config, es: Elements) {
    es.Elements? ==> Blanks(es.comma) && ElementsFit(cfg, es.init) && Fits(cfg, es.last)
  }

  predicate PairsFit(cfg: Config, ps: Pairs) {
    ps.Pairs? ==>
      && Blanks(ps.comma) && Blanks(ps.before) && Blanks(ps.colon)
      && PairsFit(cfg, ps.init) && Fits(cfg, ps.value)
  }

  // ---- The text as a layout ----

  datatype Placed = Placed(ws: bytes, lx: Lexeme)

  function Laid(ls: seq<Placed>, tail: bytes): Layout {
    if ls == [] then Layout.Tail(tail) else Cons(ls[0].ws, ls[0].lx, Laid(ls[1..], tail))
  }

  function PlacedText(ls: seq<Placed>): bytes {
    if ls == [] then [] else ls[0].ws + LexemeText(ls[0].lx) + PlacedText(ls[1..])
  }

  predicate AllLawful(cfg: Config, ls: seq<Placed>) {
    forall i :: 0 <= i < |ls| ==> Blanks(ls[i].ws) && LawfulLexeme(cfg, ls[i].lx) && Readable(cfg, ls[i].lx)
  }

  function TokensAt(cfg: Config, p: Placed): seq<Token> {
    if Readable(cfg, p.lx) then LexemeTokens(cfg, p.lx) else []
  }

  function PlacedTokens(cfg: Config, ls: seq<Placed>): seq<Token> {
    if ls == [] then [] else TokensAt(cfg, ls[0]) + PlacedTokens(cfg, ls[1..])
  }

  lemma {:induction false} LaidOut(cfg: Config, ls: seq<Placed>, tail: bytes)
    requires AllLawful(cfg, ls) && Blanks(tail)
    ensures var y := Laid(ls, tail);
            && Lawful(cfg, y) && AllReadable(cfg, y)
            && Text(y) == PlacedText(ls) + tail && LayoutTokens(cfg, y) == PlacedTokens(cfg, ls)
    decreases |ls|
  {
    if ls != [] {
      LaidOut(cfg, ls[1..], tail);
    }
  }

  lemma {:induction false} PlacedTextConcat(a: seq<Placed>, b: seq<Placed>)
    ensures PlacedText(a + b) == PlacedText(a) + PlacedText(b)
    decreases |a|
  {
    if a == [] {
      assert a + b == b;
    } else {
      assert (a + b)[1..] == a[1..] + b;
      PlacedTextConcat(a[1..], b);
    }
  }

  lemma {:induction false} PlacedTokensConcat(cfg: Config, a: seq<Placed>, b: seq<Placed>)
    ensures PlacedTokens(cfg, a + b) == PlacedTokens(cfg, a) + PlacedTokens(cfg, b)
    decreases |a|
  {
    if a == [] {
      assert a + b == b;
    } else {
      assert (a + b)[1..] == a[1..] + b;
      PlacedTokensConcat(cfg, a[1..], b);
    }
  }

  /** `ls` is a lawful way to place the tokens `ts` as the bytes `text`. */
  ghost predicate Places(cfg: Config, ls: seq<Placed>, text: bytes, ts: seq<Token>) {
    AllLawful(cfg, ls) && PlacedText(ls) == text && PlacedTokens(cfg, ls) == ts
  }

  lemma PlacesOn(
      cfg: Config, a: seq<Placed>, x: bytes, ts: seq<Token>, b: seq<Placed>, y: bytes, us: seq<Token>)
    requires Places(cfg, a, x, ts) && Places(cfg, b, y, us)
    ensures Places(cfg, a + b, x + y, ts + us)
  {
    PlacedTextConcat(a, b);
    PlacedTokensConcat(cfg, a, b);
  }

  lemma PlacesOne(cfg: Config, ws: bytes, lx: Lexeme)
    requires Blanks(ws) && LawfulLexeme(cfg, lx)
    ensures Readable(cfg, lx) && Places(cfg, [Placed(ws, lx)], ws + LexemeText(lx), LexemeTokens(cfg, lx))
  {
    LawfulLexemeReadable(cfg, lx);
    var ls := [Placed(ws, lx)];
    assert ls[1..] == [];
    assert ws + LexemeText(lx) + [] == ws + LexemeText(lx);
    assert LexemeTokens(cfg, lx) + [] == LexemeTokens(cfg, lx);
  }

  // ---- Each document has its layout ----

  lemma PlaceInt(cfg: Config, ws: bytes, i: int) returns (ls: seq<Placed>)
    requires Blanks(ws) && Admitted(cfg, Magnitude(i))
    ensures Places(cfg, ls, ws + ShownInt(i), [Int(i)])
  {
    IntNumberSays(cfg, i);
    PlacesOne(cfg, ws, Num(IntNumber(i)));
    ls := [Placed(ws, Num(IntNumber(i)))];
  }

  lemma PlaceReal(cfg: Config, ws: bytes, x: Decimally) returns (ls: seq<Placed>)
    requires Blanks(ws) && Proper(x) && Fits(cfg, RealDoc(ws, x))
    ensures Places(cfg, ls, ws + ShownDecimal(x), [Double(Worth(x))])
  {
    var n := DecimalNumber(x);
    DecimalGrammar(x);
    DecimalLimits(cfg, x);
    DecimalToken(cfg, x);
    PlacesOne(cfg, ws, Num(n));
    ls := [Placed(ws, Num(n))];
  }

  lemma PlaceString(cfg: Config, ws: bytes, parts: seq<Part>) returns (ls: seq<Placed>)
    requires Blanks(ws) && AllPrintable(parts)
    ensures Places(cfg, ls, ws + StringJson(parts), StringTokens(AllMeant(parts)))
  {
    DecodeUndoesPrint(parts);
    PlacesOne(cfg, ws, Str(PiecesOf(parts)));
    ls := [Placed(ws, Str(PiecesOf(parts)))];
  }

  lemma PlaceFixed(cfg: Config, ws: bytes, t: Token) returns (ls: seq<Placed>)
    requires Blanks(ws) && Fixed(t)
    ensures Places(cfg, ls, ws + FixedText(t), [t])
  {
    PlacesOne(cfg, ws, Plainly(t));
    ls := [Placed(ws, Plainly(t))];
  }

  lemma {:induction false} PlaceDoc(cfg: Config, d: Doc) returns (ls: seq<Placed>)
    requires Printed(d) && Fits(cfg, d)
    ensures Places(cfg, ls, Json(d), TokensOf(Drawn, ValueOf(d)))
    decreases d
  {
    match d
    case NullDoc(ws) => ls := PlaceFixed(cfg, ws, Null);
    case BoolDoc(ws, b) => ls := PlaceFixed(cfg, ws, if b then True else False);
    case IntDoc(ws, i) => ls := PlaceInt(cfg, ws, i);
    case RealDoc(ws, x) => ls := PlaceReal(cfg, ws, x);
    case StringDoc(ws, parts) => ls := PlaceString(cfg, ws, parts);
    case ArrayDoc(ws, es, end) =>
      var body := PlaceElements(cfg, es);
      ls := PlaceBracketed(cfg, ws, OpenBracket, body, ElementsJson(es), ItemTokens(Drawn, ItemsOf(es)), end,
                           CloseBracket);
    case ObjectDoc(ws, ps, end) =>
      var body := PlacePairs(cfg, ps);
      ls := PlaceBracketed(cfg, ws, OpenCurly, body, PairsJson(ps), MemberTokens(Drawn, MembersOf(ps)), end,
                           CloseCurly);
  }

  lemma PlaceBracketed(
      cfg: Config, ws: bytes, o: Token, body: seq<Placed>, text: bytes, ts: seq<Token>, end: bytes, c: Token)
    returns (ls: seq<Placed>)
    requires Blanks(ws) && Blanks(end) && Fixed(o) && Fixed(c) && Places(cfg, body, text, ts)
    ensures Places(cfg, ls, ws + FixedText(o) + text + (end + FixedText(c)), [o] + ts + [c])
  {
    var a := PlaceFixed(cfg, ws, o);
    var z := PlaceFixed(cfg, end, c);
    PlacesOn(cfg, a, ws + FixedText(o), [o], body, text, ts);
    PlacesOn(cfg, a + body, ws + FixedText(o) + text, [o] + ts, z, end + FixedText(c), [c]);
    ls := a + body + z;
  }

  lemma PlaceComma(cfg: Config, ws: bytes, first: bool) returns (ls: seq<Placed>)
    requires Blanks(ws)
    ensures Places(cfg, ls, if first then [] else ws + [0x2C], if first then [] else [Comma])
  {
    if first {
      ls := [];
    } else {
      ls := PlaceFixed(cfg, ws, Comma);
    }
  }

  lemma {:induction false} PlaceElements(cfg: Config, es: Elements) returns (ls: seq<Placed>)
    requires PrintedElements(es) && ElementsFit(cfg, es)
    ensures Places(cfg, ls, ElementsJson(es), ItemTokens(Drawn, ItemsOf(es)))
    decreases es
  {
    ls := [];
    if es.Elements? {
      var items := ItemsOf(es.init);
      var a := PlaceElements(cfg, es.init);
      var c := PlaceComma(cfg, es.comma, es.init.NoElements?);
      var z := PlaceDoc(cfg, es.last);
      var sep := if es.init.NoElements? then [] else es.comma + [0x2C];
      PlacesOn(cfg, a, ElementsJson(es.init), ItemTokens(Drawn, items), c, sep, ItemSeparator(items));
      PlacesOn(cfg, a + c, ElementsJson(es.init) + sep, ItemTokens(Drawn, items) + ItemSeparator(items),
               z, Json(es.last), TokensOf(Drawn, ValueOf(es.last)));
      ls := a + c + z;
    }
  }

  lemma PlaceKey(cfg: Config, before: bytes, key: seq<Part>, colon: bytes) returns (ls: seq<Placed>)
    requires Blanks(before) && Blanks(colon) && AllPrintable(key)
    ensures Places(cfg, ls, before + StringJson(key) + (colon + [0x3A]), StringTokens(AllMeant(key)) + [Colon])
  {
    var a := PlaceString(cfg, before, key);
    var b := PlaceFixed(cfg, colon, Colon);
    PlacesOn(cfg, a, before + StringJson(key), StringTokens(AllMeant(key)), b, colon + [0x3A], [Colon]);
    ls := a + b;
  }

  lemma {:induction false} PlacePairs(cfg: Config, ps: Pairs) returns (ls: seq<Placed>)
    requires PrintedPairs(ps) && PairsFit(cfg, ps)
    ensures Places(cfg, ls, PairsJson(ps), MemberTokens(Drawn, MembersOf(ps)))
    decreases ps
  {
    ls := [];
    if ps.Pairs? {
      var a := PlacePairs(cfg, ps.init);
      var z := PlaceDoc(cfg, ps.value);
      ls := PlaceMember(cfg, ps, a, z);
    }
  }

  lemma PlaceMember(cfg: Config, ps: Pairs, a: seq<Placed>, z: seq<Placed>) returns (ls: seq<Placed>)
    requires ps.Pairs? && PrintedPairs(ps) && PairsFit(cfg, ps)
    requires Places(cfg, a, PairsJson(ps.init), MemberTokens(Drawn, MembersOf(ps.init)))
    requires Places(cfg, z, Json(ps.value), TokensOf(Drawn, ValueOf(ps.value)))
    ensures Places(cfg, ls, PairsJson(ps), MemberTokens(Drawn, MembersOf(ps)))
  {
    var ms := MembersOf(ps.init);
    var sep := if ps.init.NoPairs? then [] else ps.comma + [0x2C];
    var key, tok := ps.before + StringJson(ps.key) + (ps.colon + [0x3A]), StringTokens(AllMeant(ps.key)) + [Colon];
    var c := PlaceComma(cfg, ps.comma, ps.init.NoPairs?);
    var k := PlaceKey(cfg, ps.before, ps.key, ps.colon);
    PlacesOn(cfg, a, PairsJson(ps.init), MemberTokens(Drawn, ms), c, sep, Separator(Drawn, ms));
    PlacesOn(cfg, a + c, PairsJson(ps.init) + sep, MemberTokens(Drawn, ms) + Separator(Drawn, ms), k, key, tok);
    PlacesOn(cfg, a + c + k, PairsJson(ps.init) + sep + key, MemberTokens(Drawn, ms) + Separator(Drawn, ms) + tok,
             z, Json(ps.value), TokensOf(Drawn, ValueOf(ps.value)));
    ls := a + c + k + z;
    Regrouped(PairsJson(ps.init) + sep, ps.before + StringJson(ps.key), ps.colon + [0x3A]);
    Regroup3(MemberTokens(Drawn, ms) + Separator(Drawn, ms), StringTokens(AllMeant(ps.key)), [Colon]);
  }

  lemma Regrouped(a: bytes, b: bytes, c: bytes)
    ensures a + (b + c) == a + b + c
  {
  }

  /**
   * The round trip, in bytes. A printed document, with any white space and any spelling of its
   * strings and numbers, pushed in any pieces, is accepted exactly when no empty array is a member
   * other than the last and it is not too deep; the callbacks are the traversal of the value that
   * was printed, and a consumer gets that value back.
   */
  lemma PrintedDocumentComesBack(cfg: Config, d: Doc, tail: bytes, chunks: seq<bytes>)
    requires cfg.Valid() && Printed(d) && Fits(cfg, d) && Blanks(tail)
    requires Concatenated(chunks) == Json(d) + tail
    ensures var v, o := ValueOf(d), Run(cfg, chunks);
            && (Depth(v) <= cfg.Limit() ==> (o.end.Running? <==> Regular(v)))
            && (Regular(v) && Depth(v) > cfg.Limit() ==> o.end == Error(StackOverflow))
            && (Regular(v) && Depth(v) <= cfg.Limit() ==>
                  o.events == Traversal(v) && AbsorbAll(NOTHING, o.events) == Builder(Whole(v), None))
  {
    var v := ValueOf(d);
    var ls := PlaceDoc(cfg, d);
    LaidOut(cfg, ls, tail);
    StandardDocuments(cfg, Laid(ls, tail), v, chunks);
    TraversalRebuilds(Empty, v);
  }

  /** A document of one lexeme, with nothing around it. */
  lemma OneLexeme(cfg: Config, d: Doc, bs: bytes)
    requires cfg.Valid() && Printed(d) && Fits(cfg, d) && Json(d) == bs
    requires Depth(ValueOf(d)) == 0 && Regular(ValueOf(d))
    ensures Accepted(cfg, bs) && Run(cfg, [bs]).events == Traversal(ValueOf(d))
  {
    assert bs + [] == bs;
    OneConcatenated(bs);
    PrintedDocumentComesBack(cfg, d, [], [bs]);
  }

  /** The words, letter by letter, as documents. */
  lemma WordDocuments(cfg: Config)
    requires cfg.Valid()
    ensures var bs := [0x74, 0x72, 0x75, 0x65];
            Accepted(cfg, bs) && Run(cfg, [bs]).events == [BoolEvent(true)]
    ensures var bs := [0x66, 0x61, 0x6C, 0x73, 0x65];
            Accepted(cfg, bs) && Run(cfg, [bs]).events == [BoolEvent(false)]
    ensures var bs := [0x6E, 0x75, 0x6C, 0x6C];
            Accepted(cfg, bs) && Run(cfg, [bs]).events == [NullEvent]
  {
    NothingBefore([0x74, 0x72, 0x75, 0x65]);
    NothingBefore([0x66, 0x61, 0x6C, 0x73, 0x65]);
    NothingBefore([0x6E, 0x75, 0x6C, 0x6C]);
    OneLexeme(cfg, BoolDoc([], true), [0x74, 0x72, 0x75, 0x65]);
    OneLexeme(cfg, BoolDoc([], false), [0x66, 0x61, 0x6C, 0x73, 0x65]);
    OneLexeme(cfg, NullDoc([]), [0x6E, 0x75, 0x6C, 0x6C]);
  }
}
