/**
 * The string language: which bytes may stand between two quotes, and which bytes are delivered
 * for them. The lexer does not check the byte after a loose lead, so a string may end, or be
 * interrupted by an escape, while continuation bytes are pending; they are then asked of what
 * follows, which may be the next string. The language is therefore told from the number of bytes
 * pending where a string begins.
 */
module Strings {
  import opened Bytes
  import opened Tokens
  import opened Documents
  import opened LexerMachine
  import opened Numbers
  import opened Terminals

  /**
   * A piece of a string body: a unit delivered as it stands, or an escape; and where a loose lead
   * is not followed by a continuation byte, the lead alone, the byte that takes the place of the
   * first continuation byte, and the other two.
   */
  datatype Piece =
    | Plain(unit: bytes)
    | Escape(letter: byte)
    | Unicode(hex: bytes)
    | Loose(lead: byte)
    | Filler(b: byte)
    | Remains(second: byte, third: byte)

  /**
   * The units: ASCII without quote, backslash and controls, a stray continuation byte, and the
   * multibyte sequences, checked no further than the lexer checks them.
   */
  predicate Unit(u: bytes) {
    || (|u| == 1 && ((0x20 <= u[0] <= 0x7F && u[0] != QUOTE && u[0] != BACKSLASH) || Continuation(u[0])))
    || (|u| == 2 && Lead2(u[0]) && Continuation(u[1]))
    || (|u| == 3 && Lead3(u[0]) && Continuation(u[1]) && (u[0] == 0xE0 ==> u[1] >= 0xA0) && Continuation(u[2]))
    || (|u| == 4 && Lead4(u[0]) && Continuation(u[1]) && (u[0] == 0xF0 ==> AfterF0(u[1]))
        && (u[0] == 0xF4 ==> u[1] <= 0x8F) && Continuation(u[2]) && Continuation(u[3]))
  }

  predicate Correct(p: Piece) {
    match p
    case Plain(u) => Unit(u)
    case Escape(c) => Unescaped(c) != []
    case Unicode(h) => |h| == 4 && Hex(h[0]) && Hex(h[1]) && Hex(h[2]) && Hex(h[3])
    case Loose(lead) => LooseLead(lead)
    case Filler(b) => b < 0x80 && b != QUOTE && b != BACKSLASH
    case Remains(c, d) => Continuation(c) && Continuation(d)
  }

  predicate EscapePiece(p: Piece) { p.Escape? || p.Unicode? }

  function PieceText(p: Piece): bytes {
    match p
    case Plain(u) => u
    case Escape(c) => [ESCAPE, c]
    case Unicode(h) => [ESCAPE, UNICODE_LETTER] + h
    case Loose(lead) => [lead]
    case Filler(b) => [b]
    case Remains(c, d) => [c, d]
  }

  /** The decoder: a hexadecimal escape becomes the two bytes of its value, the higher one first. */
  function PieceBytes(p: Piece): bytes
    requires Correct(p)
  {
    match p
    case Escape(c) => Unescaped(c)
    case Unicode(h) => [16 * HexValue(h[0]) + HexValue(h[1]), 16 * HexValue(h[2]) + HexValue(h[3])]
    case _ => PieceText(p)
  }

  predicate AllCorrect(ps: seq<Piece>) {
    forall i :: 0 <= i < |ps| ==> Correct(ps[i])
  }

  function BodyText(ps: seq<Piece>): bytes {
    if ps == [] then [] else PieceText(ps[0]) + BodyText(ps[1..])
  }

  function BodyBytes(ps: seq<Piece>): bytes
    requires AllCorrect(ps)
  {
    if ps == [] then [] else PieceBytes(ps[0]) + BodyBytes(ps[1..])
  }

  /** May `p` come where `nb` continuation bytes are pending? Right after a loose lead that is 3. */
  predicate Follows(nb: nat, p: Piece)
    requires Correct(p)
  {
    match p
    case Plain(u) => nb == 0 || (nb == 3 && u[0] >= 0xC0)
    case Filler(_) => nb == 3
    case Remains(_, _) => nb == 2
    case _ => nb == 0 || nb == 3
  }

  /** How many are pending after `p`. */
  function PendingAfter(nb: nat, p: Piece): nat {
    match p
    case Plain(_) => 0
    case Remains(_, _) => 0
    case Loose(_) => 3
    case _ => Spent(nb)
  }

  /** One byte that is not looked at stands for the first of three pending ones. */
  function Spent(nb: nat): nat {
    if nb == 3 then 2 else 0
  }

  /** The pieces follow each other, from `nb` pending bytes on. */
  predicate Flows(nb: nat, ps: seq<Piece>)
    requires AllCorrect(ps)
    decreases |ps|
  {
    ps == [] || (Follows(nb, ps[0]) && Flows(PendingAfter(nb, ps[0]), ps[1..]))
  }

  function EndPending(nb: nat, ps: seq<Piece>): nat
    decreases |ps|
  {
    if ps == [] then nb else EndPending(PendingAfter(nb, ps[0]), ps[1..])
  }

  /** The pieces are the body of a string that begins with `nb` bytes pending. */
  predicate IsBody(nb: nat, ps: seq<Piece>) {
    AllCorrect(ps) && Flows(nb, ps) && EndPending(nb, ps) != 2
  }

  /** How many bytes a string leaves pending. */
  function StringPending(nb: nat, ps: seq<Piece>): nat {
    Spent(EndPending(nb, ps))
  }

  /** No loose lead went unchecked. */
  predicate Orderly(ps: seq<Piece>) {
    forall i :: 0 <= i < |ps| ==> ps[i].Plain? || ps[i].Escape? || ps[i].Unicode?
  }

  /** An orderly body can stand in every string that begins with nothing pending, and leaves nothing. */
  lemma {:induction false} OrderlyIsBody(ps: seq<Piece>)
    requires AllCorrect(ps) && Orderly(ps)
    ensures Flows(0, ps) && EndPending(0, ps) == 0
    decreases |ps|
  {
    if ps != [] {
      assert PendingAfter(0, ps[0]) == 0;
      OrderlyIsBody(ps[1..]);
    }
  }

  // ---- Reading a piece ----

  /** Inside a string, between two pieces, with `nb` bytes pending and no register of a number in use. */
  predicate Between(l: Lexer, nb: nat) {
    l.mode.InString? && NoNumber(l) && l.nb == nb && l.cc == 0 && (nb == 0 || nb == 2 || nb == 3)
  }

  lemma ScanOne(cfg: Config, l: Lexer, a: byte)
    ensures Scan(cfg, l, [a]) == Step(cfg, l, a)
  {
    assert Step(cfg, l, a).toks + [] == Step(cfg, l, a).toks;
  }

  lemma StringStep(cfg: Config, l: Lexer, b: byte)
    requires l.mode.InString?
    ensures Step(cfg, l, b) == Scanned(InStringByte(l, b).toks, InStringByte(l, b).next)
  {
  }

  /** The registers inside a unit of which `u` has been read. */
  function Inside(l: Lexer, u: bytes): Lexer
    requires u != []
  {
    if |u| == 1 && u[0] == 0xE0 then l.(nb := 2, cc := 1)
    else if |u| == 1 && u[0] == 0xF0 then l.(nb := 3, cc := 2)
    else if |u| == 1 && u[0] == 0xF4 then l.(nb := 3, cc := 3)
    else if |u| < UnitLength(u[0]) then l.(nb := UnitLength(u[0]) - |u|)
    else l.(nb := 0)
  }

  function UnitLength(lead: byte): nat {
    if Lead2(lead) then 2 else if Lead3(lead) then 3 else if Lead4(lead) then 4 else 1
  }

  /** One more byte of a unit: the rules of `Unit` for that position are what the lexer checks. */
  lemma UnitStep(cfg: Config, l: Lexer, nb: nat, u: bytes, b: byte)
    requires Between(l, nb) && u != [] && |u| < UnitLength(u[0])
    requires |u| == 1 && LooseLead(u[0]) ==> Continuation(b)
    ensures var s := Step(cfg, Inside(l, u), b);
            if Continuation(b) && (|u| == 1 ==>
                 (u[0] == 0xE0 ==> b >= 0xA0) && (u[0] == 0xF0 ==> AfterF0(b)) && (u[0] == 0xF4 ==> b <= 0x8F))
            then s == Scanned([StringByte(b)], Go(Inside(l, u + [b])))
            else s.next.Stop?
  {
    StringStep(cfg, Inside(l, u), b);
  }

  /** The first byte of a unit, where nothing is pending. */
  lemma FirstStep(cfg: Config, l: Lexer, b: byte)
    requires Between(l, 0) && b != QUOTE && b != BACKSLASH
    ensures var s := Step(cfg, l, b);
            if 0x20 <= b < 0xF8 then s == Scanned([StringByte(b)], Go(Inside(l, [b]))) else s.next.Stop?
  {
    StringStep(cfg, l, b);
  }

  /** Right after a loose lead: another lead begins anew, any other byte is taken unseen. */
  lemma StepAfterLoose(cfg: Config, l: Lexer, b: byte)
    requires Between(l, 3) && b != QUOTE && b != BACKSLASH
    ensures var s := Step(cfg, l, b);
            if b >= 0xF8 then s.next.Stop?
            else s == Scanned([StringByte(b)], Go(if b >= 0xC0 then Inside(l, [b]) else l.(nb := 2)))
  {
    StringStep(cfg, l, b);
  }

  /** Where two or one are pending, a continuation byte has to come. */
  lemma PendingStep(cfg: Config, l: Lexer, b: byte)
    requires l.mode.InString? && (l.nb == 1 || l.nb == 2) && l.cc == 0
    ensures var s := Step(cfg, l, b);
            if Continuation(b) then s == Scanned([StringByte(b)], Go(l.(nb := l.nb - 1))) else s.next.Stop?
  {
    StringStep(cfg, l, b);
  }

  /** `u` begins a unit, and is one if it is long enough. */
  predicate Grows(u: bytes) {
    && u != [] && 0x20 <= u[0] < 0xF8 && u[0] != QUOTE && u[0] != BACKSLASH
    && |u| <= UnitLength(u[0])
    && (forall i :: 0 < i < |u| ==> Continuation(u[i]))
    && (|u| > 1 ==>
          (u[0] == 0xE0 ==> u[1] >= 0xA0) && (u[0] == 0xF0 ==> AfterF0(u[1])) && (u[0] == 0xF4 ==> u[1] <= 0x8F))
  }

  lemma UnitIsGrown(u: bytes)
    ensures Unit(u) <==> Grows(u) && |u| == UnitLength(u[0])
  {
  }

  /** May a unit that begins with `b` come where `nb` bytes are pending? */
  predicate UnitMayBegin(nb: nat, b: byte) {
    nb == 0 || (nb == 3 && b >= 0xC0)
  }

  lemma StringBytesOne(b: byte)
    ensures StringBytes([b]) == [StringByte(b)]
  {
  }

  lemma {:induction false} ScanGrowing(cfg: Config, l: Lexer, nb: nat, u: bytes)
    requires Between(l, nb) && Grows(u) && UnitMayBegin(nb, u[0])
    ensures Scan(cfg, l, u) == Scanned(StringBytes(u), Go(Inside(l, u)))
    decreases |u|
  {
    if |u| == 1 {
      assert u == [u[0]];
      if nb == 0 {
        FirstStep(cfg, l, u[0]);
      } else {
        StepAfterLoose(cfg, l, u[0]);
      }
      ScanOne(cfg, l, u[0]);
      StringBytesOne(u[0]);
    } else {
      var front, b := u[..|u| - 1], u[|u| - 1];
      assert u == front + [b];
      ScanGrowing(cfg, l, nb, front);
      UnitStep(cfg, l, nb, front, b);
      ScanSnoc(cfg, l, front, Inside(l, front), b);
      StringBytesSnoc(front, b);
    }
  }

  lemma ScanUnit(cfg: Config, l: Lexer, nb: nat, u: bytes)
    requires Between(l, nb) && Unit(u) && UnitMayBegin(nb, u[0])
    ensures Scan(cfg, l, u) == Scanned(StringBytes(u), Go(l.(nb := 0)))
  {
    UnitIsGrown(u);
    ScanGrowing(cfg, l, nb, u);
  }

  /** The backslash, which counts for a pending byte if it comes right after a loose lead. */
  lemma ScanBackslash(cfg: Config, l: Lexer, nb: nat)
    requires Between(l, nb) && nb != 2
    ensures Scan(cfg, l, [BACKSLASH]) == Scanned([], Go(l.(mode := InStringEscape, nb := Spent(nb))))
  {
    StringStep(cfg, l, BACKSLASH);
    ScanOne(cfg, l, BACKSLASH);
  }

  lemma ScanEscape(cfg: Config, l: Lexer, nb: nat, c: byte)
    requires Between(l, nb) && nb != 2 && Unescaped(c) != []
    ensures Scan(cfg, l, [BACKSLASH, c]) == Scanned(StringBytes(Unescaped(c)), Go(l.(nb := Spent(nb))))
  {
    assert [BACKSLASH, c] == [BACKSLASH] + [c];
    ScanBackslash(cfg, l, nb);
    ScanSnoc(cfg, l, [BACKSLASH], l.(mode := InStringEscape, nb := Spent(nb)), c);
    StringBytesOne(Unescaped(c)[0]);
  }

  function Escaping(l: Lexer, k: nat, cp0: byte, cp1: byte): Lexer {
    l.(mode := InStringUnicodeEscape, offset := k, cp0 := cp0, cp1 := cp1)
  }

  lemma HexStep(cfg: Config, l: Lexer, k: nat, cp0: byte, cp1: byte, a: byte)
    requires Hex(a) && (k == 0 || k == 2)
    ensures Scan(cfg, Escaping(l, k, cp0, cp1), [a])
            == Scanned([], Go(if k == 0 then Escaping(l, 1, 16 * HexValue(a), cp1)
                              else Escaping(l, 3, cp0, 16 * HexValue(a))))
  {
    ScanOne(cfg, Escaping(l, k, cp0, cp1), a);
  }

  lemma LowNibble(v: byte, w: byte)
    requires v < 16 && w < 16
    ensures WithLowNibble(16 * v, w) == 16 * v + w
  {
  }

  lemma ScanFirstHex(cfg: Config, l: Lexer, cp0: byte, cp1: byte, a: byte, b: byte)
    requires Hex(a) && Hex(b)
    ensures Scan(cfg, Escaping(l, 0, cp0, cp1), [a, b])
            == Scanned([], Go(Escaping(l, 2, 16 * HexValue(a) + HexValue(b), cp1)))
  {
    assert [a, b] == [a] + [b];
    HexStep(cfg, l, 0, cp0, cp1, a);
    LowNibble(HexValue(a), HexValue(b));
    ScanSnoc(cfg, Escaping(l, 0, cp0, cp1), [a], Escaping(l, 1, 16 * HexValue(a), cp1), b);
  }

  lemma ScanSecondHex(cfg: Config, l: Lexer, cp0: byte, cp1: byte, a: byte, b: byte)
    requires Hex(a) && Hex(b)
    ensures var v := 16 * HexValue(a) + HexValue(b);
            Scan(cfg, Escaping(l, 2, cp0, cp1), [a, b])
            == Scanned([StringByte(cp0), StringByte(v)], Go(Escaping(l, 4, cp0, v).(mode := InString)))
  {
    assert [a, b] == [a] + [b];
    HexStep(cfg, l, 2, cp0, cp1, a);
    LowNibble(HexValue(a), HexValue(b));
    ScanSnoc(cfg, Escaping(l, 2, cp0, cp1), [a], Escaping(l, 3, cp0, 16 * HexValue(a)), b);
  }

  lemma ScanHex(cfg: Config, l: Lexer, h: bytes)
    requires Correct(Unicode(h))
    ensures var v0, v1 := PieceBytes(Unicode(h))[0], PieceBytes(Unicode(h))[1];
            Scan(cfg, Escaping(l, 0, l.cp0, l.cp1), h)
            == Scanned([StringByte(v0), StringByte(v1)], Go(Escaping(l, 4, v0, v1).(mode := InString)))
  {
    var v0 := 16 * HexValue(h[0]) + HexValue(h[1]);
    ScanFirstHex(cfg, l, l.cp0, l.cp1, h[0], h[1]);
    ScanSecondHex(cfg, l, v0, l.cp1, h[2], h[3]);
    ScanSilentThen(cfg, Escaping(l, 0, l.cp0, l.cp1), [h[0], h[1]], Escaping(l, 2, v0, l.cp1), [h[2], h[3]]);
    assert h == [h[0], h[1]] + [h[2], h[3]];
  }

  lemma ScanSilentThen(cfg: Config, l: Lexer, a: bytes, l': Lexer, b: bytes)
    requires Scan(cfg, l, a) == Scanned([], Go(l'))
    ensures Scan(cfg, l, a + b) == Scan(cfg, l', b)
  {
    ScanConcat(cfg, l, a, b);
    AfterNothing(Scan(cfg, l', b));
  }

  lemma ScanUnicodePrefix(cfg: Config, l: Lexer, nb: nat)
    requires Between(l, nb) && nb != 2
    ensures Scan(cfg, l, [BACKSLASH, 0x75]) == Scanned([], Go(Escaping(l.(nb := Spent(nb)), 0, l.cp0, l.cp1)))
  {
    assert [BACKSLASH, 0x75] == [BACKSLASH] + [0x75];
    ScanBackslash(cfg, l, nb);
    ScanSnoc(cfg, l, [BACKSLASH], l.(mode := InStringEscape, nb := Spent(nb)), 0x75);
  }

  lemma ScanUnicode(cfg: Config, l: Lexer, nb: nat, h: bytes) returns (l': Lexer)
    requires Between(l, nb) && nb != 2 && Correct(Unicode(h))
    ensures Between(l', Spent(nb))
    ensures Scan(cfg, l, PieceText(Unicode(h))) == Scanned(StringBytes(PieceBytes(Unicode(h))), Go(l'))
  {
    var bs := PieceBytes(Unicode(h));
    ScanHex(cfg, l.(nb := Spent(nb)), h);
    ScanUnicodePrefix(cfg, l, nb);
    ScanConcat(cfg, l, [BACKSLASH, 0x75], h);
    assert StringBytes(bs) == [StringByte(bs[0]), StringByte(bs[1])];
    l' := Escaping(l.(nb := Spent(nb)), 4, bs[0], bs[1]).(mode := InString);
  }

  lemma ScanLoose(cfg: Config, l: Lexer, nb: nat, b: byte)
    requires Between(l, nb) && nb != 2 && LooseLead(b)
    ensures Scan(cfg, l, [b]) == Scanned(StringBytes([b]), Go(l.(nb := 3)))
  {
    assert Grows([b]);
    ScanGrowing(cfg, l, nb, [b]);
  }

  lemma ScanFiller(cfg: Config, l: Lexer, b: byte)
    requires Between(l, 3) && Correct(Filler(b))
    ensures Scan(cfg, l, [b]) == Scanned(StringBytes([b]), Go(l.(nb := 2)))
  {
    StepAfterLoose(cfg, l, b);
    ScanOne(cfg, l, b);
    StringBytesOne(b);
  }

  lemma ScanRemains(cfg: Config, l: Lexer, c: byte, d: byte)
    requires Between(l, 2) && Continuation(c) && Continuation(d)
    ensures Scan(cfg, l, [c, d]) == Scanned(StringBytes([c, d]), Go(l.(nb := 0)))
  {
    PendingStep(cfg, l, c);
    ScanOne(cfg, l, c);
    StringBytesOne(c);
    assert [c, d] == [c] + [d];
    PendingStep(cfg, l.(nb := 1), d);
    ScanSnoc(cfg, l, [c], l.(nb := 1), d);
    StringBytesSnoc([c], d);
  }

  /** Every correct piece is read where it may come, and delivered as the decoder says. */
  lemma ScanPiece(cfg: Config, l: Lexer, nb: nat, p: Piece) returns (l': Lexer)
    requires Between(l, nb) && Correct(p) && Follows(nb, p)
    ensures Between(l', PendingAfter(nb, p))
    ensures Scan(cfg, l, PieceText(p)) == Scanned(StringBytes(PieceBytes(p)), Go(l'))
  {
    l' := l.(nb := PendingAfter(nb, p));
    match p
    case Plain(u) => ScanUnit(cfg, l, nb, u);
    case Escape(c) => ScanEscape(cfg, l, nb, c);
    case Unicode(h) => l' := ScanUnicode(cfg, l, nb, h);
    case Loose(lead) => ScanLoose(cfg, l, nb, lead);
    case Filler(b) => ScanFiller(cfg, l, b);
    case Remains(c, d) => ScanRemains(cfg, l, c, d);
  }

  lemma StringBytesConcat(a: bytes, b: bytes)
    ensures StringBytes(a + b) == StringBytes(a) + StringBytes(b)
  {
  }

  lemma {:induction false} ScanBody(cfg: Config, l: Lexer, nb: nat, ps: seq<Piece>) returns (l': Lexer)
    requires Between(l, nb) && AllCorrect(ps) && Flows(nb, ps)
    ensures Between(l', EndPending(nb, ps)) && Scan(cfg, l, BodyText(ps)) == Scanned(StringBytes(BodyBytes(ps)), Go(l'))
    decreases |ps|
  {
    if ps == [] {
      l' := l;
    } else {
      var r := ScanPiece(cfg, l, nb, ps[0]);
      l' := ScanBody(cfg, r, PendingAfter(nb, ps[0]), ps[1..]);
      ScanConcat(cfg, l, PieceText(ps[0]), BodyText(ps[1..]));
      StringBytesConcat(PieceBytes(ps[0]), BodyBytes(ps[1..]));
    }
  }

  /** No string is closed while two bytes are pending. */
  lemma CloseQuote(cfg: Config, l: Lexer, nb: nat)
    requires Between(l, nb)
    ensures if nb == 2 then Step(cfg, l, QUOTE).next.Stop?
            else Step(cfg, l, QUOTE) == Scanned([StringEnd], Go(l.(mode := LookupToken, nb := Spent(nb))))
  {
    StringStep(cfg, l, QUOTE);
  }

  function Concatenated(us: seq<bytes>): bytes {
    if us == [] then [] else us[0] + Concatenated(us[1..])
  }
}
