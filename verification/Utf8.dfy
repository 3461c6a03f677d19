/** The string language against UTF-8 as section 4 of RFC 3629 defines it. */
module Utf8 {
  import opened Bytes
  import opened Tokens
  import opened LexerMachine
  import opened Numbers
  import opened StringReading
  import opened Strings
  import opened Terminals

  /** UTF8-char, the encoding of one code point. */
  predicate Utf8Char(u: bytes) {
    || (|u| == 1 && u[0] <= 0x7F)
    || (|u| == 2 && 0xC2 <= u[0] <= 0xDF && Utf8Tail(u[1]))
    || (|u| == 3 && Utf8Tail(u[1]) && Utf8Tail(u[2])
        && ((u[0] == 0xE0 && 0xA0 <= u[1]) || 0xE1 <= u[0] <= 0xEC || (u[0] == 0xED && u[1] <= 0x9F)
            || 0xEE <= u[0] <= 0xEF))
    || (|u| == 4 && Utf8Tail(u[1]) && Utf8Tail(u[2]) && Utf8Tail(u[3])
        && ((u[0] == 0xF0 && 0x90 <= u[1]) || 0xF1 <= u[0] <= 0xF3 || (u[0] == 0xF4 && u[1] <= 0x8F)))
  }

  /** The code points U+20000 to U+2FFFF. */
  predicate SecondPlane(u: bytes) {
    |u| == 4 && u[0] == 0xF0 && 0xA0 <= u[1] <= 0xAF
  }

  /** The bytes JSON does not allow as they stand. */
  predicate MustEscape(u: bytes) {
    |u| == 1 && (u[0] < 0x20 || u[0] == QUOTATION_MARK || u[0] == ESCAPE)
  }

  predicate AllUtf8(us: seq<bytes>) {
    forall i :: 0 <= i < |us| ==> Utf8Char(us[i])
  }

  /** Of the well-formed characters the lexer refuses those of the plane that its mask leaves out. */
  lemma UnitsAmongUtf8(u: bytes)
    requires Utf8Char(u)
    ensures Unit(u) <==> !MustEscape(u) && !SecondPlane(u)
  {
  }

  /** The units that are no UTF-8: stray continuation bytes, leads C0, C1 and F5..F7, and surrogates. */
  predicate IllFormed(u: bytes) {
    || (|u| == 1 && Utf8Tail(u[0]))
    || (|u| == 2 && u[0] <= 0xC1)
    || (|u| == 3 && u[0] == 0xED && u[1] >= 0xA0)
    || (|u| == 4 && u[0] >= 0xF5)
  }

  /** Of its units the lexer takes those and no others without being UTF-8. */
  lemma UnitsBesidesUtf8(u: bytes)
    requires Unit(u)
    ensures Utf8Char(u) <==> !IllFormed(u)
  {
  }

  // ---- Well-formed bodies ----

  ghost predicate WellFormed(bs: bytes) {
    exists us :: AllUtf8(us) && Concatenated(us) == bs
  }

  /** The length of a character is told by its first byte. */
  lemma CharLength(u: bytes)
    requires Utf8Char(u)
    ensures |u| == UnitLength(u[0]) && !Continuation(u[0])
    ensures |u| > 1 ==> Continuation(u[1]) && (u[0] == 0xED ==> u[1] <= 0x9F) && 0xC2 <= u[0] <= 0xF4
  {
  }

  lemma FirstChar(bs: bytes) returns (u: bytes, x: bytes)
    requires WellFormed(bs) && bs != []
    ensures Utf8Char(u) && WellFormed(x) && bs == u + x
  {
    var us :| AllUtf8(us) && Concatenated(us) == bs;
    u, x := us[0], Concatenated(us[1..]);
    assert AllUtf8(us[1..]);
  }

  /** Taking a character off the front, or putting one there, keeps well-formedness either way. */
  lemma WellFormedAfter(u: bytes, x: bytes)
    requires Utf8Char(u)
    ensures WellFormed(u + x) <==> WellFormed(x)
  {
    if WellFormed(x) {
      var us :| AllUtf8(us) && Concatenated(us) == x;
      PrependChar(u, us);
    }
    if WellFormed(u + x) {
      var v, y := FirstChar(u + x);
      SameChar(u, x, v, y);
    }
  }

  lemma PrependChar(u: bytes, us: seq<bytes>)
    requires Utf8Char(u) && AllUtf8(us)
    ensures WellFormed(u + Concatenated(us))
  {
    assert ([u] + us)[1..] == us;
    assert AllUtf8([u] + us) && Concatenated([u] + us) == u + Concatenated(us);
  }

  lemma SameChar(u: bytes, x: bytes, v: bytes, y: bytes)
    requires Utf8Char(u) && Utf8Char(v) && u + x == v + y
    ensures u == v && x == y
  {
    CharLength(u);
    CharLength(v);
    var s := u + x;
    assert s[0] == u[0] && s[0] == v[0];
    assert u == s[..|u|] && v == s[..|u|] && x == s[|u|..] && y == s[|u|..];
  }

  lemma {:induction false} WellFormedAfterAscii(a: bytes, x: bytes)
    requires forall i :: 0 <= i < |a| ==> a[i] < 0x80
    ensures WellFormed(a + x) <==> WellFormed(x)
    decreases |a|
  {
    if a == [] {
      assert a + x == x;
    } else {
      WellFormedAfter([a[0]], a[1..] + x);
      assert [a[0]] + (a[1..] + x) == a + x;
      WellFormedAfterAscii(a[1..], x);
    }
  }

  lemma IllFormedBefore(u: bytes, x: bytes)
    requires Unit(u) && IllFormed(u)
    ensures !WellFormed(u + x)
  {
    if WellFormed(u + x) {
      var v, y := FirstChar(u + x);
      UnitIsGrown(u);
      CharLength(v);
      var s := u + x;
      assert s[0] == u[0] && s[0] == v[0];
      assert u == s[..|u|] && v == s[..|u|];
      UnitsBesidesUtf8(u);
    }
  }

  lemma LooseBefore(b: byte, x: bytes)
    requires LooseLead(b) && NoContinuationFirst(x)
    ensures !WellFormed([b] + x)
  {
    if WellFormed([b] + x) {
      var v, y := FirstChar([b] + x);
      CharLength(v);
      ContinuationAfter(b, x, v, y);
    }
  }

  lemma ContinuationAfter(b: byte, x: bytes, v: bytes, y: bytes)
    requires [b] + x == v + y && LooseLead(b) && |v| > 0 && |v| == UnitLength(v[0]) && (|v| > 1 ==> Continuation(v[1]))
    ensures !NoContinuationFirst(x)
  {
    var s := [b] + x;
    assert s[0] == v[0] && s[1] == v[1] && s[1] == x[0];
  }

  /** A piece that is no reason for a body not to be UTF-8. */
  predicate Proper(p: Piece) {
    match p
    case Plain(u) => !IllFormed(u)
    case _ => EscapePiece(p)
  }

  predicate AllProper(ps: seq<Piece>) {
    forall i :: 0 <= i < |ps| ==> Proper(ps[i])
  }

  lemma PieceDecides(p: Piece, x: bytes)
    requires Correct(p) && Follows(0, p) && (p.Loose? ==> NoContinuationFirst(x))
    ensures WellFormed(PieceText(p) + x) <==> Proper(p) && WellFormed(x)
  {
    match p
    case Plain(u) =>
      UnitsBesidesUtf8(u);
      if IllFormed(u) {
        IllFormedBefore(u, x);
      } else {
        WellFormedAfter(u, x);
      }
    case Loose(b) => LooseBefore(b, x);
    case _ => WellFormedAfterAscii(PieceText(p), x);
  }

  lemma NothingContinues(ps: seq<Piece>, x: bytes)
    requires AllCorrect(ps) && Flows(3, ps) && NoContinuationFirst(x)
    ensures NoContinuationFirst(BodyText(ps) + x)
  {
    AfterLoose(ps);
    assert BodyText(ps) == [] ==> BodyText(ps) + x == x;
  }

  /**
   * Soundness of the validation, exactly: a body that the lexer reads from a clean state, with what
   * follows it, is well-formed UTF-8 if and only if what follows is, and no piece of its one split
   * is an ill-formed unit or belongs to a loose lead.
   */
  lemma {:induction false} BodyWellFormed(ps: seq<Piece>, x: bytes)
    requires AllCorrect(ps) && Flows(0, ps) && NoContinuationFirst(x)
    ensures WellFormed(BodyText(ps) + x) <==> AllProper(ps) && WellFormed(x)
    decreases |ps|
  {
    if ps == [] {
      assert BodyText(ps) + x == x;
    } else {
      FirstPieceDecides(ps, x);
      AllProperCons(ps);
      if Proper(ps[0]) {
        BodyWellFormed(ps[1..], x);
      }
    }
  }

  lemma FirstPieceDecides(ps: seq<Piece>, x: bytes)
    requires AllCorrect(ps) && ps != [] && Flows(0, ps) && NoContinuationFirst(x)
    ensures WellFormed(BodyText(ps) + x) <==> Proper(ps[0]) && WellFormed(BodyText(ps[1..]) + x)
    ensures Proper(ps[0]) ==> PendingAfter(0, ps[0]) == 0
  {
    var rest := BodyText(ps[1..]) + x;
    assert BodyText(ps) + x == PieceText(ps[0]) + rest;
    if ps[0].Loose? {
      NothingContinues(ps[1..], x);
    }
    PieceDecides(ps[0], rest);
  }

  lemma AllProperCons(ps: seq<Piece>)
    requires ps != []
    ensures AllProper(ps) <==> Proper(ps[0]) && AllProper(ps[1..])
  {
    forall i | 0 < i < |ps|
      ensures ps[1..][i - 1] == ps[i]
    {
    }
  }

  /**
   * So a string that is read, begun with nothing pending, has a well-formed body if and only if
   * all pieces are proper; it leaves nothing pending then.
   */
  lemma StringWellFormed(cfg: Config, l: Lexer, body: bytes, out: bytes, pending: nat) returns (ps: seq<Piece>)
    requires Between(l, 0) && ReadAsString(cfg, l, body, out, pending)
    ensures IsBody(0, ps) && BodyText(ps) == body && BodyBytes(ps) == out
    ensures WellFormed(body) <==> AllProper(ps)
    ensures forall qs | IsBody(0, qs) && BodyText(qs) == body :: qs == ps
  {
    ps := StringIsBody(cfg, l, 0, body, out, pending);
    BodyWellFormed(ps, []);
    assert body + [] == body;
    assert WellFormed([]) by {
      assert AllUtf8([]) && Concatenated([]) == [];
    }
    forall qs | IsBody(0, qs) && BodyText(qs) == body
      ensures qs == ps
    {
      SplitUnique(0, qs, ps);
    }
  }

  // ---- Well-formed bodies are read ----

  function PlainAll(us: seq<bytes>): seq<Piece> {
    if us == [] then [] else [Plain(us[0])] + PlainAll(us[1..])
  }

  lemma {:induction false} PlainAllText(us: seq<bytes>)
    requires forall i :: 0 <= i < |us| ==> Unit(us[i])
    ensures AllCorrect(PlainAll(us)) && Orderly(PlainAll(us))
    ensures BodyText(PlainAll(us)) == Concatenated(us) && BodyBytes(PlainAll(us)) == Concatenated(us)
    decreases |us|
  {
    if us != [] {
      PlainAllText(us[1..]);
      assert PlainAll(us)[1..] == PlainAll(us[1..]);
    }
  }

  /**
   * A well-formed body, free of what must be escaped, is read from every clean state and
   * delivered verbatim, unless it has a character of the second plane: then it is refused.
   */
  lemma Utf8Bodies(cfg: Config, l: Lexer, us: seq<bytes>)
    requires Between(l, 0) && AllUtf8(us) && forall i :: 0 <= i < |us| ==> !MustEscape(us[i])
    ensures (forall i :: 0 <= i < |us| ==> !SecondPlane(us[i]))
            <==> ReadAsString(cfg, l, Concatenated(us), Concatenated(us), 0)
    ensures (exists i :: 0 <= i < |us| && SecondPlane(us[i])) ==> Scan(cfg, l, Concatenated(us)).next.Stop?
  {
    if i :| 0 <= i < |us| && SecondPlane(us[i]) {
      SecondPlaneRefused(cfg, l, us);
      ScanConcat(cfg, l, Concatenated(us), [QUOTE]);
    } else {
      forall i | 0 <= i < |us|
        ensures Unit(us[i])
      {
        UnitsAmongUtf8(us[i]);
      }
      PlainAllText(us);
      OrderlyIsBody(PlainAll(us));
      BodyIsRead(cfg, l, 0, PlainAll(us));
    }
  }

  lemma SecondPlaneStops(cfg: Config, l: Lexer, u: bytes)
    requires Between(l, 0) && SecondPlane(u)
    ensures Scan(cfg, l, u).next.Stop?
  {
    FirstStep(cfg, l, u[0]);
    UnitStep(cfg, l, 0, [u[0]], u[1]);
    ScanOne(cfg, l, u[0]);
    ScanSnoc(cfg, l, [u[0]], Inside(l, [u[0]]), u[1]);
    assert u == ([u[0]] + [u[1]]) + u[2..];
    ScanConcat(cfg, l, [u[0]] + [u[1]], u[2..]);
  }

  lemma {:induction false} SecondPlaneRefused(cfg: Config, l: Lexer, us: seq<bytes>)
    requires Between(l, 0) && AllUtf8(us) && (forall i :: 0 <= i < |us| ==> !MustEscape(us[i]))
    requires exists i :: 0 <= i < |us| && SecondPlane(us[i])
    ensures Scan(cfg, l, Concatenated(us)).next.Stop?
    decreases |us|
  {
    var u, rest := us[0], Concatenated(us[1..]);
    UnitsAmongUtf8(u);
    ScanConcat(cfg, l, u, rest);
    if SecondPlane(u) {
      SecondPlaneStops(cfg, l, u);
    } else {
      ScanUnit(cfg, l, 0, u);
      assert l.(nb := 0) == l;
      assert forall i :: 0 <= i < |us[1..]| ==> us[1..][i] == us[i + 1];
      SecondPlaneRefused(cfg, l, us[1..]);
    }
  }
}
