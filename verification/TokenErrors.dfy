/**
 * What the parser's error codes say. A code either names the token that was not expected, or the
 * tokens that were; both are compared here with what the machine would have taken.
 */
module TokenErrors {
  import opened Tokens
  import opened Pushdown

  /** The tokens with which something begins, as opposed to the rest of a string. */
  predicate Begins(t: Token) { !t.StringByte? && !t.StringEnd? }

  predicate Opens(t: Token) { t.OpenCurly? || t.OpenBracket? }

  predicate IsNumber(t: Token) { t.Int? || t.Double? }

  /** Given room on the stack, does the machine take `t`? */
  predicate Welcome(rules: Rules, p: Pda, t: Token) {
    Advance(rules, |p.stack| + 1, p, t).next.Ready?
  }

  predicate Unexpected(e: Error) {
    e.UnexpCloseCurly? || e.UnexpCloseBracket? || e.UnexpComma? || e.UnexpColon?
  }

  predicate Expected(e: Error) {
    e.ExpColon? || e.ExpObjectKey? || e.ExpObjectKeyOrCloseCurly? || e.ExpCommaOrCloseBracket?
    || e.ExpCommaOrCloseCurly?
  }

  /** The tokens that the documentation of a code names. */
  predicate Names(e: Error, t: Token) {
    match e
    case UnexpCloseCurly => t.CloseCurly?
    case UnexpCloseBracket => t.CloseBracket?
    case UnexpComma => t.Comma?
    case UnexpColon => t.Colon?
    case ExpColon => t.Colon?
    case ExpObjectKey => t.StringBegin?
    case ExpObjectKeyOrCloseCurly => t.StringBegin? || t.CloseCurly?
    case ExpCommaOrCloseBracket => t.Comma? || t.CloseBracket?
    case ExpCommaOrCloseCurly => t.Comma? || t.CloseCurly?
    case _ => false
  }

  predicate Closes(t: Token) { t.CloseCurly? || t.CloseBracket? }

  /** Nothing can come any more. */
  ghost predicate NothingWelcome(rules: Rules, p: Pda) {
    forall u :: Begins(u) ==> !Welcome(rules, p, u)
  }

  /** A number where a comma could come. */
  predicate NumberForComma(rules: Rules, p: Pda, t: Token) {
    IsNumber(t) && Welcome(rules, p, Comma)
  }

  /** Something else than a number where both a key and the end of the object could come. */
  predicate OtherForKeyOrEnd(rules: Rules, p: Pda, t: Token) {
    !IsNumber(t) && Welcome(rules, p, StringBegin) && Welcome(rules, p, CloseCurly)
  }

  /** What is written in the code's documentation for `e` is the case where `t` was refused. */
  ghost predicate Explains(rules: Rules, p: Pda, t: Token, e: Error) {
    if Welcome(rules, p, Null) then Unexpected(e) && Names(e, t)
    else if NothingWelcome(rules, p) then e == ExcessiveInput
    else Expected(e) && forall u | Begins(u) :: Names(e, u) <==> ToBeNamed(rules, p, t, u)
  }

  /** Is `u` named, as something expected, when `t` is refused? */
  predicate ToBeNamed(rules: Rules, p: Pda, t: Token, u: Token) {
    if NumberForComma(rules, p, t) then u.Comma? || (Closes(u) && !Welcome(rules, p, u))
    else if OtherForKeyOrEnd(rules, p, t) then u.StringBegin?
    else Welcome(rules, p, u)
  }

  /** No two codes say the same. */
  lemma NamesTellApart(e: Error, f: Error)
    requires (Expected(e) && Expected(f)) || (Unexpected(e) && Unexpected(f))
    requires forall u | Begins(u) :: Names(e, u) <==> Names(f, u)
    ensures e == f
  {
    assert Names(e, Colon) == Names(f, Colon);
    assert Names(e, Comma) == Names(f, Comma);
    assert Names(e, CloseCurly) == Names(f, CloseCurly);
    assert Names(e, CloseBracket) == Names(f, CloseBracket);
    assert Names(e, StringBegin) == Names(f, StringBegin);
  }

  /** The tokens that each state takes. */
  predicate TakenIn(s: State, u: Token)
  {
    match s
    case MaybeObjectKey => u.StringBegin? || u.CloseCurly?
    case ExpectObjectKey => u.StringBegin?
    case ExpectColon => u.Colon?
    case MaybeObjectComma => u.Comma? || u.CloseCurly?
    case MaybeArrayComma => u.Comma? || u.CloseBracket?
    case Done => false
    case MaybeArrayValue => !u.CloseCurly? && !u.Comma? && !u.Colon?
    case _ => !u.CloseCurly? && !u.CloseBracket? && !u.Comma? && !u.Colon?
  }

  lemma WelcomeIn(rules: Rules, p: Pda, u: Token)
    requires Coupled(p) && Begins(u)
    ensures Welcome(rules, p, u) <==> TakenIn(p.state, u)
  {
  }

  lemma AllWelcomeIn(rules: Rules, p: Pda)
    requires Coupled(p)
    ensures forall u | Begins(u) :: Welcome(rules, p, u) <==> TakenIn(p.state, u)
  {
    forall u | Begins(u)
      ensures Welcome(rules, p, u) <==> TakenIn(p.state, u)
    {
      WelcomeIn(rules, p, u);
    }
  }

  function ErrorIn(s: State, t: Token): Error {
    if IsNumber(t) then NumberError(s) else if t.StringBegin? then StringError(s) else TokenError(s, t)
  }

  lemma RefusedWith(rules: Rules, limit: nat, p: Pda, t: Token)
    requires Coupled(p) && Begins(t) && !Welcome(rules, p, t)
    ensures Advance(rules, limit, p, t) == Fail(ErrorIn(p.state, t))
  {
    WelcomeIn(rules, p, t);
  }

  /** Where a value could come. */
  lemma ValueExplains(rules: Rules, p: Pda, t: Token)
    requires Coupled(p) && Begins(t) && !Welcome(rules, p, t) && TakesValue(p.state)
    ensures Explains(rules, p, t, ErrorIn(p.state, t))
  {
    WelcomeIn(rules, p, t);
    WelcomeIn(rules, p, Null);
  }

  lemma DoneExplains(rules: Rules, p: Pda, t: Token)
    requires Coupled(p) && Begins(t) && p.state.Done?
    ensures Explains(rules, p, t, ErrorIn(p.state, t))
  {
    AllWelcomeIn(rules, p);
    assert Begins(Null);
  }

  predicate Between(s: State) {
    s.MaybeObjectKey? || s.ExpectObjectKey? || s.ExpectColon? || s.MaybeObjectComma? || s.MaybeArrayComma?
  }

  /** `ToBeNamed` by the state. */
  predicate ToBeNamedIn(s: State, t: Token, u: Token) {
    if IsNumber(t) && TakenIn(s, Comma) then u.Comma? || (Closes(u) && !TakenIn(s, u))
    else if !IsNumber(t) && TakenIn(s, StringBegin) && TakenIn(s, CloseCurly) then u.StringBegin?
    else TakenIn(s, u)
  }

  lemma SameToBeNamed(rules: Rules, p: Pda, t: Token, u: Token)
    requires Coupled(p) && Begins(u)
    ensures ToBeNamed(rules, p, t, u) <==> ToBeNamedIn(p.state, t, u)
  {
    WelcomeIn(rules, p, u);
    WelcomeIn(rules, p, Comma);
    WelcomeIn(rules, p, StringBegin);
    WelcomeIn(rules, p, CloseCurly);
  }

  lemma NamedIn(s: State, t: Token, u: Token)
    requires Between(s) && Begins(t) && Begins(u) && !TakenIn(s, t)
    ensures Names(ErrorIn(s, t), u) <==> ToBeNamedIn(s, t, u)
  {
  }

  lemma SomethingWelcome(rules: Rules, p: Pda)
    requires Coupled(p) && Between(p.state)
    ensures !Welcome(rules, p, Null) && !NothingWelcome(rules, p)
  {
    AllWelcomeIn(rules, p);
    assert Begins(Null) && Begins(Comma) && Begins(StringBegin) && Begins(Colon);
  }

  /** Between the values: where a key, a colon, a comma or an end could come. */
  lemma BetweenExplains(rules: Rules, p: Pda, t: Token)
    requires Coupled(p) && Between(p.state) && Begins(t) && !Welcome(rules, p, t)
    ensures Explains(rules, p, t, ErrorIn(p.state, t))
  {
    SomethingWelcome(rules, p);
    WelcomeIn(rules, p, t);
    forall u | Begins(u)
      ensures Names(ErrorIn(p.state, t), u) <==> ToBeNamed(rules, p, t, u)
    {
      SameToBeNamed(rules, p, t, u);
      NamedIn(p.state, t, u);
    }
  }

  lemma ErrorExplains(rules: Rules, p: Pda, t: Token)
    requires Coupled(p) && Begins(t) && !Welcome(rules, p, t)
    ensures Explains(rules, p, t, ErrorIn(p.state, t))
  {
    if TakesValue(p.state) {
      ValueExplains(rules, p, t);
    } else if p.state.Done? {
      DoneExplains(rules, p, t);
    } else {
      BetweenExplains(rules, p, t);
    }
  }

  lemma OneExplains(rules: Rules, p: Pda, t: Token, e: Error, f: Error)
    requires Explains(rules, p, t, e) && Explains(rules, p, t, f)
    ensures e == f
  {
    if Welcome(rules, p, Null) {
      assert Names(e, t) && Names(f, t);
    } else if !NothingWelcome(rules, p) {
      NamesTellApart(e, f);
    }
  }

  /**
   * The error for a token that cannot come is the one and only code whose documentation fits: an
   * "unexpected" code, where a value could come, names the token; otherwise the code names the
   * tokens that could come. But for a number instead of a comma it names the wrong bracket, and
   * where a key or the end of an object could come it leaves out the end, except to a number.
   */
  lemma RefusalMeaning(rules: Rules, limit: nat, p: Pda, t: Token, e: Error)
    requires Coupled(p) && Begins(t) && !Welcome(rules, p, t)
    ensures Advance(rules, limit, p, t) == Fail(e) <==> Explains(rules, p, t, e)
  {
    RefusedWith(rules, limit, p, t);
    ErrorExplains(rules, p, t);
    if Explains(rules, p, t, e) {
      OneExplains(rules, p, t, e, ErrorIn(p.state, t));
    }
  }

  /** A token that could come is refused only for want of room. */
  lemma OverflowMeaning(rules: Rules, limit: nat, p: Pda, t: Token)
    requires Coupled(p) && Begins(t) && Welcome(rules, p, t) && |p.stack| <= limit
    ensures Advance(rules, limit, p, t).next.Broken?
            <==> |p.stack| == limit && Opens(t)
    ensures Advance(rules, limit, p, t).next.Broken? ==> Advance(rules, limit, p, t) == Fail(StackOverflow)
  {
  }

  lemma RefusedAnyway(rules: Rules, limit: nat, p: Pda, t: Token)
    requires Coupled(p) && Begins(t) && Advance(rules, limit, p, t).next.Broken?
    requires Advance(rules, limit, p, t).next.error != StackOverflow
    ensures !Welcome(rules, p, t)
  {
  }

  /** An "expected" code is not given where a value could come, nor where nothing can. */
  lemma ExpectedNames(rules: Rules, limit: nat, p: Pda, t: Token, e: Error)
    requires Coupled(p) && Begins(t) && Advance(rules, limit, p, t) == Fail(e) && Expected(e)
    ensures forall u | Begins(u) :: Names(e, u) <==> ToBeNamed(rules, p, t, u)
  {
    RefusedAnyway(rules, limit, p, t);
    RefusalMeaning(rules, limit, p, t, e);
  }

  /** What an "expected" code names could have come, unless a number came where a comma could. */
  lemma NamedIsWelcome(rules: Rules, limit: nat, p: Pda, t: Token, e: Error)
    requires Coupled(p) && Begins(t) && Advance(rules, limit, p, t) == Fail(e) && Expected(e)
    ensures (forall u | Begins(u) :: Names(e, u) ==> Welcome(rules, p, u)) <==> !NumberForComma(rules, p, t)
  {
    ExpectedNames(rules, limit, p, t, e);
    assert Begins(CloseCurly) && Begins(CloseBracket) && Begins(StringBegin);
    OneBracket(rules, p);
  }

  /** And all that could have come is named, unless the end of the object was left out. */
  lemma WelcomeIsNamed(rules: Rules, limit: nat, p: Pda, t: Token, e: Error)
    requires Coupled(p) && Begins(t) && Advance(rules, limit, p, t) == Fail(e) && Expected(e)
    ensures (forall u | Begins(u) :: Welcome(rules, p, u) ==> Names(e, u))
            <==> !NumberForComma(rules, p, t) && !OtherForKeyOrEnd(rules, p, t)
  {
    ExpectedNames(rules, limit, p, t, e);
    assert Begins(CloseCurly) && Begins(CloseBracket) && Begins(StringBegin);
    OneBracket(rules, p);
  }

  lemma OneBracket(rules: Rules, p: Pda)
    requires Coupled(p)
    ensures !Welcome(rules, p, CloseCurly) || !Welcome(rules, p, CloseBracket)
    ensures Welcome(rules, p, Comma) ==> Welcome(rules, p, CloseCurly) || Welcome(rules, p, CloseBracket)
  {
    AllWelcomeIn(rules, p);
    assert Begins(CloseCurly) && Begins(CloseBracket) && Begins(Comma);
  }

  // ---- Sequences of tokens ----

  /** The token at which a run breaks, and the machine that refuses it. */
  lemma {:induction false} WhereItBreaks(
      rules: Rules, limit: nat, p: Pda, ts: seq<Token>, inString: bool, e: Error) returns (k: nat, q: Pda)
    requires Sound(limit, p, inString) && Shaped(inString, ts) && Feed(rules, limit, p, ts).next == Broken(e)
    ensures k < |ts| && Feed(rules, limit, p, ts[..k]).next == Ready(q) && Coupled(q) && |q.stack| <= limit
    ensures Begins(ts[k]) && Advance(rules, limit, q, ts[k]) == Fail(e)
    decreases |ts|
  {
    var m := Advance(rules, limit, p, ts[0]);
    AdvanceKeepsSound(rules, limit, p, ts[0], inString);
    if m.next.Broken? {
      k, q := 0, p;
    } else {
      var j;
      j, q := WhereItBreaks(rules, limit, m.next.pda, ts[1..], InStringAfter(inString, ts[0]), e);
      k := j + 1;
      OneMoreFed(rules, limit, p, ts, j);
    }
  }

  lemma OneMoreFed(rules: Rules, limit: nat, p: Pda, ts: seq<Token>, j: nat)
    requires j < |ts| && Advance(rules, limit, p, ts[0]).next.Ready?
    ensures Feed(rules, limit, p, ts[..j + 1]).next
            == Feed(rules, limit, Advance(rules, limit, p, ts[0]).next.pda, ts[1..][..j]).next
  {
    assert ts[..j + 1][0] == ts[0] && ts[..j + 1][1..] == ts[1..][..j];
  }

  /** The first error of a run of tokens: an overflow, or a code that fits the token it stopped at. */
  lemma FirstErrorMeaning(rules: Rules, limit: nat, ts: seq<Token>, e: Error) returns (k: nat, q: Pda)
    requires Shaped(false, ts) && Feed(rules, limit, START, ts).next == Broken(e)
    ensures k < |ts| && Feed(rules, limit, START, ts[..k]).next == Ready(q)
    ensures Coupled(q) && Begins(ts[k]) && |q.stack| <= limit
    ensures if Welcome(rules, q, ts[k]) then e == StackOverflow && |q.stack| == limit && Opens(ts[k])
            else Explains(rules, q, ts[k], e)
  {
    k, q := WhereItBreaks(rules, limit, START, ts, false, e);
    if Welcome(rules, q, ts[k]) {
      OverflowMeaning(rules, limit, q, ts[k]);
    } else {
      RefusalMeaning(rules, limit, q, ts[k], e);
    }
  }
}
