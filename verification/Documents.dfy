/**
 * JSON values, the token sequences that spell them, the callbacks that report them, and a
 * consumer that rebuilds a value from its callbacks.
 */
module Documents {
  import opened Bytes
  import opened Tokens
  import opened Pushdown

  datatype Value =
    | NullValue
    | BoolValue(b: bool)
    | IntValue(i: int)
    | RealValue(r: real)
    | StringValue(s: bytes)
    | ArrayValue(items: Items)
    | ObjectValue(members: Members)

  // Lists that grow at the end, as the parser finds their elements.
  datatype Items = NoItems | Items(init: Items, last: Value)
  datatype Members = NoMembers | Members(init: Members, key: bytes, value: Value)

  const EMPTY_ARRAY := ArrayValue(NoItems)

  function Max(a: nat, b: nat): nat { if a < b then b else a }

  function Depth(v: Value): nat {
    match v
    case ArrayValue(items) => 1 + ItemsDepth(items)
    case ObjectValue(members) => 1 + MembersDepth(members)
    case _ => 0
  }

  function ItemsDepth(items: Items): nat {
    if items.NoItems? then 0 else Max(ItemsDepth(items.init), Depth(items.last))
  }

  function MembersDepth(ms: Members): nat {
    if ms.NoMembers? then 0 else Max(MembersDepth(ms.init), Depth(ms.value))
  }

  // ---- The grammar: sections 3 to 5 of RFC 8259, generatively ----

  function StringTokens(s: bytes): seq<Token> {
    [StringBegin] + StringBytes(s) + [StringEnd]
  }

  /**
   * What stands between the members `ms` and a further one. It is a comma, except that by the
   * shipped rules there is nothing after a member whose value is the empty array.
   */
  function Separator(rules: Rules, ms: Members): seq<Token> {
    if ms.NoMembers? || (rules == Shipped && ms.value == EMPTY_ARRAY) then [] else [Comma]
  }

  function TokensOf(rules: Rules, v: Value): seq<Token> {
    match v
    case NullValue => [Null]
    case BoolValue(b) => [if b then True else False]
    case IntValue(i) => [Int(i)]
    case RealValue(r) => [Double(r)]
    case StringValue(s) => StringTokens(s)
    case ArrayValue(items) => [OpenBracket] + ItemTokens(rules, items) + [CloseBracket]
    case ObjectValue(members) => [OpenCurly] + MemberTokens(rules, members) + [CloseCurly]
  }

  function ItemSeparator(items: Items): seq<Token> {
    if items.NoItems? then [] else [Comma]
  }

  function ItemTokens(rules: Rules, items: Items): seq<Token> {
    if items.NoItems? then []
    else ItemTokens(rules, items.init) + ItemSeparator(items.init) + TokensOf(rules, items.last)
  }

  function MemberTokens(rules: Rules, ms: Members): seq<Token> {
    if ms.NoMembers? then []
    else
      MemberTokens(rules, ms.init) + Separator(rules, ms.init) + StringTokens(ms.key) + [Colon]
      + TokensOf(rules, ms.value)
  }

  // ---- The callbacks of a value, in order ----

  function StringCallbacks(s: bytes): seq<Event> {
    [BeginString] + Bytewise([Chunk(s)]) + [EndString]
  }

  /** The in-order traversal of a value, with one chunk per byte. */
  function Traversal(v: Value): seq<Event> {
    match v
    case NullValue => [NullEvent]
    case BoolValue(b) => [BoolEvent(b)]
    case IntValue(i) => [IntEvent(i)]
    case RealValue(r) => [DoubleEvent(r)]
    case StringValue(s) => StringCallbacks(s)
    case ArrayValue(items) => [BeginArray] + ItemsTraversal(items) + [EndArray]
    case ObjectValue(members) => [BeginObject] + MembersTraversal(members) + [EndObject]
  }

  function ItemsTraversal(items: Items): seq<Event> {
    if items.NoItems? then [] else ItemsTraversal(items.init) + Traversal(items.last)
  }

  function MembersTraversal(ms: Members): seq<Event> {
    if ms.NoMembers? then []
    else MembersTraversal(ms.init) + StringCallbacks(ms.key) + Traversal(ms.value)
  }

  lemma StringTokensEvents(s: bytes)
    ensures AllEvents(StringTokens(s)) == StringCallbacks(s)
  {
    AllEventsConcat([StringBegin] + StringBytes(s), [StringEnd]);
    AllEventsConcat([StringBegin], StringBytes(s));
    assert Bytewise([Chunk(s)]) == AllEvents(StringBytes(s)) + Bytewise([]);
    assert AllEvents([StringBegin]) == [BeginString] && AllEvents([StringEnd]) == [EndString];
  }

  lemma Events3(a: seq<Token>, b: seq<Token>, c: seq<Token>)
    ensures AllEvents(a + b + c) == AllEvents(a) + AllEvents(b) + AllEvents(c)
  {
    AllEventsConcat(a + b, c);
    AllEventsConcat(a, b);
  }

  /** Whatever separates its parts, a value's tokens report the traversal of the value. */
  lemma {:induction false} TokensReportTraversal(rules: Rules, v: Value)
    ensures AllEvents(TokensOf(rules, v)) == Traversal(v)
    decreases v
  {
    match v
    case StringValue(s) => StringTokensEvents(s);
    case ArrayValue(items) =>
      ItemTokensReport(rules, items);
      BracketedEvents(OpenBracket, ItemTokens(rules, items), CloseBracket);
    case ObjectValue(members) =>
      MemberTokensReport(rules, members);
      BracketedEvents(OpenCurly, MemberTokens(rules, members), CloseCurly);
    case _ => PrimitiveReports(rules, v);
  }

  lemma PrimitiveReports(rules: Rules, v: Value)
    requires v.NullValue? || v.BoolValue? || v.IntValue? || v.RealValue?
    ensures AllEvents(TokensOf(rules, v)) == Traversal(v)
  {
    OneEvent(TokensOf(rules, v)[0]);
  }

  lemma OneEvent(t: Token)
    ensures AllEvents([t]) == EventsOf(t)
  {
    assert EventsOf(t) + [] == EventsOf(t);
  }

  lemma BracketedEvents(o: Token, body: seq<Token>, c: Token)
    ensures AllEvents([o] + body + [c]) == EventsOf(o) + AllEvents(body) + EventsOf(c)
  {
    Events3([o], body, [c]);
    OneEvent(o);
    OneEvent(c);
  }

  lemma {:induction false} ItemTokensReport(rules: Rules, items: Items)
    ensures AllEvents(ItemTokens(rules, items)) == ItemsTraversal(items)
    decreases items
  {
    if items.Items? {
      ItemTokensReport(rules, items.init);
      TokensReportTraversal(rules, items.last);
      Events3(ItemTokens(rules, items.init), ItemSeparator(items.init), TokensOf(rules, items.last));
      assert AllEvents(ItemSeparator(items.init)) == [];
    }
  }

  lemma {:induction false} MemberTokensReport(rules: Rules, ms: Members)
    ensures AllEvents(MemberTokens(rules, ms)) == MembersTraversal(ms)
    decreases ms
  {
    if ms.Members? {
      MemberTokensReport(rules, ms.init);
      TokensReportTraversal(rules, ms.value);
      StringTokensEvents(ms.key);
      SilentSeparators(rules, ms.init);
      SilentBetween(MemberTokens(rules, ms.init), Separator(rules, ms.init), StringTokens(ms.key), [Colon],
                    TokensOf(rules, ms.value));
    }
  }

  lemma SilentSeparators(rules: Rules, ms: Members)
    ensures AllEvents(Separator(rules, ms)) == [] && AllEvents([Colon]) == []
  {
  }

  lemma SilentBetween(a: seq<Token>, s: seq<Token>, k: seq<Token>, c: seq<Token>, v: seq<Token>)
    requires AllEvents(s) == [] && AllEvents(c) == []
    ensures AllEvents(a + s + k + c + v) == AllEvents(a) + AllEvents(k) + AllEvents(v)
  {
    SilentMiddle(a, s, k);
    SilentMiddle(a + s + k, c, v);
  }

  lemma SilentMiddle(a: seq<Token>, s: seq<Token>, k: seq<Token>)
    requires AllEvents(s) == []
    ensures AllEvents(a + s + k) == AllEvents(a) + AllEvents(k)
  {
    Events3(a, s, k);
    assert AllEvents(a) + [] == AllEvents(a);
  }

  // ---- A consumer of the callbacks ----

  datatype Option<T> = None | Some(value: T)

  /** What has been built: a whole value, or the open containers with what they hold so far. */
  datatype Dom =
    | Empty
    | Whole(v: Value)
    | InArray(up: Dom, items: Items)
    | InObject(up: Dom, members: Members, key: Option<bytes>)

  /** `text` collects the string being read, if any. */
  datatype Builder = Builder(dom: Dom, text: Option<bytes>)

  /** Is a value what comes next? */
  predicate Awaits(d: Dom) {
    d.Empty? || d.InArray? || (d.InObject? && d.key.Some?)
  }

  function Put(d: Dom, v: Value): Dom {
    match d
    case Empty => Whole(v)
    case Whole(_) => d
    case InArray(up, items) => InArray(up, Items(items, v))
    case InObject(up, ms, key) => if key.None? then d else InObject(up, Members(ms, key.value, v), None)
  }

  function PutString(d: Dom, s: bytes): Dom {
    if d.InObject? && d.key.None? then d.(key := Some(s)) else Put(d, StringValue(s))
  }

  function Absorb(b: Builder, e: Event): Builder {
    match e
    case NullEvent => b.(dom := Put(b.dom, NullValue))
    case BoolEvent(x) => b.(dom := Put(b.dom, BoolValue(x)))
    case IntEvent(i) => b.(dom := Put(b.dom, IntValue(i)))
    case DoubleEvent(r) => b.(dom := Put(b.dom, RealValue(r)))
    case BeginString => b.(text := Some([]))
    case Chunk(data) => if b.text.None? then b else b.(text := Some(b.text.value + data))
    case EndString => if b.text.None? then b else Builder(PutString(b.dom, b.text.value), None)
    case BeginObject => b.(dom := InObject(b.dom, NoMembers, None))
    case EndObject => if b.dom.InObject? then b.(dom := Put(b.dom.up, ObjectValue(b.dom.members))) else b
    case BeginArray => b.(dom := InArray(b.dom, NoItems))
    case EndArray => if b.dom.InArray? then b.(dom := Put(b.dom.up, ArrayValue(b.dom.items))) else b
  }

  function AbsorbAll(b: Builder, es: seq<Event>): Builder
    decreases |es|
  {
    if es == [] then b else AbsorbAll(Absorb(b, es[0]), es[1..])
  }

  lemma {:induction false} AbsorbConcat(b: Builder, a: seq<Event>, c: seq<Event>)
    ensures AbsorbAll(b, a + c) == AbsorbAll(AbsorbAll(b, a), c)
    decreases |a|
  {
    if a == [] {
      assert a + c == c;
    } else {
      assert (a + c)[1..] == a[1..] + c;
      AbsorbConcat(Absorb(b, a[0]), a[1..], c);
    }
  }

  lemma AbsorbOne(b: Builder, e: Event)
    ensures AbsorbAll(b, [e]) == Absorb(b, e)
  {
  }

  lemma StringBytesTail(s: bytes)
    requires s != []
    ensures StringBytes(s)[0] == StringByte(s[0]) && StringBytes(s)[1..] == StringBytes(s[1..])
  {
  }

  lemma StringBytesSnoc(s: bytes, b: byte)
    ensures StringBytes(s + [b]) == StringBytes(s) + [StringByte(b)]
  {
  }

  lemma {:induction false} AbsorbBytes(d: Dom, sofar: bytes, s: bytes)
    ensures AbsorbAll(Builder(d, Some(sofar)), AllEvents(StringBytes(s))) == Builder(d, Some(sofar + s))
    decreases |s|
  {
    if s == [] {
      assert sofar + s == sofar;
    } else {
      StringBytesTail(s);
      var es := AllEvents(StringBytes(s[1..]));
      assert AllEvents(StringBytes(s)) == [Chunk([s[0]])] + es;
      assert ([Chunk([s[0]])] + es)[1..] == es;
      AbsorbBytes(d, sofar + [s[0]], s[1..]);
      assert sofar + [s[0]] + s[1..] == sofar + s;
    }
  }

  /** Cutting a string into other chunks gives the consumer the same result. */
  lemma {:induction false} ChunksDoNotMatter(b: Builder, es: seq<Event>)
    ensures AbsorbAll(b, Bytewise(es)) == AbsorbAll(b, es)
    decreases |es|
  {
    if es != [] {
      AbsorbConcat(b, CutUp(es[0]), Bytewise(es[1..]));
      if es[0].Chunk? {
        if b.text.Some? {
          AbsorbBytes(b.dom, b.text.value, es[0].data);
        } else {
          BytesIgnored(b, es[0].data);
        }
      } else {
        AbsorbOne(b, es[0]);
      }
      ChunksDoNotMatter(Absorb(b, es[0]), es[1..]);
    }
  }

  lemma {:induction false} BytesIgnored(b: Builder, s: bytes)
    requires b.text.None?
    ensures AbsorbAll(b, AllEvents(StringBytes(s))) == b
    decreases |s|
  {
    if s != [] {
      StringBytesTail(s);
      var es := AllEvents(StringBytes(s[1..]));
      assert AllEvents(StringBytes(s)) == [Chunk([s[0]])] + es;
      assert ([Chunk([s[0]])] + es)[1..] == es;
      BytesIgnored(b, s[1..]);
    }
  }

  lemma AbsorbStringCallbacks(d: Dom, s: bytes)
    ensures AbsorbAll(Builder(d, None), StringCallbacks(s)) == Builder(PutString(d, s), None)
  {
    var body := AllEvents(StringBytes(s));
    assert Bytewise([Chunk(s)]) == body + Bytewise([]);
    assert StringCallbacks(s) == [BeginString] + body + [EndString];
    AbsorbConcat(Builder(d, None), [BeginString] + body, [EndString]);
    AbsorbConcat(Builder(d, None), [BeginString], body);
    AbsorbOne(Builder(d, None), BeginString);
    AbsorbBytes(d, [], s);
    AbsorbOne(Builder(d, Some([] + s)), EndString);
    assert [] + s == s;
  }

  lemma Absorb3(b: Builder, x: seq<Event>, y: seq<Event>, z: seq<Event>)
    ensures AbsorbAll(b, x + y + z) == AbsorbAll(AbsorbAll(AbsorbAll(b, x), y), z)
  {
    AbsorbConcat(b, x + y, z);
    AbsorbConcat(b, x, y);
  }

  /** The consumer gets back exactly the value whose traversal it is shown. */
  lemma {:induction false} TraversalRebuilds(d: Dom, v: Value)
    requires Awaits(d)
    ensures AbsorbAll(Builder(d, None), Traversal(v)) == Builder(Put(d, v), None)
    decreases v
  {
    var b := Builder(d, None);
    match v
    case StringValue(s) => AbsorbStringCallbacks(d, s);
    case ArrayValue(items) =>
      Absorb3(b, [BeginArray], ItemsTraversal(items), [EndArray]);
      AbsorbOne(b, BeginArray);
      ItemsRebuild(d, items);
      AbsorbOne(Builder(InArray(d, items), None), EndArray);
    case ObjectValue(members) =>
      Absorb3(b, [BeginObject], MembersTraversal(members), [EndObject]);
      AbsorbOne(b, BeginObject);
      MembersRebuild(d, members);
      AbsorbOne(Builder(InObject(d, members, None), None), EndObject);
    case NullValue => AbsorbOne(b, NullEvent);
    case BoolValue(x) => AbsorbOne(b, BoolEvent(x));
    case IntValue(i) => AbsorbOne(b, IntEvent(i));
    case RealValue(r) => AbsorbOne(b, DoubleEvent(r));
  }

  lemma {:induction false} ItemsRebuild(up: Dom, items: Items)
    ensures AbsorbAll(Builder(InArray(up, NoItems), None), ItemsTraversal(items))
            == Builder(InArray(up, items), None)
    decreases items
  {
    if items.Items? {
      ItemsRebuild(up, items.init);
      TraversalRebuilds(InArray(up, items.init), items.last);
      AbsorbConcat(Builder(InArray(up, NoItems), None), ItemsTraversal(items.init), Traversal(items.last));
    }
  }

  lemma {:induction false} MembersRebuild(up: Dom, ms: Members)
    ensures AbsorbAll(Builder(InObject(up, NoMembers, None), None), MembersTraversal(ms))
            == Builder(InObject(up, ms, None), None)
    decreases ms
  {
    if ms.Members? {
      MembersRebuild(up, ms.init);
      AbsorbStringCallbacks(InObject(up, ms.init, None), ms.key);
      TraversalRebuilds(InObject(up, ms.init, Some(ms.key)), ms.value);
      Absorb3(Builder(InObject(up, NoMembers, None), None),
              MembersTraversal(ms.init), StringCallbacks(ms.key), Traversal(ms.value));
    }
  }

  /** Two values with the same callbacks are the same value. */
  lemma TraversalInjective(v: Value, w: Value)
    requires Traversal(v) == Traversal(w)
    ensures v == w
  {
    TraversalRebuilds(Empty, v);
    TraversalRebuilds(Empty, w);
  }
}
