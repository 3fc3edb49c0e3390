/** The request line of the QMP client, read back as JSON. */
module QmpRequest {
  import opened Texts
  import opened Decimal
  import opened JsonValue
  import opened JsonText
  import opened JsonSyntax
  import opened JsonReader
  import opened JsonRoundTrip
  import opened Qmp

  // ----- text and what follows it

  lemma {:induction false} CharsThenMore(chars: seq<Spelled>, rest: Text, more: Text)
    requires ProperChars(chars)
    ensures CharsThen(chars, rest) + more == CharsThen(chars, rest + more)
  {
    if chars != [] {
      CharsThenMore(chars[1..], rest, more);
      Associative(SpelledText(chars[0]), CharsThen(chars[1..], rest), more);
    }
  }

  lemma Associative(a: Text, b: Text, c: Text)
    ensures a + b + c == a + (b + c)
  {
  }

  lemma StringThenMore(chars: seq<Spelled>, rest: Text, more: Text)
    requires ProperChars(chars)
    ensures StringThen(chars, rest) + more == StringThen(chars, rest + more)
  {
    CharsThenMore(chars, [0x22] + rest, more);
    Associative([0x22], CharsThen(chars, [0x22] + rest), more);
    Associative([0x22], rest, more);
  }

  /** What follows a tree can be cut anywhere. */
  lemma {:induction false} TreeThenMore(t: Tree, rest: Text, more: Text)
    requires Proper(t)
    ensures TreeThen(t, rest) + more == TreeThen(t, rest + more)
    decreases t
  {
    match t
    case String(chars) => StringThenMore(chars, rest, more);
    case Number(n) => Associative(NumericText(n), rest, more);
    case Array(blanks, items) =>
      ItemsThenMore(blanks, items, [0x5D] + rest, more);
      Associative([0x5B], ItemsThen(blanks, items, [0x5D] + rest), more);
      Associative([0x5D], rest, more);
    case Object(blanks, members) =>
      MembersThenMore(blanks, members, [0x7D] + rest, more);
      Associative([0x7B], MembersThen(blanks, members, [0x7D] + rest), more);
      Associative([0x7D], rest, more);
    case NullWord => Associative([0x6E, 0x75, 0x6C, 0x6C], rest, more);
    case TrueWord => Associative([0x74, 0x72, 0x75, 0x65], rest, more);
    case FalseWord => Associative([0x66, 0x61, 0x6C, 0x73, 0x65], rest, more);
  }

  lemma {:induction false} ItemsThenMore(blanks: Text, l: List<Item>, rest: Text, more: Text)
    requires ProperItems(l)
    ensures ItemsThen(blanks, l, rest) + more == ItemsThen(blanks, l, rest + more)
    decreases l
  {
    match l
    case Nil => Associative(blanks, rest, more);
    case Cons(i, others) =>
      MoreItemsMore(others, rest, more);
      var after := i.after + MoreItems(others, rest);
      Associative(i.after, MoreItems(others, rest), more);
      TreeThenMore(i.value, after, more);
      Associative(i.before, TreeThen(i.value, after), more);
  }

  lemma {:induction false} MoreItemsMore(l: List<Item>, rest: Text, more: Text)
    requires ProperItems(l)
    ensures MoreItems(l, rest) + more == MoreItems(l, rest + more)
    decreases l
  {
    match l
    case Nil =>
    case Cons(i, others) =>
      MoreItemsMore(others, rest, more);
      var after := i.after + MoreItems(others, rest);
      Associative(i.after, MoreItems(others, rest), more);
      TreeThenMore(i.value, after, more);
      Associative(i.before, TreeThen(i.value, after), more);
      Associative([0x2C], i.before + TreeThen(i.value, after), more);
  }

  lemma {:induction false} MemberThenMore(m: Member, rest: Text, more: Text)
    requires ProperChars(m.key) && Proper(m.value)
    ensures MemberThen(m, rest) + more == MemberThen(m, rest + more)
    decreases m
  {
    var value := TreeThen(m.value, m.after + rest);
    Associative(m.after, rest, more);
    TreeThenMore(m.value, m.after + rest, more);
    Associative(m.afterColon, value, more);
    Associative([0x3A], m.afterColon + value, more);
    Associative(m.beforeColon, [0x3A] + (m.afterColon + value), more);
    StringThenMore(m.key, m.beforeColon + ([0x3A] + (m.afterColon + value)), more);
  }

  lemma {:induction false} MembersThenMore(blanks: Text, l: List<Member>, rest: Text, more: Text)
    requires ProperMembers(l)
    ensures MembersThen(blanks, l, rest) + more == MembersThen(blanks, l, rest + more)
    decreases l
  {
    match l
    case Nil => Associative(blanks, rest, more);
    case Cons(m, others) =>
      MoreMembersMore(others, rest, more);
      MemberThenMore(m, MoreMembers(others, rest), more);
      Associative(m.before, MemberThen(m, MoreMembers(others, rest)), more);
  }

  lemma {:induction false} MoreMembersMore(l: List<Member>, rest: Text, more: Text)
    requires ProperMembers(l)
    ensures MoreMembers(l, rest) + more == MoreMembers(l, rest + more)
    decreases l
  {
    match l
    case Nil =>
    case Cons(m, others) =>
      MoreMembersMore(others, rest, more);
      MemberThenMore(m, MoreMembers(others, rest), more);
      Associative(m.before, MemberThen(m, MoreMembers(others, rest)), more);
      Associative([0x2C], m.before + MemberThen(m, MoreMembers(others, rest)), more);
  }

  // ----- the request

  /** The object of a request. */
  function RequestObject(command: Json, request: int, arguments: Option<Json>): Json {
    Obj(Cons(Entry(Ascii("execute"), command),
             Cons(Entry(Ascii("id"), Num(Safe(request))),
                  if arguments.Some? then Cons(Entry(Ascii("arguments"), arguments.value), Nil) else Nil)))
  }

  /** Lower-case letters are written as themselves. */
  predicate Plain(t: Text) {
    forall i | 0 <= i < |t| :: 0x61 <= t[i] <= 0x7A
  }

  function Literals(t: Text): (chars: seq<Spelled>)
    requires Plain(t)
    ensures ProperChars(chars)
  {
    seq(|t|, i requires 0 <= i < |t| => Literal(t[i]))
  }

  lemma {:induction false} LiteralsThen(t: Text, rest: Text)
    requires Plain(t)
    ensures CharsThen(Literals(t), rest) == t + rest
  {
    if t != [] {
      LiteralsThen(t[1..], rest);
      assert Literals(t)[1..] == Literals(t[1..]);
      assert t == [t[0]] + t[1..];
      Associative([t[0]], t[1..], rest);
    } else {
      assert t + rest == rest;
    }
  }

  lemma LiteralsMean(t: Text)
    requires Plain(t)
    ensures CharsMeaning(Literals(t)) == t
  {
  }

  /** A key in quotes, a colon and a value with the blanks around it. */
  function Keyed(name: Text, before: Text, value: Tree, after: Text): Member
    requires Plain(name)
  {
    Member([], Literals(name), [], before, value, after)
  }

  /** The text of such a member. */
  lemma KeyedThen(name: Text, before: Text, value: Tree, after: Text, rest: Text)
    requires Plain(name) && Proper(value)
    ensures MemberThen(Keyed(name, before, value, after), rest) ==
            [0x22] + name + [0x22, 0x3A] + (before + TreeThen(value, after)) + rest
  {
    var text := before + TreeThen(value, after + rest);
    TreeThenMore(value, after, rest);
    Associative(before, TreeThen(value, after), rest);
    LiteralsThen(name, [0x22] + ([] + ([0x3A] + text)));
    assert [] + ([0x3A] + text) == [0x3A] + text;
    assert [0x22] + ([0x3A] + text) == [0x22, 0x3A] + text;
    Associative(name, [0x22, 0x3A], text);
    Associative([0x22], name + [0x22, 0x3A], text);
    Associative([0x22], name, [0x22, 0x3A]);
    Associative([0x22] + name + [0x22, 0x3A], before + TreeThen(value, after), rest);
  }

  /** The text before the value of a member. */
  function Label(name: Text): Text {
    [0x22] + name + [0x22, 0x3A]
  }

  predicate ProperItem(i: Item) {
    Spaces(i.before) && Proper(i.value) && Spaces(i.after)
  }

  function ItemText(i: Item): Text
    requires ProperItem(i)
  {
    i.before + TreeThen(i.value, i.after)
  }

  function Named(name: Text, i: Item, more: List<Member>): (l: List<Member>)
    requires Plain(name) && ProperItem(i) && ProperMembers(more)
    ensures ProperMembers(l)
  {
    Cons(Keyed(name, i.before, i.value, i.after), more)
  }

  lemma NamedThen(name: Text, i: Item, more: List<Member>, rest: Text)
    requires Plain(name) && ProperItem(i) && ProperMembers(more)
    ensures MembersThen([], Named(name, i, more), rest) == Label(name) + ItemText(i) + MoreMembers(more, rest)
    ensures MoreMembers(Named(name, i, more), rest) == [0x2C] + (Label(name) + ItemText(i) + MoreMembers(more, rest))
  {
    var text := MemberThen(Keyed(name, i.before, i.value, i.after), MoreMembers(more, rest));
    KeyedThen(name, i.before, i.value, i.after, MoreMembers(more, rest));
    assert [] + text == text;
  }

  /** Assigning a new key appends it. */
  lemma AssignOne(before: List<Entry<Json>>, name: Text, i: Item, more: List<Member>, round: Rounding)
    requires Plain(name) && ProperItem(i) && ProperMembers(more)
    ensures Assigned(before, Named(name, i, more), round) ==
            Assigned(Put(before, name, Meaning(i.value, round)), more, round)
  {
    LiteralsMean(name);
  }

  function RequestMembers(c: Item, n: Item, a: Option<Item>): (l: List<Member>)
    requires ProperItem(c) && ProperItem(n) && (a.Some? ==> ProperItem(a.value))
    ensures ProperMembers(l)
  {
    Named(Ascii("execute"), c,
          Named(Ascii("id"), n, if a.Some? then Named(Ascii("arguments"), a.value, Nil) else Nil))
  }

  lemma RequestMeaning(c: Item, n: Item, a: Option<Item>, request: int, round: Rounding)
    requires ProperItem(c) && ProperItem(n) && (a.Some? ==> ProperItem(a.value))
    requires Meaning(n.value, round) == Num(Safe(request))
    ensures Meaning(Tree.Object([], RequestMembers(c, n, a)), round) ==
            RequestObject(Meaning(c.value, round), request,
                          if a.Some? then Some(Meaning(a.value.value, round)) else None)
  {
    var last := if a.Some? then Named(Ascii("arguments"), a.value, Nil) else Nil;
    NamesDiffer();
    TwoAssigned(Ascii("execute"), c, Ascii("id"), n, last, round);
    if a.Some? {
      ThirdAssigned(Ascii("execute"), Meaning(c.value, round), Ascii("id"), Num(Safe(request)),
                    Ascii("arguments"), a.value, round);
    }
  }

  lemma TwoAssigned(k: Text, c: Item, l: Text, n: Item, more: List<Member>, round: Rounding)
    requires Plain(k) && Plain(l) && k != l && ProperItem(c) && ProperItem(n) && ProperMembers(more)
    ensures Assigned(Nil, Named(k, c, Named(l, n, more)), round) ==
            Assigned(Cons(Entry(k, Meaning(c.value, round)), Cons(Entry(l, Meaning(n.value, round)), Nil)), more, round)
  {
    AssignOne(Nil, k, c, Named(l, n, more), round);
    AssignOne(Put(Nil, k, Meaning(c.value, round)), l, n, more, round);
    PutTwo(k, Meaning(c.value, round), l, Meaning(n.value, round));
  }

  lemma ThirdAssigned(k: Text, v: Json, l: Text, w: Json, m: Text, i: Item, round: Rounding)
    requires k != m && l != m && Plain(m) && ProperItem(i)
    ensures Assigned(Cons(Entry(k, v), Cons(Entry(l, w), Nil)), Named(m, i, Nil), round) ==
            Cons(Entry(k, v), Cons(Entry(l, w), Cons(Entry(m, Meaning(i.value, round)), Nil)))
  {
    AssignOne(Cons(Entry(k, v), Cons(Entry(l, w), Nil)), m, i, Nil, round);
    PutThird(k, v, l, w, m, Meaning(i.value, round));
  }

  lemma NamesDiffer()
    ensures Ascii("execute") != Ascii("id") && Ascii("execute") != Ascii("arguments")
    ensures Ascii("id") != Ascii("arguments")
  {
    assert |Ascii("execute")| == 7 && |Ascii("id")| == 2 && |Ascii("arguments")| == 9;
  }

  lemma PutTwo(k: Text, v: Json, l: Text, w: Json)
    requires k != l
    ensures Put(Put(Nil, k, v), l, w) == Cons(Entry(k, v), Cons(Entry(l, w), Nil))
  {
  }

  lemma PutThird(k: Text, v: Json, l: Text, w: Json, m: Text, x: Json)
    requires k != m && l != m
    ensures Put(Cons(Entry(k, v), Cons(Entry(l, w), Nil)), m, x) ==
            Cons(Entry(k, v), Cons(Entry(l, w), Cons(Entry(m, x), Nil)))
  {
    assert Put(Cons(Entry(l, w), Nil), m, x) == Cons(Entry(l, w), Put(Nil, m, x));
  }

  lemma Labels()
    ensures [0x7B] + Label(Ascii("execute")) == Ascii("{\"execute\":")
    ensures [0x2C] + Label(Ascii("id")) == Ascii(",\"id\":")
    ensures [0x2C] + Label(Ascii("arguments")) == Ascii(",\"arguments\":")
  {
  }

  /** The text of the members of a request, whatever their names. */
  lemma MembersText(k: Text, c: Item, l: Text, n: Item, m: Text, a: Option<Item>, end: Text)
    requires Plain(k) && Plain(l) && Plain(m)
    requires ProperItem(c) && ProperItem(n) && (a.Some? ==> ProperItem(a.value))
    ensures [0x7B] + MembersThen([], Named(k, c, Named(l, n, if a.Some? then Named(m, a.value, Nil) else Nil)), end) ==
            [0x7B] + Label(k) + ItemText(c) + ([0x2C] + Label(l) + ItemText(n)
            + ((if a.Some? then [0x2C] + Label(m) + ItemText(a.value) else []) + end))
  {
    var last := if a.Some? then Named(m, a.value, Nil) else Nil;
    var middle := Named(l, n, last);
    NamedThen(k, c, middle, end);
    NamedThen(l, n, last, end);
    Prefixed(Label(k), ItemText(c), MoreMembers(middle, end), 0x7B);
    Prefixed(Label(l), ItemText(n), MoreMembers(last, end), 0x2C);
    if a.Some? {
      NamedThen(m, a.value, Nil, end);
      Prefixed(Label(m), ItemText(a.value), end, 0x2C);
    } else {
      assert [] + end == end;
    }
  }

  /** The text of a tree of a request. */
  lemma RequestThen(c: Item, n: Item, a: Option<Item>, rest: Text)
    requires ProperItem(c) && ProperItem(n) && (a.Some? ==> ProperItem(a.value))
    ensures TreeThen(Tree.Object([], RequestMembers(c, n, a)), rest) ==
            Ascii("{\"execute\":") + ItemText(c) + (Ascii(",\"id\":") + ItemText(n)
            + ((if a.Some? then Ascii(",\"arguments\":") + ItemText(a.value) else []) + ([0x7D] + rest)))
  {
    Labels();
    MembersText(Ascii("execute"), c, Ascii("id"), n, Ascii("arguments"), a, [0x7D] + rest);
  }

  lemma Prefixed(key: Text, value: Text, more: Text, u: Unit)
    ensures [u] + (key + value + more) == ([u] + key) + value + more
  {
  }

  /** The tree of a request means its object, and its text is the request line. */
  lemma RequestIsText(
    command: Bytes, request: int, arguments: Option<Bytes>, c: Item, a: Option<Item>, round: Rounding)
    requires SafeInteger(request) && ProperItem(c) && command == ItemText(c)
    requires arguments.Some? <==> a.Some?
    requires a.Some? ==> ProperItem(a.value) && arguments.value == ItemText(a.value)
    ensures Writes(Payload(command, request, arguments),
                   RequestObject(Meaning(c.value, round), request,
                                 if a.Some? then Some(Meaning(a.value.value, round)) else None), round)
  {
    var n := RequestNumber(request, round);
    RequestMeaning(c, n, a, request, round);
    RequestThen(c, n, a, [CR, LF]);
    PayloadIs(command, request, arguments);
    var whole := Tree.Object([], RequestMembers(c, n, a));
    assert [] + TreeThen(whole, [CR, LF]) == TreeThen(whole, [CR, LF]);
    assert IsText(Payload(command, request, arguments), [], whole, [CR, LF]);
  }

  lemma RequestNumber(request: int, round: Rounding) returns (n: Item)
    requires SafeInteger(request)
    ensures ProperItem(n) && ItemText(n) == Numeral(request) && Meaning(n.value, round) == Num(Safe(request))
  {
    n := Item([], Number(CompactNumber(request)), []);
    NumeralThen(request, round);
    assert [] + (Numeral(request) + []) == Numeral(request);
  }

  lemma WrittenItem(raw: Text, v: Json, round: Rounding) returns (i: Item)
    requires Writes(raw, v, round)
    ensures ProperItem(i) && ItemText(i) == raw && Meaning(i.value, round) == v
  {
    var before, t, after :| IsText(raw, before, t, after) && Meaning(t, round) == v;
    i := Item(before, t, after);
  }

  /** A request line is JSON text of the object that names the command, carries the number
      and, when there are any, the arguments, whatever text was written for them. */
  lemma PayloadWrites(
    command: Bytes, request: int, arguments: Option<Bytes>, c: Json, a: Option<Json>, round: Rounding)
    requires SafeInteger(request) && Writes(command, c, round)
    requires arguments.Some? <==> a.Some?
    requires arguments.Some? ==> Writes(arguments.value, a.value, round)
    ensures Writes(Payload(command, request, arguments), RequestObject(c, request, a), round)
  {
    var item := WrittenItem(command, c, round);
    var more: Option<Item> := None;
    if arguments.Some? {
      var i := WrittenItem(arguments.value, a.value, round);
      more := Some(i);
    }
    RequestIsText(command, request, arguments, item, more, round);
  }

  lemma PayloadIs(command: Bytes, request: int, arguments: Option<Bytes>)
    ensures Payload(command, request, arguments) ==
            Ascii("{\"execute\":") + command + (Ascii(",\"id\":") + Numeral(request)
            + ((if arguments.Some? then Ascii(",\"arguments\":") + arguments.value else []) + ([0x7D] + [CR, LF])))
  {
    var rest := if arguments.Some? then Ascii(",\"arguments\":") + arguments.value else [];
    assert Ascii("}") == [0x7D];
    FiveParts(Ascii("{\"execute\":") + command, Ascii(",\"id\":"), Numeral(request), rest, [0x7D], [CR, LF]);
  }

  lemma FiveParts(a: Text, b: Text, c: Text, d: Text, e: Text, f: Text)
    ensures a + b + c + d + e + f == a + (b + c + (d + (e + f)))
  {
  }
}
