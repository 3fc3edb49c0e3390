/** Printed text is the text of a tree without blanks that means the printed value, so
    reading it gives the value back, whatever follows it. */
module JsonRoundTrip {
  import opened Texts
  import opened Decimal
  import opened JsonValue
  import opened JsonText
  import opened JsonSyntax
  import opened JsonReader

  // ----- strings

  /** The units that are printed as a backslash and a letter. */
  const PRINTED_SHORT: map<Unit, Unit> := map[
    0x08 := 0x62, 0x09 := 0x74, 0x0A := 0x6E, 0x0C := 0x66, 0x0D := 0x72, 0x22 := 0x22, 0x5C := 0x5C]

  /** A short escape where there is one, four lower-case digits for other controls and for
      unpaired surrogates, and the unit itself otherwise. */
  function Spell(u: Unit): (c: Spelled)
    ensures ProperSpelled(c)
  {
    if u in PRINTED_SHORT then Short(PRINTED_SHORT[u])
    else if u < 0x20 || 0xD800 <= u <= 0xDFFF then
      Hex(Nibble(u / 0x1000, false), Nibble(u / 0x100 % 16, false), Nibble(u / 16 % 16, false), Nibble(u % 16, false))
    else Literal(u)
  }

  function SpellAll(t: Text): (chars: seq<Spelled>)
    ensures ProperChars(chars)
  {
    if t == [] then []
    else if PairAt(t) then [Literal(t[0]), Literal(t[1])] + SpellAll(t[2..])
    else [Spell(t[0])] + SpellAll(t[1..])
  }

  lemma HexParts(u: int)
    requires 0 <= u < 0x1_0000
    ensures 0x1000 * (u / 0x1000) + 0x100 * (u / 0x100 % 16) + 16 * (u / 16 % 16) + u % 16 == u
    ensures 0 <= u / 0x1000 < 16
  {
    var x, y, z := u / 16, u / 0x100, u / 0x1000;
    assert u == 16 * x + u % 16;
    assert y == x / 16 && x == 16 * y + x % 16;
    assert z == y / 16 && y == 16 * z + y % 16;
  }

  lemma HexDigitIs(n: int)
    requires 0 <= n < 16
    ensures HexDigit(n) == NibbleUnit(Nibble(n, false))
  {
  }

  lemma SpellShort(u: Unit)
    ensures u in PRINTED_SHORT <==> ShortEscape(u) != 0
    ensures u in PRINTED_SHORT ==> PRINTED_SHORT[u] == ShortEscape(u) && SpelledUnit(Spell(u)) == u
  {
  }

  lemma SpellHex(u: Unit)
    requires u !in PRINTED_SHORT && (u < 0x20 || 0xD800 <= u <= 0xDFFF)
    ensures SpelledText(Spell(u)) == UnicodeEscape(u) && SpelledUnit(Spell(u)) == u
  {
    HexParts(u);
    HexDigitIs(u / 0x1000);
    HexDigitIs(u / 0x100 % 16);
    HexDigitIs(u / 16 % 16);
    HexDigitIs(u % 16);
  }

  lemma SpellIsEscape(u: Unit)
    ensures SpelledText(Spell(u)) == EscapeUnit(u) && SpelledUnit(Spell(u)) == u
  {
    SpellShort(u);
    if u !in PRINTED_SHORT && (u < 0x20 || 0xD800 <= u <= 0xDFFF) {
      SpellHex(u);
    }
  }

  lemma {:induction false} EscapeThen(t: Text, rest: Text)
    ensures Escape(t) + rest == CharsThen(SpellAll(t), rest)
  {
    if t == [] {
      assert Escape(t) + rest == rest;
    } else if PairAt(t) {
      EscapeThen(t[2..], rest);
      ConcatAssociative(t[..2], Escape(t[2..]), rest);
      PairThen(t[0], t[1], SpellAll(t[2..]), rest);
      assert t[..2] == [t[0], t[1]];
    } else {
      EscapeThen(t[1..], rest);
      SpellIsEscape(t[0]);
      ConcatAssociative(EscapeUnit(t[0]), Escape(t[1..]), rest);
      assert SpellAll(t)[1..] == SpellAll(t[1..]);
    }
  }

  lemma PairThen(high: Unit, low: Unit, more: seq<Spelled>, rest: Text)
    requires high >= 0x80 && low >= 0x80 && ProperChars(more)
    ensures CharsThen([Literal(high), Literal(low)] + more, rest) == [high, low] + CharsThen(more, rest)
  {
    var chars := [Literal(high), Literal(low)] + more;
    assert chars[1..] == [Literal(low)] + more && chars[1..][1..] == more;
    assert [high] + ([low] + CharsThen(more, rest)) == [high, low] + CharsThen(more, rest);
  }

  lemma MeaningMore(chars: seq<Spelled>, more: seq<Spelled>)
    requires ProperChars(chars) && ProperChars(more)
    ensures CharsMeaning(chars + more) == CharsMeaning(chars) + CharsMeaning(more)
  {
  }

  lemma SpellPair(high: Unit, low: Unit)
    requires high >= 0x80 && low >= 0x80
    ensures CharsMeaning([Literal(high), Literal(low)]) == [high, low]
  {
  }

  lemma SpellOne(u: Unit)
    ensures CharsMeaning([Spell(u)]) == [u]
  {
    SpellIsEscape(u);
  }

  lemma {:induction false} SpellMeans(t: Text)
    ensures CharsMeaning(SpellAll(t)) == t
  {
    if t != [] {
      if PairAt(t) {
        var more := t[2..];
        SpellMeans(more);
        MeaningMore([Literal(t[0]), Literal(t[1])], SpellAll(more));
        SpellPair(t[0], t[1]);
        assert t == [t[0], t[1]] + more;
      } else {
        var more := t[1..];
        SpellMeans(more);
        MeaningMore([Spell(t[0])], SpellAll(more));
        SpellOne(t[0]);
        assert t == [t[0]] + more;
      }
    }
  }

  lemma QuotedThen(t: Text, rest: Text)
    ensures Quoted(t) + rest == StringThen(SpellAll(t), rest)
  {
    EscapeThen(t, [QUOTE] + rest);
    ConcatAssociative([QUOTE] + Escape(t), [QUOTE], rest);
    ConcatAssociative([QUOTE], Escape(t), [QUOTE] + rest);
  }

  lemma ReadQuoted(t: Text, rest: Text)
    ensures var s := Quoted(t) + rest;
            s[0] == QUOTE && ReadChars(s[1..]) == Got(t, rest)
  {
    var s := Quoted(t) + rest;
    QuotedThen(t, rest);
    assert s[1..] == CharsThen(SpellAll(t), [QUOTE] + rest);
    ReadCharsThen(SpellAll(t), rest);
    SpellMeans(t);
  }

  // ----- values

  function CompactNumber(n: int): (c: Numeric)
    ensures ProperNumeric(c)
  {
    Numeric(n < 0, Digits(if n < 0 then -n else n), [], NoExponent)
  }

  lemma NumeralThen(n: int, round: Rounding)
    requires SafeInteger(n)
    ensures Numeral(n) == NumericText(CompactNumber(n)) && NumericMeaning(CompactNumber(n), round) == Safe(n)
  {
    ValueOfDigits(if n < 0 then -n else n);
    var w := WholePart(CompactNumber(n));
    assert w + ([] + []) == w;
    assert [] + Digits(if n < 0 then -n else n) == Digits(if n < 0 then -n else n);
  }

  /** The tree of a value: no blanks anywhere, members in the order they are stored. */
  function Compact(v: Json): (t: Tree)
    requires Publishable(v)
    ensures Proper(t)
  {
    match v
    case Null => NullWord
    case Bool(b) => if b then TrueWord else FalseWord
    case Num(n) => Number(CompactNumber(n.n))
    case Str(s) => String(SpellAll(s))
    case Arr(items) => Array([], CompactItems(items))
    case Obj(members) => Object([], CompactMembers(members))
  }

  function CompactItems(l: List<Json>): (r: List<Item>)
    requires PublishableItems(l)
    ensures ProperItems(r)
  {
    match l
    case Nil => Nil
    case Cons(v, more) => Cons(Item([], Compact(v), []), CompactItems(more))
  }

  function CompactMembers(l: List<Entry<Json>>): (r: List<Member>)
    requires PublishableMembers(l)
    ensures ProperMembers(r)
  {
    match l
    case Nil => Nil
    case Cons(e, more) => Cons(Member([], SpellAll(e.key), [], [], Compact(e.value), []), CompactMembers(more))
  }

  lemma NoBlanks(t: Text)
    ensures [] + t == t
  {
  }

  /** What is printed is the text of the compact tree. */
  lemma {:induction false} PrintThen(v: Json, rest: Text)
    requires Valid(v) && Publishable(v)
    ensures Print(v) + rest == TreeThen(Compact(v), rest)
    decreases v, 0
  {
    match v
    case Num(n) => NumeralThen(n.n, _ => Inexact);
    case Str(s) => QuotedThen(s, rest);
    case Arr(items) =>
      PrintItemsThen(items, [CLOSE_LIST] + rest);
      Bracketed(OPEN_LIST, PrintItems(items), CLOSE_LIST, rest);
    case Obj(members) =>
      PrintMembersThen(members, [CLOSE_OBJECT] + rest);
      Bracketed(OPEN_OBJECT, PrintMembers(members), CLOSE_OBJECT, rest);
    case _ =>
  }

  lemma Bracketed(open: Unit, body: Text, close: Unit, rest: Text)
    ensures [open] + body + [close] + rest == [open] + (body + ([close] + rest))
  {
    ConcatAssociative([open] + body, [close], rest);
    ConcatAssociative([open], body, [close] + rest);
  }

  lemma {:induction false} PrintItemsThen(l: List<Json>, rest: Text)
    requires ValidItems(l) && PublishableItems(l)
    ensures PrintItems(l) + rest == ItemsThen([], CompactItems(l), rest)
    decreases l, 1
  {
    if l.Cons? {
      var next := MoreItems(CompactItems(l.tail), rest);
      PrintThen(l.head, next);
      NoBlanks(next);
      NoBlanks(TreeThen(Compact(l.head), next));
      if l.tail.Cons? {
        PrintItemsThen(l.tail, rest);
        MoreIsItems([], CompactItems(l.tail), rest);
        ConcatAssociative(Print(l.head) + [COMMA], PrintItems(l.tail), rest);
        ConcatAssociative(Print(l.head), [COMMA], PrintItems(l.tail) + rest);
      }
    }
  }

  lemma MemberTextThen(e: Entry<Json>, next: Text)
    requires Publishable(e.value) && Print(e.value) + next == TreeThen(Compact(e.value), next)
    ensures MemberText(e) + next == MemberThen(Member([], SpellAll(e.key), [], [], Compact(e.value), []), next)
  {
    var value := TreeThen(Compact(e.value), next);
    ConcatAssociative(Quoted(e.key) + [COLON], Print(e.value), next);
    ConcatAssociative(Quoted(e.key), [COLON], value);
    QuotedThen(e.key, [COLON] + value);
    NoBlanks(next);
    NoBlanks(value);
    NoBlanks([COLON] + value);
  }

  lemma {:induction false} PrintMembersThen(l: List<Entry<Json>>, rest: Text)
    requires ValidMembers(l) && PublishableMembers(l)
    ensures PrintMembers(l) + rest == MembersThen([], CompactMembers(l), rest)
    decreases l, 1
  {
    if l.Cons? {
      var next := MoreMembers(CompactMembers(l.tail), rest);
      PrintThen(l.head.value, next);
      MemberTextThen(l.head, next);
      NoBlanks(MemberText(l.head) + next);
      if l.tail.Cons? {
        PrintMembersThen(l.tail, rest);
        MoreIsMembers([], CompactMembers(l.tail), rest);
        ConcatAssociative(MemberText(l.head) + [COMMA], PrintMembers(l.tail), rest);
        ConcatAssociative(MemberText(l.head), [COMMA], PrintMembers(l.tail) + rest);
      }
    }
  }

  function Append<T>(a: List<T>, b: List<T>): List<T> {
    match a
    case Nil => b
    case Cons(x, t) => Cons(x, Append(t, b))
  }

  lemma {:induction false} PutAppends<T>(l: List<Entry<T>>, e: Entry<T>, more: List<Entry<T>>)
    requires e.key !in Keys(l)
    ensures Append(Put(l, e.key, e.value), more) == Append(l, Cons(e, more))
  {
    if l.Cons? {
      PutAppends(l.tail, e, more);
    }
  }

  lemma {:induction false} AppendNil<T>(l: List<T>)
    ensures Append(l, Nil) == l
  {
    if l.Cons? {
      AppendNil(l.tail);
    }
  }

  /** The compact tree means the value. */
  lemma {:induction false} CompactMeans(v: Json, round: Rounding)
    requires Valid(v) && Publishable(v)
    ensures Meaning(Compact(v), round) == v
    decreases v, 0
  {
    match v
    case Num(n) => NumeralThen(n.n, round);
    case Str(s) => SpellMeans(s);
    case Arr(items) => CompactItemsMean(items, round);
    case Obj(members) => CompactMembersMean(members, Nil, round);
    case _ =>
  }

  lemma {:induction false} CompactItemsMean(l: List<Json>, round: Rounding)
    requires ValidItems(l) && PublishableItems(l)
    ensures ItemsMeaning(CompactItems(l), round) == l
    decreases l, 1
  {
    if l.Cons? {
      CompactMeans(l.head, round);
      CompactItemsMean(l.tail, round);
    }
  }

  lemma {:induction false} CompactMembersMean(l: List<Entry<Json>>, before: List<Entry<Json>>, round: Rounding)
    requires Distinct(l) && ValidMembers(l) && PublishableMembers(l) && Keys(before) !! Keys(l)
    ensures Assigned(before, CompactMembers(l), round) == Append(before, l)
    decreases l, 1
  {
    if l.Nil? {
      AppendNil(before);
    } else {
      CompactMeans(l.head.value, round);
      SpellMeans(l.head.key);
      PutAppends(before, l.head, l.tail);
      CompactMembersMean(l.tail, Put(before, l.head.key, l.head.value), round);
    }
  }

  /** The reader takes exactly the printed value off the front of what follows it. */
  lemma ReadPrinted(v: Json, rest: Text, round: Rounding)
    requires Valid(v) && Publishable(v) && Follows(rest)
    ensures ReadValue(Print(v) + rest, round) == Got(v, rest)
  {
    PrintThen(v, rest);
    CompactMeans(v, round);
    ReadTree(Compact(v), [], rest, round);
    NoBlanks(Print(v) + rest);
  }

  /** `JSON.parse` of the printed text is the printed value. */
  lemma ParsePrinted(v: Json, round: Rounding)
    requires Valid(v) && Publishable(v)
    ensures Parse(Print(v), round) == Some(v)
  {
    ReadPrinted(v, [], round);
    assert Print(v) + [] == Print(v);
  }

  /** Blanks around printed text do not matter, and anything else after it does. */
  lemma ParseAround(before: Text, v: Json, after: Text, round: Rounding)
    requires Valid(v) && Publishable(v) && Spaces(before) && Follows(after)
    ensures Parse(before + (Print(v) + after), round) == if Spaces(after) then Some(v) else None
  {
    PrintThen(v, after);
    CompactMeans(v, round);
    ReadTree(Compact(v), before, after, round);
    var b := SpacesBefore(after);
    if Spaces(after) {
      SkipSpaces(after, []);
      assert after + [] == after;
    }
  }

  // ----- what the reader returns is a value that JSON.parse can build

  lemma {:induction false} PutValid(l: List<Entry<Json>>, key: Text, v: Json)
    requires ValidMembers(l) && Valid(v)
    ensures ValidMembers(Put(l, key, v))
  {
    if l.Cons? {
      PutValid(l.tail, key, v);
    }
  }

  lemma {:induction false} ReadValid(s: Text, round: Rounding)
    ensures ReadValue(s, round).Got? ==> Valid(ReadValue(s, round).value)
    decreases |s|, 1
  {
    var t := SkipBlanks(s);
    if t != [] && t[0] == OPEN_LIST {
      ReadItemsValid(SkipBlanks(t[1..]), round);
    } else if t != [] && t[0] == OPEN_OBJECT {
      ReadMembersValid(SkipBlanks(t[1..]), Nil, round);
    }
  }

  lemma {:induction false} ReadItemsValid(s: Text, round: Rounding)
    ensures ReadItems(s, round).Got? ==> ValidItems(ReadItems(s, round).value)
    decreases |s|, 2
  {
    ReadValid(s, round);
    var r := ReadValue(s, round);
    if r.Got? && SkipBlanks(r.rest) != [] {
      ReadItemsValid(SkipBlanks(r.rest)[1..], round);
    }
  }

  lemma {:induction false} ReadMemberValid(s: Text, round: Rounding)
    ensures ReadMember(s, round).Got? ==> Valid(ReadMember(s, round).value.value)
    decreases |s|, 2
  {
    var t := SkipBlanks(s);
    if t != [] && t[0] == QUOTE && ReadChars(t[1..]).Got? {
      var c := SkipBlanks(ReadChars(t[1..]).rest);
      if c != [] {
        ReadValid(c[1..], round);
      }
    }
  }

  lemma {:induction false} ReadMembersValid(s: Text, before: List<Entry<Json>>, round: Rounding)
    requires Distinct(before) && ValidMembers(before)
    ensures var r := ReadMembers(s, before, round);
            r.Got? ==> Distinct(r.value) && ValidMembers(r.value)
    decreases |s|, 3
  {
    ReadMemberValid(s, round);
    var r := ReadMember(s, round);
    if r.Got? {
      PutValid(before, r.value.key, r.value.value);
      var t := SkipBlanks(r.rest);
      if t != [] {
        ReadMembersValid(t[1..], Put(before, r.value.key, r.value.value), round);
      }
    }
  }

  lemma ParseValid(raw: Text, round: Rounding)
    ensures Parse(raw, round).Some? ==> Valid(Parse(raw, round).value)
  {
    ReadValid(raw, round);
  }
}
