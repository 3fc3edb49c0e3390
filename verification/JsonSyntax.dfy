/** The texts that section 2 of RFC 8259 derives, as trees that record every choice of the
    writer: blanks, escapes, letter case of hexadecimal digits, and the form of numerals.
    A tree has a text and a meaning; no reader is mentioned here. */
module JsonSyntax {
  import opened Texts
  import opened Decimal
  import opened JsonValue
  import opened JsonText

  /** Space, horizontal tab, line feed, carriage return. */
  const SPACES: set<Unit> := {0x20, 0x09, 0x0A, 0x0D}

  predicate Spaces(b: Text) {
    forall i | 0 <= i < |b| :: b[i] in SPACES
  }

  // ----- strings

  const LOWER_HEX: Text := [
    0x30, 0x31, 0x32, 0x33, 0x34, 0x35, 0x36, 0x37, 0x38, 0x39, 0x61, 0x62, 0x63, 0x64, 0x65, 0x66]
  const UPPER_HEX: Text := [
    0x30, 0x31, 0x32, 0x33, 0x34, 0x35, 0x36, 0x37, 0x38, 0x39, 0x41, 0x42, 0x43, 0x44, 0x45, 0x46]

  /** The letters after a backslash and the units that they stand for. */
  const SHORT: map<Unit, Unit> := map[
    0x22 := 0x22, 0x5C := 0x5C, 0x2F := 0x2F, 0x62 := 0x08, 0x66 := 0x0C, 0x6E := 0x0A, 0x72 := 0x0D, 0x74 := 0x09]

  datatype Nibble = Nibble(value: int, upper: bool)

  predicate ProperNibble(n: Nibble) {
    0 <= n.value < 16
  }

  function NibbleUnit(n: Nibble): Unit
    requires ProperNibble(n)
  {
    if n.upper then UPPER_HEX[n.value] else LOWER_HEX[n.value]
  }

  /** One character of a string: itself, a backslash and a letter, or four hexadecimal digits. */
  datatype Spelled = Literal(u: Unit) | Short(letter: Unit) | Hex(a: Nibble, b: Nibble, c: Nibble, d: Nibble)

  predicate ProperSpelled(c: Spelled) {
    match c
    case Literal(u) => u >= 0x20 && u != 0x22 && u != 0x5C
    case Short(letter) => letter in SHORT
    case Hex(a, b, c, d) => ProperNibble(a) && ProperNibble(b) && ProperNibble(c) && ProperNibble(d)
  }

  function SpelledText(c: Spelled): Text
    requires ProperSpelled(c)
  {
    match c
    case Literal(u) => [u]
    case Short(letter) => [0x5C, letter]
    case Hex(a, b, c, d) => [0x5C, 0x75, NibbleUnit(a), NibbleUnit(b), NibbleUnit(c), NibbleUnit(d)]
  }

  function SpelledUnit(c: Spelled): Unit
    requires ProperSpelled(c)
  {
    match c
    case Literal(u) => u
    case Short(letter) => SHORT[letter]
    case Hex(a, b, c, d) => 0x1000 * a.value + 0x100 * b.value + 16 * c.value + d.value
  }

  predicate ProperChars(chars: seq<Spelled>) {
    forall i | 0 <= i < |chars| :: ProperSpelled(chars[i])
  }

  function CharsMeaning(chars: seq<Spelled>): Text
    requires ProperChars(chars)
  {
    seq(|chars|, i requires 0 <= i < |chars| => SpelledUnit(chars[i]))
  }

  /** The characters and what follows them. */
  function CharsThen(chars: seq<Spelled>, rest: Text): Text
    requires ProperChars(chars)
  {
    if chars == [] then rest else SpelledText(chars[0]) + CharsThen(chars[1..], rest)
  }

  function StringThen(chars: seq<Spelled>, rest: Text): Text
    requires ProperChars(chars)
  {
    [0x22] + CharsThen(chars, [0x22] + rest)
  }

  // ----- numbers

  datatype Exponent = NoExponent | Exponent(mark: Unit, sign: Text, digits: Text)

  /** A numeral; an empty fraction is no fraction. */
  datatype Numeric = Numeric(negative: bool, whole: Text, fraction: Text, exponent: Exponent)

  predicate ProperExponent(e: Exponent) {
    e.Exponent? ==>
      && (e.mark == 0x65 || e.mark == 0x45)
      && (e.sign == [] || e.sign == [0x2B] || e.sign == [0x2D])
      && e.digits != [] && AllDigits(e.digits)
  }

  predicate ProperNumeric(n: Numeric) {
    && n.whole != [] && AllDigits(n.whole) && (n.whole[0] == 0x30 ==> |n.whole| == 1)
    && AllDigits(n.fraction) && ProperExponent(n.exponent)
  }

  function WholePart(n: Numeric): Text {
    (if n.negative then [0x2D] else []) + n.whole
  }

  function FractionPart(n: Numeric): Text {
    if n.fraction == [] then [] else [0x2E] + n.fraction
  }

  function ExponentPart(e: Exponent): Text {
    match e
    case NoExponent => []
    case Exponent(mark, sign, digits) => [mark] + (sign + digits)
  }

  function NumericText(n: Numeric): Text {
    WholePart(n) + (FractionPart(n) + ExponentPart(n.exponent))
  }

  /** The number that a numeral without fraction and exponent denotes, when it is a safe
      integer; how other numerals round is a parameter. */
  function NumericMeaning(n: Numeric, round: Rounding): Number
    requires ProperNumeric(n)
  {
    if n.fraction == [] && n.exponent.NoExponent? then
      var value := if n.negative then 0 - Value(n.whole) as int else Value(n.whole) as int;
      if -0x1F_FFFF_FFFF_FFFF <= value <= 0x1F_FFFF_FFFF_FFFF then Safe(value) else Inexact
    else Rounded(round, NumericText(n))
  }

  // ----- values

  datatype Tree =
    | NullWord
    | TrueWord
    | FalseWord
    | Number(n: Numeric)
    | String(chars: seq<Spelled>)
    | Array(blanks: Text, items: List<Item>)
    | Object(blanks: Text, members: List<Member>)

  /** A value of a list with the blanks around it. */
  datatype Item = Item(before: Text, value: Tree, after: Text)

  /** A key and a value with the blanks around them and the colon. */
  datatype Member = Member(
    before: Text, key: seq<Spelled>, beforeColon: Text, afterColon: Text, value: Tree, after: Text)

  predicate Proper(t: Tree) {
    match t
    case Number(n) => ProperNumeric(n)
    case String(chars) => ProperChars(chars)
    case Array(blanks, items) => Spaces(blanks) && ProperItems(items)
    case Object(blanks, members) => Spaces(blanks) && ProperMembers(members)
    case _ => true
  }

  predicate ProperItems(l: List<Item>) {
    match l
    case Nil => true
    case Cons(i, more) => Spaces(i.before) && Proper(i.value) && Spaces(i.after) && ProperItems(more)
  }

  predicate ProperMembers(l: List<Member>) {
    match l
    case Nil => true
    case Cons(m, more) =>
      && Spaces(m.before) && ProperChars(m.key) && Spaces(m.beforeColon)
      && Spaces(m.afterColon) && Proper(m.value) && Spaces(m.after) && ProperMembers(more)
  }

  /** The text of a tree and what follows it. */
  function TreeThen(t: Tree, rest: Text): Text
    requires Proper(t)
  {
    match t
    case NullWord => [0x6E, 0x75, 0x6C, 0x6C] + rest
    case TrueWord => [0x74, 0x72, 0x75, 0x65] + rest
    case FalseWord => [0x66, 0x61, 0x6C, 0x73, 0x65] + rest
    case Number(n) => NumericText(n) + rest
    case String(chars) => StringThen(chars, rest)
    case Array(blanks, items) => [0x5B] + ItemsThen(blanks, items, [0x5D] + rest)
    case Object(blanks, members) => [0x7B] + MembersThen(blanks, members, [0x7D] + rest)
  }

  /** Items with commas between them; blanks alone where there is none. */
  function ItemsThen(blanks: Text, l: List<Item>, rest: Text): Text
    requires ProperItems(l)
    decreases l
  {
    match l
    case Nil => blanks + rest
    case Cons(i, more) => i.before + TreeThen(i.value, i.after + MoreItems(more, rest))
  }

  function MoreItems(l: List<Item>, rest: Text): Text
    requires ProperItems(l)
  {
    match l
    case Nil => rest
    case Cons(i, more) => [0x2C] + (i.before + TreeThen(i.value, i.after + MoreItems(more, rest)))
  }

  function MembersThen(blanks: Text, l: List<Member>, rest: Text): Text
    requires ProperMembers(l)
    decreases l
  {
    match l
    case Nil => blanks + rest
    case Cons(m, more) => m.before + MemberThen(m, MoreMembers(more, rest))
  }

  function MemberThen(m: Member, rest: Text): Text
    requires ProperChars(m.key) && Proper(m.value)
  {
    StringThen(m.key, m.beforeColon + ([0x3A] + (m.afterColon + TreeThen(m.value, m.after + rest))))
  }

  function MoreMembers(l: List<Member>, rest: Text): Text
    requires ProperMembers(l)
  {
    match l
    case Nil => rest
    case Cons(m, more) => [0x2C] + (m.before + MemberThen(m, MoreMembers(more, rest)))
  }

  function Meaning(t: Tree, round: Rounding): Json
    requires Proper(t)
  {
    match t
    case NullWord => Null
    case TrueWord => Bool(true)
    case FalseWord => Bool(false)
    case Number(n) => Num(NumericMeaning(n, round))
    case String(chars) => Str(CharsMeaning(chars))
    case Array(_, items) => Arr(ItemsMeaning(items, round))
    case Object(_, members) => Obj(Assigned(Nil, members, round))
  }

  function ItemsMeaning(l: List<Item>, round: Rounding): List<Json>
    requires ProperItems(l)
  {
    match l
    case Nil => Nil
    case Cons(i, more) => Cons(Meaning(i.value, round), ItemsMeaning(more, round))
  }

  /** The members assigned one after the other. */
  function Assigned(before: List<Entry<Json>>, l: List<Member>, round: Rounding): List<Entry<Json>>
    requires ProperMembers(l)
    decreases l
  {
    match l
    case Nil => before
    case Cons(m, more) => Assigned(Put(before, CharsMeaning(m.key), Meaning(m.value, round)), more, round)
  }

  /** The text is written for the value: a tree that means it, with blanks around it. */
  ghost predicate Writes(raw: Text, v: Json, round: Rounding) {
    exists before, t, after :: IsText(raw, before, t, after) && Meaning(t, round) == v
  }

  predicate IsText(raw: Text, before: Text, t: Tree, after: Text) {
    Spaces(before) && Spaces(after) && Proper(t) && raw == before + TreeThen(t, after)
  }

  // ----- a repeated key

  /** The value of the last member with this key. */
  function LastValue(l: List<Member>, key: Text, round: Rounding): Option<Json>
    requires ProperMembers(l)
  {
    match l
    case Nil => None
    case Cons(m, more) =>
      var later := LastValue(more, key, round);
      if later.Some? then later
      else if CharsMeaning(m.key) == key then Some(Meaning(m.value, round))
      else None
  }

  lemma {:induction false} PutKeepsOthers<T>(l: List<Entry<T>>, key: Text, value: T, other: Text)
    ensures Find(Put(l, key, value), other) == if other == key then Some(value) else Find(l, other)
  {
    if l.Cons? {
      PutKeepsOthers(l.tail, key, value, other);
    }
  }

  lemma {:induction false} AssignedFinds(
    before: List<Entry<Json>>, l: List<Member>, key: Text, round: Rounding)
    requires ProperMembers(l)
    ensures var last := LastValue(l, key, round);
            Find(Assigned(before, l, round), key) == if last.Some? then last else Find(before, key)
    decreases l
  {
    if l.Cons? {
      var k, v := CharsMeaning(l.head.key), Meaning(l.head.value, round);
      AssignedFinds(Put(before, k, v), l.tail, key, round);
      PutKeepsOthers(before, k, v, key);
    }
  }

  /** An object has, for every key, the value that was written last for it. */
  lemma LastWins(blanks: Text, l: List<Member>, key: Text, round: Rounding)
    requires Spaces(blanks) && ProperMembers(l)
    ensures Find(Meaning(Object(blanks, l), round).members, key) == LastValue(l, key, round)
  {
    AssignedFinds(Nil, l, key, round);
  }
}
