/** The JSON texts of sections 4 to 7 of RFC 8259: what `JSON.stringify` prints for
    strings and safe integers, and what `JSON.parse` reads. */
module JsonText {
  import opened Texts
  import opened Decimal
  import opened JsonValue

  const QUOTE: Unit := 0x22
  const COMMA: Unit := 0x2C
  const COLON: Unit := 0x3A
  const BACKSLASH: Unit := 0x5C
  const OPEN_LIST: Unit := 0x5B
  const CLOSE_LIST: Unit := 0x5D
  const OPEN_OBJECT: Unit := 0x7B
  const CLOSE_OBJECT: Unit := 0x7D

  const NULL_TEXT: Text := [0x6E, 0x75, 0x6C, 0x6C]
  const TRUE_TEXT: Text := [0x74, 0x72, 0x75, 0x65]
  const FALSE_TEXT: Text := [0x66, 0x61, 0x6C, 0x73, 0x65]

  // ----- surrogates

  predicate IsHigh(u: Unit) {
    0xD800 <= u <= 0xDBFF
  }

  predicate IsLow(u: Unit) {
    0xDC00 <= u <= 0xDFFF
  }

  predicate PairAt(t: Text) {
    |t| >= 2 && IsHigh(t[0]) && IsLow(t[1])
  }

  /** Every surrogate is one half of a pair, so the text encodes scalar values. */
  predicate WellFormed(t: Text) {
    if t == [] then true
    else if PairAt(t) then WellFormed(t[2..])
    else !IsHigh(t[0]) && !IsLow(t[0]) && WellFormed(t[1..])
  }

  /** The printer's regular expression matches at i: a high surrogate without a low
      one after it, or a low surrogate without a high one before it. */
  predicate LoneAt(t: Text, i: int)
    requires 0 <= i < |t|
  {
    || (IsHigh(t[i]) && !(i + 1 < |t| && IsLow(t[i + 1])))
    || (IsLow(t[i]) && (i == 0 || !IsHigh(t[i - 1])))
  }

  predicate HasLone(t: Text) {
    exists i | 0 <= i < |t| :: LoneAt(t, i)
  }

  /** The regular expression matches exactly the texts that are not well formed. */
  lemma {:induction false} HasLoneIffIllFormed(t: Text)
    ensures HasLone(t) <==> !WellFormed(t)
  {
    if t != [] {
      var n := if PairAt(t) then 2 else 1;
      var rest := t[n..];
      HasLoneIffIllFormed(rest);
      if HasLone(rest) && !LoneAt(t, 0) {
        var i :| 0 <= i < |rest| && LoneAt(rest, i);
        assert LoneAt(t, i + n);
      }
      if HasLone(t) && WellFormed(t) {
        var i :| 0 <= i < |t| && LoneAt(t, i);
        assert i >= n;
        assert LoneAt(rest, i - n);
      }
      assert IsHigh(t[0]) && n == 1 ==> LoneAt(t, 0);
      assert IsLow(t[0]) ==> LoneAt(t, 0);
    }
  }

  lemma {:induction false} WellFormedConcat(a: Text, b: Text)
    requires WellFormed(a) && WellFormed(b)
    ensures WellFormed(a + b)
  {
    if a == [] {
      assert a + b == b;
    } else {
      var n := if PairAt(a) then 2 else 1;
      WellFormedConcat(a[n..], b);
      assert (a + b)[n..] == a[n..] + b;
    }
  }

  predicate Plain(t: Text) {
    forall i | 0 <= i < |t| :: t[i] < 0xD800
  }

  lemma {:induction false} PlainWellFormed(t: Text)
    requires Plain(t)
    ensures WellFormed(t)
  {
    if t != [] {
      PlainWellFormed(t[1..]);
    }
  }

  // ----- printing strings

  function HexDigit(n: int): (u: Unit)
    requires 0 <= n < 16
  {
    if n < 10 then 0x30 + n else 0x57 + n
  }

  function UnicodeEscape(u: Unit): (t: Text)
    ensures |t| == 6
  {
    [BACKSLASH, 0x75, HexDigit(u / 0x1000), HexDigit(u / 0x100 % 16), HexDigit(u / 16 % 16), HexDigit(u % 16)]
  }

  /** The letter after the backslash in a two-character escape, or 0. */
  function ShortEscape(u: Unit): Unit {
    if u == 0x08 then 0x62
    else if u == 0x09 then 0x74
    else if u == 0x0A then 0x6E
    else if u == 0x0C then 0x66
    else if u == 0x0D then 0x72
    else if u == QUOTE || u == BACKSLASH then u
    else 0
  }

  function EscapeUnit(u: Unit): Text {
    if ShortEscape(u) != 0 then [BACKSLASH, ShortEscape(u)]
    else if u < 0x20 || IsHigh(u) || IsLow(u) then UnicodeEscape(u)
    else [u]
  }

  /** `JSON.stringify` of a string without the quotes: an unpaired surrogate is escaped. */
  function Escape(t: Text): Text {
    if t == [] then []
    else if PairAt(t) then t[..2] + Escape(t[2..])
    else EscapeUnit(t[0]) + Escape(t[1..])
  }

  function Quoted(t: Text): Text {
    [QUOTE] + Escape(t) + [QUOTE]
  }

  // ----- printing values, members in the order they are stored

  predicate Publishable(v: Json) {
    match v
    case Num(n) => n.Safe?
    case Str(s) => WellFormed(s)
    case Arr(items) => PublishableItems(items)
    case Obj(members) => PublishableMembers(members)
    case _ => true
  }

  predicate PublishableItems(l: List<Json>) {
    match l
    case Nil => true
    case Cons(v, t) => Publishable(v) && PublishableItems(t)
  }

  predicate PublishableMembers(l: List<Entry<Json>>) {
    match l
    case Nil => true
    case Cons(e, t) => Publishable(e.value) && PublishableMembers(t)
  }

  function Print(v: Json): Text
    requires Publishable(v)
  {
    match v
    case Null => NULL_TEXT
    case Bool(b) => if b then TRUE_TEXT else FALSE_TEXT
    case Num(n) => Numeral(n.n)
    case Str(s) => Quoted(s)
    case Arr(items) => [OPEN_LIST] + PrintItems(items) + [CLOSE_LIST]
    case Obj(members) => [OPEN_OBJECT] + PrintMembers(members) + [CLOSE_OBJECT]
  }

  function PrintItems(l: List<Json>): Text
    requires PublishableItems(l)
  {
    match l
    case Nil => []
    case Cons(v, Nil) => Print(v)
    case Cons(v, t) => Print(v) + [COMMA] + PrintItems(t)
  }

  function MemberText(e: Entry<Json>): Text
    requires Publishable(e.value)
  {
    Quoted(e.key) + [COLON] + Print(e.value)
  }

  function PrintMembers(l: List<Entry<Json>>): Text
    requires PublishableMembers(l)
  {
    match l
    case Nil => []
    case Cons(e, Nil) => MemberText(e)
    case Cons(e, t) => MemberText(e) + [COMMA] + PrintMembers(t)
  }

  // ----- printed text is well formed

  lemma {:induction false} EscapeWellFormed(t: Text)
    ensures WellFormed(Escape(t))
  {
    if t != [] {
      if PairAt(t) {
        EscapeWellFormed(t[2..]);
        assert t[..2][2..] == [];
        WellFormedConcat(t[..2], Escape(t[2..]));
      } else {
        EscapeWellFormed(t[1..]);
        var u := t[0];
        if ShortEscape(u) != 0 || u < 0x20 || IsHigh(u) || IsLow(u) {
          PlainWellFormed(EscapeUnit(u));
        } else {
          assert EscapeUnit(u)[1..] == [];
        }
        WellFormedConcat(EscapeUnit(u), Escape(t[1..]));
      }
    }
  }

  lemma QuotedWellFormed(t: Text)
    ensures WellFormed(Quoted(t))
  {
    EscapeWellFormed(t);
    PlainWellFormed([QUOTE]);
    WellFormedConcat([QUOTE], Escape(t));
    WellFormedConcat([QUOTE] + Escape(t), [QUOTE]);
  }

  lemma BracketedWellFormed(open: Unit, body: Text, close: Unit)
    requires open < 0xD800 && close < 0xD800 && WellFormed(body)
    ensures WellFormed([open] + body + [close])
  {
    PlainWellFormed([open]);
    PlainWellFormed([close]);
    WellFormedConcat([open], body);
    WellFormedConcat([open] + body, [close]);
  }

  /** Printed text never has an unpaired surrogate, even where a key has one. */
  lemma {:induction false} PrintWellFormed(v: Json)
    requires Publishable(v)
    ensures WellFormed(Print(v))
  {
    match v
    case Null => PlainWellFormed(NULL_TEXT);
    case Bool(b) => PlainWellFormed(Print(v));
    case Num(n) => PlainWellFormed(Numeral(n.n));
    case Str(s) => QuotedWellFormed(s);
    case Arr(items) =>
      PrintItemsWellFormed(items);
      BracketedWellFormed(OPEN_LIST, PrintItems(items), CLOSE_LIST);
    case Obj(members) =>
      PrintMembersWellFormed(members);
      BracketedWellFormed(OPEN_OBJECT, PrintMembers(members), CLOSE_OBJECT);
  }

  lemma {:induction false} PrintItemsWellFormed(l: List<Json>)
    requires PublishableItems(l)
    ensures WellFormed(PrintItems(l))
  {
    if l.Cons? {
      PrintWellFormed(l.head);
      if l.tail.Cons? {
        PrintItemsWellFormed(l.tail);
        PlainWellFormed([COMMA]);
        WellFormedConcat(Print(l.head), [COMMA]);
        WellFormedConcat(Print(l.head) + [COMMA], PrintItems(l.tail));
      }
    }
  }

  lemma {:induction false} PrintMembersWellFormed(l: List<Entry<Json>>)
    requires PublishableMembers(l)
    ensures WellFormed(PrintMembers(l))
  {
    if l.Cons? {
      var e := l.head;
      QuotedWellFormed(e.key);
      PrintWellFormed(e.value);
      PlainWellFormed([COLON]);
      WellFormedConcat(Quoted(e.key), [COLON]);
      WellFormedConcat(Quoted(e.key) + [COLON], Print(e.value));
      if l.tail.Cons? {
        PrintMembersWellFormed(l.tail);
        PlainWellFormed([COMMA]);
        WellFormedConcat(MemberText(e), [COMMA]);
        WellFormedConcat(MemberText(e) + [COMMA], PrintMembers(l.tail));
      }
    }
  }

  // ----- reading

  /** What a reader takes from the front of a text, and what it leaves. */
  datatype Read<+T> = Got(value: T, rest: Text) | Bad

  /** The double that a numeral with a fraction or an exponent rounds to. */
  type Rounding = Text -> Number

  predicate Blank(u: Unit) {
    u == 0x20 || u == 0x09 || u == 0x0A || u == 0x0D
  }

  function SkipBlanks(s: Text): (r: Text)
    ensures |r| <= |s|
    ensures r != [] ==> !Blank(r[0])
  {
    if s != [] && Blank(s[0]) then SkipBlanks(s[1..]) else s
  }

  function HexValue(u: Unit): (n: int)
    ensures -1 <= n < 16
  {
    if IsDigit(u) then u - 0x30
    else if 0x61 <= u <= 0x66 then u - 0x57
    else if 0x41 <= u <= 0x46 then u - 0x37
    else -1
  }

  /** The unit that a two-character escape stands for, or 0. */
  function Unescape(u: Unit): Unit {
    if u == 0x62 then 0x08
    else if u == 0x74 then 0x09
    else if u == 0x6E then 0x0A
    else if u == 0x66 then 0x0C
    else if u == 0x72 then 0x0D
    else if u == QUOTE || u == BACKSLASH || u == 0x2F then u
    else 0
  }

  /** One character of a string, escaped or not. */
  function ReadUnit(s: Text): (r: Read<Unit>)
    ensures r.Got? ==> |r.rest| < |s|
  {
    if s == [] || s[0] < 0x20 || s[0] == QUOTE then Bad
    else if s[0] != BACKSLASH then Got(s[0], s[1..])
    else if |s| >= 2 && Unescape(s[1]) != 0 then Got(Unescape(s[1]), s[2..])
    else if |s| >= 6 && s[1] == 0x75 then
      var a, b, c, d := HexValue(s[2]), HexValue(s[3]), HexValue(s[4]), HexValue(s[5]);
      if a < 0 || b < 0 || c < 0 || d < 0 then Bad
      else Got(0x1000 * a + 0x100 * b + 16 * c + d, s[6..])
    else Bad
  }

  /** The rest of a string after its opening quote. */
  function ReadChars(s: Text): (r: Read<Text>)
    ensures r.Got? ==> |r.rest| < |s|
  {
    if s != [] && s[0] == QUOTE then Got([], s[1..])
    else
      match ReadUnit(s)
      case Bad => Bad
      case Got(u, rest) =>
        match ReadChars(rest)
        case Bad => Bad
        case Got(t, rest') => Got([u] + t, rest')
  }

  function DigitRun(s: Text): (n: nat)
    ensures n <= |s| && AllDigits(s[..n])
    ensures n < |s| ==> !IsDigit(s[n])
  {
    if s != [] && IsDigit(s[0]) then
      var n := DigitRun(s[1..]);
      assert s[..n + 1] == [s[0]] + s[1..][..n];
      n + 1
    else 0
  }

  /** The length of a fraction part, 0 when there is none, or -1 when it has no digit. */
  function FractionLength(s: Text): (n: int)
    ensures n <= |s|
  {
    if s == [] || s[0] != 0x2E then 0
    else if DigitRun(s[1..]) == 0 then -1
    else 1 + DigitRun(s[1..])
  }

  function ExponentLength(s: Text): (n: int)
    ensures n <= |s|
  {
    if s == [] || (s[0] != 0x65 && s[0] != 0x45) then 0
    else
      var sign := if |s| >= 2 && (s[1] == 0x2B || s[1] == MINUS) then 2 else 1;
      if DigitRun(s[sign..]) == 0 then -1 else sign + DigitRun(s[sign..])
  }

  /** An optional minus sign and at least one digit. */
  predicate IsWhole(t: Text) {
    t != [] && AllDigits(t[1..]) && (IsDigit(t[0]) || (t[0] == MINUS && |t| > 1))
  }

  /** The length of the sign and the integer part, or 0 when there is none. A
      leading zero ends the integer part. */
  function WholeLength(s: Text): (n: nat)
    ensures n <= |s|
    ensures n > 0 ==> IsWhole(s[..n])
  {
    if s == [] then 0
    else if s[0] == MINUS then
      var n := IntegerLength(s[1..]);
      assert n > 0 ==> s[..n + 1][1..] == s[1..][..n];
      if n == 0 then 0 else n + 1
    else
      var n := IntegerLength(s);
      assert n > 0 ==> IsDigit(s[..n][0]);
      n
  }

  function IntegerLength(s: Text): (n: nat)
    ensures n <= |s| && AllDigits(s[..n])
  {
    if s != [] && s[0] == 0x30 then 1 else DigitRun(s)
  }

  /** A numeral without fraction and exponent rounds to a safe integer exactly when it is one. */
  function WholeNumber(t: Text): (r: Number)
    requires IsWhole(t)
    ensures r.Safe? ==> SafeInteger(r.n)
  {
    var n := if t[0] == MINUS then 0 - Value(t[1..]) as int else Value(t) as int;
    if SafeInteger(n) then Safe(n) else Inexact
  }

  function Rounded(round: Rounding, t: Text): (r: Number)
    ensures r.Safe? ==> SafeInteger(r.n)
  {
    match round(t)
    case Safe(n) => if SafeInteger(n) then Safe(n) else Inexact
    case Inexact => Inexact
  }

  /** The number of the first `end` units, of which the first `whole` are its integer part. */
  function NumberUpTo(s: Text, whole: nat, end: nat, round: Rounding): (r: Read<Json>)
    requires 0 < whole <= end <= |s| && IsWhole(s[..whole])
    ensures r.Got? && |r.rest| < |s| && Valid(r.value)
  {
    if end == whole then Got(Num(WholeNumber(s[..whole])), s[whole..])
    else Got(Num(Rounded(round, s[..end])), s[end..])
  }

  /** The rest of a numeral after its integer part, whose fraction has this length. */
  function NumberFrom(s: Text, whole: nat, fraction: int, round: Rounding): (r: Read<Json>)
    requires 0 < whole <= |s| && IsWhole(s[..whole]) && fraction <= |s| - whole
    ensures r.Got? ==> |r.rest| < |s| && Valid(r.value)
  {
    if fraction < 0 then Bad
    else
      var exponent := ExponentLength(s[whole + fraction..]);
      if exponent < 0 then Bad else NumberUpTo(s, whole, whole + fraction + exponent, round)
  }

  function ReadNumber(s: Text, round: Rounding): (r: Read<Json>)
    ensures r.Got? ==> |r.rest| < |s| && Valid(r.value)
  {
    var whole := WholeLength(s);
    if whole == 0 then Bad else NumberFrom(s, whole, FractionLength(s[whole..]), round)
  }

  function ReadScalar(t: Text, round: Rounding): (r: Read<Json>)
    ensures r.Got? ==> |r.rest| < |t| && Valid(r.value)
  {
    if StartsWith(t, NULL_TEXT) then Got(Null, t[4..])
    else if StartsWith(t, TRUE_TEXT) then Got(Bool(true), t[4..])
    else if StartsWith(t, FALSE_TEXT) then Got(Bool(false), t[5..])
    else ReadNumber(t, round)
  }

  function ReadValue(s: Text, round: Rounding): (r: Read<Json>)
    ensures r.Got? ==> |r.rest| < |s|
    decreases |s|, 1
  {
    var t := SkipBlanks(s);
    if t == [] then Bad
    else if t[0] == QUOTE then
      match ReadChars(t[1..])
      case Bad => Bad
      case Got(text, rest) => Got(Str(text), rest)
    else if t[0] == OPEN_LIST then
      var u := SkipBlanks(t[1..]);
      if u != [] && u[0] == CLOSE_LIST then Got(Arr(Nil), u[1..])
      else
        match ReadItems(u, round)
        case Bad => Bad
        case Got(items, rest) => Got(Arr(items), rest)
    else if t[0] == OPEN_OBJECT then
      var u := SkipBlanks(t[1..]);
      if u != [] && u[0] == CLOSE_OBJECT then Got(Obj(Nil), u[1..])
      else
        match ReadMembers(u, Nil, round)
        case Bad => Bad
        case Got(members, rest) => Got(Obj(members), rest)
    else ReadScalar(t, round)
  }

  /** The items of a non-empty array and its closing bracket. */
  function ReadItems(s: Text, round: Rounding): (r: Read<List<Json>>)
    ensures r.Got? ==> |r.rest| < |s|
    decreases |s|, 2
  {
    match ReadValue(s, round)
    case Bad => Bad
    case Got(v, rest) =>
      var t := SkipBlanks(rest);
      if t == [] then Bad
      else if t[0] == CLOSE_LIST then Got(Cons(v, Nil), t[1..])
      else if t[0] != COMMA then Bad
      else
        match ReadItems(t[1..], round)
        case Bad => Bad
        case Got(l, rest') => Got(Cons(v, l), rest')
  }

  /** A key, a colon and a value. */
  function ReadMember(s: Text, round: Rounding): (r: Read<Entry<Json>>)
    ensures r.Got? ==> |r.rest| < |s|
    decreases |s|, 2
  {
    var t := SkipBlanks(s);
    if t == [] || t[0] != QUOTE then Bad
    else
      match ReadChars(t[1..])
      case Bad => Bad
      case Got(key, rest) =>
        var c := SkipBlanks(rest);
        if c == [] || c[0] != COLON then Bad
        else
          match ReadValue(c[1..], round)
          case Bad => Bad
          case Got(v, rest') => Got(Entry(key, v), rest')
  }

  /** The members of a non-empty object and its closing brace. A repeated key is
      assigned again, so its last value stays. */
  function ReadMembers(s: Text, before: List<Entry<Json>>, round: Rounding): (r: Read<List<Entry<Json>>>)
    ensures r.Got? ==> |r.rest| < |s|
    decreases |s|, 3
  {
    match ReadMember(s, round)
    case Bad => Bad
    case Got(e, rest) =>
      var t := SkipBlanks(rest);
      var members := Put(before, e.key, e.value);
      if t == [] then Bad
      else if t[0] == CLOSE_OBJECT then Got(members, t[1..])
      else if t[0] != COMMA then Bad
      else ReadMembers(t[1..], members, round)
  }

  /** `JSON.parse`: one value with nothing but blanks after it. */
  function Parse(raw: Text, round: Rounding): (r: Option<Json>) {
    match ReadValue(raw, round)
    case Bad => None
    case Got(v, rest) => if SkipBlanks(rest) == [] then Some(v) else None
  }
}
