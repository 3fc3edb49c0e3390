/** `JSON.parse` reads exactly the written texts: every text of a tree is read as what the
    tree means, and whatever is read is the text of such a tree. */
module JsonReader {
  import opened Texts
  import opened Decimal
  import opened JsonValue
  import opened JsonText
  import opened JsonSyntax

  /** What may follow a value: nothing, a blank, a closing bracket or a comma. */
  predicate Follows(rest: Text) {
    rest == [] || rest[0] in SPACES || rest[0] == COMMA || rest[0] == CLOSE_LIST || rest[0] == CLOSE_OBJECT
  }

  lemma ConcatAssociative(a: Text, b: Text, c: Text)
    ensures a + b + c == a + (b + c)
  {
  }

  // ----- blanks

  lemma {:induction false} SkipSpaces(b: Text, s: Text)
    requires Spaces(b) && (s == [] || s[0] !in SPACES)
    ensures SkipBlanks(b + s) == s
  {
    if b == [] {
      assert b + s == s;
    } else {
      SkipSpaces(b[1..], s);
      assert (b + s)[1..] == b[1..] + s;
      assert (b + s)[0] in SPACES;
    }
  }

  lemma {:induction false} SpacesBefore(s: Text) returns (b: Text)
    ensures Spaces(b) && s == b + SkipBlanks(s)
    ensures SkipBlanks(s) != [] ==> SkipBlanks(s)[0] !in SPACES
  {
    if s != [] && Blank(s[0]) {
      var more := SpacesBefore(s[1..]);
      b := [s[0]] + more;
      assert s == [s[0]] + s[1..];
      ConcatAssociative([s[0]], more, SkipBlanks(s[1..]));
    } else {
      b := [];
      assert s == [] + s;
    }
  }

  lemma SkipTwice(s: Text)
    ensures SkipBlanks(SkipBlanks(s)) == SkipBlanks(s)
  {
  }

  // ----- strings

  lemma ShortTable(letter: Unit)
    ensures Unescape(letter) != 0 <==> letter in SHORT
    ensures letter in SHORT ==> Unescape(letter) == SHORT[letter]
  {
  }

  lemma NibbleValue(n: Nibble)
    requires ProperNibble(n)
    ensures HexValue(NibbleUnit(n)) == n.value
  {
  }

  lemma NibbleOf(u: Unit) returns (n: Nibble)
    requires HexValue(u) >= 0
    ensures ProperNibble(n) && NibbleUnit(n) == u && n.value == HexValue(u)
  {
    n := Nibble(HexValue(u), 0x41 <= u <= 0x46);
  }

  lemma ReadSpelled(c: Spelled, rest: Text)
    requires ProperSpelled(c)
    ensures ReadUnit(SpelledText(c) + rest) == Got(SpelledUnit(c), rest)
    ensures (SpelledText(c) + rest)[0] != QUOTE
  {
    var s := SpelledText(c) + rest;
    match c
    case Literal(u) => assert s[1..] == rest;
    case Short(letter) =>
      ShortTable(letter);
      assert s[2..] == rest;
    case Hex(a, b, c', d) =>
      NibbleValue(a);
      NibbleValue(b);
      NibbleValue(c');
      NibbleValue(d);
      ShortTable(0x75);
      assert s[6..] == rest;
  }

  lemma SpelledFrom(s: Text) returns (c: Spelled)
    requires ReadUnit(s).Got?
    ensures ProperSpelled(c) && SpelledUnit(c) == ReadUnit(s).value && s == SpelledText(c) + ReadUnit(s).rest
  {
    if s[0] != BACKSLASH {
      c := Literal(s[0]);
    } else if Unescape(s[1]) != 0 {
      ShortTable(s[1]);
      c := Short(s[1]);
      assert s == [s[0], s[1]] + s[2..];
    } else {
      var x := NibbleOf(s[2]);
      var y := NibbleOf(s[3]);
      var z := NibbleOf(s[4]);
      var w := NibbleOf(s[5]);
      c := Hex(x, y, z, w);
      assert s == [s[0], s[1], s[2], s[3], s[4], s[5]] + s[6..];
    }
  }

  lemma MeaningStep(chars: seq<Spelled>)
    requires ProperChars(chars) && chars != []
    ensures CharsMeaning(chars) == [SpelledUnit(chars[0])] + CharsMeaning(chars[1..])
  {
  }

  lemma {:induction false} ReadCharsThen(chars: seq<Spelled>, rest: Text)
    requires ProperChars(chars)
    ensures ReadChars(CharsThen(chars, [QUOTE] + rest)) == Got(CharsMeaning(chars), rest)
  {
    if chars == [] {
      assert ([QUOTE] + rest)[1..] == rest && CharsMeaning(chars) == [];
    } else {
      var tail := CharsThen(chars[1..], [QUOTE] + rest);
      ReadCharsThen(chars[1..], rest);
      ReadSpelled(chars[0], tail);
      MeaningStep(chars);
    }
  }

  lemma {:induction false} CharsFrom(s: Text) returns (chars: seq<Spelled>)
    requires ReadChars(s).Got?
    ensures ProperChars(chars) && CharsMeaning(chars) == ReadChars(s).value
    ensures s == CharsThen(chars, [QUOTE] + ReadChars(s).rest)
    decreases |s|
  {
    if s != [] && s[0] == QUOTE {
      chars := [];
    } else {
      var c := SpelledFrom(s);
      var more := CharsFrom(ReadUnit(s).rest);
      chars := [c] + more;
      assert chars[1..] == more;
      MeaningStep(chars);
    }
  }

  // ----- numbers

  predicate NoDigit(rest: Text) {
    rest == [] || !IsDigit(rest[0])
  }

  lemma {:induction false} DigitRunOf(d: Text, rest: Text)
    requires AllDigits(d) && NoDigit(rest)
    ensures DigitRun(d + rest) == |d|
  {
    if d == [] {
      assert d + rest == rest;
    } else {
      assert (d + rest)[1..] == d[1..] + rest;
      DigitRunOf(d[1..], rest);
    }
  }

  lemma WholeLengthOf(n: Numeric, rest: Text)
    requires ProperNumeric(n) && NoDigit(rest)
    ensures WholeLength(WholePart(n) + rest) == |WholePart(n)|
  {
    var s, t := WholePart(n) + rest, n.whole + rest;
    DigitRunOf(n.whole, rest);
    assert t[0] == n.whole[0];
    if n.negative {
      assert s[0] == MINUS && s[1..] == t;
    } else {
      assert s == t;
    }
  }

  lemma FractionLengthOf(n: Numeric, rest: Text)
    requires ProperNumeric(n) && NoDigit(rest) && (n.fraction == [] ==> rest == [] || rest[0] != 0x2E)
    ensures FractionLength(FractionPart(n) + rest) == |FractionPart(n)|
  {
    if n.fraction == [] {
      assert FractionPart(n) + rest == rest;
    } else {
      DigitRunOf(n.fraction, rest);
      ConcatAssociative([0x2E], n.fraction, rest);
      PointThen(n.fraction + rest);
    }
  }

  lemma PointThen(more: Text)
    requires DigitRun(more) > 0
    ensures FractionLength([0x2E] + more) == 1 + DigitRun(more)
  {
    assert ([0x2E] + more)[1..] == more;
  }

  lemma ExponentLengthOf(e: Exponent, rest: Text)
    requires ProperExponent(e) && Follows(rest)
    ensures ExponentLength(ExponentPart(e) + rest) == |ExponentPart(e)|
  {
    if e.NoExponent? {
      assert ExponentPart(e) + rest == rest;
    } else {
      DigitRunOf(e.digits, rest);
      ExponentThen(e, rest);
      if e.sign == [] {
        UnsignedExponent(e.mark, e.digits + rest);
      } else {
        SignedExponent(e.mark, e.sign[0], e.digits + rest);
      }
    }
  }

  lemma ExponentThen(e: Exponent, rest: Text)
    requires ProperExponent(e) && e.Exponent?
    ensures e.sign == [] ==> ExponentPart(e) + rest == [e.mark] + (e.digits + rest)
    ensures e.sign != [] ==> ExponentPart(e) + rest == [e.mark, e.sign[0]] + (e.digits + rest)
    ensures |ExponentPart(e)| == 1 + |e.sign| + |e.digits|
  {
  }

  lemma UnsignedExponent(mark: Unit, more: Text)
    requires (mark == 0x65 || mark == 0x45) && DigitRun(more) > 0
    ensures ExponentLength([mark] + more) == 1 + DigitRun(more)
  {
    var s := [mark] + more;
    assert s[1..] == more && s[1] == more[0];
  }

  lemma SignedExponent(mark: Unit, sign: Unit, more: Text)
    requires (mark == 0x65 || mark == 0x45) && (sign == 0x2B || sign == 0x2D) && DigitRun(more) > 0
    ensures ExponentLength([mark, sign] + more) == 2 + DigitRun(more)
  {
    var s := [mark, sign] + more;
    assert s[2..] == more;
  }

  lemma ExponentStart(e: Exponent, rest: Text)
    requires ProperExponent(e) && Follows(rest)
    ensures var s := ExponentPart(e) + rest; NoDigit(s) && (s == [] || s[0] != 0x2E)
  {
  }

  lemma FractionStart(n: Numeric, rest: Text)
    requires NoDigit(rest)
    ensures NoDigit(FractionPart(n) + rest)
  {
  }

  /** Where the three parts of a numeral end. */
  lemma NumericEnds(n: Numeric, rest: Text)
    requires ProperNumeric(n) && Follows(rest)
    ensures var w, f, e := WholePart(n), FractionPart(n), ExponentPart(n.exponent);
            && WholeLength(w + (f + (e + rest))) == |w|
            && FractionLength(f + (e + rest)) == |f| && ExponentLength(e + rest) == |e|
  {
    var f, e := FractionPart(n), ExponentPart(n.exponent);
    ExponentStart(n.exponent, rest);
    FractionStart(n, e + rest);
    WholeLengthOf(n, f + (e + rest));
    FractionLengthOf(n, e + rest);
    ExponentLengthOf(n.exponent, rest);
  }

  lemma FourParts(w: Text, f: Text, e: Text, rest: Text)
    ensures var s := w + (f + e) + rest;
            s == w + (f + (e + rest)) && s[|w|..] == f + (e + rest) && s[|w| + |f|..] == e + rest
  {
  }

  lemma WholeMeans(n: Numeric)
    requires ProperNumeric(n)
    ensures var w := WholePart(n);
            && IsWhole(w) && (w[0] == MINUS <==> n.negative)
            && (n.negative ==> w[1..] == n.whole) && (!n.negative ==> w == n.whole)
  {
    assert n.negative ==> WholePart(n)[1..] == n.whole;
  }

  /** What `ReadNumber` makes of the three lengths. */
  lemma NumberAt(s: Text, w: nat, f: nat, x: nat, round: Rounding)
    requires WholeLength(s) == w > 0 && FractionLength(s[w..]) == f && w + f <= |s|
    requires ExponentLength(s[w + f..]) == x && w + f + x <= |s|
    ensures ReadNumber(s, round) == NumberUpTo(s, w, w + f + x, round)
  {
  }

  lemma WholeNumberMeans(n: Numeric, round: Rounding)
    requires ProperNumeric(n) && n.fraction == [] && n.exponent.NoExponent?
    ensures IsWhole(WholePart(n)) && WholeNumber(WholePart(n)) == NumericMeaning(n, round)
    ensures NumericText(n) == WholePart(n)
  {
    WholeMeans(n);
  }

  lemma PartsEmpty(n: Numeric)
    requires ProperNumeric(n)
    ensures |FractionPart(n)| + |ExponentPart(n.exponent)| == 0 <==> n.fraction == [] && n.exponent.NoExponent?
    ensures |NumericText(n)| == |WholePart(n)| + |FractionPart(n)| + |ExponentPart(n.exponent)|
  {
  }

  lemma MeaningOfParts(n: Numeric, round: Rounding)
    requires ProperNumeric(n)
    ensures IsWhole(WholePart(n))
    ensures NumericMeaning(n, round) ==
            if |FractionPart(n)| + |ExponentPart(n.exponent)| == 0 then WholeNumber(WholePart(n))
            else Rounded(round, NumericText(n))
  {
    PartsEmpty(n);
    WholeMeans(n);
    if n.fraction == [] && n.exponent.NoExponent? {
      WholeNumberMeans(n, round);
    }
  }

  lemma NumberOfParts(w: Text, f: Text, e: Text, rest: Text, round: Rounding)
    requires w != [] && IsWhole(w) && WholeLength(w + (f + (e + rest))) == |w|
    requires FractionLength(f + (e + rest)) == |f| && ExponentLength(e + rest) == |e|
    ensures ReadNumber(w + (f + e) + rest, round) ==
            Got(Num(if |f| + |e| == 0 then WholeNumber(w) else Rounded(round, w + (f + e))), rest)
  {
    var t := w + (f + e);
    var s := t + rest;
    FourParts(w, f, e, rest);
    NumberAt(s, |w|, |f|, |e|, round);
    assert s[..|w|] == w;
    assert s[..|t|] == t && s[|t|..] == rest;
  }

  lemma ReadNumeric(n: Numeric, rest: Text, round: Rounding)
    requires ProperNumeric(n) && Follows(rest)
    ensures ReadNumber(NumericText(n) + rest, round) == Got(Num(NumericMeaning(n, round)), rest)
  {
    NumericEnds(n, rest);
    MeaningOfParts(n, round);
    NumberOfParts(WholePart(n), FractionPart(n), ExponentPart(n.exponent), rest, round);
  }

  lemma WholeFrom(s: Text) returns (negative: bool, whole: Text)
    requires WholeLength(s) > 0
    ensures whole != [] && AllDigits(whole) && (whole[0] == 0x30 ==> |whole| == 1)
    ensures s[..WholeLength(s)] == (if negative then [0x2D] else []) + whole
  {
    negative := s[0] == MINUS;
    var t := if negative then s[1..] else s;
    whole := t[..IntegerLength(t)];
    if negative {
      assert s[..WholeLength(s)] == [s[0]] + whole;
    } else {
      assert s[..WholeLength(s)] == [] + whole;
    }
  }

  lemma FractionFrom(s: Text) returns (fraction: Text)
    requires FractionLength(s) >= 0
    ensures AllDigits(fraction) && (fraction == [] <==> FractionLength(s) == 0)
    ensures s[..FractionLength(s)] == if fraction == [] then [] else [0x2E] + fraction
  {
    if FractionLength(s) == 0 {
      fraction := [];
    } else {
      fraction := s[1..][..DigitRun(s[1..])];
      assert s[..FractionLength(s)] == [s[0]] + fraction;
    }
  }

  lemma ExponentFrom(s: Text) returns (e: Exponent)
    requires ExponentLength(s) >= 0
    ensures ProperExponent(e) && (e.NoExponent? <==> ExponentLength(s) == 0)
    ensures s[..ExponentLength(s)] == ExponentPart(e)
  {
    if ExponentLength(s) == 0 {
      e := NoExponent;
    } else {
      var n := if |s| >= 2 && (s[1] == 0x2B || s[1] == MINUS) then 2 else 1;
      var digits := s[n..][..DigitRun(s[n..])];
      e := Exponent(s[0], s[1..n], digits);
      assert n == 2 ==> s[1..n] == [s[1]];
      assert s[..ExponentLength(s)] == [s[0]] + (s[1..n] + digits);
    }
  }

  lemma ThreeParts(s: Text, w: nat, f: nat, x: nat)
    requires w + f + x <= |s|
    ensures s[..w + f + x] == s[..w] + (s[w..][..f] + s[w + f..][..x])
    ensures s == s[..w + f + x] + s[w + f + x..]
  {
  }

  lemma NumericFrom(s: Text, round: Rounding) returns (n: Numeric)
    requires ReadNumber(s, round).Got?
    ensures ProperNumeric(n) && s == NumericText(n) + ReadNumber(s, round).rest
    ensures ReadNumber(s, round).value == Num(NumericMeaning(n, round))
  {
    var w := WholeLength(s);
    var f := FractionLength(s[w..]);
    var x := ExponentLength(s[w + f..]);
    n := PartsFrom(s, w, f, x);
    NumberAt(s, w, f, x, round);
    ThreeParts(s, w, f, x);
    MeaningOfParts(n, round);
  }

  lemma PartsFrom(s: Text, w: nat, f: nat, x: nat) returns (n: Numeric)
    requires WholeLength(s) == w > 0 && FractionLength(s[w..]) == f && w + f <= |s|
    requires ExponentLength(s[w + f..]) == x && w + f + x <= |s|
    ensures ProperNumeric(n)
    ensures WholePart(n) == s[..w] && FractionPart(n) == s[w..][..f] && ExponentPart(n.exponent) == s[w + f..][..x]
  {
    var negative, whole := WholeFrom(s);
    var fraction := FractionFrom(s[w..]);
    var e := ExponentFrom(s[w + f..]);
    n := Numeric(negative, whole, fraction, e);
  }

  // ----- words

  predicate IsWord(t: Tree) {
    t.NullWord? || t.TrueWord? || t.FalseWord?
  }

  lemma ReadWord(t: Tree, rest: Text, round: Rounding)
    requires IsWord(t)
    ensures ReadScalar(TreeThen(t, rest), round) == Got(Meaning(t, round), rest)
  {
    var s := TreeThen(t, rest);
    match t
    case NullWord => assert s[..4] == NULL_TEXT && s[4..] == rest;
    case TrueWord =>
      assert s[..4] == TRUE_TEXT && s[4..] == rest;
      assert s[..4][0] != NULL_TEXT[0];
    case FalseWord =>
      assert s[..5] == FALSE_TEXT && s[5..] == rest;
      assert s[..4][0] != NULL_TEXT[0] && s[..4][0] != TRUE_TEXT[0];
  }

  lemma NumeralIsNoWord(s: Text, round: Rounding)
    requires s != [] && (s[0] == MINUS || IsDigit(s[0]))
    ensures ReadScalar(s, round) == ReadNumber(s, round)
  {
    assert |s| >= 4 ==> s[..4][0] == s[0];
    assert |s| >= 5 ==> s[..5][0] == s[0];
  }

  lemma ScalarFrom(s: Text, round: Rounding) returns (t: Tree)
    requires ReadScalar(s, round).Got?
    ensures Proper(t) && s == TreeThen(t, ReadScalar(s, round).rest)
    ensures Meaning(t, round) == ReadScalar(s, round).value
  {
    if StartsWith(s, NULL_TEXT) {
      t := NullWord;
      assert s == s[..4] + s[4..];
    } else if StartsWith(s, TRUE_TEXT) {
      t := TrueWord;
      assert s == s[..4] + s[4..];
    } else if StartsWith(s, FALSE_TEXT) {
      t := FalseWord;
      assert s == s[..5] + s[5..];
    } else {
      var n := NumericFrom(s, round);
      t := Number(n);
    }
  }

  // ----- values: every text of a tree is read

  /** How the text of a tree starts. */
  lemma TreeStart(t: Tree, rest: Text)
    requires Proper(t)
    ensures var s := TreeThen(t, rest);
            && s != [] && s[0] !in SPACES && s[0] != CLOSE_LIST && s[0] != CLOSE_OBJECT
            && (s[0] == QUOTE <==> t.String?) && (s[0] == OPEN_LIST <==> t.Array?)
            && (s[0] == OPEN_OBJECT <==> t.Object?)
            && (t.Number? ==> s[0] == MINUS || IsDigit(s[0]))
  {
    if t.Number? {
      var n := t.n;
      assert TreeThen(t, rest)[0] == WholePart(n)[0];
    }
  }

  lemma FollowsSpaces(b: Text, rest: Text)
    requires Spaces(b) && Follows(rest)
    ensures Follows(b + rest)
  {
    assert b == [] ==> b + rest == rest;
  }

  lemma {:induction false} ReadTree(t: Tree, b: Text, rest: Text, round: Rounding)
    requires Proper(t) && Spaces(b) && Follows(rest)
    ensures ReadValue(b + TreeThen(t, rest), round) == Got(Meaning(t, round), rest)
    decreases t, 0
  {
    var s := TreeThen(t, rest);
    TreeStart(t, rest);
    SkipSpaces(b, s);
    match t
    case Number(n) =>
      NumeralIsNoWord(s, round);
      ReadNumeric(n, rest, round);
    case String(chars) =>
      assert s[1..] == CharsThen(chars, [QUOTE] + rest);
      ReadCharsThen(chars, rest);
    case Array(blanks, items) => ReadArray(blanks, items, rest, round);
    case Object(blanks, members) => ReadObject(blanks, members, rest, round);
    case _ => ReadWord(t, rest, round);
  }

  /** After an opening bracket: an immediate closing one, or items. */
  function ReadArrayBody(s: Text, round: Rounding): Read<Json> {
    var u := SkipBlanks(s);
    if u != [] && u[0] == CLOSE_LIST then Got(Arr(Nil), u[1..])
    else
      match ReadItems(u, round)
      case Bad => Bad
      case Got(items, rest) => Got(Arr(items), rest)
  }

  function ReadObjectBody(s: Text, round: Rounding): Read<Json> {
    var u := SkipBlanks(s);
    if u != [] && u[0] == CLOSE_OBJECT then Got(Obj(Nil), u[1..])
    else
      match ReadMembers(u, Nil, round)
      case Bad => Bad
      case Got(members, rest) => Got(Obj(members), rest)
  }

  lemma BodiesRead(t: Text, round: Rounding)
    requires t != [] && !Blank(t[0])
    ensures t[0] == OPEN_LIST ==> ReadValue(t, round) == ReadArrayBody(t[1..], round)
    ensures t[0] == OPEN_OBJECT ==> ReadValue(t, round) == ReadObjectBody(t[1..], round)
  {
  }

  /** Blanks before the first item or member do not matter. */
  lemma BlanksBeforeItems(s: Text, round: Rounding)
    ensures ReadItems(SkipBlanks(s), round) == ReadItems(s, round)
  {
    SkipTwice(s);
    assert ReadValue(SkipBlanks(s), round) == ReadValue(s, round);
  }

  lemma BlanksBeforeMembers(s: Text, before: List<Entry<Json>>, round: Rounding)
    ensures ReadMembers(SkipBlanks(s), before, round) == ReadMembers(s, before, round)
  {
    SkipTwice(s);
    assert ReadMember(SkipBlanks(s), round) == ReadMember(s, round);
  }

  lemma {:induction false} ReadArray(blanks: Text, items: List<Item>, rest: Text, round: Rounding)
    requires Spaces(blanks) && ProperItems(items)
    ensures ReadValue(TreeThen(Array(blanks, items), rest), round) == Got(Arr(ItemsMeaning(items, round)), rest)
    decreases items, 3
  {
    var body := ItemsThen(blanks, items, [CLOSE_LIST] + rest);
    var s := [OPEN_LIST] + body;
    assert s[1..] == body;
    BodiesRead(s, round);
    ReadArrayThen(blanks, items, rest, round);
  }

  lemma {:induction false} ReadArrayThen(blanks: Text, items: List<Item>, rest: Text, round: Rounding)
    requires Spaces(blanks) && ProperItems(items)
    ensures ReadArrayBody(ItemsThen(blanks, items, [CLOSE_LIST] + rest), round) ==
            Got(Arr(ItemsMeaning(items, round)), rest)
    decreases items, 2
  {
    var close := [CLOSE_LIST] + rest;
    if items.Nil? {
      assert close[1..] == rest;
      SkipSpaces(blanks, close);
    } else {
      ItemsStart(blanks, items, close);
      BlanksBeforeItems(ItemsThen(blanks, items, close), round);
      ReadItemsThen(blanks, items, rest, round);
    }
  }

  lemma ItemsStart(blanks: Text, l: List<Item>, rest: Text)
    requires l.Cons? && ProperItems(l)
    ensures var u := SkipBlanks(ItemsThen(blanks, l, rest)); u != [] && u[0] != CLOSE_LIST
  {
    var i := l.head;
    var more := i.after + MoreItems(l.tail, rest);
    TreeStart(i.value, more);
    SkipSpaces(i.before, TreeThen(i.value, more));
  }

  lemma MoreStart(l: List<Item>, rest: Text)
    requires ProperItems(l)
    ensures Follows(MoreItems(l, [CLOSE_LIST] + rest))
    ensures MoreItems(l, [CLOSE_LIST] + rest)[0] !in SPACES
  {
  }

  lemma {:induction false} ReadItemsThen(blanks: Text, l: List<Item>, rest: Text, round: Rounding)
    requires l.Cons? && ProperItems(l)
    ensures ReadItems(ItemsThen(blanks, l, [CLOSE_LIST] + rest), round) == Got(ItemsMeaning(l, round), rest)
    decreases l, 1
  {
    var i, more := l.head, l.tail;
    var next := MoreItems(more, [CLOSE_LIST] + rest);
    MoreStart(more, rest);
    FollowsSpaces(i.after, next);
    ReadTree(i.value, i.before, i.after + next, round);
    SkipSpaces(i.after, next);
    if more.Nil? {
      assert next[1..] == rest;
    } else {
      ReadItemsThen(blanks, more, rest, round);
      MoreIsItems(blanks, more, [CLOSE_LIST] + rest);
      assert next[1..] == ItemsThen(blanks, more, [CLOSE_LIST] + rest);
    }
  }

  lemma {:induction false} ReadObject(blanks: Text, members: List<Member>, rest: Text, round: Rounding)
    requires Spaces(blanks) && ProperMembers(members)
    ensures ReadValue(TreeThen(Object(blanks, members), rest), round) ==
            Got(Obj(Assigned(Nil, members, round)), rest)
    decreases members, 4
  {
    var body := MembersThen(blanks, members, [CLOSE_OBJECT] + rest);
    var s := [OPEN_OBJECT] + body;
    assert s[1..] == body;
    BodiesRead(s, round);
    ReadObjectThen(blanks, members, rest, round);
  }

  lemma {:induction false} ReadObjectThen(blanks: Text, members: List<Member>, rest: Text, round: Rounding)
    requires Spaces(blanks) && ProperMembers(members)
    ensures ReadObjectBody(MembersThen(blanks, members, [CLOSE_OBJECT] + rest), round) ==
            Got(Obj(Assigned(Nil, members, round)), rest)
    decreases members, 3
  {
    var close := [CLOSE_OBJECT] + rest;
    if members.Nil? {
      assert close[1..] == rest;
      SkipSpaces(blanks, close);
    } else {
      MembersStart(blanks, members, close);
      BlanksBeforeMembers(MembersThen(blanks, members, close), Nil, round);
      ReadMembersThen(blanks, members, Nil, rest, round);
    }
  }

  lemma MembersStart(blanks: Text, l: List<Member>, rest: Text)
    requires l.Cons? && ProperMembers(l)
    ensures var u := SkipBlanks(MembersThen(blanks, l, rest)); u != [] && u[0] == QUOTE
  {
    var first := MemberThen(l.head, MoreMembers(l.tail, rest));
    assert first[0] == QUOTE;
    SkipSpaces(l.head.before, first);
  }

  lemma MoreIsMembers(blanks: Text, l: List<Member>, rest: Text)
    requires l.Cons? && ProperMembers(l)
    ensures MoreMembers(l, rest) == [COMMA] + MembersThen(blanks, l, rest)
  {
  }

  lemma MoreMembersStart(l: List<Member>, rest: Text)
    requires ProperMembers(l)
    ensures Follows(MoreMembers(l, [CLOSE_OBJECT] + rest))
    ensures MoreMembers(l, [CLOSE_OBJECT] + rest)[0] !in SPACES
  {
  }

  lemma {:induction false} ReadMemberThen(m: Member, next: Text, round: Rounding)
    requires Spaces(m.before) && ProperChars(m.key) && Spaces(m.beforeColon)
    requires Spaces(m.afterColon) && Proper(m.value) && Spaces(m.after) && Follows(next)
    ensures ReadMember(m.before + MemberThen(m, next), round) ==
            Got(Entry(CharsMeaning(m.key), Meaning(m.value, round)), m.after + next)
    decreases m, 1
  {
    var value := m.afterColon + TreeThen(m.value, m.after + next);
    var colon := [COLON] + value;
    var text := MemberThen(m, next);
    SkipSpaces(m.before, text);
    assert text[1..] == CharsThen(m.key, [QUOTE] + (m.beforeColon + colon));
    ReadCharsThen(m.key, m.beforeColon + colon);
    SkipSpaces(m.beforeColon, colon);
    assert colon[1..] == value;
    FollowsSpaces(m.after, next);
    ReadTree(m.value, m.afterColon, m.after + next, round);
  }

  lemma {:induction false} ReadMembersThen(
    blanks: Text, l: List<Member>, before: List<Entry<Json>>, rest: Text, round: Rounding)
    requires l.Cons? && ProperMembers(l)
    ensures ReadMembers(MembersThen(blanks, l, [CLOSE_OBJECT] + rest), before, round) ==
            Got(Assigned(before, l, round), rest)
    decreases l, 2
  {
    var m, more := l.head, l.tail;
    var next := MoreMembers(more, [CLOSE_OBJECT] + rest);
    var put := Put(before, CharsMeaning(m.key), Meaning(m.value, round));
    MoreMembersStart(more, rest);
    ReadMemberThen(m, next, round);
    SkipSpaces(m.after, next);
    if more.Nil? {
      assert next[1..] == rest;
    } else {
      ReadMembersThen(blanks, more, put, rest, round);
      MoreIsMembers(blanks, more, [CLOSE_OBJECT] + rest);
      assert next[1..] == MembersThen(blanks, more, [CLOSE_OBJECT] + rest);
    }
  }

  // ----- values: whatever is read is the text of a tree

  lemma {:induction false} TreeFrom(s: Text, round: Rounding) returns (b: Text, t: Tree)
    requires ReadValue(s, round).Got?
    ensures Spaces(b) && Proper(t) && s == b + TreeThen(t, ReadValue(s, round).rest)
    ensures Meaning(t, round) == ReadValue(s, round).value
    decreases |s|, 1
  {
    b := SpacesBefore(s);
    SkipFirst(s, round);
    t := BareTreeFrom(SkipBlanks(s), round);
  }

  lemma SkipFirst(s: Text, round: Rounding)
    ensures ReadValue(SkipBlanks(s), round) == ReadValue(s, round)
    ensures ReadValue(s, round).Got? ==> SkipBlanks(s) != []
  {
    SkipTwice(s);
  }

  lemma StringFrom(u: Text, round: Rounding) returns (t: Tree)
    requires u != [] && u[0] == QUOTE && ReadValue(u, round).Got?
    ensures Proper(t) && u == TreeThen(t, ReadValue(u, round).rest)
    ensures Meaning(t, round) == ReadValue(u, round).value
  {
    var chars := CharsFrom(u[1..]);
    t := String(chars);
    assert u == [QUOTE] + u[1..];
  }

  lemma ScalarRead(u: Text, round: Rounding)
    requires u != [] && !Blank(u[0]) && u[0] != QUOTE && u[0] != OPEN_LIST && u[0] != OPEN_OBJECT
    ensures ReadValue(u, round) == ReadScalar(u, round)
  {
  }

  lemma {:induction false} BareTreeFrom(u: Text, round: Rounding) returns (t: Tree)
    requires u != [] && !Blank(u[0]) && ReadValue(u, round).Got?
    ensures Proper(t) && u == TreeThen(t, ReadValue(u, round).rest)
    ensures Meaning(t, round) == ReadValue(u, round).value
    decreases |u|, 0
  {
    if u[0] == QUOTE {
      t := StringFrom(u, round);
    } else if u[0] == OPEN_LIST || u[0] == OPEN_OBJECT {
      BodiesRead(u, round);
      assert u == [u[0]] + u[1..];
      if u[0] == OPEN_LIST {
        t := ArrayFrom(u[1..], round);
      } else {
        t := ObjectFrom(u[1..], round);
      }
    } else {
      ScalarRead(u, round);
      t := ScalarFrom(u, round);
    }
  }

  lemma EmptyBody(b: Text, u: Text)
    requires u != []
    ensures ItemsThen(b, Nil, [u[0]] + u[1..]) == b + u && MembersThen(b, Nil, [u[0]] + u[1..]) == b + u
  {
    assert u == [u[0]] + u[1..];
  }

  lemma {:induction false} ArrayFrom(s: Text, round: Rounding) returns (t: Tree)
    requires ReadArrayBody(s, round).Got?
    ensures Proper(t) && [OPEN_LIST] + s == TreeThen(t, ReadArrayBody(s, round).rest)
    ensures Meaning(t, round) == ReadArrayBody(s, round).value
    decreases |s|, 3
  {
    var b := SpacesBefore(s);
    var u := SkipBlanks(s);
    if u != [] && u[0] == CLOSE_LIST {
      t := Array(b, Nil);
      EmptyBody(b, u);
    } else {
      BlanksBeforeItems(s, round);
      var items := ItemsFrom(s, round);
      t := Array([], items);
    }
  }

  /** One turn of the loop over the items. */
  lemma ReadItemsStep(s: Text, round: Rounding)
    requires ReadItems(s, round).Got?
    ensures ReadValue(s, round).Got?
    ensures var v, u := ReadValue(s, round).value, SkipBlanks(ReadValue(s, round).rest);
            && u != [] && (u[0] == CLOSE_LIST || u[0] == COMMA)
            && (u[0] == CLOSE_LIST ==> ReadItems(s, round) == Got(Cons(v, Nil), u[1..]))
            && (u[0] == COMMA ==>
                  && ReadItems(u[1..], round).Got?
                  && ReadItems(s, round) == Got(Cons(v, ReadItems(u[1..], round).value), ReadItems(u[1..], round).rest))
  {
  }

  lemma MoreIsItems(blanks: Text, l: List<Item>, rest: Text)
    requires l.Cons? && ProperItems(l)
    ensures MoreItems(l, rest) == [COMMA] + ItemsThen(blanks, l, rest)
  {
  }

  lemma {:induction false} ItemsFrom(s: Text, round: Rounding) returns (l: List<Item>)
    requires ReadItems(s, round).Got?
    ensures l.Cons? && ProperItems(l) && s == ItemsThen([], l, [CLOSE_LIST] + ReadItems(s, round).rest)
    ensures ItemsMeaning(l, round) == ReadItems(s, round).value
    decreases |s|, 2
  {
    ReadItemsStep(s, round);
    var b, t := TreeFrom(s, round);
    var rest := ReadValue(s, round).rest;
    var c := SpacesBefore(rest);
    var u := SkipBlanks(rest);
    var more := Nil;
    if u[0] == COMMA {
      more := MoreItemsFrom(u, round);
    } else {
      assert u == [CLOSE_LIST] + u[1..];
    }
    l := Cons(Item(b, t, c), more);
  }

  /** A comma and the items after it. */
  lemma {:induction false} MoreItemsFrom(u: Text, round: Rounding) returns (l: List<Item>)
    requires u != [] && u[0] == COMMA && ReadItems(u[1..], round).Got?
    ensures ProperItems(l) && u == MoreItems(l, [CLOSE_LIST] + ReadItems(u[1..], round).rest)
    ensures ItemsMeaning(l, round) == ReadItems(u[1..], round).value
    decreases |u|, 0
  {
    l := ItemsFrom(u[1..], round);
    MoreIsItems([], l, [CLOSE_LIST] + ReadItems(u[1..], round).rest);
    assert u == [COMMA] + u[1..];
  }

  lemma {:induction false} ObjectFrom(s: Text, round: Rounding) returns (t: Tree)
    requires ReadObjectBody(s, round).Got?
    ensures Proper(t) && [OPEN_OBJECT] + s == TreeThen(t, ReadObjectBody(s, round).rest)
    ensures Meaning(t, round) == ReadObjectBody(s, round).value
    decreases |s|, 4
  {
    var b := SpacesBefore(s);
    var u := SkipBlanks(s);
    if u != [] && u[0] == CLOSE_OBJECT {
      t := Object(b, Nil);
      EmptyBody(b, u);
    } else {
      BlanksBeforeMembers(s, Nil, round);
      var members := MembersFrom(s, Nil, round);
      t := Object([], members);
    }
  }

  lemma {:induction false} MemberFrom(s: Text, round: Rounding, c: Text, next: Text) returns (m: Member)
    requires ReadMember(s, round).Got? && Spaces(c) && ReadMember(s, round).rest == c + next
    ensures Spaces(m.before) && ProperChars(m.key) && Spaces(m.beforeColon)
    ensures Spaces(m.afterColon) && Proper(m.value) && m.after == c
    ensures ReadMember(s, round).value == Entry(CharsMeaning(m.key), Meaning(m.value, round))
    ensures s == m.before + MemberThen(m, next)
    decreases |s|, 2
  {
    var before := SpacesBefore(s);
    var u := SkipBlanks(s);
    var chars := CharsFrom(u[1..]);
    var afterKey := ReadChars(u[1..]).rest;
    var beforeColon := SpacesBefore(afterKey);
    var v := SkipBlanks(afterKey);
    var afterColon, t := TreeFrom(v[1..], round);
    m := Member(before, chars, beforeColon, afterColon, t, c);
    assert u == [QUOTE] + u[1..] && v == [COLON] + v[1..];
  }

  /** One turn of the loop over the members. */
  lemma ReadMembersStep(s: Text, before: List<Entry<Json>>, round: Rounding)
    requires ReadMembers(s, before, round).Got?
    ensures ReadMember(s, round).Got?
    ensures var e, u := ReadMember(s, round).value, SkipBlanks(ReadMember(s, round).rest);
            var put := Put(before, e.key, e.value);
            && u != [] && (u[0] == CLOSE_OBJECT || u[0] == COMMA)
            && ReadMembers(s, before, round) ==
               if u[0] == CLOSE_OBJECT then Got(put, u[1..]) else ReadMembers(u[1..], put, round)
  {
  }

  lemma {:induction false} MembersFrom(s: Text, before: List<Entry<Json>>, round: Rounding)
    returns (l: List<Member>)
    requires ReadMembers(s, before, round).Got?
    ensures l.Cons? && ProperMembers(l)
    ensures s == MembersThen([], l, [CLOSE_OBJECT] + ReadMembers(s, before, round).rest)
    ensures Assigned(before, l, round) == ReadMembers(s, before, round).value
    decreases |s|, 3
  {
    ReadMembersStep(s, before, round);
    var e, rest := ReadMember(s, round).value, ReadMember(s, round).rest;
    var close := [CLOSE_OBJECT] + ReadMembers(s, before, round).rest;
    var c := SpacesBefore(rest);
    var u := SkipBlanks(rest);
    var m := MemberFrom(s, round, c, u);
    var more := Nil;
    if u[0] == COMMA {
      more := MoreFrom(u, Put(before, e.key, e.value), round);
    } else {
      assert u == [CLOSE_OBJECT] + u[1..];
    }
    l := Cons(m, more);
  }

  /** A comma and the members after it. */
  lemma {:induction false} MoreFrom(u: Text, before: List<Entry<Json>>, round: Rounding)
    returns (l: List<Member>)
    requires u != [] && u[0] == COMMA && ReadMembers(u[1..], before, round).Got?
    ensures ProperMembers(l) && u == MoreMembers(l, [CLOSE_OBJECT] + ReadMembers(u[1..], before, round).rest)
    ensures Assigned(before, l, round) == ReadMembers(u[1..], before, round).value
    decreases |u|, 0
  {
    l := MembersFrom(u[1..], before, round);
    MoreIsMembers([], l, [CLOSE_OBJECT] + ReadMembers(u[1..], before, round).rest);
    assert u == [COMMA] + u[1..];
  }

  // ----- the whole text

  /** `JSON.parse` returns a value exactly for the texts that are written for it. */
  lemma ParsesExactly(raw: Text, v: Json, round: Rounding)
    ensures Parse(raw, round) == Some(v) <==> Writes(raw, v, round)
  {
    if Parse(raw, round) == Some(v) {
      var before, t := TreeFrom(raw, round);
      var rest := ReadValue(raw, round).rest;
      var after := SpacesBefore(rest);
      assert after == rest;
      assert IsText(raw, before, t, after);
    }
    forall before, t, after | IsText(raw, before, t, after) && Meaning(t, round) == v
      ensures Parse(raw, round) == Some(v)
    {
      ReadWhole(before, t, after, round);
    }
  }

  lemma ReadWhole(before: Text, t: Tree, after: Text, round: Rounding)
    requires Spaces(before) && Proper(t) && Spaces(after)
    ensures Parse(before + TreeThen(t, after), round) == Some(Meaning(t, round))
  {
    FollowsSpaces(after, []);
    assert after + [] == after;
    ReadTree(t, before, after, round);
    SkipSpaces(after, []);
  }

  /** A text is written for one value at most. */
  lemma WritesOne(raw: Text, v: Json, w: Json, round: Rounding)
    requires Writes(raw, v, round) && Writes(raw, w, round)
    ensures v == w
  {
    ParsesExactly(raw, v, round);
    ParsesExactly(raw, w, round);
  }
}
