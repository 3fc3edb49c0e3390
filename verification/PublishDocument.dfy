/** The publish boundary of the fleet console: a pasted document is checked and
    replaced by its canonical text before it is sent. */
module PublishDocument {
  import opened Texts
  import opened Decimal
  import opened JsonValue
  import opened JsonText
  import opened JsonSyntax
  import opened JsonReader
  import opened JsonRoundTrip
  import opened Utf8

  datatype Error =
    | DocumentSize
    | NotJson
    | NotObject
    | SecretField
    | NotCoercible
    | BadSignature
    | WrongSchema
    | WrongTenant
    | InvalidUnicode
    | UnsafeInteger
    | CanonicalSize

  // ----- canonicalJson

  function Canonical(v: Json): (r: Result<Text, Error>) {
    match v
    case Null => Ok(NULL_TEXT)
    case Bool(b) => Ok(if b then TRUE_TEXT else FALSE_TEXT)
    case Str(s) => if HasLone(s) then Err(InvalidUnicode) else Ok(Quoted(s))
    case Num(Safe(n)) => Ok(Numeral(n))
    case Num(Inexact) => Err(UnsafeInteger)
    case Arr(items) => Bracket(OPEN_LIST, CanonicalItems(items), CLOSE_LIST)
    case Obj(members) => Bracket(OPEN_OBJECT, JoinMembers(Sort(CanonicalMembers(members))), CLOSE_OBJECT)
  }

  function Bracket(open: Unit, body: Result<Text, Error>, close: Unit): Result<Text, Error> {
    match body
    case Ok(t) => Ok([open] + t + [close])
    case Err(_) => body
  }

  function Join(first: Result<Text, Error>, more: Result<Text, Error>): Result<Text, Error> {
    match (first, more)
    case (Ok(a), Ok(b)) => Ok(a + [COMMA] + b)
    case (Ok(_), Err(_)) => more
    case (Err(_), _) => first
  }

  function CanonicalItems(l: List<Json>): Result<Text, Error> {
    match l
    case Nil => Ok([])
    case Cons(v, Nil) => Canonical(v)
    case Cons(v, t) => Join(Canonical(v), CanonicalItems(t))
  }

  function CanonicalMembers(l: List<Entry<Json>>): (r: List<Entry<Result<Text, Error>>>) {
    match l
    case Nil => Nil
    case Cons(e, t) => Cons(Entry(e.key, Canonical(e.value)), CanonicalMembers(t))
  }

  function CanonicalMember(e: Entry<Result<Text, Error>>): Result<Text, Error> {
    match e.value
    case Ok(t) => Ok(Quoted(e.key) + [COLON] + t)
    case Err(_) => e.value
  }

  function JoinMembers(l: List<Entry<Result<Text, Error>>>): Result<Text, Error> {
    match l
    case Nil => Ok([])
    case Cons(e, Nil) => CanonicalMember(e)
    case Cons(e, t) => Join(CanonicalMember(e), JoinMembers(t))
  }

  // ----- the canonical text is the printed normal form

  predicate AllOk(l: List<Entry<Result<Text, Error>>>) {
    match l
    case Nil => true
    case Cons(e, t) => e.value.Ok? && AllOk(t)
  }

  lemma {:induction false} InsertAllOk(e: Entry<Result<Text, Error>>, l: List<Entry<Result<Text, Error>>>)
    ensures AllOk(Insert(e, l)) <==> e.value.Ok? && AllOk(l)
  {
    if l.Cons? {
      InsertAllOk(e, l.tail);
    }
  }

  lemma {:induction false} SortAllOk(l: List<Entry<Result<Text, Error>>>)
    ensures AllOk(Sort(l)) <==> AllOk(l)
  {
    if l.Cons? {
      SortAllOk(l.tail);
      InsertAllOk(l.head, Sort(l.tail));
    }
  }

  lemma {:induction false} JoinAllOk(l: List<Entry<Result<Text, Error>>>)
    ensures JoinMembers(l).Ok? <==> AllOk(l)
  {
    if l.Cons? {
      JoinAllOk(l.tail);
    }
  }

  function Printed(l: List<Entry<Json>>): (r: List<Entry<Result<Text, Error>>>)
    requires PublishableMembers(l)
  {
    match l
    case Nil => Nil
    case Cons(e, t) => Cons(Entry(e.key, Ok(Print(e.value))), Printed(t))
  }

  lemma {:induction false} InsertPrinted(e: Entry<Json>, l: List<Entry<Json>>)
    requires Publishable(e.value) && PublishableMembers(l)
    ensures PublishableMembers(Insert(e, l))
    ensures Insert(Entry(e.key, Ok(Print(e.value))), Printed(l)) == Printed(Insert(e, l))
  {
    if l.Cons? {
      InsertPrinted(e, l.tail);
    }
  }

  lemma {:induction false} SortPrinted(l: List<Entry<Json>>)
    requires PublishableMembers(l)
    ensures PublishableMembers(Sort(l)) && Sort(Printed(l)) == Printed(Sort(l))
  {
    if l.Cons? {
      SortPrinted(l.tail);
      InsertPrinted(l.head, Sort(l.tail));
    }
  }

  lemma {:induction false} JoinPrinted(l: List<Entry<Json>>)
    requires PublishableMembers(l)
    ensures JoinMembers(Printed(l)) == Ok(PrintMembers(l))
  {
    if l.Cons? {
      JoinPrinted(l.tail);
    }
  }

  /** The printer accepts a value exactly when its string values are well formed and its
      numbers are safe integers, and then prints the normal form. */
  lemma {:induction false} CanonicalPrintsNormal(v: Json)
    ensures Canonical(v).Ok? <==> Publishable(v)
    ensures Publishable(v) ==> Publishable(Normal(v)) && Canonical(v) == Ok(Print(Normal(v)))
  {
    match v
    case Str(s) => HasLoneIffIllFormed(s);
    case Arr(items) => CanonicalItemsPrintNormal(items);
    case Obj(members) =>
      CanonicalMembersPrintNormal(members);
      var l := CanonicalMembers(members);
      SortAllOk(l);
      JoinAllOk(Sort(l));
      if PublishableMembers(members) {
        SortPrinted(NormalMembers(members));
        JoinPrinted(Sort(NormalMembers(members)));
      }
    case _ =>
  }

  lemma {:induction false} CanonicalItemsPrintNormal(l: List<Json>)
    ensures CanonicalItems(l).Ok? <==> PublishableItems(l)
    ensures PublishableItems(l) ==>
              PublishableItems(NormalItems(l)) && CanonicalItems(l) == Ok(PrintItems(NormalItems(l)))
  {
    if l.Cons? {
      CanonicalPrintsNormal(l.head);
      CanonicalItemsPrintNormal(l.tail);
    }
  }

  lemma {:induction false} CanonicalMembersPrintNormal(l: List<Entry<Json>>)
    ensures AllOk(CanonicalMembers(l)) <==> PublishableMembers(l)
    ensures PublishableMembers(l) ==>
              PublishableMembers(NormalMembers(l)) && CanonicalMembers(l) == Printed(NormalMembers(l))
  {
    if l.Cons? {
      CanonicalPrintsNormal(l.head.value);
      CanonicalMembersPrintNormal(l.tail);
    }
  }

  lemma {:induction false} NormalIdempotent(v: Json)
    requires Valid(v)
    ensures Normal(Normal(v)) == Normal(v)
  {
    match v
    case Arr(items) => NormalItemsIdempotent(items);
    case Obj(members) =>
      var x := Sort(NormalMembers(members));
      SortSorts(NormalMembers(members));
      SortedIsDistinct(x);
      SortSorts(NormalMembers(x));
      forall k ensures Find(Sort(NormalMembers(x)), k) == Find(x, k) {
        FindSorted(x, k);
        FindSorted(members, k);
        NormalMemberIdempotent(members, k);
      }
      SortedExtensional(Sort(NormalMembers(x)), x);
    case _ =>
  }

  lemma {:induction false} NormalItemsIdempotent(l: List<Json>)
    requires ValidItems(l)
    ensures NormalItems(NormalItems(l)) == NormalItems(l)
  {
    if l.Cons? {
      NormalIdempotent(l.head);
      NormalItemsIdempotent(l.tail);
    }
  }

  lemma {:induction false} NormalMemberIdempotent(l: List<Entry<Json>>, k: Text)
    requires ValidMembers(l)
    ensures NormalOption(NormalOption(Find(l, k))) == NormalOption(Find(l, k))
    decreases l
  {
    if l.Cons? {
      NormalIdempotent(l.head.value);
      NormalMemberIdempotent(l.tail, k);
    }
  }

  /** Keys are not checked: one with an unpaired surrogate is accepted, and escaped. */
  lemma LoneKeyAccepted()
    ensures var document := Obj(Cons(Entry([0xD800], Null), Nil));
            HasLone(document.members.head.key) && Canonical(document).Ok?
  {
    assert LoneAt([0xD800], 0);
    CanonicalPrintsNormal(Obj(Cons(Entry([0xD800], Null), Nil)));
  }

  /** Parsing the canonical text gives the value back, up to key order. */
  lemma CanonicalReadsBack(v: Json, round: Rounding)
    requires Valid(v) && Canonical(v).Ok?
    ensures Parse(Canonical(v).value, round) == Some(Normal(v))
    ensures Same(v, Normal(v))
    ensures Canonical(Normal(v)) == Canonical(v)
    ensures WellFormed(Canonical(v).value)
  {
    CanonicalPrintsNormal(v);
    CanonicalPrintsNormal(Normal(v));
    NormalIdempotent(v);
    NormalValid(v);
    ParsePrinted(Normal(v), round);
    SameIffNormal(v, Normal(v));
    PrintWellFormed(Normal(v));
  }

  /** Two accepted values have the same canonical text exactly when they are equal
      up to the order of object keys, at every depth. */
  lemma CanonicalIffSame(a: Json, b: Json)
    requires Valid(a) && Valid(b) && Canonical(a).Ok? && Canonical(b).Ok?
    ensures Canonical(a) == Canonical(b) <==> Same(a, b)
  {
    var round: Rounding := t => Inexact;
    CanonicalReadsBack(a, round);
    CanonicalReadsBack(b, round);
    SameIffNormal(a, b);
    CanonicalPrintsNormal(a);
    CanonicalPrintsNormal(b);
  }

  // ----- rejectSecretFields

  /** The alternatives of the regular expression. */
  const SECRET_NAMES: seq<Text> := [
    Ascii("privateKey"), Ascii("privateKeySpki"), Ascii("signingKey"), Ascii("signingSeed"), Ascii("secretKey"),
    Ascii("apiKey"), Ascii("password"), Ascii("credential"), Ascii("accessToken"), Ascii("refreshToken")
  ]

  function Fold(u: Unit): Unit {
    if 0x41 <= u <= 0x5A then u + 0x20 else u
  }

  function FoldAll(t: Text): Text {
    seq(|t|, i requires 0 <= i < |t| => Fold(t[i]))
  }

  /** The test of a key, which ignores the case of letters. */
  predicate SecretName(key: Text) {
    exists i | 0 <= i < |SECRET_NAMES| :: FoldAll(key) == FoldAll(SECRET_NAMES[i])
  }

  /** The same letter in either case. */
  predicate SameLetter(a: Unit, b: Unit) {
    a == b || (a == b + 0x20 && 0x41 <= b <= 0x5A) || (b == a + 0x20 && 0x41 <= a <= 0x5A)
  }

  predicate SameLetters(a: Text, b: Text) {
    |a| == |b| && forall i | 0 <= i < |a| :: SameLetter(a[i], b[i])
  }

  /** The key is one of the listed names, letter for letter in either case. */
  predicate NamesOne(key: Text) {
    exists i | 0 <= i < |SECRET_NAMES| :: SameLetters(key, SECRET_NAMES[i])
  }

  lemma FoldIsSameLetter(a: Unit, b: Unit)
    ensures Fold(a) == Fold(b) <==> SameLetter(a, b)
  {
  }

  lemma FoldAllIsSameLetters(a: Text, b: Text)
    ensures FoldAll(a) == FoldAll(b) <==> SameLetters(a, b)
  {
    forall i | 0 <= i < |a| && i < |b| ensures Fold(a[i]) == Fold(b[i]) <==> SameLetter(a[i], b[i]) {
      FoldIsSameLetter(a[i], b[i]);
    }
    if FoldAll(a) == FoldAll(b) {
      forall i | 0 <= i < |a| ensures SameLetter(a[i], b[i]) {
        assert FoldAll(a)[i] == FoldAll(b)[i];
      }
    }
  }

  lemma SecretNameExactly(key: Text)
    ensures SecretName(key) <==> NamesOne(key)
  {
    forall i | 0 <= i < |SECRET_NAMES|
      ensures FoldAll(key) == FoldAll(SECRET_NAMES[i]) <==> SameLetters(key, SECRET_NAMES[i])
    {
      FoldAllIsSameLetters(key, SECRET_NAMES[i]);
    }
  }

  predicate HasSecret(v: Json) {
    match v
    case Arr(items) => ItemsHaveSecret(items)
    case Obj(members) => MembersHaveSecret(members)
    case _ => false
  }

  predicate ItemsHaveSecret(l: List<Json>) {
    match l
    case Nil => false
    case Cons(v, t) => HasSecret(v) || ItemsHaveSecret(t)
  }

  predicate MembersHaveSecret(l: List<Entry<Json>>) {
    match l
    case Nil => false
    case Cons(e, t) => SecretName(e.key) || HasSecret(e.value) || MembersHaveSecret(t)
  }

  /** The keys of a value at every depth. */
  function AllKeys(v: Json): set<Text> {
    match v
    case Arr(items) => KeysOfItems(items)
    case Obj(members) => KeysOfMembers(members)
    case _ => {}
  }

  function KeysOfItems(l: List<Json>): set<Text> {
    match l
    case Nil => {}
    case Cons(v, t) => AllKeys(v) + KeysOfItems(t)
  }

  function KeysOfMembers(l: List<Entry<Json>>): set<Text> {
    match l
    case Nil => {}
    case Cons(e, t) => {e.key} + AllKeys(e.value) + KeysOfMembers(t)
  }

  ghost predicate NamesSecret(keys: set<Text>) {
    exists k :: k in keys && SecretName(k)
  }

  lemma {:induction false} SecretIffKey(v: Json)
    ensures HasSecret(v) <==> NamesSecret(AllKeys(v))
  {
    match v
    case Arr(items) => ItemsSecretIffKey(items);
    case Obj(members) => MembersSecretIffKey(members);
    case _ =>
  }

  lemma {:induction false} ItemsSecretIffKey(l: List<Json>)
    ensures ItemsHaveSecret(l) <==> NamesSecret(KeysOfItems(l))
  {
    if l.Cons? {
      SecretIffKey(l.head);
      ItemsSecretIffKey(l.tail);
    }
  }

  lemma {:induction false} MembersSecretIffKey(l: List<Entry<Json>>)
    ensures MembersHaveSecret(l) <==> NamesSecret(KeysOfMembers(l))
  {
    if l.Cons? {
      SecretIffKey(l.head.value);
      MembersSecretIffKey(l.tail);
      var k := l.head.key;
      assert k in KeysOfMembers(l);
    }
  }

  lemma {:induction false} InsertKeepsKeys(e: Entry<Json>, l: List<Entry<Json>>)
    ensures KeysOfMembers(Insert(e, l)) == {e.key} + AllKeys(e.value) + KeysOfMembers(l)
  {
    if l.Cons? {
      InsertKeepsKeys(e, l.tail);
    }
  }

  lemma {:induction false} SortKeepsKeys(l: List<Entry<Json>>)
    ensures KeysOfMembers(Sort(l)) == KeysOfMembers(l)
  {
    if l.Cons? {
      SortKeepsKeys(l.tail);
      InsertKeepsKeys(l.head, Sort(l.tail));
    }
  }

  lemma {:induction false} NormalKeepsKeys(v: Json)
    ensures AllKeys(Normal(v)) == AllKeys(v)
  {
    match v
    case Arr(items) => NormalItemsKeepKeys(items);
    case Obj(members) =>
      NormalMembersKeepKeys(members);
      SortKeepsKeys(NormalMembers(members));
    case _ =>
  }

  lemma {:induction false} NormalItemsKeepKeys(l: List<Json>)
    ensures KeysOfItems(NormalItems(l)) == KeysOfItems(l)
  {
    if l.Cons? {
      NormalKeepsKeys(l.head);
      NormalItemsKeepKeys(l.tail);
    }
  }

  lemma {:induction false} NormalMembersKeepKeys(l: List<Entry<Json>>)
    ensures KeysOfMembers(NormalMembers(l)) == KeysOfMembers(l)
  {
    if l.Cons? {
      NormalKeepsKeys(l.head.value);
      NormalMembersKeepKeys(l.tail);
    }
  }

  // ----- valueAt

  function Length<T>(l: List<T>): nat {
    match l
    case Nil => 0
    case Cons(_, t) => 1 + Length(t)
  }

  /** The element whose index is written `segment`, counting from `index`. */
  function Element(l: List<Json>, index: nat, segment: Text): Option<Json> {
    match l
    case Nil => None
    case Cons(v, t) => if Digits(index) == segment then Some(v) else Element(t, index + 1, segment)
  }

  const LENGTH_NAME: Text := Ascii("length")

  /** `current[segment]` for own properties. An inherited property is never a string,
      nor an object that leads to one, so it counts as undefined. */
  function Property(v: Json, segment: Text): Option<Json> {
    match v
    case Obj(members) => Find(members, segment)
    case Arr(items) =>
      if segment == LENGTH_NAME then Some(Num(Safe(Length(items)))) else Element(items, 0, segment)
    case _ => None
  }

  predicate IsContainer(v: Option<Json>) {
    v.Some? && (v.value.Arr? || v.value.Obj?)
  }

  /** The value reached by following the path, or undefined. */
  function PathValue(current: Option<Json>, path: seq<Text>): Option<Json>
    decreases |path|
  {
    if path == [] then current
    else if !IsContainer(current) then None
    else PathValue(Property(current.value, path[0]), path[1..])
  }

  method ValueAt(value: Json, path: seq<Text>) returns (r: Option<Json>)
    ensures r == PathValue(Some(value), path)
  {
    var current := Some(value);
    for i := 0 to |path|
      invariant PathValue(current, path[i..]) == PathValue(Some(value), path)
    {
      if !IsContainer(current) {
        return None;
      }
      current := Property(current.value, path[i]);
      assert path[i..][1..] == path[i + 1..];
    }
    return current;
  }

  lemma {:induction false} ElementNormal(l: List<Json>, index: nat, segment: Text)
    requires ValidItems(l)
    ensures Element(NormalItems(l), index, segment) == NormalOption(Element(l, index, segment))
    ensures Element(l, index, segment).Some? ==> Valid(Element(l, index, segment).value)
  {
    if l.Cons? {
      ElementNormal(l.tail, index + 1, segment);
    }
  }

  lemma {:induction false} LengthNormal(l: List<Json>)
    ensures Length(NormalItems(l)) == Length(l)
  {
    if l.Cons? {
      LengthNormal(l.tail);
    }
  }

  lemma PropertyNormal(v: Json, segment: Text)
    requires Valid(v)
    ensures Property(Normal(v), segment) == NormalOption(Property(v, segment))
    ensures var p := Property(v, segment); IsContainer(p) ==> Valid(p.value)
  {
    match v
    case Obj(members) =>
      FindSorted(members, segment);
      FindValid(members, segment);
    case Arr(items) =>
      ElementNormal(items, 0, segment);
      LengthNormal(items);
    case _ =>
  }

  lemma {:induction false} PathValueNormal(v: Option<Json>, path: seq<Text>)
    requires IsContainer(v) ==> Valid(v.value)
    ensures PathValue(NormalOption(v), path) == NormalOption(PathValue(v, path))
    decreases |path|
  {
    if path != [] && IsContainer(v) {
      PropertyNormal(v.value, path[0]);
      PathValueNormal(Property(v.value, path[0]), path[1..]);
    }
  }

  // ----- the signature test

  const OBJECT_TEXT: Text := Ascii("[object Object]")
  const TO_STRING: Text := Ascii("toString")
  const SIGNATURE_NAME: Text := Ascii("signature")
  const SIGNATURE_LENGTH := 86

  /** The text that a regular expression test turns a value into, or None where the
      conversion throws because an own `toString` is not callable. The numeral of an
      inexact number is shorter than a signature and stands here as the empty text. */
  function Coerced(v: Json): Option<Text> {
    match v
    case Null => Some(NULL_TEXT)
    case Bool(b) => Some(if b then TRUE_TEXT else FALSE_TEXT)
    case Num(Safe(n)) => Some(Numeral(n))
    case Num(Inexact) => Some([])
    case Str(s) => Some(s)
    case Arr(items) => CoercedItems(items)
    case Obj(members) => if TO_STRING in Keys(members) then None else Some(OBJECT_TEXT)
  }

  /** `Array.prototype.join`: null elements become empty, commas go between. */
  function CoercedItems(l: List<Json>): Option<Text> {
    match l
    case Nil => Some([])
    case Cons(v, t) =>
      match (if v.Null? then Some([]) else Coerced(v))
      case None => None
      case Some(first) =>
        if t.Nil? then Some(first)
        else
          match CoercedItems(t)
          case None => None
          case Some(more) => Some(first + [COMMA] + more)
  }

  predicate SignatureUnit(u: Unit) {
    0x41 <= u <= 0x5A || 0x61 <= u <= 0x7A || IsDigit(u) || u == 0x5F || u == MINUS
  }

  predicate IsSignature(t: Text) {
    |t| == SIGNATURE_LENGTH && forall i | 0 <= i < |t| :: SignatureUnit(t[i])
  }

  /** `value.signature ?? ""`, converted to text. */
  function SignatureText(signature: Option<Json>): Option<Text> {
    if signature.None? || signature.value.Null? then Some([]) else Coerced(signature.value)
  }

  lemma {:induction false} CoercedNormal(v: Json)
    ensures Coerced(Normal(v)) == Coerced(v)
  {
    match v
    case Arr(items) => CoercedItemsNormal(items);
    case _ =>
  }

  lemma {:induction false} CoercedItemsNormal(l: List<Json>)
    ensures CoercedItems(NormalItems(l)) == CoercedItems(l)
  {
    if l.Cons? {
      CoercedNormal(l.head);
      CoercedItemsNormal(l.tail);
    }
  }

  /** The string inside any number of one-element arrays. */
  function Unwrapped(v: Json): Option<Text> {
    match v
    case Str(s) => Some(s)
    case Arr(Cons(x, Nil)) => Unwrapped(x)
    case _ => None
  }

  lemma {:induction false} DigitsShort(n: nat, k: nat, bound: nat)
    requires n < bound && (k == 0 ==> bound == 1) && (k > 0 ==> bound == TenTo(k))
    ensures |Digits(n)| <= if k == 0 then 1 else k
  {
    if n >= 10 {
      DigitsShort(n / 10, k - 1, TenTo(k - 1));
    }
  }

  function TenTo(k: nat): nat {
    if k == 0 then 1 else 10 * TenTo(k - 1)
  }

  lemma NumeralShort(n: int)
    requires SafeInteger(n)
    ensures |Numeral(n)| <= 17
  {
    assert TenTo(16) == 1_0000_0000_0000_0000 by {
      assert TenTo(4) == 1_0000;
      assert TenTo(8) == 1_0000_0000;
      assert TenTo(12) == 1_0000_0000_0000;
    }
    DigitsShort(if n < 0 then -n else n, 16, TenTo(16));
  }

  /** The test accepts a signature string, and also one wrapped in one-element arrays;
      it accepts nothing else. */
  lemma {:induction false} SignatureExactly(v: Json)
    requires Valid(v)
    ensures (Coerced(v).Some? && IsSignature(Coerced(v).value)) <==>
            (Unwrapped(v).Some? && IsSignature(Unwrapped(v).value))
  {
    match v
    case Num(n) =>
      if n.Safe? {
        NumeralShort(n.n);
      }
    case Arr(items) =>
      if items.Cons? && items.tail.Nil? {
        SignatureExactly(items.head);
      } else if items.Cons? && Coerced(v).Some? {
        var first := if items.head.Null? then [] else Coerced(items.head).value;
        assert Coerced(v).value[|first|] == COMMA;
      }
    case _ =>
  }

  /** A document whose signature is a list passes the signature test. */
  lemma SignatureMayBeWrapped(s: Text)
    requires IsSignature(s)
    ensures SignatureText(Some(Arr(Cons(Str(s), Nil)))) == Some(s)
  {
    assert CoercedItems(Cons(Str(s), Nil)) == Coerced(Str(s));
  }

  // ----- boundedSignedDocument

  datatype Configuration = Configuration(
    maximumBytes: nat,
    schema: Text,
    schemaPath: Option<seq<Text>>,
    tenantPath: Option<seq<Text>>)

  const DEFAULT_SCHEMA_PATH: seq<Text> := [Ascii("schema")]

  function SchemaPath(configuration: Configuration): seq<Text> {
    if configuration.schemaPath.Some? then configuration.schemaPath.value else DEFAULT_SCHEMA_PATH
  }

  /** The path leads to this string. */
  predicate PathHolds(v: Json, path: seq<Text>, text: Text) {
    PathValue(Some(v), path) == Some(Str(text))
  }

  /** The first check that refuses a parsed document. */
  function Refusal(v: Json, configuration: Configuration, tenant: Text): (r: Option<Error>) {
    var signature := SignatureText(Property(v, SIGNATURE_NAME));
    if !v.Obj? then Some(NotObject)
    else if HasSecret(v) then Some(SecretField)
    else if signature.None? then Some(NotCoercible)
    else if !IsSignature(signature.value) then Some(BadSignature)
    else if !PathHolds(v, SchemaPath(configuration), configuration.schema) then Some(WrongSchema)
    else if configuration.tenantPath.Some? && !PathHolds(v, configuration.tenantPath.value, tenant) then
      Some(WrongTenant)
    else None
  }

  function Publish(v: Json, configuration: Configuration, tenant: Text): (r: Result<Text, Error>) {
    match Refusal(v, configuration, tenant)
    case Some(e) => Err(e)
    case None =>
      match Canonical(v)
      case Err(e) => Err(e)
      case Ok(t) => if |Encode(t)| > configuration.maximumBytes then Err(CanonicalSize) else Ok(t)
  }

  function BoundedSignedDocument(
    raw: Text, configuration: Configuration, tenant: Text, round: Rounding): (r: Result<Text, Error>)
  {
    var bytes := |Encode(raw)|;
    if bytes == 0 || bytes > configuration.maximumBytes then Err(DocumentSize)
    else
      match Parse(raw, round)
      case None => Err(NotJson)
      case Some(v) => Publish(v, configuration, tenant)
  }

  /** The object has a signature of 86 letters, digits, hyphens and underscores, possibly
      inside one-element arrays. */
  predicate Signed(v: Json) {
    && v.Obj?
    && var signature := Find(v.members, Ascii("signature"));
    && signature.Some? && Unwrapped(signature.value).Some?
    && var s := Unwrapped(signature.value).value;
    && |s| == 86
    && forall i | 0 <= i < |s| ::
         || 0x41 <= s[i] <= 0x5A || 0x61 <= s[i] <= 0x7A || 0x30 <= s[i] <= 0x39
         || s[i] == 0x2D || s[i] == 0x5F
  }

  lemma SignedExactly(v: Json)
    requires v.Obj? && Valid(v)
    ensures var t := SignatureText(Property(v, SIGNATURE_NAME));
            t.Some? && IsSignature(t.value) <==> Signed(v)
  {
    var signature := Find(v.members, SIGNATURE_NAME);
    FindValid(v.members, SIGNATURE_NAME);
    if signature.Some? {
      SignatureExactly(signature.value);
    }
  }

  // ----- where a path leads

  /** The object has this member. */
  predicate Has(l: List<Entry<Json>>, key: Text, c: Json) {
    l.Cons? && ((l.head.key == key && l.head.value == c) || Has(l.tail, key, c))
  }

  /** The item at this place. */
  predicate At(l: List<Json>, i: nat, c: Json) {
    l.Cons? && if i == 0 then l.head == c else At(l.tail, i - 1, c)
  }

  /** A member of an object, an item of an array by its decimal index, or its length. */
  ghost predicate Child(v: Json, segment: Text, c: Json) {
    match v
    case Obj(members) => Has(members, segment, c)
    case Arr(items) =>
      || (segment == Ascii("length") && c == Num(Safe(Length(items))))
      || exists i: nat :: At(items, i, c) && segment == Digits(i)
    case _ => false
  }

  ghost predicate Leads(v: Json, path: seq<Text>, w: Json)
    decreases |path|
  {
    if path == [] then v == w else exists c :: Child(v, path[0], c) && Leads(c, path[1..], w)
  }

  lemma {:induction false} FindIsHas(l: List<Entry<Json>>, key: Text, c: Json)
    requires Distinct(l)
    ensures Find(l, key) == Some(c) <==> Has(l, key, c)
    ensures Has(l, key, c) ==> key in Keys(l)
  {
    if l.Cons? {
      FindIsHas(l.tail, key, c);
    }
  }

  lemma {:induction false} ElementIsAt(l: List<Json>, index: nat, i: nat, c: Json)
    ensures Element(l, index, Digits(index + i)) == Some(c) <==> At(l, i, c)
    decreases l
  {
    if l.Cons? {
      NumeralInjective(index, index + i);
      if i > 0 {
        ElementIsAt(l.tail, index + 1, i - 1, c);
      }
    }
  }

  lemma {:induction false} ElementIsSome(l: List<Json>, index: nat, segment: Text) returns (i: nat)
    requires Element(l, index, segment).Some?
    ensures segment == Digits(index + i)
    decreases l
  {
    if Digits(index) == segment {
      i := 0;
    } else {
      var j := ElementIsSome(l.tail, index + 1, segment);
      i := j + 1;
    }
  }

  lemma LengthIsNoIndex(i: nat)
    ensures Digits(i) != LENGTH_NAME
  {
    assert IsDigit(Digits(i)[0]) && LENGTH_NAME[0] == 0x6C;
  }

  lemma PropertyIsChild(v: Json, segment: Text, c: Json)
    requires Valid(v)
    ensures Property(v, segment) == Some(c) <==> Child(v, segment, c)
  {
    match v
    case Obj(members) => FindIsHas(members, segment, c);
    case Arr(items) =>
      forall i: nat | segment == Digits(i)
        ensures segment != LENGTH_NAME && (Element(items, 0, segment) == Some(c) <==> At(items, i, c))
      {
        LengthIsNoIndex(i);
        ElementIsAt(items, 0, i, c);
      }
      if segment != LENGTH_NAME && Element(items, 0, segment) == Some(c) {
        var i := ElementIsSome(items, 0, segment);
        assert At(items, i, c) && segment == Digits(i);
      }
    case _ =>
  }

  lemma NoChild(v: Json, path: seq<Text>, w: Json)
    requires path != [] && !v.Arr? && !v.Obj?
    ensures !Leads(v, path, w)
  {
  }

  /** Following a path gives exactly the value that it leads to. */
  lemma {:induction false} PathLeads(v: Json, path: seq<Text>, w: Json)
    requires Valid(v)
    ensures PathValue(Some(v), path) == Some(w) <==> Leads(v, path, w)
    decreases |path|, 0
  {
    if path != [] {
      if !v.Arr? && !v.Obj? {
        NoChild(v, path, w);
      } else {
        var p := Property(v, path[0]);
        PropertyNormal(v, path[0]);
        forall c ensures Child(v, path[0], c) <==> p == Some(c) {
          PropertyIsChild(v, path[0], c);
        }
        if p.Some? {
          PathFrom(p.value, path[1..], w);
        } else if path[1..] == [] {
          assert PathValue(None, path[1..]) == None;
        }
      }
    }
  }

  /** The same from a value that may be a scalar. */
  lemma {:induction false} PathFrom(v: Json, path: seq<Text>, w: Json)
    requires IsContainer(Some(v)) ==> Valid(v)
    ensures PathValue(Some(v), path) == Some(w) <==> Leads(v, path, w)
    decreases |path|, 1
  {
    if IsContainer(Some(v)) {
      PathLeads(v, path, w);
    } else if path != [] {
      NoChild(v, path, w);
    }
  }

  // ----- what is published

  /** What a publishable document is. */
  ghost predicate Acceptable(v: Json, configuration: Configuration, tenant: Text) {
    && Signed(v) && Publishable(v) && (forall k | k in AllKeys(v) :: !NamesOne(k))
    && Leads(v, if configuration.schemaPath.Some? then configuration.schemaPath.value else [Ascii("schema")],
             Str(configuration.schema))
    && (configuration.tenantPath.Some? ==> Leads(v, configuration.tenantPath.value, Str(tenant)))
  }

  lemma AcceptableExactly(v: Json, configuration: Configuration, tenant: Text)
    requires Valid(v)
    ensures Refusal(v, configuration, tenant).None? && Publishable(v) <==> Acceptable(v, configuration, tenant)
  {
    SecretIffKey(v);
    forall k ensures SecretName(k) <==> NamesOne(k) {
      SecretNameExactly(k);
    }
    if v.Obj? {
      SignedExactly(v);
    }
    PathLeads(v, SchemaPath(configuration), Str(configuration.schema));
    if configuration.tenantPath.Some? {
      PathLeads(v, configuration.tenantPath.value, Str(tenant));
    }
  }

  /** The raw text is written for an acceptable document whose canonical text this is. */
  ghost predicate Publishes(
    raw: Text, configuration: Configuration, tenant: Text, round: Rounding, text: Text, v: Json)
  {
    && Writes(raw, v, round) && Acceptable(v, configuration, tenant)
    && Publishable(Normal(v)) && text == Print(Normal(v))
  }

  /** A raw text is published exactly when it and its canonical text are within the bound
      and it is written for an acceptable document; and what is published is the document
      with its keys sorted at every depth. */
  lemma PublishedExactly(raw: Text, configuration: Configuration, tenant: Text, round: Rounding, text: Text)
    ensures BoundedSignedDocument(raw, configuration, tenant, round) == Ok(text) <==>
            && 0 < |Encode(raw)| <= configuration.maximumBytes && |Encode(text)| <= configuration.maximumBytes
            && exists v :: Publishes(raw, configuration, tenant, round, text, v)
  {
    ParseValid(raw, round);
    forall v ensures Parse(raw, round) == Some(v) <==> Writes(raw, v, round) {
      ParsesExactly(raw, v, round);
    }
    if Parse(raw, round).Some? {
      var v := Parse(raw, round).value;
      CanonicalPrintsNormal(v);
      AcceptableExactly(v, configuration, tenant);
      PublishesWhen(raw, configuration, tenant, round, text, v);
    }
  }

  lemma PublishesWhen(
    raw: Text, configuration: Configuration, tenant: Text, round: Rounding, text: Text, v: Json)
    requires Writes(raw, v, round) && Valid(v)
    ensures Publishes(raw, configuration, tenant, round, text, v) <==>
            Refusal(v, configuration, tenant).None? && Canonical(v) == Ok(text)
  {
    CanonicalPrintsNormal(v);
    AcceptableExactly(v, configuration, tenant);
  }

  /** Which check refuses a document: the first in the order of the source that fails. */
  lemma RefusedInOrder(v: Json, configuration: Configuration, tenant: Text)
    requires Valid(v)
    ensures var e := Refusal(v, configuration, tenant);
            var secret := exists k :: k in AllKeys(v) && NamesOne(k);
            var path := if configuration.schemaPath.Some? then configuration.schemaPath.value else [Ascii("schema")];
            var schema := Leads(v, path, Str(configuration.schema));
            && (e == Some(NotObject) <==> !v.Obj?)
            && (e == Some(SecretField) <==> v.Obj? && secret)
            && (e == Some(NotCoercible) || e == Some(BadSignature) <==> v.Obj? && !secret && !Signed(v))
            && (e == Some(WrongSchema) <==> Signed(v) && !secret && !schema)
            && (e == Some(WrongTenant) <==>
                  && Signed(v) && !secret && schema && configuration.tenantPath.Some?
                  && !Leads(v, configuration.tenantPath.value, Str(tenant)))
  {
    SecretIffKey(v);
    forall k ensures SecretName(k) <==> NamesOne(k) {
      SecretNameExactly(k);
    }
    if v.Obj? {
      SignedExactly(v);
    }
    PathLeads(v, SchemaPath(configuration), Str(configuration.schema));
    if configuration.tenantPath.Some? {
      PathLeads(v, configuration.tenantPath.value, Str(tenant));
    }
  }

  lemma SignatureNormal(v: Json)
    requires Valid(v)
    ensures SignatureText(Property(Normal(v), SIGNATURE_NAME)) == SignatureText(Property(v, SIGNATURE_NAME))
  {
    PropertyNormal(v, SIGNATURE_NAME);
    if Property(v, SIGNATURE_NAME).Some? {
      CoercedNormal(Property(v, SIGNATURE_NAME).value);
    }
  }

  lemma PathHoldsNormal(v: Json, path: seq<Text>, text: Text)
    requires Valid(v)
    ensures PathHolds(Normal(v), path, text) <==> PathHolds(v, path, text)
  {
    PathValueNormal(Some(v), path);
  }

  lemma SecretNormal(v: Json)
    ensures HasSecret(Normal(v)) <==> HasSecret(v)
  {
    NormalKeepsKeys(v);
    SecretIffKey(v);
    SecretIffKey(Normal(v));
  }

  lemma RefusalNormal(v: Json, configuration: Configuration, tenant: Text)
    requires Valid(v)
    ensures Refusal(Normal(v), configuration, tenant) == Refusal(v, configuration, tenant)
  {
    SignatureNormal(v);
    SecretNormal(v);
    PathHoldsNormal(v, SchemaPath(configuration), configuration.schema);
    if configuration.tenantPath.Some? {
      PathHoldsNormal(v, configuration.tenantPath.value, tenant);
    }
  }

  /** Sorting the keys changes neither the verdict nor the text. */
  lemma PublishNormal(v: Json, configuration: Configuration, tenant: Text)
    requires Valid(v)
    ensures Publish(Normal(v), configuration, tenant).Ok? <==> Publish(v, configuration, tenant).Ok?
    ensures Publish(v, configuration, tenant).Ok? ==>
              Publish(Normal(v), configuration, tenant) == Publish(v, configuration, tenant)
  {
    RefusalNormal(v, configuration, tenant);
    NormalIdempotent(v);
    CanonicalPrintsNormal(v);
    CanonicalPrintsNormal(Normal(v));
    PublishableNormal(v);
  }

  lemma {:induction false} PublishableNormal(v: Json)
    ensures Publishable(Normal(v)) <==> Publishable(v)
  {
    match v
    case Arr(items) => PublishableNormalItems(items);
    case Obj(members) =>
      PublishableNormalMembers(members);
      SortPublishable(NormalMembers(members));
    case _ =>
  }

  lemma {:induction false} PublishableNormalItems(l: List<Json>)
    ensures PublishableItems(NormalItems(l)) <==> PublishableItems(l)
  {
    if l.Cons? {
      PublishableNormal(l.head);
      PublishableNormalItems(l.tail);
    }
  }

  lemma {:induction false} PublishableNormalMembers(l: List<Entry<Json>>)
    ensures PublishableMembers(NormalMembers(l)) <==> PublishableMembers(l)
  {
    if l.Cons? {
      PublishableNormal(l.head.value);
      PublishableNormalMembers(l.tail);
    }
  }

  lemma {:induction false} InsertPublishable(e: Entry<Json>, l: List<Entry<Json>>)
    ensures PublishableMembers(Insert(e, l)) <==> Publishable(e.value) && PublishableMembers(l)
  {
    if l.Cons? {
      InsertPublishable(e, l.tail);
    }
  }

  lemma {:induction false} SortPublishable(l: List<Entry<Json>>)
    ensures PublishableMembers(Sort(l)) <==> PublishableMembers(l)
  {
    if l.Cons? {
      SortPublishable(l.tail);
      InsertPublishable(l.head, Sort(l.tail));
    }
  }

  /** Publishing what was published changes nothing: every accepted text is a fixed
      point, within the byte limit, well formed, and without a secret key at any depth. */
  lemma PublishIsIdempotent(raw: Text, configuration: Configuration, tenant: Text, round: Rounding)
    requires BoundedSignedDocument(raw, configuration, tenant, round).Ok?
    ensures var text := BoundedSignedDocument(raw, configuration, tenant, round).value;
            && BoundedSignedDocument(text, configuration, tenant, round) == Ok(text)
            && |Encode(text)| <= configuration.maximumBytes
            && WellFormed(text)
            && Parse(text, round).Some?
            && Same(Parse(raw, round).value, Parse(text, round).value)
            && !NamesSecret(AllKeys(Parse(text, round).value))
  {
    var v := Parse(raw, round).value;
    ParseValid(raw, round);
    CanonicalReadsBack(v, round);
    PublishNormal(v, configuration, tenant);
    SecretIffKey(Normal(v));
  }

  /** Documents that are equal up to key order publish the same text. */
  lemma SameDocumentsPublishAlike(
    raw1: Text, raw2: Text, configuration: Configuration, tenant: Text, round: Rounding)
    requires Parse(raw1, round).Some? && Parse(raw2, round).Some?
    requires Same(Parse(raw1, round).value, Parse(raw2, round).value)
    requires 0 < |Encode(raw1)| <= configuration.maximumBytes
    requires 0 < |Encode(raw2)| <= configuration.maximumBytes
    ensures var r1 := BoundedSignedDocument(raw1, configuration, tenant, round);
            var r2 := BoundedSignedDocument(raw2, configuration, tenant, round);
            (r1.Ok? || r2.Ok?) ==> r1 == r2
  {
    ParseValid(raw1, round);
    ParseValid(raw2, round);
    SameIffNormal(Parse(raw1, round).value, Parse(raw2, round).value);
    PublishNormal(Parse(raw1, round).value, configuration, tenant);
    PublishNormal(Parse(raw2, round).value, configuration, tenant);
  }

  /** The bytes that two accepted documents publish are equal exactly when the documents
      are equal up to key order. */
  lemma PublishedBytesIffSame(
    raw1: Text, raw2: Text, configuration: Configuration, tenant: Text, round: Rounding)
    requires BoundedSignedDocument(raw1, configuration, tenant, round).Ok?
    requires BoundedSignedDocument(raw2, configuration, tenant, round).Ok?
    ensures var text1 := BoundedSignedDocument(raw1, configuration, tenant, round).value;
            var text2 := BoundedSignedDocument(raw2, configuration, tenant, round).value;
            Encode(text1) == Encode(text2) <==> Same(Parse(raw1, round).value, Parse(raw2, round).value)
  {
    ParseValid(raw1, round);
    ParseValid(raw2, round);
    var v1, v2 := Parse(raw1, round).value, Parse(raw2, round).value;
    CanonicalReadsBack(v1, round);
    CanonicalReadsBack(v2, round);
    CanonicalIffSame(v1, v2);
    EncodeInjective(Canonical(v1).value, Canonical(v2).value);
  }
}
