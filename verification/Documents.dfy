/** JSON documents as Python reads them, with the member names that a reader knows as the
    key type. */
module Documents {

  /** Text as a sequence of code points. */
  type Str = seq<int>

  datatype Value<K(==)> =
    | Null
    | Flag(b: bool)
    | Int(n: int)
    | Text(s: Str)
    | List(items: seq<Value<K>>)
    | Dict(fields: map<K, Value<K>>)
    | OtherValue

  /** An object with exactly these members. */
  predicate Exact<K(==)>(v: Value<K>, keys: set<K>) {
    v.Dict? && v.fields.Keys == keys
  }

  predicate Choice<K(==)>(v: Value<K>, allowed: set<Str>) {
    v.Text? && v.s in allowed
  }

  predicate IsHex(c: int) {
    0x30 <= c <= 0x39 || 0x61 <= c <= 0x66
  }

  predicate HexOf(s: Str, length: nat) {
    |s| == length && forall i | 0 <= i < |s| :: IsHex(s[i])
  }

  /** The sixteen digits of lower-case hexadecimal text. */
  const HEX_DIGITS: set<int> := {
    0x30, 0x31, 0x32, 0x33, 0x34, 0x35, 0x36, 0x37, 0x38, 0x39, 0x61, 0x62, 0x63, 0x64, 0x65, 0x66}

  predicate Hexadecimal(s: Str, length: nat) {
    |s| == length && forall i | 0 <= i < |s| :: s[i] in HEX_DIGITS
  }

  lemma HexExactly(s: Str, length: nat)
    ensures HexOf(s, length) <==> Hexadecimal(s, length)
  {
    forall i | 0 <= i < |s| ensures IsHex(s[i]) <==> s[i] in HEX_DIGITS {
    }
  }

  /** ASCII letters and digits. */
  predicate Alphanumeric(c: int) {
    0x61 <= c <= 0x7A || 0x41 <= c <= 0x5A || 0x30 <= c <= 0x39
  }

  function Mapped<T, U>(xs: seq<T>, f: T --> U): (r: seq<U>)
    requires forall x | x in xs :: f.requires(x)
    ensures |r| == |xs|
  {
    seq(|xs|, i requires 0 <= i < |xs| && f.requires(xs[i]) => f(xs[i]))
  }
}
