/** `TextEncoder`: UTF-8, with U+FFFD for every unpaired surrogate. */
module Utf8 {
  import opened Texts
  import opened JsonText

  /** The encoding of a unit that is not part of a surrogate pair. */
  function EncodeUnit(u: Unit): (b: Bytes)
    ensures 1 <= |b| <= 3
  {
    if u < 0x80 then [u]
    else if u < 0x800 then [0xC0 + u / 0x40, 0x80 + u % 0x40]
    else if IsHigh(u) || IsLow(u) then [0xEF, 0xBF, 0xBD]
    else [0xE0 + u / 0x1000, 0x80 + u / 0x40 % 0x40, 0x80 + u % 0x40]
  }

  function EncodePair(high: Unit, low: Unit): (b: Bytes)
    requires IsHigh(high) && IsLow(low)
    ensures |b| == 4
  {
    var h: int, l: int := high - 0xD800, low - 0xDC00;
    var c := 0x1_0000 + 0x400 * h + l;
    [0xF0 + c / 0x4_0000, 0x80 + c / 0x1000 % 0x40, 0x80 + c / 0x40 % 0x40, 0x80 + c % 0x40]
  }

  function Encode(t: Text): (b: Bytes)
    ensures b == [] <==> t == []
  {
    if t == [] then []
    else if PairAt(t) then EncodePair(t[0], t[1]) + Encode(t[2..])
    else EncodeUnit(t[0]) + Encode(t[1..])
  }

  // ----- decoding

  /** The value of a continuation byte, or -1. */
  function Tail(b: Bytes, i: nat): (n: int)
    ensures -1 <= n < 0x40
  {
    if i < |b| && 0x80 <= b[i] < 0xC0 then b[i] - 0x80 else -1
  }

  datatype First = First(units: Text, length: nat) | Malformed

  /** The first character: its units and the bytes it takes. */
  function DecodeFirst(b: Bytes): (f: First)
    ensures f.First? ==> 1 <= f.length <= |b|
  {
    if b == [] then Malformed
    else if b[0] < 0x80 then First([b[0]], 1)
    else
      var lead: int, x, y, z := b[0], Tail(b, 1), Tail(b, 2), Tail(b, 3);
      if 0xC0 <= lead < 0xE0 && x >= 0 then First([0x40 * (lead - 0xC0) + x], 2)
      else if 0xE0 <= lead < 0xF0 && x >= 0 && y >= 0 then First([0x1000 * (lead - 0xE0) + 0x40 * x + y], 3)
      else if 0xF0 <= lead < 0xF5 && x >= 0 && y >= 0 && z >= 0 then
        var c := 0x4_0000 * (lead - 0xF0) + 0x1000 * x + 0x40 * y + z - 0x1_0000;
        if 0 <= c < 0x10_0000 then First([0xD800 + c / 0x400, 0xDC00 + c % 0x400], 4) else Malformed
      else Malformed
  }

  function Decode(b: Bytes): Option<Text> {
    if b == [] then Some([])
    else
      match DecodeFirst(b)
      case Malformed => None
      case First(units, n) =>
        match Decode(b[n..])
        case None => None
        case Some(t) => Some(units + t)
  }

  lemma DecodeUnit(u: Unit, rest: Bytes)
    requires !IsHigh(u) && !IsLow(u)
    ensures DecodeFirst(EncodeUnit(u) + rest) == First([u], |EncodeUnit(u)|)
  {
    var b := EncodeUnit(u) + rest;
    assert forall i | 0 <= i < |EncodeUnit(u)| :: b[i] == EncodeUnit(u)[i];
    assert u == 0x40 * (u / 0x40) + u % 0x40;
    assert u / 0x40 == 0x40 * (u / 0x1000) + u / 0x40 % 0x40;
  }

  lemma PairParts(c: int)
    requires 0x1_0000 <= c < 0x11_0000
    ensures c == 0x4_0000 * (c / 0x4_0000) + 0x1000 * (c / 0x1000 % 0x40) + 0x40 * (c / 0x40 % 0x40) + c % 0x40
    ensures 0 <= c / 0x4_0000 < 5
  {
    assert c == 0x40 * (c / 0x40) + c % 0x40;
    assert c / 0x40 == 0x40 * (c / 0x1000) + c / 0x40 % 0x40;
    assert c / 0x1000 == 0x40 * (c / 0x4_0000) + c / 0x1000 % 0x40;
  }

  lemma DecodePair(high: Unit, low: Unit, rest: Bytes)
    requires IsHigh(high) && IsLow(low)
    ensures DecodeFirst(EncodePair(high, low) + rest) == First([high, low], 4)
  {
    var h: int, l: int := high - 0xD800, low - 0xDC00;
    var c := 0x1_0000 + 0x400 * h + l;
    var b := EncodePair(high, low) + rest;
    PairParts(c);
    assert b[0] == 0xF0 + c / 0x4_0000 && b[1] == 0x80 + c / 0x1000 % 0x40;
    assert b[2] == 0x80 + c / 0x40 % 0x40 && b[3] == 0x80 + c % 0x40;
    assert (c - 0x1_0000) / 0x400 == h && (c - 0x1_0000) % 0x400 == l;
  }

  lemma DecodeStep(b: Bytes, rest: Bytes, units: Text, t: Text)
    requires b != [] && DecodeFirst(b + rest) == First(units, |b|) && Decode(rest) == Some(t)
    ensures Decode(b + rest) == Some(units + t)
  {
    assert (b + rest)[|b|..] == rest;
  }

  /** Well-formed text is recovered from its bytes. */
  lemma {:induction false} DecodeEncoded(t: Text)
    requires WellFormed(t)
    ensures Decode(Encode(t)) == Some(t)
  {
    if t != [] {
      if PairAt(t) {
        DecodeEncoded(t[2..]);
        DecodePair(t[0], t[1], Encode(t[2..]));
        DecodeStep(EncodePair(t[0], t[1]), Encode(t[2..]), [t[0], t[1]], t[2..]);
        assert t == [t[0], t[1]] + t[2..];
      } else {
        DecodeEncoded(t[1..]);
        DecodeUnit(t[0], Encode(t[1..]));
        DecodeStep(EncodeUnit(t[0]), Encode(t[1..]), [t[0]], t[1..]);
        assert t == [t[0]] + t[1..];
      }
    }
  }

  // ----- unpaired surrogates

  /** The text with U+FFFD for every surrogate that is not in a pair. */
  function Replaced(t: Text): Text {
    if t == [] then []
    else if PairAt(t) then t[..2] + Replaced(t[2..])
    else [if 0xD800 <= t[0] <= 0xDFFF then 0xFFFD else t[0]] + Replaced(t[1..])
  }

  lemma {:induction false} ReplacedWellFormed(t: Text)
    ensures WellFormed(Replaced(t))
  {
    if t != [] {
      if PairAt(t) {
        ReplacedWellFormed(t[2..]);
        assert t[..2][2..] == [];
        WellFormedConcat(t[..2], Replaced(t[2..]));
      } else {
        ReplacedWellFormed(t[1..]);
        assert Replaced(t)[1..] == Replaced(t[1..]);
      }
    }
  }

  lemma EncodeFirstUnit(u: Unit, rest: Text)
    requires !IsHigh(u)
    ensures Encode([u] + rest) == EncodeUnit(u) + Encode(rest)
  {
    assert ([u] + rest)[1..] == rest;
  }

  lemma EncodeFirstPair(high: Unit, low: Unit, rest: Text)
    requires IsHigh(high) && IsLow(low)
    ensures Encode([high, low] + rest) == EncodePair(high, low) + Encode(rest)
  {
    assert ([high, low] + rest)[2..] == rest;
  }

  lemma {:induction false} EncodeReplaces(t: Text)
    ensures Encode(t) == Encode(Replaced(t))
  {
    if t != [] {
      if PairAt(t) {
        EncodeReplaces(t[2..]);
        assert t[..2] == [t[0], t[1]];
        EncodeFirstPair(t[0], t[1], Replaced(t[2..]));
      } else {
        EncodeReplaces(t[1..]);
        EncodeFirstUnit(Replaced(t)[0], Replaced(t[1..]));
      }
    }
  }

  /** The bytes of any text decode to it with U+FFFD for every unpaired surrogate. */
  lemma DecodeEncodedAny(t: Text)
    ensures Decode(Encode(t)) == Some(Replaced(t))
  {
    EncodeReplaces(t);
    ReplacedWellFormed(t);
    DecodeEncoded(Replaced(t));
  }

  lemma EncodeInjective(s: Text, t: Text)
    requires WellFormed(s) && WellFormed(t)
    ensures Encode(s) == Encode(t) <==> s == t
  {
    DecodeEncoded(s);
    DecodeEncoded(t);
  }
}
