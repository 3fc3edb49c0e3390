/** The decimal numerals that the tools print and read. */
module Decimal {
  import opened Texts

  const MINUS: Byte := 0x2D

  predicate IsDigit(u: int) {
    0x30 <= u <= 0x39
  }

  predicate AllDigits(s: seq<int>) {
    forall i | 0 <= i < |s| :: IsDigit(s[i])
  }

  /** The shortest numeral of n: no sign and no leading zero. */
  function Digits(n: nat): (d: Bytes)
    ensures d != [] && AllDigits(d)
    ensures d[0] == 0x30 ==> d == [0x30]
  {
    if n < 10 then [0x30 + n] else Digits(n / 10) + [0x30 + n % 10]
  }

  /** `str(n)` in Python and `JSON.stringify(n)` in JavaScript, for integers. */
  function Numeral(n: int): (d: Bytes)
    ensures d != []
  {
    if n < 0 then [MINUS] + Digits(-n) else Digits(n)
  }

  /** The number that a string of digits denotes. */
  function Value(d: seq<int>): (n: nat)
    requires AllDigits(d)
  {
    if d == [] then 0 else 10 * Value(d[..|d| - 1]) + (d[|d| - 1] - 0x30)
  }

  lemma {:induction false} ValueOfDigits(n: nat)
    ensures Value(Digits(n)) == n
  {
    if n >= 10 {
      ValueOfDigits(n / 10);
      assert Digits(n)[..|Digits(n)| - 1] == Digits(n / 10);
    } else {
      assert Digits(n)[..0] == [];
    }
  }

  lemma DigitsStep(m: nat, c: nat)
    requires m > 0 && c < 10
    ensures Digits(10 * m + c) == Digits(m) + [0x30 + c]
  {
    assert (10 * m + c) / 10 == m && (10 * m + c) % 10 == c;
  }

  /** The value of a shortest numeral fixes the numeral. */
  lemma {:induction false} DigitsOfValue(d: Bytes)
    requires d != [] && AllDigits(d)
    requires d[0] == 0x30 ==> d == [0x30]
    ensures Digits(Value(d)) == d
  {
    var front := d[..|d| - 1];
    if front == [] {
      assert Value(front) == 0;
    } else {
      assert front[0] == d[0];
      DigitsOfValue(front);
      PositiveValue(front);
      DigitsStep(Value(front), d[|d| - 1] - 0x30);
      assert d == front + [d[|d| - 1]];
    }
  }

  lemma {:induction false} PositiveValue(d: seq<int>)
    requires d != [] && AllDigits(d) && d[0] != 0x30
    ensures Value(d) > 0
  {
    if |d| > 1 {
      PositiveValue(d[..|d| - 1]);
    }
  }

  lemma NumeralInjective(m: int, n: int)
    ensures Numeral(m) == Numeral(n) <==> m == n
  {
    if Numeral(m) == Numeral(n) {
      if m < 0 {
        assert Numeral(m)[1..] == Digits(-m);
        assert n < 0 && Numeral(n)[1..] == Digits(-n);
        ValueOfDigits(-m);
        ValueOfDigits(-n);
      } else {
        assert n >= 0;
        ValueOfDigits(m);
        ValueOfDigits(n);
      }
    }
  }
}
