/** Texts and byte strings as sequences of numbers, and their lexicographic order. */
module Texts {

  /** A UTF-16 code unit. JavaScript strings are sequences of these, paired or not. */
  type Unit = n: int | 0 <= n < 0x1_0000

  type Text = seq<Unit>

  type Byte = n: int | 0 <= n < 0x100

  type Bytes = seq<Byte>

  datatype Option<+T> = None | Some(value: T)

  /** A value, or the reason why there is none. */
  datatype Result<+T, +E> = Ok(value: T) | Err(error: E)

  /** The codes of a source literal, all of which are ASCII. */
  function Ascii(s: string): (t: seq<Byte>)
    requires forall i | 0 <= i < |s| :: s[i] < 128 as char
    ensures |t| == |s|
    ensures forall i | 0 <= i < |s| :: t[i] == s[i] as int
  {
    seq(|s|, i requires 0 <= i < |s| => s[i] as int)
  }

  predicate StartsWith(s: seq<int>, prefix: seq<int>) {
    |prefix| <= |s| && s[..|prefix|] == prefix
  }

  /** Strict lexicographic order: Python's on bytes, JavaScript's on code units. */
  predicate Less(a: seq<int>, b: seq<int>) {
    b != [] && (a == [] || a[0] < b[0] || (a[0] == b[0] && Less(a[1..], b[1..])))
  }

  /** The order looks at the first difference, and a proper prefix comes first. */
  lemma {:induction false} LessExactly(a: seq<int>, b: seq<int>)
    ensures Less(a, b) <==> exists k | 0 <= k <= |a| && k < |b| :: DiffersAt(a, b, k)
  {
    if a != [] && b != [] && a[0] == b[0] {
      LessExactly(a[1..], b[1..]);
      if Less(a[1..], b[1..]) {
        var k :| 0 <= k <= |a[1..]| && k < |b[1..]| && DiffersAt(a[1..], b[1..], k);
        assert a[..k + 1] == [a[0]] + a[1..][..k] && b[..k + 1] == [b[0]] + b[1..][..k];
        assert DiffersAt(a, b, k + 1);
      }
      forall k | 0 <= k <= |a| && k < |b| && DiffersAt(a, b, k) ensures k > 0 && DiffersAt(a[1..], b[1..], k - 1) {
        assert a[..k] == b[..k];
        if k > 0 {
          assert a[1..][..k - 1] == a[..k][1..] && b[1..][..k - 1] == b[..k][1..];
        }
      }
    } else if Less(a, b) {
      assert DiffersAt(a, b, 0);
    } else {
      forall k | 0 <= k <= |a| && k < |b| ensures !DiffersAt(a, b, k) {
        assert k > 0 ==> a[..k][0] == a[0] && b[..k][0] == b[0];
      }
    }
  }

  /** Equal up to k, where a ends or is smaller. */
  predicate DiffersAt(a: seq<int>, b: seq<int>, k: int)
    requires 0 <= k <= |a| && k < |b|
  {
    a[..k] == b[..k] && (k == |a| || a[k] < b[k])
  }

  lemma {:induction false} LessIrreflexive(a: seq<int>)
    ensures !Less(a, a)
  {
    if a != [] {
      LessIrreflexive(a[1..]);
    }
  }

  lemma {:induction false} LessTransitive(a: seq<int>, b: seq<int>, c: seq<int>)
    requires Less(a, b) && Less(b, c)
    ensures Less(a, c)
  {
    if a != [] && a[0] == b[0] == c[0] {
      LessTransitive(a[1..], b[1..], c[1..]);
    }
  }

  lemma {:induction false} LessTotal(a: seq<int>, b: seq<int>)
    ensures Less(a, b) || a == b || Less(b, a)
  {
    if a != [] && b != [] && a[0] == b[0] {
      LessTotal(a[1..], b[1..]);
      assert a == [a[0]] + a[1..] && b == [b[0]] + b[1..];
    }
  }
}
