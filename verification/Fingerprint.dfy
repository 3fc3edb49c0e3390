/** The byte stream that the fixture fingerprint hashes, and why it fixes the records. */
module Fingerprint {
  import opened Texts
  import opened Decimal
  import opened Sorting

  const DOMAIN: Bytes := Ascii("KERNAID_LINUX_SNAPSHOT_FIXTURE_TREE_V1") + [0]

  /** One more than the largest length that eight bytes can hold. */
  const LENGTH_LIMIT: nat := 0x1_0000_0000_0000_0000

  datatype Record = Record(
    path: Bytes, kind: Bytes, mode: int, size: int, mtime: int, ctime: int, digest: Bytes)

  // ----- length-prefixed fields

  function BigEndian(n: nat, width: nat): (b: Bytes)
    ensures |b| == width
  {
    if width == 0 then [] else BigEndian(n / 0x100, width - 1) + [n % 0x100]
  }

  function PowerOf256(width: nat): nat {
    if width == 0 then 1 else 0x100 * PowerOf256(width - 1)
  }

  lemma {:induction false} BigEndianInjective(m: nat, n: nat, width: nat)
    requires m < PowerOf256(width) && n < PowerOf256(width)
    requires BigEndian(m, width) == BigEndian(n, width)
    ensures m == n
  {
    if width > 0 {
      var a, b := BigEndian(m, width), BigEndian(n, width);
      assert a[..width - 1] == BigEndian(m / 0x100, width - 1);
      assert b[..width - 1] == BigEndian(n / 0x100, width - 1);
      assert a[width - 1] == m % 0x100 && b[width - 1] == n % 0x100;
      BigEndianInjective(m / 0x100, n / 0x100, width - 1);
    }
  }

  function Field(value: Bytes): Bytes
    requires |value| < LENGTH_LIMIT
  {
    BigEndian(|value|, 8) + value
  }

  /** A field ends where its length says: what follows cannot change how it is read. */
  lemma FieldPrefixFree(a: Bytes, b: Bytes, r: Bytes, s: Bytes)
    requires |a| < LENGTH_LIMIT && |b| < LENGTH_LIMIT
    requires Field(a) + r == Field(b) + s
    ensures a == b && r == s
  {
    var x, y := Field(a) + r, Field(b) + s;
    assert x[..8] == BigEndian(|a|, 8) && y[..8] == BigEndian(|b|, 8);
    assert PowerOf256(8) == LENGTH_LIMIT by {
      assert PowerOf256(4) == 0x1_0000_0000;
    }
    BigEndianInjective(|a|, |b|, 8);
    assert x[8..8 + |a|] == a && y[8..8 + |b|] == b;
    assert x[8 + |a|..] == r && y[8 + |b|..] == s;
  }

  predicate Lengths(fs: seq<Bytes>) {
    forall i | 0 <= i < |fs| :: |fs[i]| < LENGTH_LIMIT
  }

  function Fields(fs: seq<Bytes>): (b: Bytes)
    requires Lengths(fs)
    ensures |b| >= 8 * |fs|
  {
    if fs == [] then [] else Field(fs[0]) + Fields(fs[1..])
  }

  lemma {:induction false} FieldsInjective(fs: seq<Bytes>, gs: seq<Bytes>)
    requires Lengths(fs) && Lengths(gs) && Fields(fs) == Fields(gs)
    ensures fs == gs
  {
    if fs != [] && gs != [] {
      FieldPrefixFree(fs[0], gs[0], Fields(fs[1..]), Fields(gs[1..]));
      FieldsInjective(fs[1..], gs[1..]);
      assert fs == [fs[0]] + fs[1..] && gs == [gs[0]] + gs[1..];
    }
  }

  lemma {:induction false} FieldsAppend(fs: seq<Bytes>, g: Bytes)
    requires Lengths(fs) && |g| < LENGTH_LIMIT
    ensures Fields(fs + [g]) == Fields(fs) + Field(g)
  {
    if fs == [] {
      assert fs + [g] == [g] && [g][1..] == [];
    } else {
      assert (fs + [g])[1..] == fs[1..] + [g];
      FieldsAppend(fs[1..], g);
    }
  }

  // ----- records

  function RecordFields(r: Record): (fs: seq<Bytes>)
    ensures |fs| == 7
  {
    [r.path, r.kind, Numeral(r.mode), Numeral(r.size), Numeral(r.mtime), Numeral(r.ctime), r.digest]
  }

  /** Every length fits in eight bytes, as it does for anything held in memory. */
  predicate Encodable(r: Record) {
    Lengths(RecordFields(r)) && |Fields(RecordFields(r))| < LENGTH_LIMIT
  }

  function RecordBytes(r: Record): Bytes
    requires Encodable(r)
  {
    Fields(RecordFields(r))
  }

  lemma RecordBytesInjective(a: Record, b: Record)
    requires Encodable(a) && Encodable(b) && RecordBytes(a) == RecordBytes(b)
    ensures a == b
  {
    var fs, gs := RecordFields(a), RecordFields(b);
    FieldsInjective(fs, gs);
    assert forall i | 0 <= i < 7 :: fs[i] == gs[i];
    assert fs[2] == gs[2] && fs[3] == gs[3] && fs[4] == gs[4] && fs[5] == gs[5];
    NumeralInjective(a.mode, b.mode);
    NumeralInjective(a.size, b.size);
    NumeralInjective(a.mtime, b.mtime);
    NumeralInjective(a.ctime, b.ctime);
    assert fs[0] == gs[0] && fs[1] == gs[1] && fs[6] == gs[6];
  }

  predicate AllEncodable(rs: seq<Record>) {
    forall i | 0 <= i < |rs| :: Encodable(rs[i])
  }

  function Encoded(rs: seq<Record>): (fs: seq<Bytes>)
    requires AllEncodable(rs)
    ensures |fs| == |rs| && Lengths(fs)
  {
    seq(|rs|, i requires 0 <= i < |rs| => RecordBytes(rs[i]))
  }

  /** Everything that the digest is fed for records in this order. */
  function Stream(rs: seq<Record>): Bytes
    requires AllEncodable(rs)
  {
    DOMAIN + Fields(Encoded(rs))
  }

  lemma StreamInjective(a: seq<Record>, b: seq<Record>)
    requires AllEncodable(a) && AllEncodable(b) && Stream(a) == Stream(b)
    ensures a == b
  {
    assert Stream(a)[|DOMAIN|..] == Fields(Encoded(a));
    assert Stream(b)[|DOMAIN|..] == Fields(Encoded(b));
    FieldsInjective(Encoded(a), Encoded(b));
    forall i | 0 <= i < |a| ensures a[i] == b[i] {
      assert Encoded(a)[i] == Encoded(b)[i];
      RecordBytesInjective(a[i], b[i]);
    }
  }

  // ----- the order of paths

  function ByPath(): (Record, Record) -> bool {
    (a: Record, b: Record) => !Less(b.path, a.path)
  }

  ghost predicate UniquePaths(rs: seq<Record>) {
    forall i, j | 0 <= i < j < |rs| :: rs[i].path != rs[j].path
  }

  lemma ByPathOrders()
    ensures Orders(ByPath())
  {
    var le := ByPath();
    forall a, b ensures le(a, b) || le(b, a) {
      if Less(b.path, a.path) && Less(a.path, b.path) {
        LessTransitive(a.path, b.path, a.path);
        LessIrreflexive(a.path);
      }
    }
    forall a, b, c | le(a, b) && le(b, c) ensures le(a, c) {
      if Less(c.path, a.path) {
        LessTotal(b.path, c.path);
        if Less(b.path, c.path) {
          LessTransitive(b.path, c.path, a.path);
        }
      }
    }
  }

  lemma UniquePathsSeparate(rs: seq<Record>)
    requires UniquePaths(rs)
    ensures Separated(rs, ByPath())
  {
    forall x, y | x in rs && y in rs && ByPath()(x, y) && ByPath()(y, x) ensures x == y {
      LessTotal(x.path, y.path);
    }
  }

  function Paths(rs: seq<Record>): set<Bytes> {
    set i | 0 <= i < |rs| :: rs[i].path
  }

  /** The source compares the number of distinct paths with the number of records. */
  lemma {:induction false} PathCount(rs: seq<Record>)
    ensures |Paths(rs)| <= |rs|
    ensures |Paths(rs)| == |rs| <==> UniquePaths(rs)
  {
    if rs != [] {
      var n := |rs| - 1;
      var front := rs[..n];
      PathCount(front);
      assert Paths(rs) == Paths(front) + {rs[n].path};
      if UniquePaths(rs) {
        assert UniquePaths(front) && rs[n].path !in Paths(front);
      }
      if |Paths(rs)| == |rs| {
        assert |Paths(front)| == n && rs[n].path !in Paths(front);
        forall i, j | 0 <= i < j < |rs| ensures rs[i].path != rs[j].path {
          if j == n {
            assert rs[i].path == front[i].path;
            assert rs[i].path in Paths(front);
          } else {
            assert front[i].path != front[j].path;
          }
        }
      }
    } else {
      assert Paths(rs) == {};
    }
  }

  lemma UniquePathsOfPermutation(a: seq<Record>, b: seq<Record>)
    requires multiset(a) == multiset(b)
    ensures UniquePaths(a) <==> UniquePaths(b)
  {
    forall p ensures p in Paths(a) <==> p in Paths(b) {
      if p in Paths(a) {
        var i :| 0 <= i < |a| && a[i].path == p;
        SameElements(a, b, a[i]);
      }
      if p in Paths(b) {
        var i :| 0 <= i < |b| && b[i].path == p;
        SameElements(a, b, b[i]);
      }
    }
    assert Paths(a) == Paths(b);
    PathCount(a);
    PathCount(b);
    assert |multiset(a)| == |a| && |multiset(b)| == |b|;
  }

  lemma EncodableOfPermutation(a: seq<Record>, b: seq<Record>)
    requires multiset(a) == multiset(b) && AllEncodable(a)
    ensures AllEncodable(b)
  {
    forall i | 0 <= i < |b| ensures Encodable(b[i]) {
      SameElements(a, b, b[i]);
    }
  }

  // ----- the fingerprint

  function SortedRecords(rs: seq<Record>): (r: seq<Record>)
    requires AllEncodable(rs)
    ensures AllEncodable(r) && multiset(r) == multiset(rs)
  {
    EncodableOfPermutation(rs, Sort(rs, ByPath()));
    Sort(rs, ByPath())
  }

  /** The records in strictly increasing order of their paths. */
  ghost predicate ByIncreasingPath(rs: seq<Record>) {
    forall i, j | 0 <= i < j < |rs| :: Less(rs[i].path, rs[j].path)
  }

  lemma SortedByPath(rs: seq<Record>)
    requires AllEncodable(rs) && UniquePaths(rs)
    ensures ByIncreasingPath(SortedRecords(rs))
  {
    var ordered := SortedRecords(rs);
    ByPathOrders();
    SortOrders(rs, ByPath());
    UniquePathsOfPermutation(rs, ordered);
    forall i, j | 0 <= i < j < |ordered| ensures Less(ordered[i].path, ordered[j].path) {
      assert ByPath()(ordered[i], ordered[j]);
      LessTotal(ordered[i].path, ordered[j].path);
    }
  }

  /** The bytes fed to the digest, or None where duplicate paths raise an error: the stream
      of the records in increasing order of their paths. */
  method FingerprintRecords(records: seq<Record>) returns (fed: Option<Bytes>)
    requires AllEncodable(records)
    ensures fed.Some? <==> UniquePaths(records)
    ensures fed.Some? ==> fed.value == Stream(SortedRecords(records)) && ByIncreasingPath(SortedRecords(records))
  {
    var ordered := SortedRecords(records);
    PathCount(ordered);
    UniquePathsOfPermutation(records, ordered);
    if |Paths(ordered)| != |ordered| {
      return None;
    }
    SortedByPath(records);
    var digest := Feed(ordered);
    return Some(digest);
  }

  lemma StreamStep(rs: seq<Record>, i: nat)
    requires AllEncodable(rs) && i < |rs|
    ensures Stream(rs[..i + 1]) == Stream(rs[..i]) + Field(RecordBytes(rs[i]))
  {
    assert Encoded(rs[..i + 1]) == Encoded(rs[..i]) + [RecordBytes(rs[i])];
    FieldsAppend(Encoded(rs[..i]), RecordBytes(rs[i]));
  }

  method Feed(ordered: seq<Record>) returns (digest: Bytes)
    requires AllEncodable(ordered)
    ensures digest == Stream(ordered)
  {
    digest := DOMAIN;
    for i := 0 to |ordered|
      invariant digest == Stream(ordered[..i])
    {
      StreamStep(ordered, i);
      digest := digest + Field(RecordBytes(ordered[i]));
    }
    assert ordered[..|ordered|] == ordered;
  }

  /** The fed bytes do not depend on the order of the list, and they fix its records. */
  lemma StreamFixesRecords(a: seq<Record>, b: seq<Record>)
    requires AllEncodable(a) && AllEncodable(b) && UniquePaths(a) && UniquePaths(b)
    ensures Stream(SortedRecords(a)) == Stream(SortedRecords(b)) <==> multiset(a) == multiset(b)
  {
    if Stream(SortedRecords(a)) == Stream(SortedRecords(b)) {
      StreamInjective(SortedRecords(a), SortedRecords(b));
    }
    if multiset(a) == multiset(b) {
      ByPathOrders();
      UniquePathsSeparate(a);
      SortForgetsArrangement(a, b, ByPath());
    }
  }
}
