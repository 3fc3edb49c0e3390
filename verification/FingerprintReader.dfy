/** A reader of the fingerprint stream, which gets back exactly the records it was made of. */
module FingerprintReader {
  import opened Texts
  import opened Decimal
  import opened Fingerprint

  // ----- numbers

  /** The number that bytes denote, the highest first. */
  function Magnitude(b: Bytes): nat {
    if b == [] then 0 else 0x100 * Magnitude(b[..|b| - 1]) + b[|b| - 1]
  }

  lemma {:induction false} MagnitudeOf(n: nat, width: nat)
    requires n < PowerOf256(width)
    ensures Magnitude(BigEndian(n, width)) == n
  {
    if width > 0 {
      var b := BigEndian(n, width);
      MagnitudeOf(n / 0x100, width - 1);
      assert b[..width - 1] == BigEndian(n / 0x100, width - 1);
    }
  }

  /** A decimal integer, with a minus sign before it or not. */
  function ReadInteger(t: Bytes): Option<int> {
    if t != [] && t[0] == 0x2D then
      if |t| > 1 && AllDigits(t[1..]) then Some(0 - Value(t[1..]) as int) else None
    else if t != [] && AllDigits(t) then Some(Value(t) as int)
    else None
  }

  lemma IntegerReadsBack(n: int)
    ensures ReadInteger(Numeral(n)) == Some(n)
  {
    ValueOfDigits(if n < 0 then -n else n);
    if n < 0 {
      assert Numeral(n)[1..] == Digits(-n);
    }
  }

  // ----- fields

  datatype Part = Part(value: Bytes, rest: Bytes)

  /** Eight bytes of length, and as many bytes as they say. */
  function ReadField(s: Bytes): (p: Option<Part>)
    ensures p.Some? ==> |p.value.rest| < |s|
  {
    if |s| < 8 then None
    else
      var n := Magnitude(s[..8]);
      if |s| - 8 < n then None else Some(Part(s[8..8 + n], s[8 + n..]))
  }

  lemma FieldReadsBack(value: Bytes, rest: Bytes)
    requires |value| < LENGTH_LIMIT
    ensures ReadField(Field(value) + rest) == Some(Part(value, rest))
  {
    var s := Field(value) + rest;
    assert s[..8] == BigEndian(|value|, 8);
    EightBytes();
    MagnitudeOf(|value|, 8);
    assert s[8..8 + |value|] == value && s[8 + |value|..] == rest;
  }

  lemma EightBytes()
    ensures PowerOf256(8) == LENGTH_LIMIT
  {
    assert PowerOf256(4) == 0x1_0000_0000;
  }

  function ReadFields(s: Bytes): Option<seq<Bytes>>
    decreases |s|
  {
    if s == [] then Some([])
    else
      var p := ReadField(s);
      if p.None? then None
      else
        var more := ReadFields(p.value.rest);
        if more.None? then None else Some([p.value.value] + more.value)
  }

  lemma {:induction false} FieldsReadBack(fs: seq<Bytes>)
    requires Lengths(fs)
    ensures ReadFields(Fields(fs)) == Some(fs)
  {
    if fs != [] {
      FieldReadsBack(fs[0], Fields(fs[1..]));
      FieldsReadBack(fs[1..]);
      assert fs == [fs[0]] + fs[1..];
    }
  }

  // ----- records

  /** Path, kind, mode, size, the two times and the digest, in this order. */
  function ReadRecord(b: Bytes): Option<Record> {
    var fs := ReadFields(b);
    if fs.None? || |fs.value| != 7 then None
    else
      var mode, size := ReadInteger(fs.value[2]), ReadInteger(fs.value[3]);
      var mtime, ctime := ReadInteger(fs.value[4]), ReadInteger(fs.value[5]);
      if mode.None? || size.None? || mtime.None? || ctime.None? then None
      else Some(Record(fs.value[0], fs.value[1], mode.value, size.value, mtime.value, ctime.value, fs.value[6]))
  }

  lemma RecordReadsBack(r: Record)
    requires Encodable(r)
    ensures ReadRecord(RecordBytes(r)) == Some(r)
  {
    FieldsReadBack(RecordFields(r));
    IntegerReadsBack(r.mode);
    IntegerReadsBack(r.size);
    IntegerReadsBack(r.mtime);
    IntegerReadsBack(r.ctime);
  }

  function ReadRecords(fs: seq<Bytes>): Option<seq<Record>> {
    if fs == [] then Some([])
    else
      var first, more := ReadRecord(fs[0]), ReadRecords(fs[1..]);
      if first.None? || more.None? then None else Some([first.value] + more.value)
  }

  lemma {:induction false} RecordsReadBack(rs: seq<Record>)
    requires AllEncodable(rs)
    ensures ReadRecords(Encoded(rs)) == Some(rs)
  {
    if rs != [] {
      RecordReadsBack(rs[0]);
      RecordsReadBack(rs[1..]);
      assert Encoded(rs)[1..] == Encoded(rs[1..]);
      assert rs == [rs[0]] + rs[1..];
    }
  }

  /** The domain line, a zero byte, and one field for every record. */
  function ReadStream(s: Bytes): Option<seq<Record>> {
    var domain := Ascii("KERNAID_LINUX_SNAPSHOT_FIXTURE_TREE_V1");
    if !StartsWith(s, domain + [0]) then None
    else
      var fs := ReadFields(s[39..]);
      if fs.None? then None else ReadRecords(fs.value)
  }

  /** What is fed to the digest reads back as the records in their order. */
  lemma StreamReadsBack(rs: seq<Record>)
    requires AllEncodable(rs)
    ensures ReadStream(Stream(rs)) == Some(rs)
  {
    var s := Stream(rs);
    assert |DOMAIN| == 39 && s[..39] == DOMAIN && s[39..] == Fields(Encoded(rs));
    FieldsReadBack(Encoded(rs));
    RecordsReadBack(rs);
  }
}
