/** The streaming check that a retail image is the ISO followed by zeros. The three
    sizes and the chunk size are parameters. */
module RetailImage {
  import opened Texts

  /** An open file or decompressor. A read may return fewer bytes than asked for, but
      returns none only at the end. */
  class Reader {
    const content: Bytes
    /** Reads return all that is asked for and left, as those of a regular file do. */
    const whole: bool
    var position: nat
    /** Every read so far did. */
    ghost var full: bool

    constructor (content: Bytes, whole: bool)
      ensures this.content == content && this.whole == whole && position == 0 && full && Valid()
    {
      this.content, this.whole := content, whole;
      position := 0;
      full := true;
    }

    ghost predicate Valid()
      reads this
    {
      position <= |content| && (whole ==> full)
    }

    method Read(size: nat) returns (chunk: Bytes)
      requires Valid()
      modifies this
      ensures Valid() && old(position) <= position
      ensures chunk == content[old(position)..position] && |chunk| <= size
      ensures chunk == [] ==> size == 0 || position == |content|
      ensures full <==> old(full) && |chunk| == Min(size, |content| - old(position))
    {
      var most := Min(size, |content| - position);
      var count: nat :| count <= most && (count == 0 || whole ==> count == most);
      chunk := content[position..position + count];
      position := position + count;
      full := full && count == most;
    }
  }

  function Min(a: int, b: int): int {
    if a < b then a else b
  }

  function Max(a: int, b: int): int {
    if a < b then b else a
  }

  predicate AllZero(s: Bytes) {
    forall i | 0 <= i < |s| :: s[i] == 0
  }

  function Zeros(n: nat): Bytes {
    seq(n, _ => 0)
  }

  /** The bytes of s that lie before `upto` and in the given range. */
  function Clip(s: Bytes, start: nat, end: nat, upto: nat): Bytes
    requires start <= end && upto <= |s|
  {
    s[Min(start, upto)..Min(end, upto)]
  }

  /** The image is the ISO followed by zeros, at the exact length. */
  ghost predicate IsRetailImage(raw: Bytes, iso: Bytes, rawBytes: nat) {
    |iso| <= rawBytes && raw == iso + Zeros(rawBytes - |iso|)
  }

  datatype Sizes = Sizes(rawBytes: nat, p3Start: nat, p3Bytes: nat, chunk: nat)

  datatype Description = Description(isoBytes: nat, isoDigest: Bytes, rawDigest: Bytes, p3Digest: Bytes)

  type Hash = Bytes -> Bytes

  // ----- digest_file

  method DigestFile(source: Reader, chunkBytes: nat) returns (size: nat, fed: Bytes)
    requires source.Valid() && source.position == 0 && chunkBytes > 0
    modifies source
    ensures size == |source.content| && fed == source.content
  {
    fed := [];
    size := 0;
    var chunk := source.Read(chunkBytes);
    while chunk != []
      invariant source.Valid() && fed + chunk == source.content[..source.position]
      invariant size == |fed|
      invariant chunk == [] ==> source.position == |source.content|
      decreases |source.content| - |fed|
    {
      fed := fed + chunk;
      size := size + |chunk|;
      chunk := source.Read(chunkBytes);
    }
  }

  // ----- the loop over chunks

  /** What holds after `offset` bytes of the image. */
  ghost predicate Checked(raw: Bytes, iso: Bytes, offset: nat, consumed: nat) {
    && offset <= |raw|
    && consumed <= Min(offset, |iso|)
    && (consumed == Min(offset, |iso|) ==> raw[..consumed] == iso[..consumed])
    && (forall i | |iso| <= i < offset :: raw[i] == 0)
  }

  lemma CheckedStep(raw: Bytes, iso: Bytes, begin: nat, end: nat, consumed: nat, consumed': nat)
    requires Checked(raw, iso, begin, consumed) && begin <= end <= |raw|
    requires consumed <= consumed' <= |iso|
    requires consumed' - consumed <= Max(0, Min(end, |iso|) - begin)
    requires raw[begin..begin + (consumed' - consumed)] == iso[consumed..consumed']
    requires forall i | Max(begin, |iso|) <= i < end :: raw[i] == 0
    ensures Checked(raw, iso, end, consumed')
  {
    if consumed' == Min(end, |iso|) {
      assert consumed == Min(begin, |iso|);
      if begin < |iso| {
        assert raw[..consumed'] == raw[..begin] + raw[begin..consumed'];
        assert iso[..consumed'] == iso[..begin] + iso[begin..consumed'];
      } else {
        assert consumed' == consumed;
      }
    }
  }

  lemma CheckedAll(raw: Bytes, iso: Bytes, rawBytes: nat)
    requires Checked(raw, iso, rawBytes, |iso|) && |raw| == rawBytes
    ensures IsRetailImage(raw, iso, rawBytes)
  {
    assert raw == raw[..|iso|] + raw[|iso|..];
    assert raw[|iso|..] == Zeros(rawBytes - |iso|);
  }

  lemma DifferenceRefutes(raw: Bytes, iso: Bytes, i: nat)
    requires i < |raw| && raw[i] != if i < |iso| then iso[i] else 0
    ensures !IsRetailImage(raw, iso, |raw|)
  {
    assert |iso| <= |raw| ==> raw[i] != (iso + Zeros(|raw| - |iso|))[i];
  }

  /** The ISO reader keeps pace with the image, as it does while its reads are full. */
  ghost predicate InStep(expected: Reader, offset: nat)
    reads expected
  {
    expected.full && expected.position == Min(offset, |expected.content|)
  }

  /** Compares a chunk with the next bytes of the ISO. */
  method CheckPrefix(expected: Reader, chunk: Bytes, begin: nat, ghost raw: Bytes) returns (ok: bool)
    requires expected.Valid() && begin + |chunk| <= |raw| && chunk == raw[begin..begin + |chunk|]
    modifies expected
    ensures expected.Valid() && old(expected.position) <= expected.position
    ensures expected.full ==> old(expected.full)
    ensures var read := expected.position - old(expected.position);
            && read <= Max(0, Min(begin + |chunk|, |expected.content|) - begin)
            && (ok ==> raw[begin..begin + read] == expected.content[old(expected.position)..expected.position])
    ensures old(InStep(expected, begin)) && expected.full ==> InStep(expected, begin + |chunk|)
    ensures old(InStep(expected, begin)) && !ok ==> !IsRetailImage(raw, expected.content, |raw|)
  {
    var isoBytes := |expected.content|;
    ghost var before := expected.position;
    if begin >= isoBytes {
      return true;
    }
    var prefixEnd := Min(begin + |chunk|, isoBytes);
    var wanted := expected.Read(prefixEnd - begin);
    SliceOfSlice(raw, begin, chunk, begin, begin + |wanted|);
    ok := chunk[..|wanted|] == wanted;
    if !ok && before == begin {
      ghost var i :| 0 <= i < |wanted| && chunk[i] != wanted[i];
      DifferenceRefutes(raw, expected.content, begin + i);
    }
  }

  /** Compares the rest of a chunk with zeros. */
  method CheckZeros(isoBytes: nat, chunk: Bytes, begin: nat, ghost raw: Bytes, ghost iso: Bytes) returns (ok: bool)
    requires begin + |chunk| <= |raw| && chunk == raw[begin..begin + |chunk|] && isoBytes == |iso|
    ensures ok <==> forall i | Max(begin, isoBytes) <= i < begin + |chunk| :: raw[i] == 0
    ensures !ok ==> !IsRetailImage(raw, iso, |raw|)
  {
    var zeroBegin := Max(begin, isoBytes);
    if zeroBegin >= begin + |chunk| {
      return true;
    }
    var zeroSlice := chunk[zeroBegin - begin..];
    SliceOfSlice(raw, begin, chunk, zeroBegin, begin + |chunk|);
    ok := AllZero(zeroSlice);
    if ok {
      assert forall i | zeroBegin <= i < begin + |chunk| :: raw[i] == zeroSlice[i - zeroBegin];
    } else {
      ghost var i :| 0 <= i < |zeroSlice| && zeroSlice[i] != 0;
      DifferenceRefutes(raw, iso, zeroBegin + i);
    }
  }

  /** One turn of the comparison. */
  method CheckChunk(expected: Reader, chunk: Bytes, begin: nat, ghost raw: Bytes) returns (ok: bool)
    requires expected.Valid() && begin + |chunk| <= |raw| && chunk == raw[begin..begin + |chunk|]
    requires Checked(raw, expected.content, begin, expected.position)
    modifies expected
    ensures expected.Valid() && (expected.full ==> old(expected.full))
    ensures ok ==> Checked(raw, expected.content, begin + |chunk|, expected.position)
    ensures old(InStep(expected, begin)) && expected.full ==> InStep(expected, begin + |chunk|)
    ensures old(InStep(expected, begin)) && !ok ==> !IsRetailImage(raw, expected.content, |raw|)
  {
    ghost var before := expected.position;
    ok := CheckPrefix(expected, chunk, begin, raw);
    if !ok {
      return;
    }
    ok := CheckZeros(|expected.content|, chunk, begin, raw, expected.content);
    if ok {
      CheckedStep(raw, expected.content, begin, begin + |chunk|, before, expected.position);
    }
  }

  /** The part of a chunk that belongs to the third partition. */
  function Overlap(chunk: Bytes, begin: nat, start: nat, end: nat): Bytes {
    var from, to := Max(begin, start), Min(begin + |chunk|, end);
    if from < to then chunk[from - begin..to - begin] else []
  }

  lemma OverlapStep(raw: Bytes, chunk: Bytes, begin: nat, start: nat, end: nat)
    requires start <= end && begin + |chunk| <= |raw| && chunk == raw[begin..begin + |chunk|]
    ensures Clip(raw, start, end, begin) + Overlap(chunk, begin, start, end) ==
            Clip(raw, start, end, begin + |chunk|)
  {
    var after := begin + |chunk|;
    var from, to := Max(begin, start), Min(after, end);
    if from >= to {
      assert Overlap(chunk, begin, start, end) == [];
      assert Clip(raw, start, end, begin) == Clip(raw, start, end, after);
    } else {
      SliceOfSlice(raw, begin, chunk, from, to);
      if start <= begin {
        SliceJoin(raw, start, begin, to);
      } else {
        assert Clip(raw, start, end, begin) == [];
      }
    }
  }

  lemma SliceOfSlice(raw: Bytes, begin: nat, chunk: Bytes, from: nat, to: nat)
    requires begin <= from <= to <= begin + |chunk| <= |raw| && chunk == raw[begin..begin + |chunk|]
    ensures chunk[from - begin..to - begin] == raw[from..to]
  {
    var a, b := chunk[from - begin..to - begin], raw[from..to];
    assert forall i | 0 <= i < to - from :: a[i] == chunk[from - begin + i] == raw[from + i] == b[i];
  }

  lemma SliceJoin(s: Bytes, a: nat, b: nat, c: nat)
    requires a <= b <= c <= |s|
    ensures s[a..b] + s[b..c] == s[a..c]
  {
  }

  /** Runs the loop. When every read of the ISO is full, only a wrong image is refused. */
  method CheckStream(expected: Reader, stream: Reader, sizes: Sizes)
    returns (ok: bool, rawFed: Bytes, p3Fed: Bytes)
    requires expected != stream && expected.Valid() && stream.Valid()
    requires expected.position == stream.position == 0 && expected.full
    requires sizes.chunk > 0
    modifies expected, stream
    ensures expected.Valid()
    ensures ok ==> IsRetailImage(stream.content, expected.content, sizes.rawBytes)
    ensures ok ==> rawFed == stream.content
    ensures ok ==> p3Fed == Clip(stream.content, sizes.p3Start, sizes.p3Start + sizes.p3Bytes, sizes.rawBytes)
    ensures !ok && expected.full ==> !IsRetailImage(stream.content, expected.content, sizes.rawBytes)
  {
    ok, rawFed, p3Fed := false, [], [];
    var raw, iso := stream.content, expected.content;
    var p3End := sizes.p3Start + sizes.p3Bytes;
    var offset := 0;
    while offset < sizes.rawBytes
      invariant expected.Valid() && stream.Valid() && offset == stream.position <= sizes.rawBytes
      invariant Checked(raw, iso, offset, expected.position)
      invariant expected.full ==> InStep(expected, offset)
      invariant rawFed == raw[..offset]
      invariant p3Fed == Clip(raw, sizes.p3Start, p3End, offset)
    {
      var chunk := stream.Read(Min(sizes.chunk, sizes.rawBytes - offset));
      if chunk == [] {
        return;
      }
      var accepted := CheckChunk(expected, chunk, offset, raw);
      if !accepted {
        return;
      }
      OverlapStep(raw, chunk, offset, sizes.p3Start, p3End);
      assert raw[..offset] + chunk == raw[..offset + |chunk|];
      rawFed := rawFed + chunk;
      p3Fed := p3Fed + Overlap(chunk, offset, sizes.p3Start, p3End);
      offset := offset + |chunk|;
    }
    var more := stream.Read(1);
    if more != [] {
      return;
    }
    ghost var consumed := expected.position;
    var left := expected.Read(1);
    if left != [] {
      return;
    }
    assert consumed == |iso|;
    CheckedAll(raw, iso, sizes.rawBytes);
    ok := true;
    assert raw[..offset] == raw;
  }

  lemma P3IsZero(raw: Bytes, iso: Bytes, sizes: Sizes)
    requires IsRetailImage(raw, iso, sizes.rawBytes)
    requires |iso| <= sizes.p3Start && sizes.p3Start + sizes.p3Bytes <= sizes.rawBytes
    ensures Clip(raw, sizes.p3Start, sizes.p3Start + sizes.p3Bytes, sizes.rawBytes) == Zeros(sizes.p3Bytes)
  {
  }

  /** `verify`: acceptance means that the image is the ISO followed by zeros, however the
      reads were split. When the reads of the ISO are full and the pinned digest is that
      of a zero partition, every such image is accepted. */
  method Verify(iso: Reader, expected: Reader, stream: Reader, sizes: Sizes, hash: Hash, p3Zero: Bytes)
    returns (r: Option<Description>)
    requires iso.Valid() && expected.Valid() && stream.Valid()
    requires iso.position == expected.position == stream.position == 0 && expected.full
    requires iso != expected && expected != stream && iso != stream && iso.content == expected.content
    requires sizes.chunk > 0
    modifies iso, expected, stream
    ensures expected.Valid()
    ensures r.Some? ==> IsRetailImage(stream.content, iso.content, sizes.rawBytes)
    ensures r.Some? ==> 0 < r.value.isoBytes == |iso.content| < sizes.p3Start
    ensures r.Some? ==> r.value.isoDigest == hash(iso.content) && r.value.rawDigest == hash(stream.content)
    ensures r.Some? ==> r.value.p3Digest == p3Zero
    ensures var p3End := sizes.p3Start + sizes.p3Bytes;
            r.Some? ==> p3Zero == hash(Clip(stream.content, sizes.p3Start, p3End, sizes.rawBytes))
    ensures expected.full && p3Zero == hash(Zeros(sizes.p3Bytes))
            && sizes.p3Start + sizes.p3Bytes <= sizes.rawBytes ==>
              (r.Some? <==> 0 < |iso.content| < sizes.p3Start &&
                            IsRetailImage(stream.content, iso.content, sizes.rawBytes))
  {
    if |iso.content| == 0 || |iso.content| >= sizes.p3Start {
      return None;
    }
    ghost var raw := stream.content;
    var isoBytes, isoFed := DigestFile(iso, sizes.chunk);
    var ok, rawFed, p3Fed := CheckStream(expected, stream, sizes);
    if !ok {
      return None;
    }
    if sizes.p3Start + sizes.p3Bytes <= sizes.rawBytes {
      P3IsZero(raw, iso.content, sizes);
    }
    if hash(p3Fed) != p3Zero {
      return None;
    }
    return Some(Description(isoBytes, hash(isoFed), hash(rawFed), hash(p3Fed)));
  }
}
