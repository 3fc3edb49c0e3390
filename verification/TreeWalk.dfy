/** The walk that lists a fixture tree. */
module TreeWalk {
  import opened Texts
  import opened Sorting
  import opened Fingerprint

  const MAX_ENTRIES: nat := 4096
  const MAX_FILE_BYTES: nat := 16_777_216
  const MAX_TOTAL_BYTES: nat := 67_108_864

  const SLASH: Byte := 0x2F
  const FILE_KIND: Bytes := Ascii("file")
  const DIRECTORY_KIND: Bytes := Ascii("directory")

  datatype Metadata = Metadata(mode: int, size: nat, mtime: int, ctime: int)

  /** A node with what reading it gives. It is readable when it can be opened and read to
      its end, and its identity and metadata are the same before and after. */
  datatype Node =
    | File(metadata: Metadata, content: Bytes, readable: bool)
    | Directory(metadata: Metadata, entries: seq<Entry>, readable: bool)
    | Special(metadata: Metadata)

  datatype Entry = Entry(name: Bytes, node: Node)

  /** The digest of a file's content. */
  type Digest = Bytes -> Bytes

  function Base(relative: Bytes): Bytes {
    if relative == [] then [] else relative + [SLASH]
  }

  /** The path of a directory entry below `relative`. */
  function Child(relative: Bytes, name: Bytes): Bytes {
    Base(relative) + name
  }

  function RecordOf(e: Entry, relative: Bytes, digest: Digest): Record {
    var m := e.node.metadata;
    var kind := if e.node.File? then FILE_KIND else DIRECTORY_KIND;
    var content := if e.node.File? then digest(e.node.content) else [];
    Record(Child(relative, e.name), kind, m.mode, m.size, m.mtime, m.ctime, content)
  }

  // ----- what the walk lists

  /** What a walk lists: the records, how many they are, the bytes of all files, and
      whether there were only files that could be read and directories. */
  datatype Listing = Listing(records: multiset<Record>, count: nat, fileBytes: nat, supported: bool) {
    function Plus(more: Listing): Listing {
      Listing(
        records + more.records, count + more.count, fileBytes + more.fileBytes, supported && more.supported)
    }

    predicate Fits() {
      supported && count <= 4096 && fileBytes <= 67_108_864
    }
  }

  const NOTHING := Listing(multiset{}, 0, 0, true)

  function List(entries: seq<Entry>, relative: Bytes, digest: Digest): (r: Listing)
    decreases entries, 0
  {
    if entries == [] then NOTHING
    else ListEntry(entries[0], relative, digest).Plus(List(entries[1..], relative, digest))
  }

  function ListEntry(e: Entry, relative: Bytes, digest: Digest): (r: Listing)
    decreases e, 1
  {
    var one := multiset{RecordOf(e, relative, digest)};
    match e.node
    case File(m, content, readable) =>
      Listing(one, 1, m.size, readable && m.size == |content| && m.size <= 16_777_216)
    case Directory(_, entries, readable) =>
      Listing(one, 1, 0, readable).Plus(List(entries, Child(relative, e.name), digest))
    case Special(_) => Listing(one, 1, 0, false)
  }

  lemma PlusAssociative(a: Listing, b: Listing, c: Listing)
    ensures a.Plus(b).Plus(c) == a.Plus(b.Plus(c))
  {
  }

  lemma PlusCommutative(a: Listing, b: Listing)
    ensures a.Plus(b) == b.Plus(a)
  {
  }

  lemma NothingMore(l: Listing)
    ensures l.Plus(NOTHING) == l == NOTHING.Plus(l)
  {
  }

  lemma ListCons(x: Entry, xs: seq<Entry>, relative: Bytes, digest: Digest)
    ensures List([x] + xs, relative, digest) == ListEntry(x, relative, digest).Plus(List(xs, relative, digest))
  {
    assert ([x] + xs)[1..] == xs;
  }

  // ----- the order of a directory's entries does not matter

  function ByName(): (Entry, Entry) -> bool {
    (a: Entry, b: Entry) => !Less(b.name, a.name)
  }

  lemma {:induction false} InsertLists(x: Entry, xs: seq<Entry>, relative: Bytes, digest: Digest)
    ensures List(Insert(x, xs, ByName()), relative, digest) ==
            ListEntry(x, relative, digest).Plus(List(xs, relative, digest))
    decreases |xs|
  {
    var le := ByName();
    if xs == [] || le(x, xs[0]) {
      ListCons(x, xs, relative, digest);
      assert [x] + xs == Insert(x, xs, le);
    } else {
      var a, b := ListEntry(x, relative, digest), ListEntry(xs[0], relative, digest);
      var c := List(xs[1..], relative, digest);
      InsertLists(x, xs[1..], relative, digest);
      ListCons(xs[0], Insert(x, xs[1..], le), relative, digest);
      PlusAssociative(b, a, c);
      PlusCommutative(a, b);
      PlusAssociative(a, b, c);
    }
  }

  lemma {:induction false} SortLists(xs: seq<Entry>, relative: Bytes, digest: Digest)
    ensures List(Sort(xs, ByName()), relative, digest) == List(xs, relative, digest)
    decreases |xs|
  {
    if xs != [] {
      SortLists(xs[1..], relative, digest);
      InsertLists(xs[0], Sort(xs[1..], ByName()), relative, digest);
    }
  }

  // ----- the walk

  /** What was listed before entry i and what lies from i on make up the whole. */
  ghost predicate Rest(
    listed: Listing, entries: seq<Entry>, i: nat, all: Listing, relative: Bytes, digest: Digest)
  {
    i <= |entries| && listed.Plus(List(entries[i..], relative, digest)) == all
  }

  lemma ListStep(listed: Listing, entries: seq<Entry>, i: nat, all: Listing, relative: Bytes, digest: Digest)
    requires i < |entries| && Rest(listed, entries, i, all, relative, digest)
    ensures var next := listed.Plus(ListEntry(entries[i], relative, digest));
            Rest(next, entries, i + 1, all, relative, digest) && (all.Fits() ==> next.Fits())
  {
    assert entries[i..] == [entries[i]] + entries[i + 1..];
    ListCons(entries[i], entries[i + 1..], relative, digest);
    PlusAssociative(listed, ListEntry(entries[i], relative, digest), List(entries[i + 1..], relative, digest));
  }

  lemma NothingLeft(listed: Listing, entries: seq<Entry>, all: Listing, relative: Bytes, digest: Digest)
    requires Rest(listed, entries, |entries|, all, relative, digest)
    ensures listed == all
  {
    NothingMore(listed);
  }

  class Collector {
    const digest: Digest
    var records: seq<Record>
    var totalFileBytes: nat

    constructor (digest: Digest)
      ensures this.digest == digest && Listed() == NOTHING
    {
      this.digest := digest;
      records := [];
      totalFileBytes := 0;
    }

    ghost function Listed(): Listing
      reads this
    {
      Listing(multiset(records), |records|, totalFileBytes, true)
    }

    /** Visits one directory; `ok` is false where the source raises an error. */
    method Visit(entries: seq<Entry>, relative: Bytes) returns (ok: bool)
      requires Listed().Fits()
      modifies this
      ensures ok <==> old(Listed()).Plus(List(entries, relative, digest)).Fits()
      ensures ok ==> Listed() == old(Listed()).Plus(List(entries, relative, digest))
      decreases entries, 1
    {
      var ordered := Sort(entries, ByName());
      SortLists(entries, relative, digest);
      forall e | e in ordered ensures e in entries {
        SameElements(entries, ordered, e);
      }
      ok := VisitAll(ordered, relative, entries);
    }

    /** The loop over a directory's entries in order. */
    method VisitAll(ordered: seq<Entry>, relative: Bytes, ghost entries: seq<Entry>) returns (ok: bool)
      requires Listed().Fits()
      requires forall e | e in ordered :: e in entries
      modifies this
      ensures ok <==> old(Listed()).Plus(List(ordered, relative, digest)).Fits()
      ensures ok ==> Listed() == old(Listed()).Plus(List(ordered, relative, digest))
      decreases entries, 0
    {
      ghost var all := Listed().Plus(List(ordered, relative, digest));
      assert ordered[0..] == ordered;
      for i := 0 to |ordered|
        invariant Listed().Fits()
        invariant Rest(Listed(), ordered, i, all, relative, digest)
      {
        ListStep(Listed(), ordered, i, all, relative, digest);
        assert ordered[i] in entries;
        ok := VisitEntry(ordered[i], relative);
        if !ok {
          return;
        }
      }
      NothingLeft(Listed(), ordered, all, relative, digest);
      ok := true;
    }

    /** One turn of the loop over a directory. */
    method VisitEntry(e: Entry, relative: Bytes) returns (ok: bool)
      requires Listed().Fits()
      modifies this
      ensures ok <==> old(Listed()).Plus(ListEntry(e, relative, digest)).Fits()
      ensures ok ==> Listed() == old(Listed()).Plus(ListEntry(e, relative, digest))
      decreases e, 1
    {
      match e.node {
        case File(m, content, readable) =>
          if m.size > MAX_FILE_BYTES || m.size != |content| || !readable {
            return false;
          }
          totalFileBytes := totalFileBytes + m.size;
          if totalFileBytes > MAX_TOTAL_BYTES {
            return false;
          }
        case Directory(_, _, _) =>
        case Special(_) =>
          return false;
      }
      records := records + [RecordOf(e, relative, digest)];
      if |records| > MAX_ENTRIES {
        return false;
      }
      ok := true;
      if e.node.Directory? {
        if !e.node.readable {
          return false;
        }
        ok := Visit(e.node.entries, Child(relative, e.name));
      }
    }
  }

  /** `collect_records`: accepted exactly when the root is a directory whose listing is
      supported and within both bounds, and then every node has its record. */
  method CollectRecords(root: Node, digest: Digest) returns (r: Option<seq<Record>>)
    ensures r.Some? <==> root.Directory? && root.readable && List(root.entries, [], digest).Fits()
    ensures r.Some? ==> multiset(r.value) == List(root.entries, [], digest).records
  {
    if !root.Directory? || !root.readable {
      return None;
    }
    var collector := new Collector(digest);
    var ok := collector.Visit(root.entries, []);
    NothingMore(List(root.entries, [], digest));
    if !ok {
      return None;
    }
    return Some(collector.records);
  }
}
