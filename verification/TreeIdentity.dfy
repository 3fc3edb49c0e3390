/** The listing of a tree fixes the tree: names, kinds, metadata and content digests at
    every depth, up to the order in which a directory returns its entries. */
module TreeIdentity {
  import opened Texts
  import opened Fingerprint
  import opened TreeWalk

  // ----- trees that a file system can hold

  predicate ProperName(name: Bytes) {
    name != [] && SLASH !in name
  }

  predicate Proper(entries: seq<Entry>) {
    && (forall i | 0 <= i < |entries| :: ProperName(entries[i].name))
    && (forall i, j | 0 <= i < j < |entries| :: entries[i].name != entries[j].name)
    && (forall i | 0 <= i < |entries| :: entries[i].node.Directory? ==> Proper(entries[i].node.entries))
  }

  /** Only files and directories, at every depth. */
  predicate Plain(entries: seq<Entry>) {
    forall i | 0 <= i < |entries| ::
      && !entries[i].node.Special?
      && (entries[i].node.Directory? ==> Plain(entries[i].node.entries))
  }

  // ----- equality of trees as far as the fingerprint can see

  predicate Alike(a: Node, b: Node, digest: Digest)
    decreases a, 0
  {
    match a
    case File(m, content, _) => b.File? && m == b.metadata && digest(content) == digest(b.content)
    case Directory(m, entries, _) => b.Directory? && m == b.metadata && AlikeEntries(entries, b.entries, digest)
    case Special(_) => false
  }

  predicate AlikeEntry(x: Entry, y: Entry, digest: Digest)
    decreases x, 1
  {
    x.name == y.name && Alike(x.node, y.node, digest)
  }

  predicate AlikeEntries(xs: seq<Entry>, ys: seq<Entry>, digest: Digest)
    decreases xs, 3
  {
    && (forall i | 0 <= i < |xs| :: HasPartner(xs[i], ys, digest))
    && (forall j | 0 <= j < |ys| :: HasName(xs, ys[j].name))
  }

  predicate HasPartner(x: Entry, ys: seq<Entry>, digest: Digest)
    decreases x, 2
  {
    exists j | 0 <= j < |ys| :: AlikeEntry(x, ys[j], digest)
  }

  predicate HasName(xs: seq<Entry>, name: Bytes) {
    exists i | 0 <= i < |xs| :: xs[i].name == name
  }

  // ----- where a record comes from

  ghost predicate Lists(entries: seq<Entry>, relative: Bytes, digest: Digest, r: Record) {
    r in List(entries, relative, digest).records
  }

  ghost predicate EntryLists(e: Entry, relative: Bytes, digest: Digest, r: Record) {
    r in ListEntry(e, relative, digest).records
  }

  lemma {:induction false} ListsFrom(entries: seq<Entry>, relative: Bytes, digest: Digest, r: Record) returns (i: nat)
    requires Lists(entries, relative, digest, r)
    ensures i < |entries| && EntryLists(entries[i], relative, digest, r)
    decreases |entries|
  {
    if EntryLists(entries[0], relative, digest, r) {
      i := 0;
    } else {
      var k := ListsFrom(entries[1..], relative, digest, r);
      i := k + 1;
    }
  }

  lemma {:induction false} ListsEntry(entries: seq<Entry>, i: nat, relative: Bytes, digest: Digest, r: Record)
    requires i < |entries| && EntryLists(entries[i], relative, digest, r)
    ensures Lists(entries, relative, digest, r)
    decreases |entries|
  {
    if i > 0 {
      ListsEntry(entries[1..], i - 1, relative, digest, r);
    }
  }

  /** The path is p itself or lies below it. */
  predicate Under(path: Bytes, p: Bytes) {
    |p| <= |path| && path[..|p|] == p && (|path| == |p| || path[|p|] == SLASH)
  }

  lemma UnderOneName(path: Bytes, relative: Bytes, m: Bytes, n: Bytes)
    requires ProperName(m) && ProperName(n)
    requires Under(path, Child(relative, m)) && Under(path, Child(relative, n))
    ensures m == n
  {
    var k := |Base(relative)|;
    NameInPath(path, relative, m);
    NameInPath(path, relative, n);
    NoLonger(path, k, |m|, |n|);
    NoLonger(path, k, |n|, |m|);
    assert forall i | 0 <= i < |m| :: m[i] == path[k..][i] == n[i];
  }

  /** A stretch without a slash ends before the first slash after it begins. */
  lemma NoLonger(path: Bytes, k: nat, m: nat, n: nat)
    requires |path| >= k + n && (|path| > k + m ==> path[k + m] == SLASH)
    requires forall i | k <= i < k + n :: path[i] != SLASH
    ensures n <= m
  {
  }

  /** The name stands in the path, and ends it or is followed by a slash. */
  lemma NameInPath(path: Bytes, relative: Bytes, name: Bytes)
    requires Under(path, Child(relative, name))
    ensures var k := |Base(relative)|;
            && |path| >= k + |name| && (|path| > k + |name| ==> path[k + |name|] == SLASH)
            && forall i | k <= i < k + |name| :: path[i] == name[i - k]
  {
    var k, c := |Base(relative)|, Child(relative, name);
    forall i | k <= i < k + |name| ensures path[i] == name[i - k] {
      assert path[..|c|][i] == c[i] == name[i - k];
    }
  }

  lemma UnderParent(path: Bytes, p: Bytes, name: Bytes)
    requires p != [] && Under(path, Child(p, name))
    ensures Under(path, p) && |path| > |p|
  {
    var c := Child(p, name);
    assert path[..|p|] == path[..|c|][..|p|] == p;
    assert path[|p|] == path[..|c|][|p|] == SLASH;
  }

  /** A record of an entry is the entry's own, or comes from strictly below it. */
  lemma {:induction false} EntryShape(e: Entry, relative: Bytes, digest: Digest, r: Record)
    requires ProperName(e.name) && (e.node.Directory? ==> Proper(e.node.entries))
    requires EntryLists(e, relative, digest, r)
    ensures Under(r.path, Child(relative, e.name))
    ensures r != RecordOf(e, relative, digest) ==>
              && e.node.Directory? && Lists(e.node.entries, Child(relative, e.name), digest, r)
              && |r.path| > |Child(relative, e.name)|
    decreases e, 0
  {
    if r != RecordOf(e, relative, digest) {
      var p := Child(relative, e.name);
      var entries := e.node.entries;
      var i := ListsFrom(entries, p, digest, r);
      EntryShape(entries[i], p, digest, r);
      UnderParent(r.path, p, entries[i].name);
    } else {
      assert r.path == Child(relative, e.name);
    }
  }

  /** Two entries of one directory share no path. */
  lemma EntriesApart(entries: seq<Entry>, i: nat, j: nat, relative: Bytes, digest: Digest, r: Record, s: Record)
    requires Proper(entries) && i < |entries| && j < |entries|
    requires EntryLists(entries[i], relative, digest, r) && EntryLists(entries[j], relative, digest, s)
    requires r.path == s.path
    ensures i == j
  {
    EntryShape(entries[i], relative, digest, r);
    EntryShape(entries[j], relative, digest, s);
    UnderOneName(r.path, relative, entries[i].name, entries[j].name);
  }

  // ----- what the records say

  /** Names that lead from a directory to a node below it, joined by slashes. */
  function Joined(names: seq<Bytes>): Bytes
    requires names != []
  {
    if |names| == 1 then names[0] else names[0] + [0x2F] + Joined(names[1..])
  }

  predicate Leads(entries: seq<Entry>, names: seq<Bytes>, node: Node)
    decreases |names|
  {
    names != [] && exists i | 0 <= i < |entries| :: EntryLeads(entries[i], names, node)
  }

  predicate EntryLeads(e: Entry, names: seq<Bytes>, node: Node)
    requires names != []
    decreases |names|, 0
  {
    && e.name == names[0]
    && if |names| == 1 then e.node == node
       else e.node.Directory? && Leads(e.node.entries, names[1..], node)
  }

  /** The record says where the node is, and its kind, metadata and content digest. */
  predicate Says(r: Record, path: Bytes, node: Node, digest: Digest) {
    && r.path == path
    && r.mode == node.metadata.mode && r.size == node.metadata.size
    && r.mtime == node.metadata.mtime && r.ctime == node.metadata.ctime
    && (if node.File? then r.kind == Ascii("file") && r.digest == digest(node.content)
        else r.kind == Ascii("directory") && r.digest == [])
  }

  predicate SaysOf(r: Record, relative: Bytes, names: seq<Bytes>, node: Node, digest: Digest)
    requires names != []
  {
    Says(r, if relative == [] then Joined(names) else relative + [0x2F] + Joined(names), node, digest)
  }

  ghost predicate Recorded(entries: seq<Entry>, relative: Bytes, digest: Digest, r: Record) {
    exists names, node :: Leads(entries, names, node) && SaysOf(r, relative, names, node, digest)
  }

  ghost predicate EntryRecorded(e: Entry, relative: Bytes, digest: Digest, r: Record) {
    exists names, node :: names != [] && EntryLeads(e, names, node) && SaysOf(r, relative, names, node, digest)
  }

  lemma OwnRecordSays(e: Entry, relative: Bytes, digest: Digest, r: Record)
    ensures r == RecordOf(e, relative, digest) <==> SaysOf(r, relative, [e.name], e.node, digest)
  {
    assert [] + e.name == e.name;
  }

  lemma BelowSays(r: Record, relative: Bytes, name: Bytes, names: seq<Bytes>, node: Node, digest: Digest)
    requires names != [] && name != []
    ensures SaysOf(r, relative, [name] + names, node, digest) <==> SaysOf(r, Child(relative, name), names, node, digest)
  {
    assert ([name] + names)[1..] == names;
    assert [] + name == name;
    assert relative + [0x2F] + (name + [0x2F] + Joined(names)) == relative + [0x2F] + name + [0x2F] + Joined(names);
  }

  lemma RecordedFrom(entries: seq<Entry>, relative: Bytes, digest: Digest, r: Record)
    ensures Recorded(entries, relative, digest, r) <==>
            exists i | 0 <= i < |entries| :: EntryRecorded(entries[i], relative, digest, r)
  {
    if Recorded(entries, relative, digest, r) {
      var names, node :| Leads(entries, names, node) && SaysOf(r, relative, names, node, digest);
      var i :| 0 <= i < |entries| && EntryLeads(entries[i], names, node);
      assert EntryRecorded(entries[i], relative, digest, r);
    }
    forall i | 0 <= i < |entries| && EntryRecorded(entries[i], relative, digest, r)
      ensures Recorded(entries, relative, digest, r)
    {
      var names, node :| names != [] && EntryLeads(entries[i], names, node) && SaysOf(r, relative, names, node, digest);
      assert Leads(entries, names, node);
    }
  }

  lemma EntryRecordedFrom(e: Entry, relative: Bytes, digest: Digest, r: Record)
    requires e.name != []
    ensures EntryRecorded(e, relative, digest, r) <==>
            || r == RecordOf(e, relative, digest)
            || (e.node.Directory? && Recorded(e.node.entries, Child(relative, e.name), digest, r))
  {
    OwnRecordSays(e, relative, digest, r);
    if EntryRecorded(e, relative, digest, r) {
      var names, node :| names != [] && EntryLeads(e, names, node) && SaysOf(r, relative, names, node, digest);
      if |names| == 1 {
        assert names == [e.name];
      } else {
        assert names == [e.name] + names[1..];
        BelowSays(r, relative, e.name, names[1..], node, digest);
      }
    }
    if r == RecordOf(e, relative, digest) {
      assert EntryLeads(e, [e.name], e.node);
    } else if e.node.Directory? && Recorded(e.node.entries, Child(relative, e.name), digest, r) {
      var names, node :| Leads(e.node.entries, names, node) && SaysOf(r, Child(relative, e.name), names, node, digest);
      BelowSays(r, relative, e.name, names, node, digest);
      assert ([e.name] + names)[1..] == names;
      assert EntryLeads(e, [e.name] + names, node);
    }
  }

  /** The records of a walk are those of the nodes that the names of the tree lead to, each
      with its path, kind, metadata and content digest. */
  lemma {:induction false} RecordsExactly(entries: seq<Entry>, relative: Bytes, digest: Digest, r: Record)
    requires Proper(entries)
    ensures r in List(entries, relative, digest).records <==> Recorded(entries, relative, digest, r)
    decreases entries, 1
  {
    RecordedFrom(entries, relative, digest, r);
    forall i | 0 <= i < |entries|
      ensures EntryLists(entries[i], relative, digest, r) <==> EntryRecorded(entries[i], relative, digest, r)
    {
      EntryRecordsExactly(entries[i], relative, digest, r);
    }
    if Lists(entries, relative, digest, r) {
      var i := ListsFrom(entries, relative, digest, r);
    }
    if Recorded(entries, relative, digest, r) {
      var i :| 0 <= i < |entries| && EntryRecorded(entries[i], relative, digest, r);
      ListsEntry(entries, i, relative, digest, r);
    }
  }

  lemma {:induction false} EntryRecordsExactly(e: Entry, relative: Bytes, digest: Digest, r: Record)
    requires ProperName(e.name) && (e.node.Directory? ==> Proper(e.node.entries))
    ensures EntryLists(e, relative, digest, r) <==> EntryRecorded(e, relative, digest, r)
    decreases e, 0
  {
    EntryRecordedFrom(e, relative, digest, r);
    if e.node.Directory? {
      RecordsExactly(e.node.entries, Child(relative, e.name), digest, r);
    }
  }

  // ----- one record for every node, with its own path

  ghost predicate PathsApart(m: multiset<Record>) {
    && (forall r :: m[r] <= 1)
    && (forall r, s | r in m && s in m && r.path == s.path :: r == s)
  }

  lemma {:induction false} WalkPathsApart(entries: seq<Entry>, relative: Bytes, digest: Digest)
    requires Proper(entries)
    ensures PathsApart(List(entries, relative, digest).records)
    decreases entries, 2
  {
    if entries != [] {
      var first, rest := ListEntry(entries[0], relative, digest).records, List(entries[1..], relative, digest).records;
      EntryPathsApart(entries[0], relative, digest);
      assert Proper(entries[1..]);
      WalkPathsApart(entries[1..], relative, digest);
      forall r, s | r in first && s in rest && r.path == s.path ensures false {
        var j := ListsFrom(entries[1..], relative, digest, s);
        assert entries[1..][j] == entries[j + 1];
        EntriesApart(entries, 0, j + 1, relative, digest, r, s);
      }
      DisjointPaths(first, rest);
    }
  }

  lemma DisjointPaths(a: multiset<Record>, b: multiset<Record>)
    requires PathsApart(a) && PathsApart(b)
    requires forall r, s | r in a && s in b :: r.path != s.path
    ensures PathsApart(a + b)
  {
    forall r ensures (a + b)[r] <= 1 {
      assert r in a && r in b ==> r.path != r.path;
    }
  }

  lemma {:induction false} EntryPathsApart(e: Entry, relative: Bytes, digest: Digest)
    requires ProperName(e.name) && (e.node.Directory? ==> Proper(e.node.entries))
    ensures PathsApart(ListEntry(e, relative, digest).records)
    decreases e, 1
  {
    var own := RecordOf(e, relative, digest);
    if e.node.Directory? {
      var p := Child(relative, e.name);
      var below := List(e.node.entries, p, digest).records;
      WalkPathsApart(e.node.entries, p, digest);
      forall s | s in below ensures s.path != own.path {
        var i := ListsFrom(e.node.entries, p, digest, s);
        EntryShape(e.node.entries[i], p, digest, s);
        UnderParent(s.path, p, e.node.entries[i].name);
      }
      DisjointPaths(multiset{own}, below);
    }
  }

  /** The walk of a proper tree never trips the duplicate check. */
  lemma WalkPathsUnique(entries: seq<Entry>, digest: Digest, rs: seq<Record>)
    requires Proper(entries) && multiset(rs) == List(entries, [], digest).records
    ensures UniquePaths(rs)
  {
    WalkPathsApart(entries, [], digest);
    forall i, j | 0 <= i < j < |rs| ensures rs[i].path != rs[j].path {
      assert rs[i] in multiset(rs) && rs[j] in multiset(rs);
      CountedTwice(rs, i, j);
    }
  }

  lemma CountedTwice(rs: seq<Record>, i: nat, j: nat)
    requires i < j < |rs|
    ensures rs[i] == rs[j] ==> multiset(rs)[rs[i]] >= 2
  {
    assert rs == rs[..j] + [rs[j]] + rs[j + 1..];
    assert rs[..j][i] == rs[i];
    assert rs[i] in multiset(rs[..j]);
  }

  /** There are as many records as nodes. */
  lemma {:induction false} OneRecordPerNode(entries: seq<Entry>, relative: Bytes, digest: Digest)
    ensures |List(entries, relative, digest).records| == List(entries, relative, digest).count == Nodes(entries)
    decreases entries, 2
  {
    if entries != [] {
      var e := entries[0];
      if e.node.Directory? {
        OneRecordPerNode(e.node.entries, Child(relative, e.name), digest);
      }
      OneRecordPerNode(entries[1..], relative, digest);
    }
  }

  function Nodes(entries: seq<Entry>): nat {
    if entries == [] then 0
    else
      1 + (if entries[0].node.Directory? then Nodes(entries[0].node.entries) else 0) + Nodes(entries[1..])
  }

  // ----- equal listings, alike trees

  ghost predicate SameRecords(xs: seq<Entry>, ys: seq<Entry>, relative: Bytes, digest: Digest) {
    forall r :: Lists(xs, relative, digest, r) <==> Lists(ys, relative, digest, r)
  }

  lemma OwnRecord(entries: seq<Entry>, i: nat, relative: Bytes, digest: Digest)
    requires i < |entries|
    ensures Lists(entries, relative, digest, RecordOf(entries[i], relative, digest))
  {
    ListsEntry(entries, i, relative, digest, RecordOf(entries[i], relative, digest));
  }

  /** The record of x at this place is the record of an entry of ys with the same name. */
  lemma Partner(x: Entry, ys: seq<Entry>, relative: Bytes, digest: Digest) returns (j: nat)
    requires ProperName(x.name) && Proper(ys)
    requires Lists(ys, relative, digest, RecordOf(x, relative, digest))
    ensures j < |ys| && ys[j].name == x.name
    ensures RecordOf(ys[j], relative, digest) == RecordOf(x, relative, digest)
  {
    var r := RecordOf(x, relative, digest);
    j := ListsFrom(ys, relative, digest, r);
    EntryShape(ys[j], relative, digest, r);
    assert Under(r.path, Child(relative, x.name));
    UnderOneName(r.path, relative, x.name, ys[j].name);
  }

  /** Below a directory of the same name, the records agree too. */
  lemma SameBelow(xs: seq<Entry>, ys: seq<Entry>, i: nat, j: nat, relative: Bytes, digest: Digest)
    requires Proper(xs) && Proper(ys) && SameRecords(xs, ys, relative, digest)
    requires i < |xs| && j < |ys| && xs[i].name == ys[j].name
    requires xs[i].node.Directory? && ys[j].node.Directory?
    ensures SameRecords(xs[i].node.entries, ys[j].node.entries, Child(relative, xs[i].name), digest)
  {
    forall r ensures Lists(xs[i].node.entries, Child(relative, xs[i].name), digest, r) <==>
                     Lists(ys[j].node.entries, Child(relative, ys[j].name), digest, r) {
      if Lists(xs[i].node.entries, Child(relative, xs[i].name), digest, r) {
        CarriedOver(xs, ys, i, j, relative, digest, r);
      }
      if Lists(ys[j].node.entries, Child(relative, ys[j].name), digest, r) {
        CarriedOver(ys, xs, j, i, relative, digest, r);
      }
    }
  }

  lemma CarriedOver(
    xs: seq<Entry>, ys: seq<Entry>, i: nat, j: nat, relative: Bytes, digest: Digest, r: Record)
    requires Proper(xs) && Proper(ys) && SameRecords(xs, ys, relative, digest)
    requires i < |xs| && j < |ys| && xs[i].name == ys[j].name
    requires xs[i].node.Directory? && ys[j].node.Directory?
    requires Lists(xs[i].node.entries, Child(relative, xs[i].name), digest, r)
    ensures Lists(ys[j].node.entries, Child(relative, ys[j].name), digest, r)
  {
    var p := Child(relative, xs[i].name);
    var k := ListsFrom(xs[i].node.entries, p, digest, r);
    EntryShape(xs[i].node.entries[k], p, digest, r);
    UnderParent(r.path, p, xs[i].node.entries[k].name);
    ListsEntry(xs, i, relative, digest, r);
    var l := ListsFrom(ys, relative, digest, r);
    EntryShape(ys[l], relative, digest, r);
    UnderOneName(r.path, relative, ys[l].name, ys[j].name);
    assert l == j;
    assert r.path != RecordOf(ys[j], relative, digest).path;
  }

  lemma {:induction false} SameRecordsMakeAlike(xs: seq<Entry>, ys: seq<Entry>, relative: Bytes, digest: Digest)
    requires Proper(xs) && Proper(ys) && Plain(xs) && Plain(ys)
    requires SameRecords(xs, ys, relative, digest)
    ensures AlikeEntries(xs, ys, digest)
    decreases xs
  {
    forall i | 0 <= i < |xs| ensures HasPartner(xs[i], ys, digest) {
      OwnRecord(xs, i, relative, digest);
      var j := Partner(xs[i], ys, relative, digest);
      SameKind(xs[i], ys[j], relative, digest);
      if xs[i].node.Directory? {
        SameBelow(xs, ys, i, j, relative, digest);
        SameRecordsMakeAlike(xs[i].node.entries, ys[j].node.entries, Child(relative, xs[i].name), digest);
      }
      assert AlikeEntry(xs[i], ys[j], digest);
    }
    forall j | 0 <= j < |ys| ensures HasName(xs, ys[j].name) {
      OwnRecord(ys, j, relative, digest);
      var i := Partner(ys[j], xs, relative, digest);
    }
  }

  lemma SameKind(x: Entry, y: Entry, relative: Bytes, digest: Digest)
    requires !x.node.Special? && !y.node.Special?
    requires RecordOf(x, relative, digest) == RecordOf(y, relative, digest)
    ensures x.node.File? <==> y.node.File?
    ensures x.node.metadata == y.node.metadata
    ensures x.node.File? ==> digest(x.node.content) == digest(y.node.content)
  {
    assert |FILE_KIND| != |DIRECTORY_KIND|;
  }

  lemma {:induction false} AlikeListsSame(
    xs: seq<Entry>, ys: seq<Entry>, relative: Bytes, digest: Digest, r: Record)
    requires Proper(xs) && Proper(ys) && AlikeEntries(xs, ys, digest)
    ensures Lists(xs, relative, digest, r) <==> Lists(ys, relative, digest, r)
    decreases xs, 1
  {
    if Lists(xs, relative, digest, r) {
      var i := ListsFrom(xs, relative, digest, r);
      assert HasPartner(xs[i], ys, digest);
      var j :| 0 <= j < |ys| && AlikeEntry(xs[i], ys[j], digest);
      AlikeEntryListsSame(xs[i], ys[j], relative, digest, r);
      ListsEntry(ys, j, relative, digest, r);
    } else if Lists(ys, relative, digest, r) {
      var j := ListsFrom(ys, relative, digest, r);
      var i := PartnerOf(xs, ys, j, digest);
      AlikeEntryListsSame(xs[i], ys[j], relative, digest, r);
      ListsEntry(xs, i, relative, digest, r);
    }
  }

  lemma PartnerOf(xs: seq<Entry>, ys: seq<Entry>, j: nat, digest: Digest) returns (i: nat)
    requires Proper(ys) && AlikeEntries(xs, ys, digest) && j < |ys|
    ensures i < |xs| && AlikeEntry(xs[i], ys[j], digest)
  {
    assert HasName(xs, ys[j].name);
    var n :| 0 <= n < |xs| && xs[n].name == ys[j].name;
    assert HasPartner(xs[n], ys, digest);
    var k :| 0 <= k < |ys| && AlikeEntry(xs[n], ys[k], digest);
    assert k == j;
    i := n;
  }

  lemma {:induction false} AlikeEntryListsSame(x: Entry, y: Entry, relative: Bytes, digest: Digest, r: Record)
    requires AlikeEntry(x, y, digest)
    requires x.node.Directory? ==> Proper(x.node.entries)
    requires y.node.Directory? ==> Proper(y.node.entries)
    ensures EntryLists(x, relative, digest, r) <==> EntryLists(y, relative, digest, r)
    decreases x, 0
  {
    if x.node.Directory? {
      AlikeListsSame(x.node.entries, y.node.entries, Child(relative, x.name), digest, r);
    }
  }

  // ----- the fingerprint fixes the tree

  lemma {:induction false} SupportedIsPlain(entries: seq<Entry>, relative: Bytes, digest: Digest)
    requires List(entries, relative, digest).supported
    ensures Plain(entries)
    decreases entries
  {
    forall i | 0 <= i < |entries| ensures
        && !entries[i].node.Special?
        && (entries[i].node.Directory? ==> Plain(entries[i].node.entries)) {
      SupportedAt(entries, i, relative, digest);
      if entries[i].node.Directory? {
        SupportedIsPlain(entries[i].node.entries, Child(relative, entries[i].name), digest);
      }
    }
  }

  lemma {:induction false} SupportedAt(entries: seq<Entry>, i: nat, relative: Bytes, digest: Digest)
    requires i < |entries| && List(entries, relative, digest).supported
    ensures ListEntry(entries[i], relative, digest).supported
    decreases |entries|
  {
    if i > 0 {
      SupportedAt(entries[1..], i - 1, relative, digest);
    }
  }

  lemma EqualWithoutRepeats(a: multiset<Record>, b: multiset<Record>)
    requires PathsApart(a) && PathsApart(b) && forall r :: r in a <==> r in b
    ensures a == b
  {
    forall r ensures a[r] == b[r] {
      assert r in a <==> r in b;
    }
  }

  /** Two trees that the walk accepts feed the digest the same bytes exactly when they
      have the same names, kinds, metadata and content digests at every depth. */
  lemma StreamFixesTree(
    xs: seq<Entry>, ys: seq<Entry>, digest: Digest, rs: seq<Record>, ss: seq<Record>)
    requires Proper(xs) && Proper(ys)
    requires List(xs, [], digest).Fits() && List(ys, [], digest).Fits()
    requires multiset(rs) == List(xs, [], digest).records && multiset(ss) == List(ys, [], digest).records
    requires AllEncodable(rs) && AllEncodable(ss)
    ensures UniquePaths(rs) && UniquePaths(ss)
    ensures Stream(SortedRecords(rs)) == Stream(SortedRecords(ss)) <==> AlikeEntries(xs, ys, digest)
  {
    WalkPathsUnique(xs, digest, rs);
    WalkPathsUnique(ys, digest, ss);
    StreamFixesRecords(rs, ss);
    if multiset(rs) == multiset(ss) {
      SupportedIsPlain(xs, [], digest);
      SupportedIsPlain(ys, [], digest);
      SameRecordsMakeAlike(xs, ys, [], digest);
    }
    if AlikeEntries(xs, ys, digest) {
      WalkPathsApart(xs, [], digest);
      WalkPathsApart(ys, [], digest);
      forall r ensures r in multiset(rs) <==> r in multiset(ss) {
        AlikeListsSame(xs, ys, [], digest, r);
      }
      EqualWithoutRepeats(multiset(rs), multiset(ss));
    }
  }
}
