/** What accepted release channels look like, and how building and validating agree. */
module ReleaseManifest {
  import opened Texts
  import opened Sorting
  import opened Documents
  import opened ReleaseDocument
  import opened ReleaseTerms
  import opened ReleaseChannel
  import opened ReleaseSet

  // ----- repair releases

  /** The same for the manifests that building and validating return. */
  lemma ManifestRepairIsolated(v: Document, world: World, m: Manifest)
    requires Built(v, world) == Some(m) || Validated(v, world) == Some(m)
    ensures m.channel == REPAIR_CHANNEL <==> exists a :: a in m.artifacts && IsRepair(a)
    ensures m.channel == REPAIR_CHANNEL <==> forall a :: a in m.artifacts ==> IsRepair(a)
  {
    RepairIsolated(m.artifacts, m.channel);
  }

  // ----- building and validating

  predicate AllInput(values: seq<Document>, world: World) {
    forall v | v in values :: ReadInputArtifact(v, world).Some?
  }

  function InputArtifacts(values: seq<Document>, world: World): (r: seq<Artifact>)
    requires AllInput(values, world)
    ensures |r| == |values|
  {
    Mapped(values, v requires ReadInputArtifact(v, world).Some? => ReadInputArtifact(v, world).value)
  }

  /** `build_manifest`: the manifest, or None where the source raises. */
  function Built(v: Document, world: World): (r: Option<Manifest>) {
    if !FrameOk(v, INPUT_SCHEMA, world) || !AllInput(v.fields[Artifacts].items, world) then None
    else
      var artifacts := Sort(InputArtifacts(v.fields[Artifacts].items, world), ByKey());
      if AcceptedSet(artifacts, v.fields[Channel].s) then Some(MakeManifest(v, INPUT_SCHEMA, world, artifacts))
      else None
  }

  predicate AllRead(values: seq<Document>, world: World) {
    forall v | v in values :: ReadArtifact(v, world).Some?
  }

  function ReadArtifacts(values: seq<Document>, world: World): (r: seq<Artifact>)
    requires AllRead(values, world)
    ensures |r| == |values|
  {
    Mapped(values, v requires ReadArtifact(v, world).Some? => ReadArtifact(v, world).value)
  }

  /** `validate_manifest`: the manifest it returns, or None where the source raises. */
  function Validated(v: Document, world: World): (r: Option<Manifest>) {
    if !FrameOk(v, SCHEMA, world) || !AllRead(v.fields[Artifacts].items, world) then None
    else
      var artifacts := ReadArtifacts(v.fields[Artifacts].items, world);
      if AcceptedSet(artifacts, v.fields[Channel].s) then Some(MakeManifest(v, SCHEMA, world, artifacts))
      else None
  }

  /** Returns the manifest that the descriptor is built into. */
  method BuildManifest(v: Document, world: World) returns (r: Option<Manifest>)
    ensures r == Built(v, world)
    ensures r.Some? ==> Builds(v, world, r.value)
  {
    BuiltBuilds(v, world);
    if !FrameOk(v, INPUT_SCHEMA, world) || !AllInput(v.fields[Artifacts].items, world) {
      return None;
    }
    var artifacts := InputArtifacts(v.fields[Artifacts].items, world);
    artifacts := Sort(artifacts, ByKey());
    var ok := ValidateArtifactSet(artifacts, v.fields[Channel].s);
    return if ok then Some(MakeManifest(v, INPUT_SCHEMA, world, artifacts)) else None;
  }

  lemma InputAllValid(values: seq<Document>, world: World)
    requires Honest(world) && AllInput(values, world)
    ensures forall a | a in InputArtifacts(values, world) :: ValidArtifact(a, world)
  {
    var artifacts := InputArtifacts(values, world);
    forall i | 0 <= i < |values| ensures ValidArtifact(artifacts[i], world) {
      InputAt(values, i, world);
      InputArtifactValid(values[i], world);
    }
  }

  lemma InputAt(values: seq<Document>, i: nat, world: World)
    requires AllInput(values, world) && i < |values|
    ensures ReadInputArtifact(values[i], world) == Some(InputArtifacts(values, world)[i])
  {
    assert values[i] in values;
  }

  lemma ArtifactsReadBack(artifacts: seq<Artifact>, world: World)
    requires forall a | a in artifacts :: ValidArtifact(a, world)
    ensures AllRead(ArtifactValues(artifacts), world)
    ensures ReadArtifacts(ArtifactValues(artifacts), world) == artifacts
  {
    var values := ArtifactValues(artifacts);
    forall i | 0 <= i < |artifacts| ensures ReadArtifact(values[i], world) == Some(artifacts[i]) {
      assert artifacts[i] in artifacts;
      ArtifactReadsBack(artifacts[i], world);
    }
  }

  lemma BuiltValid(v: Document, world: World)
    requires Honest(world) && Built(v, world).Some?
    ensures forall a | a in Built(v, world).value.artifacts :: ValidArtifact(a, world)
  {
    var m := Built(v, world).value;
    var values := v.fields[Artifacts].items;
    InputAllValid(values, world);
    forall a | a in m.artifacts ensures ValidArtifact(a, world) {
      SameElements(InputArtifacts(values, world), m.artifacts, a);
    }
  }

  lemma ManifestHolds(m: Manifest)
    ensures ManifestValue(m).fields.Keys == DOCUMENT_KEYS
    ensures ManifestValue(m).fields[Artifacts] == List(ArtifactValues(m.artifacts))
    ensures ManifestValue(m).fields[Channel] == Text(m.channel)
  {
  }

  lemma ValidatedFrom(doc: Document, world: World, m: Manifest)
    requires FrameOk(doc, SCHEMA, world) && MakeManifest(doc, SCHEMA, world, m.artifacts) == m
    requires AllRead(doc.fields[Artifacts].items, world)
    requires ReadArtifacts(doc.fields[Artifacts].items, world) == m.artifacts
    requires AcceptedSet(m.artifacts, m.channel)
    ensures Validated(doc, world) == Some(m)
  {
  }

  /** Validating a built manifest returns it unchanged. */
  lemma BuiltValidates(v: Document, world: World)
    requires Honest(world) && Built(v, world).Some?
    ensures var m := Built(v, world).value; Validated(ManifestValue(m), world) == Some(m)
  {
    var m := Built(v, world).value;
    BuiltValid(v, world);
    ArtifactsReadBack(m.artifacts, world);
    FrameReadsBack(v, INPUT_SCHEMA, world, m.artifacts);
    ManifestHolds(m);
    ValidatedFrom(ManifestValue(m), world, m);
  }

  lemma SortedStaysSorted(artifacts: seq<Artifact>)
    ensures Sort(Sort(artifacts, ByKey()), ByKey()) == Sort(artifacts, ByKey())
  {
    ByKeyOrders();
    SortOrders(artifacts, ByKey());
    SortOfOrdered(Sort(artifacts, ByKey()), ByKey());
  }

  // ----- the order of the descriptor

  lemma Removed<T>(ys: seq<T>, j: nat)
    requires j < |ys|
    ensures multiset(ys) == multiset(ys[..j] + ys[j + 1..]) + multiset{ys[j]}
  {
    assert ys == ys[..j] + [ys[j]] + ys[j + 1..];
  }

  lemma MappedRemoved<T, U>(ys: seq<T>, j: nat, f: T --> U)
    requires j < |ys| && forall y | y in ys :: f.requires(y)
    ensures multiset(Mapped(ys, f)) == multiset(Mapped(ys[..j] + ys[j + 1..], f)) + multiset{f(ys[j])}
  {
    var zs := ys[..j] + ys[j + 1..];
    assert Mapped(zs, f) == Mapped(ys, f)[..j] + Mapped(ys, f)[j + 1..];
    Removed(Mapped(ys, f), j);
  }

  lemma RemovedAlike<T>(xs: seq<T>, i: nat, ys: seq<T>, j: nat)
    requires multiset(xs) == multiset(ys) && i < |xs| && j < |ys| && xs[i] == ys[j]
    ensures multiset(xs[..i] + xs[i + 1..]) == multiset(ys[..j] + ys[j + 1..])
  {
    Removed(xs, i);
    Removed(ys, j);
    var a, b := multiset(xs[..i] + xs[i + 1..]), multiset(ys[..j] + ys[j + 1..]);
    assert a == (a + multiset{xs[i]}) - multiset{xs[i]};
    assert b == (b + multiset{ys[j]}) - multiset{ys[j]};
  }

  lemma {:induction false} MappedPermutes<T, U>(xs: seq<T>, ys: seq<T>, f: T --> U)
    requires multiset(xs) == multiset(ys)
    requires (forall x | x in xs :: f.requires(x)) && forall y | y in ys :: f.requires(y)
    ensures multiset(Mapped(xs, f)) == multiset(Mapped(ys, f))
    decreases |xs|
  {
    if xs == [] {
      assert |multiset(ys)| == |ys| == 0;
    } else {
      SameElements(xs, ys, xs[0]);
      var j :| 0 <= j < |ys| && ys[j] == xs[0];
      RemovedAlike(xs, 0, ys, j);
      MappedPermutes(xs[..0] + xs[1..], ys[..j] + ys[j + 1..], f);
      MappedRemoved(xs, 0, f);
      MappedRemoved(ys, j, f);
    }
  }

  /** In a unique set the sort key tells the artifacts apart. */
  lemma UniqueSeparates(artifacts: seq<Artifact>)
    requires Unique(artifacts)
    ensures Separated(artifacts, ByKey())
  {
    forall a, b | a in artifacts && b in artifacts && ByKey()(a, b) && ByKey()(b, a) ensures a == b {
      TupleTotal(SortKey(a), SortKey(b));
      assert SortKey(a)[..6] == Identity(a) && SortKey(b)[..6] == Identity(b);
    }
  }

  lemma SeparatedPermutes(a: seq<Artifact>, b: seq<Artifact>)
    requires multiset(a) == multiset(b) && Separated(a, ByKey())
    ensures Separated(b, ByKey())
  {
    forall x, y | x in b && y in b && ByKey()(x, y) && ByKey()(y, x) ensures x == y {
      SameElements(a, b, x);
      SameElements(a, b, y);
    }
  }

  /** Listing the artifacts of a descriptor in another order changes nothing: it is
      accepted as before, and the manifest is the same. */
  lemma OrderIsIrrelevant(v: Document, w: Document, world: World)
    requires FrameOk(v, INPUT_SCHEMA, world) && w.Dict? && Artifacts in w.fields && w.fields[Artifacts].List?
    requires w.fields == v.fields[Artifacts := w.fields[Artifacts]]
    requires multiset(v.fields[Artifacts].items) == multiset(w.fields[Artifacts].items)
    ensures Built(v, world) == Built(w, world)
  {
    assert w.fields.Keys == v.fields.Keys;
    assert FrameOk(w, INPUT_SCHEMA, world);
    var xs, ys := v.fields[Artifacts].items, w.fields[Artifacts].items;
    AllInputPermutes(xs, ys, world);
    if AllInput(xs, world) {
      InputPermutes(xs, ys, world);
      SortedAlike(InputArtifacts(xs, world), InputArtifacts(ys, world), v.fields[Channel].s);
    }
  }

  lemma AllInputPermutes(xs: seq<Document>, ys: seq<Document>, world: World)
    requires multiset(xs) == multiset(ys)
    ensures AllInput(xs, world) <==> AllInput(ys, world)
  {
    forall v ensures v in xs <==> v in ys {
      SameElements(xs, ys, v);
    }
  }

  lemma InputPermutes(xs: seq<Document>, ys: seq<Document>, world: World)
    requires multiset(xs) == multiset(ys) && AllInput(xs, world) && AllInput(ys, world)
    ensures multiset(InputArtifacts(xs, world)) == multiset(InputArtifacts(ys, world))
  {
    MappedPermutes(xs, ys, v requires ReadInputArtifact(v, world).Some? => ReadInputArtifact(v, world).value);
  }

  /** Either both arrangements sort to the same accepted list, or neither is accepted. */
  lemma SortedAlike(a: seq<Artifact>, b: seq<Artifact>, channel: Str)
    requires multiset(a) == multiset(b)
    ensures AcceptedSet(Sort(a, ByKey()), channel) <==> AcceptedSet(Sort(b, ByKey()), channel)
    ensures AcceptedSet(Sort(a, ByKey()), channel) ==> Sort(a, ByKey()) == Sort(b, ByKey())
  {
    if AcceptedSet(Sort(a, ByKey()), channel) {
      AcceptedForgets(a, b, channel);
    } else if AcceptedSet(Sort(b, ByKey()), channel) {
      AcceptedForgets(b, a, channel);
    }
  }

  lemma AcceptedForgets(a: seq<Artifact>, b: seq<Artifact>, channel: Str)
    requires multiset(a) == multiset(b) && AcceptedSet(Sort(a, ByKey()), channel)
    ensures Sort(a, ByKey()) == Sort(b, ByKey())
  {
    ByKeyOrders();
    UniqueSeparates(Sort(a, ByKey()));
    SeparatedPermutes(Sort(a, ByKey()), a);
    SortForgetsArrangement(a, b, ByKey());
  }

  // ----- the order check never fires

  lemma ChannelRulePermutes(a: seq<Artifact>, b: seq<Artifact>, channel: Str)
    requires multiset(a) == multiset(b) && ChannelRule(a, channel)
    ensures ChannelRule(b, channel)
  {
    forall x ensures x in a <==> x in b {
      SameElements(a, b, x);
    }
    forall i | 0 <= i < |b| ensures IsRepair(b[i]) <==> channel == REPAIR_CHANNEL {
      assert b[i] in a;
    }
    if channel == REPAIR_CHANNEL {
      var i :| 0 <= i < |a| && IsRepair(a[i]);
      assert a[i] in b;
      var j :| 0 <= j < |b| && b[j] == a[i];
    }
  }

  lemma Twice<T>(xs: seq<T>, x: T) returns (i: nat, j: nat)
    requires multiset(xs)[x] >= 2
    ensures i < j < |xs| && xs[i] == xs[j] == x
  {
    var k :| 0 <= k < |xs| && xs[k] == x;
    Removed(xs, k);
    var rest := xs[..k] + xs[k + 1..];
    assert x in multiset(rest);
    var m :| 0 <= m < |rest| && rest[m] == x;
    i, j := if m < k then m else k, if m < k then k else m + 1;
  }

  lemma TwiceCounts<T>(xs: seq<T>, i: nat, j: nat)
    requires i < j < |xs| && xs[i] == xs[j]
    ensures multiset(xs)[xs[i]] >= 2
  {
    Removed(xs, i);
    var rest := xs[..i] + xs[i + 1..];
    assert rest[j - 1] == xs[i];
    assert xs[i] in rest;
  }

  lemma NotTwice(artifacts: seq<Artifact>, x: Artifact)
    requires Unique(artifacts)
    ensures multiset(artifacts)[x] <= 1
  {
    if multiset(artifacts)[x] >= 2 {
      var i, j := Twice(artifacts, x);
    }
  }

  lemma UniquePermutes(a: seq<Artifact>, b: seq<Artifact>)
    requires multiset(a) == multiset(b) && Unique(a)
    ensures Unique(b)
  {
    forall i, j | 0 <= i < j < |b|
      ensures b[i].filename != b[j].filename && b[i].url != b[j].url && Identity(b[i]) != Identity(b[j])
    {
      SameElements(a, b, b[i]);
      SameElements(a, b, b[j]);
      var k :| 0 <= k < |a| && a[k] == b[i];
      var m :| 0 <= m < |a| && a[m] == b[j];
      NotTwice(a, b[i]);
      if b[i] == b[j] {
        TwiceCounts(b, i, j);
      }
      assert k < m || m < k;
    }
  }

  lemma {:induction false} MembersCount(artifacts: seq<Artifact>, group: Tuple, x: Artifact)
    ensures multiset(Members(artifacts, group))[x] == if Group(x) == group then multiset(artifacts)[x] else 0
  {
    if artifacts != [] {
      var n := |artifacts| - 1;
      MembersCount(artifacts[..n], group, x);
      assert artifacts == artifacts[..n] + [artifacts[n]];
      assert multiset(artifacts) == multiset(artifacts[..n]) + multiset{artifacts[n]};
    }
  }

  lemma MembersPermute(a: seq<Artifact>, b: seq<Artifact>, group: Tuple)
    requires multiset(a) == multiset(b)
    ensures multiset(Members(a, group)) == multiset(Members(b, group))
  {
    forall x ensures multiset(Members(a, group))[x] == multiset(Members(b, group))[x] {
      MembersCount(a, group, x);
      MembersCount(b, group, x);
    }
  }

  lemma {:induction false} CountKindConcat(xs: seq<Artifact>, ys: seq<Artifact>, kind: Str)
    ensures CountKind(xs + ys, kind) == CountKind(xs, kind) + CountKind(ys, kind)
  {
    if ys == [] {
      assert xs + ys == xs;
    } else {
      var n := |ys| - 1;
      CountKindConcat(xs, ys[..n], kind);
      assert (xs + ys)[..|xs + ys| - 1] == xs + ys[..n];
    }
  }

  lemma CountKindRemoved(xs: seq<Artifact>, i: nat, kind: Str)
    requires i < |xs|
    ensures CountKind(xs, kind) == CountKind(xs[..i] + xs[i + 1..], kind) + if xs[i].kind == kind then 1 else 0
  {
    assert xs == xs[..i] + ([xs[i]] + xs[i + 1..]);
    CountKindConcat(xs[..i], [xs[i]] + xs[i + 1..], kind);
    CountKindConcat([xs[i]], xs[i + 1..], kind);
    CountKindConcat(xs[..i], xs[i + 1..], kind);
    assert [xs[i]][..0] == [];
  }

  lemma {:induction false} CountKindPermutes(xs: seq<Artifact>, ys: seq<Artifact>, kind: Str)
    requires multiset(xs) == multiset(ys)
    ensures CountKind(xs, kind) == CountKind(ys, kind)
    decreases |xs|
  {
    if xs == [] {
      assert |multiset(ys)| == |ys| == 0;
    } else {
      SameElements(xs, ys, xs[0]);
      var j :| 0 <= j < |ys| && ys[j] == xs[0];
      RemovedAlike(xs, 0, ys, j);
      CountKindPermutes(xs[..0] + xs[1..], ys[..j] + ys[j + 1..], kind);
      CountKindRemoved(xs, 0, kind);
      CountKindRemoved(ys, j, kind);
    }
  }

  lemma GroupRulePermutes(xs: seq<Artifact>, ys: seq<Artifact>, group: Tuple)
    requires |group| == 5 && multiset(xs) == multiset(ys) && GroupRule(xs, group)
    ensures GroupRule(ys, group)
  {
    CountKindPermutes(xs, ys, Primary(group[0]));
    SameElements(xs, ys, xs[0]);
    forall i | 0 <= i < |ys| ensures ys[i].provenance == xs[0].provenance {
      SameElements(xs, ys, ys[i]);
      assert ys[i] in xs;
    }
  }

  lemma GroupRulesPermute(a: seq<Artifact>, b: seq<Artifact>)
    requires multiset(a) == multiset(b) && GroupRules(a)
    ensures GroupRules(b)
  {
    forall i | 0 <= i < |b| ensures GroupRule(Members(b, Group(b[i])), Group(b[i])) {
      var group := Group(b[i]);
      SameElements(a, b, b[i]);
      var k :| 0 <= k < |a| && a[k] == b[i];
      MembersPermute(a, b, group);
      GroupRulePermutes(Members(a, group), Members(b, group), group);
    }
  }

  lemma RulesPermute(a: seq<Artifact>, b: seq<Artifact>, channel: Str)
    requires multiset(a) == multiset(b)
    ensures RulesOk(a, channel) ==> RulesOk(b, channel)
  {
    if RulesOk(a, channel) {
      assert |a| == |multiset(a)| == |b|;
      ChannelRulePermutes(a, b, channel);
      UniquePermutes(a, b);
      GroupRulesPermute(a, b);
    }
  }

  // ----- exactly what is built and validated

  /** These artifacts are what these entries describe, one by one. */
  ghost predicate Listed(entries: seq<Document>, artifacts: seq<Artifact>, world: World) {
    |entries| == |artifacts| && forall i | 0 <= i < |entries| :: Describes(entries[i], artifacts[i], world)
  }

  /** The descriptor has the frame of the manifest, and the artifacts of the manifest are
      those that its entries describe, put into order. */
  ghost predicate BuiltFrom(
    v: Document, world: World, m: Manifest, entries: seq<Document>, listed: seq<Artifact>)
  {
    && v == FrameValue(m, Ascii("dev.kernaid.release-channel-input.v1"), entries) && ProperFrame(m, world)
    && Listed(entries, listed, world) && multiset(listed) == multiset(m.artifacts)
    && ProperSet(m.artifacts, m.channel)
  }

  ghost predicate Builds(v: Document, world: World, m: Manifest) {
    exists entries, listed :: BuiltFrom(v, world, m, entries, listed)
  }

  lemma ListedExactly(entries: seq<Document>, artifacts: seq<Artifact>, world: World)
    ensures Listed(entries, artifacts, world) <==>
            AllInput(entries, world) && InputArtifacts(entries, world) == artifacts
  {
    if Listed(entries, artifacts, world) {
      forall i | 0 <= i < |entries| ensures ReadInputArtifact(entries[i], world) == Some(artifacts[i]) {
        InputExactly(entries[i], artifacts[i], world);
      }
      assert InputArtifacts(entries, world) == artifacts;
    }
    if AllInput(entries, world) && InputArtifacts(entries, world) == artifacts {
      forall i | 0 <= i < |entries| ensures Describes(entries[i], artifacts[i], world) {
        InputAt(entries, i, world);
        InputExactly(entries[i], artifacts[i], world);
      }
    }
  }

  lemma SortedIs(listed: seq<Artifact>, artifacts: seq<Artifact>, channel: Str)
    requires multiset(listed) == multiset(artifacts) && AcceptedSet(artifacts, channel)
    ensures Sort(listed, ByKey()) == artifacts
  {
    AcceptedForgets(artifacts, listed, channel);
  }

  lemma FrameGives(v: Document, schema: Str, world: World, artifacts: seq<Artifact>)
    requires FrameOk(v, schema, world)
    ensures var m := MakeManifest(v, schema, world, artifacts);
            v == FrameValue(m, schema, v.fields[Artifacts].items) && ProperFrame(m, world)
  {
    FrameExactly(v, schema, world, MakeManifest(v, schema, world, artifacts), v.fields[Artifacts].items);
  }

  lemma FrameTaken(v: Document, m: Manifest, schema: Str, world: World, entries: seq<Document>)
    requires ProperFrame(m, world) && v == FrameValue(m, schema, entries)
    ensures FrameOk(v, schema, world) && MakeManifest(v, schema, world, m.artifacts) == m
    ensures v.fields[Artifacts].items == entries && v.fields[Channel].s == m.channel
  {
    FrameKeys(m, schema, entries);
    FrameExactly(v, schema, world, m, entries);
  }

  lemma BuiltGives(v: Document, world: World) returns (entries: seq<Document>, listed: seq<Artifact>)
    requires Built(v, world).Some?
    ensures BuiltFrom(v, world, Built(v, world).value, entries, listed)
  {
    var m := Built(v, world).value;
    entries := v.fields[Artifacts].items;
    listed := InputArtifacts(entries, world);
    FrameGives(v, INPUT_SCHEMA, world, m.artifacts);
    ListedExactly(entries, listed, world);
    AcceptedSetExactly(m.artifacts, m.channel);
  }

  lemma BuiltFromBuilds(v: Document, world: World, m: Manifest, entries: seq<Document>, listed: seq<Artifact>)
    requires BuiltFrom(v, world, m, entries, listed)
    ensures Built(v, world) == Some(m)
  {
    FrameTaken(v, m, INPUT_SCHEMA, world, entries);
    ListedExactly(entries, listed, world);
    AcceptedSetExactly(m.artifacts, m.channel);
    SortedIs(listed, m.artifacts, m.channel);
  }

  /** A descriptor is built into a manifest exactly when it has the manifest's frame and
      the manifest's artifacts are those that its entries describe, each once, in order. */
  lemma BuiltExactly(v: Document, world: World, m: Manifest)
    ensures Built(v, world) == Some(m) <==> Builds(v, world, m)
  {
    if Built(v, world) == Some(m) {
      var entries, listed := BuiltGives(v, world);
    }
    forall entries, listed | BuiltFrom(v, world, m, entries, listed) ensures Built(v, world) == Some(m) {
      BuiltFromBuilds(v, world, m, entries, listed);
    }
  }

  lemma BuiltBuilds(v: Document, world: World)
    ensures Built(v, world).Some? ==> Builds(v, world, Built(v, world).value)
  {
    if Built(v, world).Some? {
      BuiltExactly(v, world, Built(v, world).value);
    }
  }

  lemma ReadExactly(entries: seq<Document>, artifacts: seq<Artifact>, world: World)
    ensures AllRead(entries, world) && ReadArtifacts(entries, world) == artifacts <==>
            entries == ArtifactValues(artifacts) && forall a | a in artifacts :: ProperArtifact(a, world)
  {
    if AllRead(entries, world) && ReadArtifacts(entries, world) == artifacts {
      forall i | 0 <= i < |entries|
        ensures entries[i] == ArtifactValue(artifacts[i]) && ProperArtifact(artifacts[i], world)
      {
        assert entries[i] in entries;
        ArtifactExactly(entries[i], artifacts[i], world);
      }
    }
    if entries == ArtifactValues(artifacts) && forall a | a in artifacts :: ProperArtifact(a, world) {
      forall i | 0 <= i < |entries| ensures ReadArtifact(entries[i], world) == Some(artifacts[i]) {
        assert artifacts[i] in artifacts;
        ArtifactExactly(entries[i], artifacts[i], world);
      }
      assert ReadArtifacts(entries, world) == artifacts;
    }
  }

  /** The manifest is proper throughout. */
  ghost predicate ProperManifest(m: Manifest, world: World) {
    && ProperFrame(m, world) && (forall a | a in m.artifacts :: ProperArtifact(a, world))
    && ProperSet(m.artifacts, m.channel)
  }

  lemma ValidatedGives(v: Document, world: World)
    requires Validated(v, world).Some?
    ensures var m := Validated(v, world).value;
            v == FrameValue(m, SCHEMA, ArtifactValues(m.artifacts)) && ProperManifest(m, world)
  {
    var m := Validated(v, world).value;
    FrameGives(v, SCHEMA, world, m.artifacts);
    ReadExactly(v.fields[Artifacts].items, m.artifacts, world);
    AcceptedSetExactly(m.artifacts, m.channel);
  }

  lemma ReadValidates(v: Document, world: World, m: Manifest)
    requires FrameOk(v, SCHEMA, world) && MakeManifest(v, SCHEMA, world, m.artifacts) == m
    requires v.fields[Artifacts].items == ArtifactValues(m.artifacts)
    requires (forall a | a in m.artifacts :: ProperArtifact(a, world)) && AcceptedSet(m.artifacts, m.channel)
    ensures Validated(v, world) == Some(m)
  {
    ReadExactly(ArtifactValues(m.artifacts), m.artifacts, world);
    ValidatedFrom(v, world, m);
  }

  lemma ProperValidates(v: Document, world: World, m: Manifest)
    requires ProperFrame(m, world) && (forall a | a in m.artifacts :: ProperArtifact(a, world))
    requires AcceptedSet(m.artifacts, m.channel)
    requires v == FrameValue(m, SCHEMA, ArtifactValues(m.artifacts))
    ensures Validated(v, world) == Some(m)
  {
    FrameTaken(v, m, SCHEMA, world, ArtifactValues(m.artifacts));
    ReadValidates(v, world, m);
  }

  /** A document is validated as a manifest exactly when it is the manifest's own document
      and the manifest is proper. */
  lemma ValidatedExactly(v: Document, world: World, m: Manifest)
    ensures Validated(v, world) == Some(m) <==>
            && v == FrameValue(m, Ascii("dev.kernaid.release-channel.v1"), ArtifactValues(m.artifacts))
            && ProperManifest(m, world)
  {
    if Validated(v, world) == Some(m) {
      ValidatedGives(v, world);
    }
    AcceptedSetExactly(m.artifacts, m.channel);
    if v == FrameValue(m, SCHEMA, ArtifactValues(m.artifacts)) && ProperManifest(m, world) {
      ProperValidates(v, world, m);
    }
  }

  /** A descriptor is built exactly when its frame and entries are accepted and its
      artifacts, as they are listed, keep the rules: sorting them neither saves nor loses
      a descriptor, and the order check that follows never refuses one. */
  lemma SortingIsHarmless(v: Document, world: World)
    ensures Built(v, world).Some? <==>
            && FrameOk(v, INPUT_SCHEMA, world) && AllInput(v.fields[Artifacts].items, world)
            && ProperRules(InputArtifacts(v.fields[Artifacts].items, world), v.fields[Channel].s)
  {
    if FrameOk(v, INPUT_SCHEMA, world) && AllInput(v.fields[Artifacts].items, world) {
      var listed := InputArtifacts(v.fields[Artifacts].items, world);
      SortedAccepted(listed, v.fields[Channel].s);
      RulesExactly(listed, v.fields[Channel].s);
    }
  }

  lemma SortedAccepted(artifacts: seq<Artifact>, channel: Str)
    ensures AcceptedSet(Sort(artifacts, ByKey()), channel) <==> RulesOk(artifacts, channel)
  {
    SortedStaysSorted(artifacts);
    RulesPermute(artifacts, Sort(artifacts, ByKey()), channel);
    RulesPermute(Sort(artifacts, ByKey()), artifacts, channel);
  }
}
