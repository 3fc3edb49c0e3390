/** What accepted sets of release artifacts are. */
module ReleaseSet {
  import opened Texts
  import opened Sorting
  import opened Documents
  import opened ReleaseDocument
  import opened ReleaseTerms
  import opened ReleaseChannel

  // ----- the shape of accepted sets

  lemma {:induction false} MembersBelong(artifacts: seq<Artifact>, group: Tuple)
    ensures forall m | m in Members(artifacts, group) :: m in artifacts && Group(m) == group
  {
    if artifacts != [] {
      var n := |artifacts| - 1;
      MembersBelong(artifacts[..n], group);
      forall m | m in Members(artifacts, group) ensures m in artifacts && Group(m) == group {
        assert m in Members(artifacts[..n], group) || m == artifacts[n];
      }
    }
  }

  predicate KindsApart(members: seq<Artifact>) {
    forall i, j | 0 <= i < j < |members| :: members[i].kind != members[j].kind
  }

  lemma {:induction false} MembersKindsApart(artifacts: seq<Artifact>, group: Tuple)
    requires Unique(artifacts)
    ensures KindsApart(Members(artifacts, group))
  {
    if artifacts != [] {
      var n := |artifacts| - 1;
      var front := Members(artifacts[..n], group);
      MembersKindsApart(artifacts[..n], group);
      MembersBelong(artifacts[..n], group);
      if Group(artifacts[n]) == group {
        forall i | 0 <= i < |front| ensures front[i].kind != artifacts[n].kind {
          assert front[i] in front;
          var k :| 0 <= k < n && artifacts[..n][k] == front[i];
          assert Identity(artifacts[k]) != Identity(artifacts[n]);
        }
      }
    }
  }

  lemma {:induction false} DistinctWithin(xs: seq<Str>, s: set<Str>)
    requires forall i, j | 0 <= i < j < |xs| :: xs[i] != xs[j]
    requires forall i | 0 <= i < |xs| :: xs[i] in s
    ensures |xs| <= |s|
  {
    if xs != [] {
      var n := |xs| - 1;
      DistinctWithin(xs[..n], s - {xs[n]});
    }
  }

  const SECONDARY_KINDS: set<Str> := {CHECKSUM, QUALIFICATION, SBOM, SIGNATURE}

  lemma AtMostFive(members: seq<Artifact>, component: Str, world: World)
    requires KindsApart(members)
    requires forall m | m in members :: ValidArtifact(m, world) && m.component == component
    ensures |members| <= 5
  {
    var kinds := seq(|members|, i requires 0 <= i < |members| => members[i].kind);
    var allowed := SECONDARY_KINDS + {Primary(component)};
    forall i | 0 <= i < |kinds| ensures kinds[i] in allowed {
      assert members[i] in members;
    }
    DistinctWithin(kinds, allowed);
  }

  lemma {:induction false} CountFinds(members: seq<Artifact>, kind: Str)
    requires CountKind(members, kind) > 0
    ensures exists i | 0 <= i < |members| :: members[i].kind == kind
  {
    var n := |members| - 1;
    if members[n].kind != kind {
      CountFinds(members[..n], kind);
    }
  }

  /** In every accepted set of valid artifacts, each release group has every kind at most
      once, its primary kind exactly once, at most five members, and one provenance. */
  lemma GroupShape(artifacts: seq<Artifact>, channel: Str, world: World, group: Tuple)
    requires AcceptedSet(artifacts, channel)
    requires forall a | a in artifacts :: ValidArtifact(a, world)
    requires exists i | 0 <= i < |artifacts| :: Group(artifacts[i]) == group
    ensures var members := Members(artifacts, group);
            && |group| == 5 && 1 <= |members| <= 5 && KindsApart(members)
            && (exists i | 0 <= i < |members| :: members[i].kind == PrimaryKind(group[0]))
            && (forall i, j | 0 <= i < j < |members| :: members[i].provenance == members[j].provenance)
            && (forall a | a in members :: a in artifacts && Group(a) == group)
  {
    var members := Members(artifacts, group);
    var k :| 0 <= k < |artifacts| && Group(artifacts[k]) == group;
    assert GroupRule(members, group);
    MembersBelong(artifacts, group);
    MembersKindsApart(artifacts, group);
    forall m | m in members ensures ValidArtifact(m, world) && m.component == group[0] {
      assert Group(m) == group;
    }
    AtMostFive(members, group[0], world);
    CountFinds(members, Primary(group[0]));
  }

  /** The channel is the repair channel exactly when some artifact is a repair variant,
      and then all are. */
  lemma RepairIsolated(artifacts: seq<Artifact>, channel: Str)
    requires AcceptedSet(artifacts, channel)
    ensures channel == REPAIR_CHANNEL <==> exists i | 0 <= i < |artifacts| :: IsRepair(artifacts[i])
    ensures channel == REPAIR_CHANNEL <==> forall i | 0 <= i < |artifacts| :: IsRepair(artifacts[i])
  {
    if channel != REPAIR_CHANNEL {
      assert !IsRepair(artifacts[0]);
    }
  }

  // ----- exactly the accepted sets

  predicate SameGroup(a: Artifact, b: Artifact) {
    && a.component == b.component && a.platform == b.platform && a.architecture == b.architecture
    && a.version == b.version && a.variant == b.variant
  }

  /** The seven fields by which artifacts are ordered. */
  predicate Before(a: Artifact, b: Artifact) {
    TupleLess([a.component, a.platform, a.architecture, a.version, a.variant, a.kind, a.filename],
              [b.component, b.platform, b.architecture, b.version, b.variant, b.kind, b.filename])
  }

  /** No two artifacts share a file name, a URL, or the group and the kind. */
  predicate Apart(artifacts: seq<Artifact>) {
    forall i, j | 0 <= i < j < |artifacts| ::
      && artifacts[i].filename != artifacts[j].filename && artifacts[i].url != artifacts[j].url
      && !(SameGroup(artifacts[i], artifacts[j]) && artifacts[i].kind == artifacts[j].kind)
  }

  predicate HasPrimary(artifacts: seq<Artifact>, a: Artifact) {
    exists j | 0 <= j < |artifacts| ::
      SameGroup(a, artifacts[j]) && artifacts[j].kind == PrimaryKind(a.component)
  }

  predicate OneRun(artifacts: seq<Artifact>, a: Artifact) {
    forall j | 0 <= j < |artifacts| :: SameGroup(a, artifacts[j]) ==> artifacts[j].provenance == a.provenance
  }

  predicate GroupsComplete(artifacts: seq<Artifact>) {
    forall i | 0 <= i < |artifacts| :: HasPrimary(artifacts, artifacts[i]) && OneRun(artifacts, artifacts[i])
  }

  predicate OnItsChannel(artifacts: seq<Artifact>, channel: Str) {
    forall i | 0 <= i < |artifacts| :: RepairVariant(artifacts[i].variant) <==> channel == Ascii("repair-internal")
  }

  /** The rules that do not look at the order: up to 64 artifacts, which are repair
      artifacts exactly on the repair channel; all apart; and each release group has its
      primary artifact and comes from one run. */
  predicate ProperRules(artifacts: seq<Artifact>, channel: Str) {
    && 1 <= |artifacts| <= 64
    && OnItsChannel(artifacts, channel) && Apart(artifacts) && GroupsComplete(artifacts)
  }

  predicate InStrictOrder(artifacts: seq<Artifact>) {
    forall i, j | 0 <= i < j < |artifacts| :: Before(artifacts[i], artifacts[j])
  }

  predicate ProperSet(artifacts: seq<Artifact>, channel: Str) {
    ProperRules(artifacts, channel) && InStrictOrder(artifacts)
  }

  lemma SameGroupIs(a: Artifact, b: Artifact)
    ensures SameGroup(a, b) <==> Group(a) == Group(b)
    ensures SameGroup(a, b) && a.kind == b.kind <==> Identity(a) == Identity(b)
  {
    var g, h := Group(a), Group(b);
    assert SameGroup(a, b) <==> g[0] == h[0] && g[1] == h[1] && g[2] == h[2] && g[3] == h[3] && g[4] == h[4];
    assert Identity(a)[..5] == g && Identity(b)[..5] == h;
    assert Identity(a)[5] == a.kind && Identity(b)[5] == b.kind;
  }

  lemma BeforeIs(a: Artifact, b: Artifact)
    ensures Before(a, b) <==> TupleLess(SortKey(a), SortKey(b))
  {
    assert SortKey(a) == [a.component, a.platform, a.architecture, a.version, a.variant, a.kind, a.filename];
    assert SortKey(b) == [b.component, b.platform, b.architecture, b.version, b.variant, b.kind, b.filename];
  }

  lemma ApartExactly(artifacts: seq<Artifact>)
    ensures Apart(artifacts) <==> Unique(artifacts)
  {
    forall i, j | 0 <= i < j < |artifacts|
      ensures SameGroup(artifacts[i], artifacts[j]) && artifacts[i].kind == artifacts[j].kind <==>
              Identity(artifacts[i]) == Identity(artifacts[j])
    {
      SameGroupIs(artifacts[i], artifacts[j]);
    }
  }

  lemma ChannelExactly(artifacts: seq<Artifact>, channel: Str)
    requires artifacts != []
    ensures ChannelRule(artifacts, channel) <==> OnItsChannel(artifacts, channel)
  {
    forall i | 0 <= i < |artifacts| ensures IsRepair(artifacts[i]) <==> RepairVariant(artifacts[i].variant) {
      VariantsDiffer(artifacts[i].variant);
    }
    assert IsRepair(artifacts[0]) <==> RepairVariant(artifacts[0].variant);
  }

  /** Every artifact of the group is among its members. */
  lemma {:induction false} MembersComplete(artifacts: seq<Artifact>, group: Tuple, a: Artifact)
    requires a in artifacts && Group(a) == group
    ensures a in Members(artifacts, group)
  {
    var n := |artifacts| - 1;
    if a in artifacts[..n] {
      MembersComplete(artifacts[..n], group, a);
      var front := Members(artifacts[..n], group);
      var k :| 0 <= k < |front| && front[k] == a;
      assert Members(artifacts, group)[k] == a;
    } else {
      assert a == artifacts[n];
      assert Members(artifacts, group)[|Members(artifacts, group)| - 1] == a;
    }
  }

  lemma {:induction false} CountOnce(members: seq<Artifact>, kind: Str)
    requires KindsApart(members)
    ensures CountKind(members, kind) <= 1
    ensures CountKind(members, kind) == 1 <==> exists i | 0 <= i < |members| :: members[i].kind == kind
  {
    if members != [] {
      var n := |members| - 1;
      CountOnce(members[..n], kind);
      if members[n].kind != kind && exists i | 0 <= i < |members| :: members[i].kind == kind {
        var i :| 0 <= i < |members| && members[i].kind == kind;
        assert members[..n][i].kind == kind;
      }
    }
  }

  lemma PrimaryIs(component: Str)
    ensures Primary(component) == PrimaryKind(component)
  {
  }

  lemma PrimaryMember(artifacts: seq<Artifact>, a: Artifact)
    requires Unique(artifacts)
    ensures CountKind(Members(artifacts, Group(a)), Primary(a.component)) == 1 <==> HasPrimary(artifacts, a)
  {
    var members, kind := Members(artifacts, Group(a)), Primary(a.component);
    MembersBelong(artifacts, Group(a));
    MembersKindsApart(artifacts, Group(a));
    CountOnce(members, kind);
    PrimaryIs(a.component);
    if CountKind(members, kind) == 1 {
      var i :| 0 <= i < |members| && members[i].kind == kind;
      assert members[i] in members;
      var j :| 0 <= j < |artifacts| && artifacts[j] == members[i];
      SameGroupIs(a, artifacts[j]);
    }
    if HasPrimary(artifacts, a) {
      var j :| 0 <= j < |artifacts| && SameGroup(a, artifacts[j]) && artifacts[j].kind == PrimaryKind(a.component);
      SameGroupIs(a, artifacts[j]);
      MembersComplete(artifacts, Group(a), artifacts[j]);
    }
  }

  lemma OneRunMember(artifacts: seq<Artifact>, a: Artifact)
    requires a in artifacts
    ensures var members := Members(artifacts, Group(a));
            && members != []
            && ((forall i | 0 <= i < |members| :: members[i].provenance == members[0].provenance) <==>
                OneRun(artifacts, a))
  {
    var members := Members(artifacts, Group(a));
    MembersBelong(artifacts, Group(a));
    MembersComplete(artifacts, Group(a), a);
    if OneRun(artifacts, a) {
      forall i | 0 <= i < |members| ensures members[i].provenance == a.provenance {
        assert members[i] in members;
        var j :| 0 <= j < |artifacts| && artifacts[j] == members[i];
        SameGroupIs(a, artifacts[j]);
      }
    }
    if forall i | 0 <= i < |members| :: members[i].provenance == members[0].provenance {
      forall j | 0 <= j < |artifacts| && SameGroup(a, artifacts[j]) ensures artifacts[j].provenance == a.provenance {
        SameGroupIs(a, artifacts[j]);
        MembersComplete(artifacts, Group(a), artifacts[j]);
      }
    }
  }

  lemma GroupRulesExactly(artifacts: seq<Artifact>)
    requires Unique(artifacts)
    ensures GroupRules(artifacts) <==> GroupsComplete(artifacts)
  {
    forall i | 0 <= i < |artifacts|
      ensures GroupRule(Members(artifacts, Group(artifacts[i])), Group(artifacts[i])) <==>
              HasPrimary(artifacts, artifacts[i]) && OneRun(artifacts, artifacts[i])
    {
      PrimaryMember(artifacts, artifacts[i]);
      OneRunMember(artifacts, artifacts[i]);
      assert Group(artifacts[i])[0] == artifacts[i].component;
    }
  }

  /** The checks of a list of artifacts that do not look at its order. */
  predicate RulesOk(artifacts: seq<Artifact>, channel: Str) {
    1 <= |artifacts| <= 64 && ChannelRule(artifacts, channel) && Unique(artifacts) && GroupRules(artifacts)
  }

  lemma RulesExactly(artifacts: seq<Artifact>, channel: Str)
    ensures RulesOk(artifacts, channel) <==> ProperRules(artifacts, channel)
  {
    if artifacts != [] {
      ChannelExactly(artifacts, channel);
      ApartExactly(artifacts);
      if Unique(artifacts) {
        GroupRulesExactly(artifacts);
      }
    }
  }

  lemma StrictlyOrdered(artifacts: seq<Artifact>)
    requires Unique(artifacts)
    ensures artifacts == Sort(artifacts, ByKey()) <==> InStrictOrder(artifacts)
  {
    ByKeyOrders();
    if artifacts == Sort(artifacts, ByKey()) {
      SortOrders(artifacts, ByKey());
      forall i, j | 0 <= i < j < |artifacts| ensures Before(artifacts[i], artifacts[j]) {
        var a, b := artifacts[i], artifacts[j];
        BeforeIs(a, b);
        TupleTotal(SortKey(a), SortKey(b));
        assert SortKey(a)[..6] == Identity(a) && SortKey(b)[..6] == Identity(b);
      }
    }
    if InStrictOrder(artifacts) {
      forall i, j | 0 <= i < j < |artifacts| ensures ByKey()(artifacts[i], artifacts[j]) {
        var a, b := SortKey(artifacts[i]), SortKey(artifacts[j]);
        BeforeIs(artifacts[i], artifacts[j]);
        if TupleLess(b, a) {
          TupleTransitive(a, b, a);
          TupleIrreflexive(a);
        }
      }
      SortOfOrdered(artifacts, ByKey());
    }
  }

  lemma OrderedRules(artifacts: seq<Artifact>, channel: Str)
    ensures AcceptedSet(artifacts, channel) <==> RulesOk(artifacts, channel) && InStrictOrder(artifacts)
  {
    if Unique(artifacts) {
      StrictlyOrdered(artifacts);
    }
  }

  /** The set checks accept exactly the proper sets. */
  lemma AcceptedSetExactly(artifacts: seq<Artifact>, channel: Str)
    ensures AcceptedSet(artifacts, channel) <==> ProperSet(artifacts, channel)
  {
    OrderedRules(artifacts, channel);
    RulesExactly(artifacts, channel);
  }
}
