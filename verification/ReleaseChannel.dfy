/** The checks of a list of release artifacts: canonical order, channel, uniqueness and
    release groups. */
module ReleaseChannel {
  import opened Texts
  import opened Sorting
  import opened Documents
  import opened ReleaseDocument

  // ----- the sort key

  type Tuple = seq<Str>

  /** Python's order on tuples of equal length. */
  predicate TupleLess(a: Tuple, b: Tuple)
    requires |a| == |b|
  {
    a != [] && (Less(a[0], b[0]) || (a[0] == b[0] && TupleLess(a[1..], b[1..])))
  }

  predicate FirstDifference(a: Tuple, b: Tuple, k: int)
    requires |a| == |b|
  {
    0 <= k < |a| && a[..k] == b[..k] && Less(a[k], b[k])
  }

  /** The order is that of the first field in which the tuples differ. */
  lemma {:induction false} TupleLessExactly(a: Tuple, b: Tuple)
    requires |a| == |b|
    ensures TupleLess(a, b) <==> exists k :: FirstDifference(a, b, k)
  {
    if a != [] {
      TupleLessExactly(a[1..], b[1..]);
      if Less(a[0], b[0]) {
        assert FirstDifference(a, b, 0);
      } else if TupleLess(a, b) {
        var k :| FirstDifference(a[1..], b[1..], k);
        assert a[..k + 1] == [a[0]] + a[1..][..k] && b[..k + 1] == [b[0]] + b[1..][..k];
        assert FirstDifference(a, b, k + 1);
      }
      forall k | FirstDifference(a, b, k) ensures TupleLess(a, b) {
        if k > 0 {
          assert a[0] == a[..k][0] && b[0] == b[..k][0];
          assert a[1..][..k - 1] == a[..k][1..] && b[1..][..k - 1] == b[..k][1..];
          assert FirstDifference(a[1..], b[1..], k - 1);
        }
      }
    }
  }

  lemma {:induction false} TupleTotal(a: Tuple, b: Tuple)
    requires |a| == |b|
    ensures TupleLess(a, b) || a == b || TupleLess(b, a)
  {
    if a != [] {
      LessTotal(a[0], b[0]);
      TupleTotal(a[1..], b[1..]);
      assert a == [a[0]] + a[1..] && b == [b[0]] + b[1..];
    }
  }

  lemma {:induction false} TupleTransitive(a: Tuple, b: Tuple, c: Tuple)
    requires |a| == |b| == |c| && TupleLess(a, b) && TupleLess(b, c)
    ensures TupleLess(a, c)
  {
    LessIrreflexive(a[0]);
    if a[0] == b[0] && b[0] == c[0] {
      TupleTransitive(a[1..], b[1..], c[1..]);
    } else if Less(a[0], b[0]) && Less(b[0], c[0]) {
      LessTransitive(a[0], b[0], c[0]);
    }
  }

  lemma {:induction false} TupleIrreflexive(a: Tuple)
    ensures !TupleLess(a, a)
  {
    if a != [] {
      LessIrreflexive(a[0]);
      TupleIrreflexive(a[1..]);
    }
  }

  /** What a release group shares. */
  function Group(a: Artifact): (t: Tuple)
    ensures |t| == 5
  {
    [a.component, a.platform, a.architecture, a.version, a.variant]
  }

  function Identity(a: Artifact): (t: Tuple)
    ensures |t| == 6
  {
    Group(a) + [a.kind]
  }

  function SortKey(a: Artifact): (t: Tuple)
    ensures |t| == 7
  {
    Identity(a) + [a.filename]
  }

  function ByKey(): (Artifact, Artifact) -> bool {
    (a: Artifact, b: Artifact) => !TupleLess(SortKey(b), SortKey(a))
  }

  lemma ByKeyOrders()
    ensures Orders(ByKey())
  {
    var le := ByKey();
    forall a, b ensures le(a, b) || le(b, a) {
      if TupleLess(SortKey(b), SortKey(a)) && TupleLess(SortKey(a), SortKey(b)) {
        TupleTransitive(SortKey(a), SortKey(b), SortKey(a));
        TupleIrreflexive(SortKey(a));
      }
    }
    forall a, b, c | le(a, b) && le(b, c) ensures le(a, c) {
      if TupleLess(SortKey(c), SortKey(a)) {
        TupleTotal(SortKey(b), SortKey(c));
        if TupleLess(SortKey(b), SortKey(c)) {
          TupleTransitive(SortKey(b), SortKey(c), SortKey(a));
        }
      }
    }
  }

  lemma {:induction false} SortOfOrdered<T(!new)>(xs: seq<T>, le: (T, T) -> bool)
    requires Orders(le) && Ordered(xs, le)
    ensures Sort(xs, le) == xs
  {
    if xs != [] {
      SortOfOrdered(xs[1..], le);
      assert xs == [xs[0]] + xs[1..];
      assert |xs| > 1 ==> le(xs[0], xs[1]);
    }
  }

  // ----- the rules for a set of artifacts

  predicate IsRepair(a: Artifact) {
    a.variant in REPAIR_VARIANTS
  }

  /** Repair artifacts and the repair channel go together, or not at all. */
  predicate ChannelRule(artifacts: seq<Artifact>, channel: Str) {
    if exists i | 0 <= i < |artifacts| :: IsRepair(artifacts[i])
    then channel == REPAIR_CHANNEL && forall i | 0 <= i < |artifacts| :: IsRepair(artifacts[i])
    else channel != REPAIR_CHANNEL
  }

  predicate Unique(artifacts: seq<Artifact>) {
    forall i, j | 0 <= i < j < |artifacts| ::
      && artifacts[i].filename != artifacts[j].filename
      && artifacts[i].url != artifacts[j].url
      && Identity(artifacts[i]) != Identity(artifacts[j])
  }

  /** The members of a release group, in order. */
  function Members(artifacts: seq<Artifact>, group: Tuple): seq<Artifact> {
    if artifacts == [] then []
    else
      var n := |artifacts| - 1;
      Members(artifacts[..n], group) + if Group(artifacts[n]) == group then [artifacts[n]] else []
  }

  function Primary(component: Str): Str {
    if component == DESK then PACKAGE else IMAGE
  }

  function CountKind(artifacts: seq<Artifact>, kind: Str): nat {
    if artifacts == [] then 0
    else CountKind(artifacts[..|artifacts| - 1], kind) + if artifacts[|artifacts| - 1].kind == kind then 1 else 0
  }

  /** The rule for one release group. */
  predicate GroupRule(members: seq<Artifact>, group: Tuple)
    requires |group| == 5
  {
    && members != []
    && CountKind(members, Primary(group[0])) == 1
    && forall i | 0 <= i < |members| :: members[i].provenance == members[0].provenance
  }

  predicate GroupRules(artifacts: seq<Artifact>) {
    forall i | 0 <= i < |artifacts| :: GroupRule(Members(artifacts, Group(artifacts[i])), Group(artifacts[i]))
  }

  /** What `_validate_artifact_set` accepts when order is required. */
  predicate AcceptedSet(artifacts: seq<Artifact>, channel: Str) {
    && 1 <= |artifacts| <= 64
    && artifacts == Sort(artifacts, ByKey())
    && ChannelRule(artifacts, channel)
    && Unique(artifacts)
    && GroupRules(artifacts)
  }

  // ----- the check with its sets and its dictionary of groups

  /** The sets after the first i artifacts. */
  ghost predicate Seen(artifacts: seq<Artifact>, i: nat, names: set<Str>, urls: set<Str>, identities: set<Tuple>) {
    && i <= |artifacts|
    && (forall x :: x in names <==> exists k | 0 <= k < i :: artifacts[k].filename == x)
    && (forall x :: x in urls <==> exists k | 0 <= k < i :: artifacts[k].url == x)
    && (forall x :: x in identities <==> exists k | 0 <= k < i :: Identity(artifacts[k]) == x)
  }

  /** The dictionary after the first i artifacts. */
  ghost predicate Grouped(artifacts: seq<Artifact>, i: nat, groups: map<Tuple, seq<Artifact>>) {
    && i <= |artifacts|
    && (forall g :: g in groups <==> exists k | 0 <= k < i :: Group(artifacts[k]) == g)
    && (forall g | g in groups :: groups[g] == Members(artifacts[..i], g))
  }

  lemma SeenStep(artifacts: seq<Artifact>, i: nat, names: set<Str>, urls: set<Str>, identities: set<Tuple>)
    requires i < |artifacts| && Seen(artifacts, i, names, urls, identities) && Unique(artifacts[..i])
    ensures var a := artifacts[i];
            && (a.filename in names || a.url in urls || Identity(a) in identities <==> !Unique(artifacts[..i + 1]))
            && Seen(artifacts, i + 1, names + {a.filename}, urls + {a.url}, identities + {Identity(a)})
  {
    var a := artifacts[i];
    if a.filename in names || a.url in urls || Identity(a) in identities {
      var k :| 0 <= k < i &&
        (artifacts[k].filename == a.filename || artifacts[k].url == a.url || Identity(artifacts[k]) == Identity(a));
      assert artifacts[..i + 1][k] == artifacts[k] && artifacts[..i + 1][i] == a;
    } else {
      forall j, k | 0 <= j < k < i + 1 ensures
          && artifacts[j].filename != artifacts[k].filename
          && artifacts[j].url != artifacts[k].url
          && Identity(artifacts[j]) != Identity(artifacts[k]) {
        if k < i {
          assert artifacts[..i][j] == artifacts[j] && artifacts[..i][k] == artifacts[k];
        }
      }
    }
  }

  lemma GroupedStep(artifacts: seq<Artifact>, i: nat, groups: map<Tuple, seq<Artifact>>)
    requires i < |artifacts| && Grouped(artifacts, i, groups)
    ensures var g := Group(artifacts[i]);
            Grouped(artifacts, i + 1, groups[g := (if g in groups then groups[g] else []) + [artifacts[i]]])
  {
    var here := Group(artifacts[i]);
    var next := groups[here := (if here in groups then groups[here] else []) + [artifacts[i]]];
    if here !in groups {
      NoMembers(artifacts[..i], here);
    }
    forall g | g in next ensures next[g] == Members(artifacts[..i + 1], g) {
      assert artifacts[..i + 1][..i] == artifacts[..i];
    }
    forall g ensures g in next <==> exists k | 0 <= k < i + 1 :: Group(artifacts[k]) == g {
      if g in groups {
        var k :| 0 <= k < i && Group(artifacts[k]) == g;
      }
    }
  }

  lemma {:induction false} NoMembers(artifacts: seq<Artifact>, group: Tuple)
    requires forall k | 0 <= k < |artifacts| :: Group(artifacts[k]) != group
    ensures Members(artifacts, group) == []
  {
    if artifacts != [] {
      NoMembers(artifacts[..|artifacts| - 1], group);
    }
  }

  /** The first loop: uniqueness, and the dictionary of groups. */
  method CollectGroups(artifacts: seq<Artifact>) returns (ok: bool, groups: map<Tuple, seq<Artifact>>)
    ensures ok <==> Unique(artifacts)
    ensures ok ==> Grouped(artifacts, |artifacts|, groups)
  {
    var names: set<Str>, urls: set<Str>, identities: set<Tuple> := {}, {}, {};
    groups := map[];
    for i := 0 to |artifacts|
      invariant Unique(artifacts[..i])
      invariant Seen(artifacts, i, names, urls, identities)
      invariant Grouped(artifacts, i, groups)
    {
      var a := artifacts[i];
      SeenStep(artifacts, i, names, urls, identities);
      if a.filename in names || a.url in urls || Identity(a) in identities {
        UniquePrefix(artifacts, i + 1);
        return false, groups;
      }
      names, urls, identities := names + {a.filename}, urls + {a.url}, identities + {Identity(a)};
      GroupedStep(artifacts, i, groups);
      var g := Group(a);
      groups := groups[g := (if g in groups then groups[g] else []) + [a]];
    }
    assert artifacts[..|artifacts|] == artifacts;
    ok := true;
  }

  lemma UniquePrefix(artifacts: seq<Artifact>, n: nat)
    requires n <= |artifacts|
    ensures Unique(artifacts) ==> Unique(artifacts[..n])
  {
  }

  /** The second loop, over the groups in any order. */
  method CheckGroups(artifacts: seq<Artifact>, groups: map<Tuple, seq<Artifact>>) returns (ok: bool)
    requires Grouped(artifacts, |artifacts|, groups)
    ensures ok <==> GroupRules(artifacts)
  {
    assert artifacts[..|artifacts|] == artifacts;
    var left := groups.Keys;
    while left != {}
      invariant left <= groups.Keys
      invariant forall g | g in groups.Keys - left :: |g| == 5 && GroupRule(groups[g], g)
      decreases left
    {
      var g :| g in left;
      left := left - {g};
      assert |g| == 5;
      if !GroupRule(groups[g], g) {
        ghost var k :| 0 <= k < |artifacts| && Group(artifacts[k]) == g;
        return false;
      }
    }
    forall i | 0 <= i < |artifacts| ensures GroupRule(Members(artifacts, Group(artifacts[i])), Group(artifacts[i])) {
      assert Group(artifacts[i]) in groups;
    }
    return true;
  }

  /** `_validate_artifact_set` with order required. */
  method ValidateArtifactSet(artifacts: seq<Artifact>, channel: Str) returns (ok: bool)
    ensures ok <==> AcceptedSet(artifacts, channel)
  {
    if !(1 <= |artifacts| <= 64) || artifacts != Sort(artifacts, ByKey()) || !ChannelRule(artifacts, channel) {
      return false;
    }
    var unique, groups := CollectGroups(artifacts);
    if !unique {
      return false;
    }
    ok := CheckGroups(artifacts, groups);
  }
}
