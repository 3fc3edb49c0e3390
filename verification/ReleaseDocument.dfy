/** Release-channel documents: dynamic values as the JSON reader builds them, the field
    checks, and the typed manifest that passing documents become. */
module ReleaseDocument {
  import opened Texts
  import opened Decimal
  import opened Documents

  /** The member names that the checks know, and any other. */
  datatype Key =
    | Artifacts | Channel | Previous | PublishedAt | Schema | Sequence | Source
    | Commit | Repository
    | Sha256
    | RunAttempt | RunId | Workflow
    | Architecture | Component | Kind | MediaType | Platform | Provenance | Url | Variant | Version
    | Path | Size | Filename
    | OtherKey(name: Str)

  type Document = Value<Key>

  const INPUT_SCHEMA: Str := Ascii("dev.kernaid.release-channel-input.v1")
  const SCHEMA: Str := Ascii("dev.kernaid.release-channel.v1")
  const REPOSITORY: Str := Ascii("0xfunboy/KernAid")
  const MAX_ARTIFACT_BYTES := 1_999_999_998

  const DESK: Str := Ascii("desk")
  const RESCUE: Str := Ascii("rescue")
  const LINUX: Str := Ascii("linux")
  const WINDOWS: Str := Ascii("windows")
  const MACOS: Str := Ascii("macos")
  const PACKAGE: Str := Ascii("package")
  const IMAGE: Str := Ascii("image")
  const CHECKSUM: Str := Ascii("checksum")
  const QUALIFICATION: Str := Ascii("qualification")
  const SBOM: Str := Ascii("sbom")
  const SIGNATURE: Str := Ascii("signature")
  const KINDS: set<Str> := {PACKAGE, IMAGE, CHECKSUM, QUALIFICATION, SBOM, SIGNATURE}
  const ARCHITECTURES: set<Str> := {Ascii("x86_64"), Ascii("aarch64")}
  const REPAIR_VARIANTS: set<Str> := {
    Ascii("repair-qualified-iso"), Ascii("repair-qualified-zip"), Ascii("repair-retail-img-xz")
  }
  const DIAGNOSIS_VARIANTS: set<Str> := {Ascii("qualified-iso"), Ascii("qualified-zip"), Ascii("retail-img-xz")}
  const RESCUE_VARIANTS: set<Str> := DIAGNOSIS_VARIANTS + REPAIR_VARIANTS
  const LINUX_VARIANTS: set<Str> := {Ascii("appimage"), Ascii("deb"), Ascii("rpm")}
  const WINDOWS_VARIANTS: set<Str> := {Ascii("msi"), Ascii("nsis")}
  const MACOS_VARIANTS: set<Str> := {Ascii("app"), Ascii("dmg")}
  const DESKTOP_WORKFLOW: Str := Ascii(".github/workflows/desktop.yml")
  const RESCUE_WORKFLOW: Str := Ascii(".github/workflows/rescue.yml")
  const REPAIR_WORKFLOW: Str := Ascii(".github/workflows/") + Ascii("rescue-repair-candidate.yml")
  const REPAIR_CHANNEL: Str := Ascii("repair-internal")

  function VariantsOf(platform: Str): set<Str> {
    if platform == LINUX then LINUX_VARIANTS
    else if platform == WINDOWS then WINDOWS_VARIANTS
    else if platform == MACOS then MACOS_VARIANTS
    else if platform == RESCUE then RESCUE_VARIANTS
    else {}
  }

  // ----- text shapes

  predicate IsLower(c: int) {
    0x61 <= c <= 0x7A
  }

  predicate IsUpper(c: int) {
    0x41 <= c <= 0x5A
  }

  predicate IsWord(c: int) {
    IsLower(c) || IsUpper(c) || IsDigit(c)
  }

  predicate IsChannel(s: Str) {
    1 <= |s| <= 32 && IsLower(s[0]) && forall i | 1 <= i < |s| :: IsLower(s[i]) || IsDigit(s[i]) || s[i] == 0x2D
  }

  /** A letter or digit, then letters, digits, and the four marks `.`, `_`, `+` and `-`. */
  predicate IsLabel(s: Str, most: nat) {
    && 1 <= |s| <= most && IsWord(s[0])
    && forall i | 1 <= i < |s| :: IsWord(s[i]) || s[i] == 0x2E || s[i] == 0x5F || s[i] == 0x2B || s[i] == 0x2D
  }

  predicate MediaMark(c: int) {
    || c == 0x21 || c == 0x23 || c == 0x24 || c == 0x26 || c == 0x5E
    || c == 0x5F || c == 0x2E || c == 0x2B || c == 0x2D
  }

  /** The slash is at k, with one to 64 characters on each side. */
  predicate MediaTypeAt(s: Str, k: int) {
    && 1 <= k <= 64 && k + 2 <= |s| <= k + 65 && s[k] == 0x2F
    && (IsLower(s[0]) || IsDigit(s[0])) && IsWord(s[k + 1])
    && (forall i | 1 <= i < k :: IsLower(s[i]) || IsDigit(s[i]) || MediaMark(s[i]))
    && (forall i | k + 2 <= i < |s| :: IsWord(s[i]) || MediaMark(s[i]))
  }

  predicate IsMediaType(s: Str) {
    exists k | 0 <= k < |s| :: MediaTypeAt(s, k)
  }

  // ----- the outside world

  datatype Staged = Staged(size: int, digest: Str)

  /** URL and timestamp parsing, the name of a path, and the staged files. */
  datatype World = World(
    urlOk: (Str, Str) -> bool,
    timestampOk: Str -> bool,
    fileName: Str -> Str,
    staged: Str -> Option<Staged>)

  /** What hashing a staged file returns: a bounded size and a SHA-256 in hexadecimal. */
  ghost predicate Honest(world: World) {
    forall path :: world.staged(path).Some? ==>
      var f := world.staged(path).value; 0 < f.size <= MAX_ARTIFACT_BYTES && HexOf(f.digest, 64)
  }

  // ----- typed results

  datatype Run = Run(attempt: int, id: int, workflow: Str)

  datatype Artifact = Artifact(
    architecture: Str, component: Str, kind: Str, mediaType: Str, platform: Str, provenance: Run,
    variant: Str, version: Str, size: int, filename: Str, sha256: Str, url: Str)

  datatype Prior = Prior(sequence: int, sha256: Str)

  datatype Manifest = Manifest(
    artifacts: seq<Artifact>, channel: Str, previous: Option<Prior>, publishedAt: Str, sequence: int, commit: Str)

  function RunValue(r: Run): Document {
    Dict(map[RunAttempt := Int(r.attempt), RunId := Int(r.id), Workflow := Text(r.workflow)])
  }

  function ArtifactValue(a: Artifact): Document {
    Dict(map[
      Architecture := Text(a.architecture), Component := Text(a.component), Kind := Text(a.kind),
      MediaType := Text(a.mediaType), Platform := Text(a.platform), Provenance := RunValue(a.provenance),
      Variant := Text(a.variant), Version := Text(a.version), Size := Int(a.size),
      Filename := Text(a.filename), Sha256 := Text(a.sha256), Url := Text(a.url)])
  }

  function PriorValue(p: Option<Prior>): Document {
    if p.None? then Null
    else Dict(map[Sequence := Int(p.value.sequence), Sha256 := Text(p.value.sha256)])
  }

  function ArtifactValues(artifacts: seq<Artifact>): seq<Document> {
    seq(|artifacts|, i requires 0 <= i < |artifacts| => ArtifactValue(artifacts[i]))
  }

  /** The manifest document that the tools write. */
  function ManifestValue(m: Manifest): Document {
    Dict(map[
      Artifacts := List(ArtifactValues(m.artifacts)), Channel := Text(m.channel),
      Previous := PriorValue(m.previous), PublishedAt := Text(m.publishedAt), Schema := Text(SCHEMA),
      Sequence := Int(m.sequence),
      Source := Dict(map[Commit := Text(m.commit), Repository := Text(REPOSITORY)])])
  }

  // ----- field checks

  predicate Positive(v: Document) {
    v.Int? && v.n > 0
  }

  function ExpectedWorkflow(component: Str, variant: Str): Str {
    if component == DESK then DESKTOP_WORKFLOW
    else if variant in REPAIR_VARIANTS then REPAIR_WORKFLOW
    else RESCUE_WORKFLOW
  }

  function ReadRun(v: Document, component: Str, variant: Str): Option<Run> {
    if && Exact(v, {RunAttempt, RunId, Workflow})
       && v.fields[Workflow] == Text(ExpectedWorkflow(component, variant))
       && Positive(v.fields[RunAttempt]) && Positive(v.fields[RunId])
    then Some(Run(v.fields[RunAttempt].n, v.fields[RunId].n, v.fields[Workflow].s))
    else None
  }

  const COMMON_KEYS: set<Key> := {
    Architecture, Component, Kind, MediaType, Platform, Provenance, Url, Variant, Version
  }

  /** The fields that descriptors and manifests share. */
  predicate CommonOk(fields: map<Key, Document>)
    requires COMMON_KEYS <= fields.Keys
  {
    && Choice(fields[Component], {DESK, RESCUE})
    && Choice(fields[Platform], {LINUX, WINDOWS, MACOS, RESCUE})
    && Choice(fields[Architecture], ARCHITECTURES)
    && Choice(fields[Kind], KINDS)
    && (fields[Component].s == RESCUE <==> fields[Platform].s == RESCUE)
    && Choice(fields[Variant], VariantsOf(fields[Platform].s))
    && !(fields[Component].s == DESK && fields[Kind].s == IMAGE)
    && !(fields[Component].s == RESCUE && fields[Kind].s == PACKAGE)
    && fields[Version].Text? && IsLabel(fields[Version].s, 64)
    && fields[MediaType].Text? && IsMediaType(fields[MediaType].s)
    && fields[Url].Text?
    && ReadRun(fields[Provenance], fields[Component].s, fields[Variant].s).Some?
  }

  function MakeArtifact(fields: map<Key, Document>, size: int, filename: Str, sha256: Str): Artifact
    requires COMMON_KEYS <= fields.Keys && CommonOk(fields)
  {
    var run := ReadRun(fields[Provenance], fields[Component].s, fields[Variant].s).value;
    Artifact(
      fields[Architecture].s, fields[Component].s, fields[Kind].s, fields[MediaType].s, fields[Platform].s,
      run, fields[Variant].s, fields[Version].s, size, filename, sha256, fields[Url].s)
  }

  /** `_artifact_common` on a descriptor entry, whose file is hashed. */
  function ReadInputArtifact(v: Document, world: World): Option<Artifact> {
    if !Exact(v, COMMON_KEYS + {Path}) || !CommonOk(v.fields) || !v.fields[Path].Text? then None
    else
      var path := v.fields[Path].s;
      var filename, staged := world.fileName(path), world.staged(path);
      if !IsLabel(filename, 160) || staged.None? || !world.urlOk(v.fields[Url].s, filename) then None
      else Some(MakeArtifact(v.fields, staged.value.size, filename, staged.value.digest))
  }

  /** `_artifact_common` on a manifest entry, which names size and digest itself. */
  function ReadArtifact(v: Document, world: World): Option<Artifact> {
    if !Exact(v, COMMON_KEYS + {Size, Filename, Sha256}) || !CommonOk(v.fields) then None
    else
      var size, filename, sha256 := v.fields[Size], v.fields[Filename], v.fields[Sha256];
      if && filename.Text? && IsLabel(filename.s, 160)
         && Positive(size) && size.n <= MAX_ARTIFACT_BYTES
         && sha256.Text? && HexOf(sha256.s, 64)
         && world.urlOk(v.fields[Url].s, filename.s)
      then Some(MakeArtifact(v.fields, size.n, filename.s, sha256.s))
      else None
  }

  function ReadPrior(v: Document, sequence: int): Option<Option<Prior>> {
    if sequence == 1 then if v == Null then Some(None) else None
    else if && Exact(v, {Sequence, Sha256}) && Positive(v.fields[Sequence])
            && v.fields[Sequence].n == sequence - 1
            && v.fields[Sha256].Text? && HexOf(v.fields[Sha256].s, 64)
    then Some(Some(Prior(v.fields[Sequence].n, v.fields[Sha256].s)))
    else None
  }

  const DOCUMENT_KEYS: set<Key> := {Artifacts, Channel, Previous, PublishedAt, Schema, Sequence, Source}

  /** Everything in a document but its artifacts. */
  predicate FrameOk(v: Document, schema: Str, world: World) {
    && Exact(v, DOCUMENT_KEYS)
    && v.fields[Schema] == Text(schema)
    && v.fields[Channel].Text? && IsChannel(v.fields[Channel].s)
    && Positive(v.fields[Sequence])
    && v.fields[PublishedAt].Text? && world.timestampOk(v.fields[PublishedAt].s)
    && Exact(v.fields[Source], {Commit, Repository})
    && v.fields[Source].fields[Repository] == Text(REPOSITORY)
    && v.fields[Source].fields[Commit].Text? && HexOf(v.fields[Source].fields[Commit].s, 40)
    && ReadPrior(v.fields[Previous], v.fields[Sequence].n).Some?
    && v.fields[Artifacts].List?
  }

  function MakeManifest(v: Document, schema: Str, world: World, artifacts: seq<Artifact>): Manifest
    requires FrameOk(v, schema, world)
  {
    Manifest(
      artifacts, v.fields[Channel].s, ReadPrior(v.fields[Previous], v.fields[Sequence].n).value,
      v.fields[PublishedAt].s, v.fields[Sequence].n, v.fields[Source].fields[Commit].s)
  }

  // ----- what is read back

  predicate ValidRun(r: Run, component: Str, variant: Str) {
    r.attempt > 0 && r.id > 0 && r.workflow == ExpectedWorkflow(component, variant)
  }

  predicate ValidCommon(a: Artifact) {
    && a.component in {DESK, RESCUE} && a.platform in {LINUX, WINDOWS, MACOS, RESCUE}
    && a.architecture in ARCHITECTURES && a.kind in KINDS
    && (a.component == RESCUE <==> a.platform == RESCUE)
    && a.variant in VariantsOf(a.platform)
    && !(a.component == DESK && a.kind == IMAGE) && !(a.component == RESCUE && a.kind == PACKAGE)
    && IsLabel(a.version, 64) && IsMediaType(a.mediaType)
    && ValidRun(a.provenance, a.component, a.variant)
  }

  /** What every artifact satisfies that the field checks return. */
  predicate ValidArtifact(a: Artifact, world: World) {
    && ValidCommon(a)
    && IsLabel(a.filename, 160) && 0 < a.size <= MAX_ARTIFACT_BYTES && HexOf(a.sha256, 64)
    && world.urlOk(a.url, a.filename)
  }

  lemma InputArtifactValid(v: Document, world: World)
    requires Honest(world) && ReadInputArtifact(v, world).Some?
    ensures ValidArtifact(ReadInputArtifact(v, world).value, world)
  {
  }

  lemma RunReadsBack(r: Run, component: Str, variant: Str)
    ensures ReadRun(RunValue(r), component, variant) == if ValidRun(r, component, variant) then Some(r) else None
  {
    assert RunValue(r).fields.Keys == {RunAttempt, RunId, Workflow};
  }

  /** The members are those of the artifact. */
  ghost predicate Holds(fields: map<Key, Document>, a: Artifact) {
    && fields.Keys == COMMON_KEYS + {Size, Filename, Sha256}
    && fields[Component] == Text(a.component) && fields[Platform] == Text(a.platform)
    && fields[Kind] == Text(a.kind) && fields[Variant] == Text(a.variant)
    && fields[Architecture] == Text(a.architecture) && fields[Version] == Text(a.version)
    && fields[MediaType] == Text(a.mediaType) && fields[Url] == Text(a.url)
    && fields[Provenance] == RunValue(a.provenance)
    && fields[Size] == Int(a.size) && fields[Filename] == Text(a.filename) && fields[Sha256] == Text(a.sha256)
  }

  lemma ArtifactKeys(a: Artifact)
    ensures ArtifactValue(a).fields.Keys == COMMON_KEYS + {Size, Filename, Sha256}
  {
  }

  lemma ArtifactHolds(a: Artifact)
    ensures Holds(ArtifactValue(a).fields, a)
  {
    ArtifactKeys(a);
  }

  lemma CommonReadsBack(fields: map<Key, Document>, a: Artifact)
    requires Holds(fields, a)
    ensures CommonOk(fields) <==> ValidCommon(a)
    ensures ValidCommon(a) ==> MakeArtifact(fields, a.size, a.filename, a.sha256) == a
  {
    RunReadsBack(a.provenance, a.component, a.variant);
  }

  lemma HeldReadsBack(fields: map<Key, Document>, a: Artifact, world: World)
    requires Holds(fields, a)
    ensures ReadArtifact(Dict(fields), world) == if ValidArtifact(a, world) then Some(a) else None
  {
    CommonReadsBack(fields, a);
  }

  /** The field checks of a manifest entry accept exactly the entries of valid artifacts. */
  lemma ArtifactReadsBack(a: Artifact, world: World)
    ensures ReadArtifact(ArtifactValue(a), world) == if ValidArtifact(a, world) then Some(a) else None
  {
    ArtifactHolds(a);
    HeldReadsBack(ArtifactValue(a).fields, a, world);
  }

  lemma PriorReadsBack(p: Option<Prior>, sequence: int)
    requires exists v :: ReadPrior(v, sequence) == Some(p)
    ensures ReadPrior(PriorValue(p), sequence) == Some(p)
  {
    if p.Some? {
      assert PriorValue(p).fields.Keys == {Sequence, Sha256};
    }
  }

  /** The frame of a document is unchanged by writing it as a manifest. */
  lemma FrameReadsBack(v: Document, schema: Str, world: World, artifacts: seq<Artifact>)
    requires FrameOk(v, schema, world)
    ensures var m := MakeManifest(v, schema, world, artifacts);
            FrameOk(ManifestValue(m), SCHEMA, world)
            && MakeManifest(ManifestValue(m), SCHEMA, world, artifacts) == m
  {
    var m := MakeManifest(v, schema, world, artifacts);
    var doc := ManifestValue(m);
    assert doc.fields.Keys == DOCUMENT_KEYS;
    assert doc.fields[Source].fields.Keys == {Commit, Repository};
    PriorReadsBack(m.previous, m.sequence);
  }
}
