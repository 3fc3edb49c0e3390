/** What release documents say, apart from the order in which they are checked: the
    products on offer, the entries of a document and its frame. */
module ReleaseTerms {
  import opened Texts
  import opened Documents
  import opened ReleaseDocument

  // ----- the products on offer

  predicate DeskProduct(platform: Str, variant: Str) {
    || (platform == Ascii("linux") && variant in {Ascii("appimage"), Ascii("deb"), Ascii("rpm")})
    || (platform == Ascii("windows") && variant in {Ascii("msi"), Ascii("nsis")})
    || (platform == Ascii("macos") && variant in {Ascii("app"), Ascii("dmg")})
  }

  predicate DiagnosisVariant(variant: Str) {
    variant in {Ascii("qualified-iso"), Ascii("qualified-zip"), Ascii("retail-img-xz")}
  }

  predicate RepairVariant(variant: Str) {
    variant in {Ascii("repair-qualified-iso"), Ascii("repair-qualified-zip"), Ascii("repair-retail-img-xz")}
  }

  predicate RescueProduct(variant: Str, workflow: Str) {
    || (workflow == Ascii(".github/workflows/rescue.yml") && DiagnosisVariant(variant))
    || (&& workflow == Ascii(".github/workflows/") + Ascii("rescue-repair-candidate.yml")
        && RepairVariant(variant))
  }

  /** The component, platform, variant and workflow of a product. */
  predicate Offered(component: Str, platform: Str, variant: Str, workflow: Str) {
    || (&& component == Ascii("desk") && workflow == Ascii(".github/workflows/desktop.yml")
        && DeskProduct(platform, variant))
    || (component == Ascii("rescue") && platform == Ascii("rescue") && RescueProduct(variant, workflow))
  }

  predicate AccompanyingKind(kind: Str) {
    kind in {Ascii("checksum"), Ascii("qualification"), Ascii("sbom"), Ascii("signature")}
  }

  /** What the primary artifact of a release group is. */
  function PrimaryKind(component: Str): Str {
    if component == Ascii("desk") then Ascii("package") else Ascii("image")
  }

  // ----- the forms of its texts

  /** Letters and digits, with dots, underscores, plus signs and hyphens after the first. */
  predicate LabelForm(s: Str, most: nat) {
    && 1 <= |s| <= most && Alphanumeric(s[0])
    && forall i | 0 <= i < |s| :: Alphanumeric(s[i]) || s[i] in {0x2B, 0x2D, 0x2E, 0x5F}
  }

  /** Lower-case letters, and digits and hyphens after the first. */
  predicate ChannelForm(s: Str) {
    && 1 <= |s| <= 32 && 0x61 <= s[0] <= 0x7A
    && forall i | 0 <= i < |s| :: 0x61 <= s[i] <= 0x7A || 0x30 <= s[i] <= 0x39 || s[i] == 0x2D
  }

  predicate MediaPart(s: Str) {
    && 1 <= |s| <= 64 && Alphanumeric(s[0])
    && forall i | 0 <= i < |s| ::
         Alphanumeric(s[i]) || s[i] in {0x21, 0x23, 0x24, 0x26, 0x2B, 0x2D, 0x2E, 0x5E, 0x5F}
  }

  /** A type without capitals, a slash, and a subtype. */
  ghost predicate MediaForm(s: Str) {
    exists a, b :: MediaParts(s, a, b)
  }

  predicate MediaParts(s: Str, a: Str, b: Str) {
    s == a + [0x2F] + b && MediaPart(a) && MediaPart(b) && forall i | 0 <= i < |a| :: !(0x41 <= a[i] <= 0x5A)
  }

  lemma LabelExactly(s: Str, most: nat)
    ensures IsLabel(s, most) <==> LabelForm(s, most)
  {
  }

  lemma ChannelExactly(s: Str)
    ensures IsChannel(s) <==> ChannelForm(s)
  {
  }

  lemma MediaSplit(s: Str, k: int)
    requires MediaTypeAt(s, k)
    ensures MediaParts(s, s[..k], s[k + 1..])
  {
    assert s == s[..k] + [s[k]] + s[k + 1..];
  }

  lemma MediaJoined(s: Str, a: Str, b: Str)
    requires MediaParts(s, a, b)
    ensures MediaTypeAt(s, |a|)
  {
    assert forall i | 0 <= i < |a| :: s[i] == a[i];
    assert forall i | 0 <= i < |b| :: s[|a| + 1 + i] == b[i];
    forall i | |a| + 2 <= i < |s| ensures IsWord(s[i]) || MediaMark(s[i]) {
      assert s[i] == b[i - |a| - 1];
    }
  }

  lemma MediaExactly(s: Str)
    ensures IsMediaType(s) <==> MediaForm(s)
  {
    if IsMediaType(s) {
      var k :| 0 <= k < |s| && MediaTypeAt(s, k);
      MediaSplit(s, k);
    }
    if MediaForm(s) {
      var a, b :| MediaParts(s, a, b);
      MediaJoined(s, a, b);
    }
  }

  /** The terms of an artifact other than its file. */
  ghost predicate ProperTerms(a: Artifact) {
    && Offered(a.component, a.platform, a.variant, a.provenance.workflow)
    && a.provenance.attempt > 0 && a.provenance.id > 0
    && a.architecture in {Ascii("x86_64"), Ascii("aarch64")}
    && (a.kind == PrimaryKind(a.component) || AccompanyingKind(a.kind))
    && LabelForm(a.version, 64) && MediaForm(a.mediaType)
  }

  ghost predicate ProperArtifact(a: Artifact, world: World) {
    && ProperTerms(a)
    && LabelForm(a.filename, 160) && 0 < a.size <= 1_999_999_998 && Hexadecimal(a.sha256, 64)
    && world.urlOk(a.url, a.filename)
  }

  lemma ComponentsDiffer()
    ensures DESK != RESCUE && LINUX != WINDOWS && LINUX != MACOS && LINUX != RESCUE
    ensures WINDOWS != MACOS && WINDOWS != RESCUE && MACOS != RESCUE
  {
    assert |DESK| == 4 && |RESCUE| == 6 && |LINUX| == 5 && |WINDOWS| == 7 && |MACOS| == 5;
    assert LINUX[0] != MACOS[0];
  }

  lemma KindsDiffer()
    ensures PACKAGE !in {IMAGE, CHECKSUM, QUALIFICATION, SBOM, SIGNATURE}
    ensures IMAGE !in {CHECKSUM, QUALIFICATION, SBOM, SIGNATURE}
  {
    assert |PACKAGE| == 7 && |IMAGE| == 5 && |CHECKSUM| == 8 && |QUALIFICATION| == 13 && |SBOM| == 4;
    assert |SIGNATURE| == 9;
  }

  lemma VariantsDiffer(variant: Str)
    ensures variant in REPAIR_VARIANTS <==> RepairVariant(variant)
    ensures variant in DIAGNOSIS_VARIANTS ==> variant !in REPAIR_VARIANTS
  {
    assert variant in REPAIR_VARIANTS ==> |variant| == 20;
    assert variant in DIAGNOSIS_VARIANTS ==> |variant| == 13;
  }

  /** The checks of component, platform, variant and workflow leave the products on offer. */
  lemma OfferedExactly(component: Str, platform: Str, variant: Str, workflow: Str)
    ensures Offered(component, platform, variant, workflow) <==>
            && component in {DESK, RESCUE} && platform in {LINUX, WINDOWS, MACOS, RESCUE}
            && (component == RESCUE <==> platform == RESCUE)
            && variant in VariantsOf(platform) && workflow == ExpectedWorkflow(component, variant)
  {
    ComponentsDiffer();
    VariantsDiffer(variant);
  }

  lemma KindExactly(component: Str, kind: Str)
    requires component in {DESK, RESCUE}
    ensures kind == PrimaryKind(component) || AccompanyingKind(kind) <==>
            kind in KINDS && !(component == DESK && kind == IMAGE) && !(component == RESCUE && kind == PACKAGE)
  {
    ComponentsDiffer();
    KindsDiffer();
  }

  lemma TermsExactly(a: Artifact)
    ensures ValidCommon(a) <==> ProperTerms(a)
  {
    OfferedExactly(a.component, a.platform, a.variant, a.provenance.workflow);
    LabelExactly(a.version, 64);
    MediaExactly(a.mediaType);
    if a.component in {DESK, RESCUE} {
      KindExactly(a.component, a.kind);
    }
  }

  // ----- the entries of a document

  /** The descriptor entry of an artifact whose file is at this path. */
  function InputValue(a: Artifact, path: Str): Document {
    Dict(map[
      Architecture := Text(a.architecture), Component := Text(a.component), Kind := Text(a.kind),
      MediaType := Text(a.mediaType), Platform := Text(a.platform), Provenance := RunValue(a.provenance),
      Url := Text(a.url), Variant := Text(a.variant), Version := Text(a.version), Path := Text(path)])
  }

  /** The entry describes the artifact: its members are those of the artifact, and its file
      name, size and digest are those of the file that is staged at its path. */
  ghost predicate DescribesAt(v: Document, a: Artifact, path: Str, world: World) {
    && v == InputValue(a, path) && ProperTerms(a)
    && a.filename == world.fileName(path) && LabelForm(a.filename, 160)
    && world.staged(path) == Some(Staged(a.size, a.sha256))
    && world.urlOk(a.url, a.filename)
  }

  ghost predicate Describes(v: Document, a: Artifact, world: World) {
    exists path :: DescribesAt(v, a, path, world)
  }

  lemma RunExactly(v: Document, component: Str, variant: Str, r: Run)
    ensures ReadRun(v, component, variant) == Some(r) <==> v == RunValue(r) && ValidRun(r, component, variant)
  {
    RunReadsBack(r, component, variant);
    if ReadRun(v, component, variant) == Some(r) {
      assert v.fields == RunValue(r).fields;
    }
  }

  /** The members that descriptors and manifests share are those of the artifact. */
  predicate HoldsCommon(fields: map<Key, Document>, a: Artifact)
    requires COMMON_KEYS <= fields.Keys
  {
    && fields[Component] == Text(a.component) && fields[Platform] == Text(a.platform)
    && fields[Kind] == Text(a.kind) && fields[Variant] == Text(a.variant)
    && fields[Architecture] == Text(a.architecture) && fields[Version] == Text(a.version)
    && fields[MediaType] == Text(a.mediaType) && fields[Url] == Text(a.url)
    && fields[Provenance] == RunValue(a.provenance)
  }

  lemma CommonGives(fields: map<Key, Document>, size: int, filename: Str, sha256: Str)
    requires COMMON_KEYS <= fields.Keys && CommonOk(fields)
    ensures var a := MakeArtifact(fields, size, filename, sha256); HoldsCommon(fields, a) && ValidCommon(a)
  {
    var a := MakeArtifact(fields, size, filename, sha256);
    RunExactly(fields[Provenance], a.component, a.variant, a.provenance);
  }

  lemma CommonTaken(fields: map<Key, Document>, a: Artifact)
    requires COMMON_KEYS <= fields.Keys && HoldsCommon(fields, a) && ValidCommon(a)
    ensures CommonOk(fields) && MakeArtifact(fields, a.size, a.filename, a.sha256) == a
  {
    RunExactly(fields[Provenance], a.component, a.variant, a.provenance);
  }

  /** The shared checks accept exactly the members of artifacts with proper terms. */
  lemma CommonExactly(fields: map<Key, Document>, a: Artifact)
    requires COMMON_KEYS <= fields.Keys
    ensures CommonOk(fields) && MakeArtifact(fields, a.size, a.filename, a.sha256) == a <==>
            HoldsCommon(fields, a) && ProperTerms(a)
  {
    TermsExactly(a);
    if CommonOk(fields) {
      CommonGives(fields, a.size, a.filename, a.sha256);
    }
    if HoldsCommon(fields, a) && ValidCommon(a) {
      CommonTaken(fields, a);
    }
  }

  lemma InputKeys(a: Artifact, path: Str)
    ensures InputValue(a, path).fields.Keys == COMMON_KEYS + {Path}
  {
  }

  lemma InputHolds(fields: map<Key, Document>, a: Artifact, path: Str)
    requires fields.Keys == COMMON_KEYS + {Path}
    ensures Dict(fields) == InputValue(a, path) <==> HoldsCommon(fields, a) && fields[Path] == Text(path)
  {
    InputKeys(a, path);
    if HoldsCommon(fields, a) && fields[Path] == Text(path) {
      assert fields == InputValue(a, path).fields;
    }
  }

  lemma InputAtPath(v: Document, a: Artifact, path: Str, world: World)
    requires v.Dict? && Path in v.fields ==> v.fields[Path] == Text(path) || !v.fields[Path].Text?
    ensures ReadInputArtifact(v, world) == Some(a) <==> DescribesAt(v, a, path, world)
  {
    InputKeys(a, path);
    if Exact(v, COMMON_KEYS + {Path}) {
      InputHolds(v.fields, a, path);
      CommonExactly(v.fields, a);
      LabelExactly(a.filename, 160);
    }
  }

  /** The checks of a descriptor entry return exactly the artifact that it describes. */
  lemma InputExactly(v: Document, a: Artifact, world: World)
    ensures ReadInputArtifact(v, world) == Some(a) <==> Describes(v, a, world)
  {
    if v.Dict? && Path in v.fields && v.fields[Path].Text? {
      InputAtPath(v, a, v.fields[Path].s, world);
    }
    forall path | DescribesAt(v, a, path, world) ensures ReadInputArtifact(v, world) == Some(a) {
      InputKeys(a, path);
      InputAtPath(v, a, path, world);
    }
  }

  predicate HoldsFile(fields: map<Key, Document>, a: Artifact)
    requires {Size, Filename, Sha256} <= fields.Keys
  {
    fields[Size] == Int(a.size) && fields[Filename] == Text(a.filename) && fields[Sha256] == Text(a.sha256)
  }

  lemma ArtifactHoldsAll(a: Artifact)
    ensures ArtifactValue(a).fields.Keys == COMMON_KEYS + {Size, Filename, Sha256}
    ensures HoldsCommon(ArtifactValue(a).fields, a) && HoldsFile(ArtifactValue(a).fields, a)
  {
    ArtifactKeys(a);
  }

  lemma HeldAlike(f: map<Key, Document>, g: map<Key, Document>, a: Artifact)
    requires f.Keys == g.Keys == COMMON_KEYS + {Size, Filename, Sha256}
    requires HoldsCommon(f, a) && HoldsFile(f, a) && HoldsCommon(g, a) && HoldsFile(g, a)
    ensures f == g
  {
    forall k | k in f.Keys ensures f[k] == g[k] {
      assert k in COMMON_KEYS || k in {Size, Filename, Sha256};
    }
  }

  lemma ArtifactFields(fields: map<Key, Document>, a: Artifact)
    requires fields.Keys == COMMON_KEYS + {Size, Filename, Sha256}
    ensures Dict(fields) == ArtifactValue(a) <==> HoldsCommon(fields, a) && HoldsFile(fields, a)
  {
    ArtifactHoldsAll(a);
    if HoldsCommon(fields, a) && HoldsFile(fields, a) {
      HeldAlike(fields, ArtifactValue(a).fields, a);
    }
  }

  lemma ProperExactly(a: Artifact, world: World)
    ensures ValidArtifact(a, world) <==> ProperArtifact(a, world)
  {
    TermsExactly(a);
    LabelExactly(a.filename, 160);
    HexExactly(a.sha256, 64);
  }

  lemma ReadIsValue(v: Document, a: Artifact, world: World)
    requires ReadArtifact(v, world) == Some(a)
    ensures v == ArtifactValue(a)
  {
    CommonGives(v.fields, a.size, a.filename, a.sha256);
    ArtifactFields(v.fields, a);
  }

  /** The checks of a manifest entry accept exactly the entries of proper artifacts. */
  lemma ArtifactExactly(v: Document, a: Artifact, world: World)
    ensures ReadArtifact(v, world) == Some(a) <==> v == ArtifactValue(a) && ProperArtifact(a, world)
  {
    ProperExactly(a, world);
    ArtifactReadsBack(a, world);
    if ReadArtifact(v, world) == Some(a) {
      ReadIsValue(v, a, world);
    }
  }

  // ----- the frame of a document

  /** A document with the frame of the manifest and these entries. */
  function FrameValue(m: Manifest, schema: Str, entries: seq<Document>): Document {
    Dict(map[
      Artifacts := List(entries), Channel := Text(m.channel), Previous := PriorValue(m.previous),
      PublishedAt := Text(m.publishedAt), Schema := Text(schema), Sequence := Int(m.sequence),
      Source := Dict(map[Commit := Text(m.commit), Repository := Text(Ascii("0xfunboy/KernAid"))])])
  }

  /** The frame of a release: the first has no predecessor, and every other one names the
      sequence number before its own and a digest. */
  predicate ProperFrame(m: Manifest, world: World) {
    && ChannelForm(m.channel) && m.sequence > 0 && world.timestampOk(m.publishedAt) && Hexadecimal(m.commit, 40)
    && (m.sequence == 1 <==> m.previous.None?)
    && (m.previous.Some? ==> m.previous.value.sequence == m.sequence - 1 && Hexadecimal(m.previous.value.sha256, 64))
  }

  lemma PriorExactly(v: Document, sequence: int, p: Option<Prior>)
    requires sequence > 0
    ensures ReadPrior(v, sequence) == Some(p) <==>
            && v == PriorValue(p) && (sequence == 1 <==> p.None?)
            && (p.Some? ==> p.value.sequence == sequence - 1 && Hexadecimal(p.value.sha256, 64))
  {
    if p.Some? {
      HexExactly(p.value.sha256, 64);
      assert PriorValue(p).fields.Keys == {Sequence, Sha256};
      if ReadPrior(v, sequence) == Some(p) {
        assert v.fields == PriorValue(p).fields;
      }
    }
  }

  lemma FrameKeys(m: Manifest, schema: Str, entries: seq<Document>)
    ensures FrameValue(m, schema, entries).fields.Keys == DOCUMENT_KEYS
    ensures FrameValue(m, schema, entries).fields[Source].fields.Keys == {Commit, Repository}
  {
  }

  lemma SourceExactly(v: Document, commit: Str)
    ensures v == Dict(map[Commit := Text(commit), Repository := Text(REPOSITORY)]) <==>
            && Exact(v, {Commit, Repository})
            && v.fields[Repository] == Text(REPOSITORY) && v.fields[Commit] == Text(commit)
  {
    var source: Document := Dict(map[Commit := Text(commit), Repository := Text(REPOSITORY)]);
    assert source.fields.Keys == {Commit, Repository};
    if Exact(v, {Commit, Repository}) && v.fields[Repository] == Text(REPOSITORY) && v.fields[Commit] == Text(commit) {
      assert v.fields == source.fields;
    }
  }

  predicate HoldsFrame(fields: map<Key, Document>, m: Manifest, schema: Str, entries: seq<Document>)
    requires fields.Keys == DOCUMENT_KEYS
  {
    && fields[Artifacts] == List(entries) && fields[Channel] == Text(m.channel)
    && fields[Previous] == PriorValue(m.previous) && fields[PublishedAt] == Text(m.publishedAt)
    && fields[Schema] == Text(schema) && fields[Sequence] == Int(m.sequence)
    && fields[Source] == Dict(map[Commit := Text(m.commit), Repository := Text(REPOSITORY)])
  }

  lemma FrameHolds(fields: map<Key, Document>, m: Manifest, schema: Str, entries: seq<Document>)
    requires fields.Keys == DOCUMENT_KEYS
    ensures Dict(fields) == FrameValue(m, schema, entries) <==> HoldsFrame(fields, m, schema, entries)
  {
    FrameKeys(m, schema, entries);
    if HoldsFrame(fields, m, schema, entries) {
      assert fields == FrameValue(m, schema, entries).fields;
    }
  }

  /** The checks of a frame accept exactly the documents with a proper frame. */
  lemma FrameExactly(v: Document, schema: Str, world: World, m: Manifest, entries: seq<Document>)
    ensures FrameOk(v, schema, world) && MakeManifest(v, schema, world, m.artifacts) == m
            && v.fields[Artifacts] == List(entries) <==>
            v == FrameValue(m, schema, entries) && ProperFrame(m, world)
  {
    FrameKeys(m, schema, entries);
    if Exact(v, DOCUMENT_KEYS) {
      FrameHolds(v.fields, m, schema, entries);
      SourceExactly(v.fields[Source], m.commit);
      ChannelExactly(m.channel);
      HexExactly(m.commit, 40);
      if m.sequence > 0 {
        PriorExactly(v.fields[Previous], m.sequence, m.previous);
      }
    }
  }
}
