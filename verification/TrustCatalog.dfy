/** The Rescue trust catalog: strict parsing, the documents that images emit, and the
    authorization of one image. */
module TrustCatalog {
  import opened Texts
  import opened Documents
  import opened CatalogLayout

  const CATALOG_SCHEMA: Str := Ascii("dev.kernaid.trusted-rescue-images.v2")
  const USB_STORAGE: Str := Ascii("usb-storage")
  const NAME_PREFIX: Str := Ascii("KernAid-Rescue-")
  const NAME_SUFFIX: Str := Ascii(".iso")
  const RUN_URL_PREFIX: Str := Ascii("https://github.com/0xfunboy/") + Ascii("KernAid/actions/runs/")

  /** The number that a text of decimal digits denotes for Python, or None. */
  type RunNumber = Str -> Option<int>

  // ----- names and versions

  predicate NameMark(c: int) {
    || 0x30 <= c <= 0x39 || 0x41 <= c <= 0x5A || 0x61 <= c <= 0x7A
    || c == 0x2E || c == 0x5F || c == 0x2D
  }

  predicate IsImageName(s: Str) {
    var n := |NAME_PREFIX| + |NAME_SUFFIX|;
    && |s| > n && s[..|NAME_PREFIX|] == NAME_PREFIX && s[|s| - |NAME_SUFFIX|..] == NAME_SUFFIX
    && forall i | |NAME_PREFIX| <= i < |s| - |NAME_SUFFIX| :: NameMark(s[i])
  }

  predicate IsVersion(s: Str) {
    && 1 <= |s| <= 64 && NameMark(s[0]) && s[0] != 0x2E && s[0] != 0x5F && s[0] != 0x2D
    && forall i | 1 <= i < |s| :: NameMark(s[i]) || s[i] == 0x2B
  }

  predicate PlainMark(c: int) {
    Alphanumeric(c) || c in {0x2D, 0x2E, 0x5F}
  }

  /** The prefix, at least one letter, digit, dot, underscore or hyphen, and the suffix. */
  predicate NameParts(s: Str, middle: Str) {
    && s == Ascii("KernAid-Rescue-") + middle + Ascii(".iso")
    && middle != [] && forall i | 0 <= i < |middle| :: PlainMark(middle[i])
  }

  ghost predicate NameForm(s: Str) {
    |s| <= 4096 && exists middle :: NameParts(s, middle)
  }

  predicate VersionForm(s: Str) {
    && 1 <= |s| <= 64 && Alphanumeric(s[0])
    && forall i | 0 <= i < |s| :: PlainMark(s[i]) || s[i] == 0x2B
  }

  lemma VersionExactly(s: Str)
    ensures IsText(Text(s)) && IsVersion(s) <==> VersionForm(s)
  {
  }

  lemma NameSplit(s: Str)
    requires IsImageName(s)
    ensures NameParts(s, s[15..|s| - 4])
  {
    var middle := s[15..|s| - 4];
    assert s == s[..15] + middle + s[|s| - 4..];
    forall i | 0 <= i < |middle| ensures PlainMark(middle[i]) {
      assert middle[i] == s[15 + i] && NameMark(s[15 + i]);
    }
  }

  lemma NameJoined(s: Str, middle: Str)
    requires NameParts(s, middle)
    ensures IsImageName(s) && (|s| <= 4096 ==> IsText(Text(s)))
  {
    assert s[..15] == NAME_PREFIX && s[|s| - 4..] == NAME_SUFFIX;
    forall i | 15 <= i < |s| - 4 ensures NameMark(s[i]) {
      assert s[i] == middle[i - 15];
    }
    NamePartsText();
    forall i | 0 <= i < |s| ensures s[i] >= 0x20 && s[i] != 0x7F {
      assert i < 15 ==> s[i] == NAME_PREFIX[i];
      assert i >= |s| - 4 ==> s[i] == NAME_SUFFIX[i - (|s| - 4)];
    }
  }

  lemma NamePartsText()
    ensures IsText(Text(NAME_PREFIX)) && IsText(Text(NAME_SUFFIX))
  {
  }

  lemma NameExactly(s: Str)
    ensures IsText(Text(s)) && IsImageName(s) <==> NameForm(s)
  {
    if IsText(Text(s)) && IsImageName(s) {
      NameSplit(s);
    }
    if NameForm(s) {
      var middle :| NameParts(s, middle);
      NameJoined(s, middle);
    }
  }

  // ----- typed results

  /** One firmware's claim: the workflow run and its log. */
  datatype Attestation = Attestation(runId: int, runUrl: Str, logSha256: Str)

  datatype Image = Image(
    name: Str, version: Str, sha256: Str, size: int, layout: Layout,
    biosUsb: Attestation, uefiUsb: Attestation, biosVault: Attestation, uefiVault: Attestation)

  datatype Catalog = Catalog(revision: int, images: seq<Image>)

  // ----- attestations

  const RUN_KEYS: set<Key> := {RunId, RunUrl, LogSha256}

  /** The part of a URL between the prefix and the next slash. */
  function RunComponent(url: Str): Str
    requires StartsWith(url, RUN_URL_PREFIX)
  {
    UpToSlash(url[|RUN_URL_PREFIX|..])
  }

  function UpToSlash(s: Str): Str {
    if s == [] || s[0] == 0x2F then [] else [s[0]] + UpToSlash(s[1..])
  }

  /** The URL is that of a run: the prefix, the component, and nothing or a slash and more. */
  predicate IsRun(url: Str, component: Str, tail: Str) {
    url == RUN_URL_PREFIX + component + tail && 0x2F !in component && (tail == [] || tail[0] == 0x2F)
  }

  ghost predicate ValidAttestation(a: Attestation, runNumber: RunNumber) {
    && a.runId >= 1 && IsText(Text(a.runUrl)) && Hexadecimal(a.logSha256, 64)
    && exists component, tail :: IsRun(a.runUrl, component, tail) && runNumber(component) == Some(a.runId)
  }

  lemma {:induction false} UpToSlashSplits(s: Str)
    ensures var c := UpToSlash(s);
            && 0x2F !in c && |c| <= |s| && s[..|c|] == c && (|c| == |s| || s[|c|] == 0x2F)
  {
    if s != [] && s[0] != 0x2F {
      UpToSlashSplits(s[1..]);
      var c := UpToSlash(s[1..]);
      assert s[..1 + |c|] == [s[0]] + s[1..][..|c|];
    }
  }

  lemma {:induction false} UpToSlashOf(component: Str, tail: Str)
    requires 0x2F !in component && (tail == [] || tail[0] == 0x2F)
    ensures UpToSlash(component + tail) == component
  {
    if component == [] {
      assert component + tail == tail;
    } else {
      UpToSlashOf(component[1..], tail);
      assert (component + tail)[1..] == component[1..] + tail;
    }
  }

  lemma Cut(rest: Str, n: nat)
    requires n <= |rest|
    ensures rest == rest[..n] + rest[n..]
  {
  }

  lemma JoinedAgain(url: Str, prefix: Str, a: Str, b: Str)
    requires StartsWith(url, prefix) && url[|prefix|..] == a + b
    ensures url == prefix + a + b
  {
    Cut(url, |prefix|);
    assert prefix + (a + b) == prefix + a + b;
  }

  lemma RunSplit(url: Str, prefix: Str) returns (tail: Str)
    requires StartsWith(url, prefix)
    ensures var component := UpToSlash(url[|prefix|..]);
            url == prefix + component + tail && 0x2F !in component && (tail == [] || tail[0] == 0x2F)
  {
    var rest := url[|prefix|..];
    var component := UpToSlash(rest);
    UpToSlashSplits(rest);
    Cut(rest, |component|);
    tail := rest[|component|..];
    JoinedAgain(url, prefix, component, tail);
  }

  lemma RunJoined(prefix: Str, component: Str, tail: Str)
    requires 0x2F !in component && (tail == [] || tail[0] == 0x2F)
    ensures var url := prefix + component + tail; StartsWith(url, prefix) && UpToSlash(url[|prefix|..]) == component
  {
    var url := prefix + component + tail;
    assert url[|prefix|..] == component + tail && url[..|prefix|] == prefix;
    UpToSlashOf(component, tail);
  }

  /** A URL starts with the prefix exactly when it is that of a run, and then its run
      component is what stands before the next slash. */
  lemma RunOfUrl(url: Str, component: Str)
    ensures StartsWith(url, RUN_URL_PREFIX) && RunComponent(url) == component <==>
            exists tail :: IsRun(url, component, tail)
  {
    if StartsWith(url, RUN_URL_PREFIX) && RunComponent(url) == component {
      var tail := RunSplit(url, RUN_URL_PREFIX);
      assert IsRun(url, component, tail);
    }
    forall tail | IsRun(url, component, tail)
      ensures StartsWith(url, RUN_URL_PREFIX) && RunComponent(url) == component
    {
      RunJoined(RUN_URL_PREFIX, component, tail);
    }
  }

  /** The number check of the source finds the run that the URL names. */
  lemma RunChecked(url: Str, runId: int, runNumber: RunNumber)
    ensures StartsWith(url, RUN_URL_PREFIX) && runNumber(RunComponent(url)) == Some(runId) <==>
            exists component, tail :: IsRun(url, component, tail) && runNumber(component) == Some(runId)
  {
    if StartsWith(url, RUN_URL_PREFIX) {
      RunOfUrl(url, RunComponent(url));
    }
    forall component, tail | IsRun(url, component, tail)
      ensures StartsWith(url, RUN_URL_PREFIX) && RunComponent(url) == component
    {
      RunOfUrl(url, component);
    }
  }

  /** `_workflow_identity`. */
  function ReadIdentity(fields: map<Key, Document>, runNumber: RunNumber): Option<Attestation>
    requires RUN_KEYS <= fields.Keys
  {
    var id, url, log := fields[RunId], fields[RunUrl], fields[LogSha256];
    if && IsInteger(id, 1) && IsText(url) && IsDigest(log)
       && StartsWith(url.s, RUN_URL_PREFIX) && runNumber(RunComponent(url.s)) == Some(id.n)
    then Some(Attestation(id.n, url.s, log.s))
    else None
  }

  const USB_CLAIMS: map<Key, Document> := map[
    Passed := Flag(true), BootTransport := Text(USB_STORAGE), BootCount := Int(2), ZeroWrites := Flag(true)]

  const VAULT_CLAIMS: map<Key, Document> := map[
    Passed := Flag(true), BootCount := Int(2), LuksVersion := Int(2), LuksLabel := Text(VAULT_NAME),
    Filesystem := Text(Ascii("ext4")), FilesystemLabel := Text(VAULT_NAME), ProfileVersion := Int(1),
    ProfileSha256 := Text(PROFILE_DIGEST), StableUuids := Flag(true), JournalBinding := Flag(true),
    IdentityVerified := Flag(true), WrongKeyRejected := Flag(true)]

  function IdentityFields(a: Attestation): map<Key, Document> {
    map[RunId := Int(a.runId), RunUrl := Text(a.runUrl), LogSha256 := Text(a.logSha256)]
  }

  /** The claims are fixed; only the workflow run differs between attestations. */
  function AttestationValue(claims: map<Key, Document>, a: Attestation): Document {
    Dict(claims + IdentityFields(a))
  }

  /** `_usb_boot_attestation` and `_vault_attestation`, by the claims they insist on. */
  function ReadAttestation(v: Document, claims: map<Key, Document>, runNumber: RunNumber): Option<Attestation>
    requires claims.Keys !! RUN_KEYS
  {
    if Exact(v, claims.Keys + RUN_KEYS) && forall k | k in claims :: v.fields[k] == claims[k]
    then ReadIdentity(v.fields, runNumber)
    else None
  }

  lemma AttestationReadsBack(claims: map<Key, Document>, a: Attestation, runNumber: RunNumber)
    requires claims.Keys !! RUN_KEYS
    ensures ReadAttestation(AttestationValue(claims, a), claims, runNumber) ==
            if ValidAttestation(a, runNumber) then Some(a) else None
  {
    var fields := AttestationValue(claims, a).fields;
    assert IdentityFields(a).Keys == RUN_KEYS;
    assert fields.Keys == claims.Keys + RUN_KEYS;
    assert fields[RunId] == Int(a.runId) && fields[RunUrl] == Text(a.runUrl) && fields[LogSha256] == Text(a.logSha256);
    RunChecked(a.runUrl, a.runId, runNumber);
    HexExactly(a.logSha256, 64);
  }

  lemma ReadAttestationValid(v: Document, claims: map<Key, Document>, runNumber: RunNumber)
    requires claims.Keys !! RUN_KEYS
    ensures var r := ReadAttestation(v, claims, runNumber); r.Some? ==> ValidAttestation(r.value, runNumber)
  {
    var r := ReadAttestation(v, claims, runNumber);
    if r.Some? {
      RunChecked(r.value.runUrl, r.value.runId, runNumber);
      HexExactly(r.value.logSha256, 64);
    }
  }

  lemma AttestationExactly(v: Document, claims: map<Key, Document>, runNumber: RunNumber, a: Attestation)
    requires claims.Keys !! RUN_KEYS
    ensures ReadAttestation(v, claims, runNumber) == Some(a) <==>
            v == AttestationValue(claims, a) && ValidAttestation(a, runNumber)
  {
    AttestationReadsBack(claims, a, runNumber);
    if ReadAttestation(v, claims, runNumber) == Some(a) {
      ReadAttestationValid(v, claims, runNumber);
      assert v.fields == AttestationValue(claims, a).fields;
    }
  }

  // ----- images

  function PairValue(bios: Document, uefi: Document): Document {
    Dict(map[Bios := bios, Uefi := uefi])
  }

  /** `TrustedImageV2.as_document`. */
  function ImageValue(i: Image): Document {
    Dict(map[
      ArtifactName := Text(i.name), ArtifactVersion := Text(i.version), Sha256 := Text(i.sha256), Size := Int(i.size),
      DeviceLayout := LayoutValue(i.layout),
      UsbAttestations := PairValue(AttestationValue(USB_CLAIMS, i.biosUsb), AttestationValue(USB_CLAIMS, i.uefiUsb)),
      VaultAttestations :=
        PairValue(AttestationValue(VAULT_CLAIMS, i.biosVault), AttestationValue(VAULT_CLAIMS, i.uefiVault))])
  }

  function ReadPair(v: Document, claims: map<Key, Document>, runNumber: RunNumber)
    : Option<(Attestation, Attestation)>
    requires claims.Keys !! RUN_KEYS
  {
    if !Exact(v, {Bios, Uefi}) then None
    else
      var bios := ReadAttestation(v.fields[Bios], claims, runNumber);
      var uefi := ReadAttestation(v.fields[Uefi], claims, runNumber);
      if bios.None? || uefi.None? then None else Some((bios.value, uefi.value))
  }

  const IMAGE_KEYS: set<Key> := {
    ArtifactName, ArtifactVersion, Sha256, Size, DeviceLayout, UsbAttestations, VaultAttestations
  }

  lemma ClaimsApart()
    ensures USB_CLAIMS.Keys !! RUN_KEYS && VAULT_CLAIMS.Keys !! RUN_KEYS
  {
  }

  /** One turn of the loop in `parse_trust_catalog_v2`, before the duplicate check. */
  function ReadImage(v: Document, runNumber: RunNumber): Option<Image> {
    ClaimsApart();
    if !Exact(v, IMAGE_KEYS) then None
    else
      var f := v.fields;
      var layout := ReadLayout(f[DeviceLayout]);
      var usb := ReadPair(f[UsbAttestations], USB_CLAIMS, runNumber);
      var vault := ReadPair(f[VaultAttestations], VAULT_CLAIMS, runNumber);
      if && IsText(f[ArtifactName]) && IsImageName(f[ArtifactName].s)
         && IsText(f[ArtifactVersion]) && IsVersion(f[ArtifactVersion].s)
         && IsDigest(f[Sha256]) && IsInteger(f[Size], 1)
         && layout.Some? && usb.Some? && vault.Some? && usb == vault
         && usb.value.0.logSha256 != usb.value.1.logSha256
      then
        Some(Image(f[ArtifactName].s, f[ArtifactVersion].s, f[Sha256].s, f[Size].n, layout.value,
                   usb.value.0, usb.value.1, vault.value.0, vault.value.1))
      else None
  }

  ghost predicate ValidImage(i: Image, runNumber: RunNumber) {
    && NameForm(i.name) && VersionForm(i.version) && Hexadecimal(i.sha256, 64) && i.size >= 1 && ValidLayout(i.layout)
    && ValidAttestation(i.biosUsb, runNumber) && ValidAttestation(i.uefiUsb, runNumber)
    && i.biosVault == i.biosUsb && i.uefiVault == i.uefiUsb
    && i.biosUsb.logSha256 != i.uefiUsb.logSha256
  }

  lemma PairReadsBack(claims: map<Key, Document>, a: Attestation, b: Attestation, runNumber: RunNumber)
    requires claims.Keys !! RUN_KEYS && ValidAttestation(a, runNumber) && ValidAttestation(b, runNumber)
    ensures ReadPair(PairValue(AttestationValue(claims, a), AttestationValue(claims, b)), claims, runNumber) ==
            Some((a, b))
  {
    AttestationReadsBack(claims, a, runNumber);
    AttestationReadsBack(claims, b, runNumber);
  }

  lemma ReadPairValid(v: Document, claims: map<Key, Document>, runNumber: RunNumber)
    requires claims.Keys !! RUN_KEYS
    ensures var r := ReadPair(v, claims, runNumber);
            r.Some? ==> ValidAttestation(r.value.0, runNumber) && ValidAttestation(r.value.1, runNumber)
  {
    if Exact(v, {Bios, Uefi}) {
      ReadAttestationValid(v.fields[Bios], claims, runNumber);
      ReadAttestationValid(v.fields[Uefi], claims, runNumber);
    }
  }

  lemma PairExactly(v: Document, claims: map<Key, Document>, runNumber: RunNumber, a: Attestation, b: Attestation)
    requires claims.Keys !! RUN_KEYS
    ensures ReadPair(v, claims, runNumber) == Some((a, b)) ==>
              v == PairValue(AttestationValue(claims, a), AttestationValue(claims, b))
  {
    if ReadPair(v, claims, runNumber) == Some((a, b)) {
      AttestationExactly(v.fields[Bios], claims, runNumber, a);
      AttestationExactly(v.fields[Uefi], claims, runNumber, b);
      assert v.fields == map[Bios := AttestationValue(claims, a), Uefi := AttestationValue(claims, b)];
    }
  }

  /** The members are those of the image. */
  ghost predicate Holds(f: map<Key, Document>, i: Image) {
    && f.Keys == IMAGE_KEYS
    && f[ArtifactName] == Text(i.name) && f[ArtifactVersion] == Text(i.version)
    && f[Sha256] == Text(i.sha256) && f[Size] == Int(i.size) && f[DeviceLayout] == LayoutValue(i.layout)
    && f[UsbAttestations] ==
       PairValue(AttestationValue(USB_CLAIMS, i.biosUsb), AttestationValue(USB_CLAIMS, i.uefiUsb))
    && f[VaultAttestations] ==
       PairValue(AttestationValue(VAULT_CLAIMS, i.biosVault), AttestationValue(VAULT_CLAIMS, i.uefiVault))
  }

  lemma ImageHolds(i: Image)
    ensures Holds(ImageValue(i).fields, i)
  {
  }

  lemma ImageTexts(i: Image)
    ensures IsText(Text(i.name)) && IsImageName(i.name) <==> NameForm(i.name)
    ensures IsText(Text(i.version)) && IsVersion(i.version) <==> VersionForm(i.version)
    ensures HexOf(i.sha256, 64) <==> Hexadecimal(i.sha256, 64)
  {
    NameExactly(i.name);
    VersionExactly(i.version);
    HexExactly(i.sha256, 64);
  }

  lemma HeldReadsBack(f: map<Key, Document>, i: Image, runNumber: RunNumber)
    requires Holds(f, i) && ValidImage(i, runNumber)
    ensures ReadImage(Dict(f), runNumber) == Some(i)
  {
    ClaimsApart();
    ImageTexts(i);
    LayoutReadsBack(i.layout);
    PairReadsBack(USB_CLAIMS, i.biosUsb, i.uefiUsb, runNumber);
    PairReadsBack(VAULT_CLAIMS, i.biosVault, i.uefiVault, runNumber);
  }

  /** A valid image reads back from its own document. */
  lemma ImageReadsBack(i: Image, runNumber: RunNumber)
    requires ValidImage(i, runNumber)
    ensures ReadImage(ImageValue(i), runNumber) == Some(i)
  {
    ImageHolds(i);
    HeldReadsBack(ImageValue(i).fields, i, runNumber);
  }

  lemma ReadImageValid(v: Document, runNumber: RunNumber)
    ensures ReadImage(v, runNumber).Some? ==> ValidImage(ReadImage(v, runNumber).value, runNumber)
  {
    ClaimsApart();
    if ReadImage(v, runNumber).Some? {
      ImageTexts(ReadImage(v, runNumber).value);
      ReadLayoutValid(v.fields[DeviceLayout]);
      ReadPairValid(v.fields[UsbAttestations], USB_CLAIMS, runNumber);
    }
  }

  lemma ReadImageHolds(v: Document, runNumber: RunNumber, i: Image)
    requires ReadImage(v, runNumber) == Some(i)
    ensures Holds(v.fields, i)
  {
    ClaimsApart();
    LayoutExactly(v.fields[DeviceLayout], i.layout);
    PairExactly(v.fields[UsbAttestations], USB_CLAIMS, runNumber, i.biosUsb, i.uefiUsb);
    PairExactly(v.fields[VaultAttestations], VAULT_CLAIMS, runNumber, i.biosVault, i.uefiVault);
  }

  lemma HeldAlike(f: map<Key, Document>, g: map<Key, Document>, i: Image)
    requires Holds(f, i) && Holds(g, i)
    ensures f == g
  {
    forall k | k in f.Keys ensures f[k] == g[k] {
      assert k in IMAGE_KEYS;
    }
  }

  lemma HeldIsValue(f: map<Key, Document>, i: Image)
    requires Holds(f, i)
    ensures Dict(f) == ImageValue(i)
  {
    ImageHolds(i);
    HeldAlike(f, ImageValue(i).fields, i);
  }

  /** A document is read as an image exactly when it is the document that a valid image
      emits. */
  lemma ImageExactly(v: Document, runNumber: RunNumber, i: Image)
    ensures ReadImage(v, runNumber) == Some(i) <==> v == ImageValue(i) && ValidImage(i, runNumber)
  {
    if ReadImage(v, runNumber) == Some(i) {
      ReadImageValid(v, runNumber);
      ReadImageHolds(v, runNumber, i);
      HeldIsValue(v.fields, i);
    }
    if v == ImageValue(i) && ValidImage(i, runNumber) {
      ImageReadsBack(i, runNumber);
    }
  }

  // ----- the catalog

  /** No two images share name and version, and no two share a digest. */
  predicate Unique(images: seq<Image>) {
    forall i, j | 0 <= i < j < |images| ::
      && (images[i].name, images[i].version) != (images[j].name, images[j].version)
      && images[i].sha256 != images[j].sha256
  }

  /** How one element of the image array is read. */
  type ImageReader = Document -> Option<Image>

  function Reader(runNumber: RunNumber): ImageReader {
    v => ReadImage(v, runNumber)
  }

  predicate AllRead(values: seq<Document>, read: ImageReader) {
    forall v | v in values :: read(v).Some?
  }

  function ReadImages(values: seq<Document>, read: ImageReader): (r: seq<Image>)
    requires AllRead(values, read)
    ensures |r| == |values|
    ensures forall i | 0 <= i < |values| :: read(values[i]) == Some(r[i])
  {
    Mapped(values, v requires read(v).Some? => read(v).value)
  }

  const CATALOG_KEYS: set<Key> := {Schema, CatalogRevision, Images}

  /** The catalog that a document holds, or None where the source raises. */
  function Parsed(v: Document, runNumber: RunNumber): (r: Option<Catalog>) {
    if !Exact(v, CATALOG_KEYS) || v.fields[Schema] != Text(CATALOG_SCHEMA)
       || !IsInteger(v.fields[CatalogRevision], 0) || !v.fields[Images].List? then None
    else
      var values := v.fields[Images].items;
      var read := Reader(runNumber);
      if !AllRead(values, read) || !Unique(ReadImages(values, read)) then None
      else Some(Catalog(v.fields[CatalogRevision].n, ReadImages(values, read)))
  }

  predicate HasIdentity(images: seq<Image>, x: (Str, Str)) {
    exists i | 0 <= i < |images| :: (images[i].name, images[i].version) == x
  }

  predicate HasDigest(images: seq<Image>, x: Str) {
    exists i | 0 <= i < |images| :: images[i].sha256 == x
  }

  lemma HasStep(images: seq<Image>, next: Image)
    ensures forall x :: HasIdentity(images + [next], x) <==> HasIdentity(images, x) || x == (next.name, next.version)
    ensures forall x :: HasDigest(images + [next], x) <==> HasDigest(images, x) || x == next.sha256
  {
    var all := images + [next];
    assert all[|images|] == next && forall i | 0 <= i < |images| :: all[i] == images[i];
  }

  lemma UniqueStep(images: seq<Image>, next: Image)
    requires Unique(images)
    ensures Unique(images + [next]) <==>
            !HasIdentity(images, (next.name, next.version)) && !HasDigest(images, next.sha256)
  {
    var all := images + [next];
    assert all[|images|] == next && forall i | 0 <= i < |images| :: all[i] == images[i];
  }

  lemma UniquePrefix(images: seq<Image>, n: nat)
    requires n <= |images|
    ensures Unique(images) ==> Unique(images[..n])
  {
  }

  /** The loop over the images, with the sets of identities and digests seen so far. */
  method ParseImages(values: seq<Document>, read: ImageReader) returns (r: Option<seq<Image>>)
    ensures r.Some? <==> AllRead(values, read) && Unique(ReadImages(values, read))
    ensures r.Some? ==> r.value == ReadImages(values, read)
  {
    var images: seq<Image> := [];
    var identities: set<(Str, Str)>, digests: set<Str> := {}, {};
    for k := 0 to |values|
      invariant |images| == k && Unique(images)
      invariant forall x :: x in identities <==> HasIdentity(images, x)
      invariant forall x :: x in digests <==> HasDigest(images, x)
      invariant forall i | 0 <= i < k :: read(values[i]) == Some(images[i])
    {
      var image := read(values[k]);
      if image.None? {
        assert values[k] in values;
        return None;
      }
      var i := image.value;
      HasStep(images, i);
      UniqueStep(images, i);
      if (i.name, i.version) in identities || i.sha256 in digests {
        if AllRead(values, read) {
          assert ReadImages(values, read)[..k + 1] == images + [i];
          UniquePrefix(ReadImages(values, read), k + 1);
        }
        return None;
      }
      identities, digests := identities + {(i.name, i.version)}, digests + {i.sha256};
      images := images + [i];
    }
    assert AllRead(values, read);
    assert images == ReadImages(values, read);
    return Some(images);
  }

  /** `parse_trust_catalog_v2` on the decoded document. */
  method ParseCatalog(v: Document, runNumber: RunNumber) returns (r: Option<Catalog>)
    ensures r == Parsed(v, runNumber)
  {
    if !Exact(v, CATALOG_KEYS) || v.fields[Schema] != Text(CATALOG_SCHEMA)
       || !IsInteger(v.fields[CatalogRevision], 0) || !v.fields[Images].List? {
      return None;
    }
    var images := ParseImages(v.fields[Images].items, Reader(runNumber));
    return if images.None? then None else Some(Catalog(v.fields[CatalogRevision].n, images.value));
  }

  function ImageValues(images: seq<Image>): (r: seq<Document>)
    ensures |r| == |images|
  {
    seq(|images|, k requires 0 <= k < |images| => ImageValue(images[k]))
  }

  function CatalogValue(c: Catalog): Document {
    Dict(map[
      Schema := Text(CATALOG_SCHEMA), CatalogRevision := Int(c.revision), Images := List(ImageValues(c.images))])
  }

  lemma ImagesReadBack(images: seq<Image>, runNumber: RunNumber)
    requires forall i | i in images :: ValidImage(i, runNumber)
    ensures AllRead(ImageValues(images), Reader(runNumber))
    ensures ReadImages(ImageValues(images), Reader(runNumber)) == images
  {
    var values := ImageValues(images);
    forall k | 0 <= k < |images| ensures ReadImage(values[k], runNumber) == Some(images[k]) {
      assert images[k] in images;
      ImageReadsBack(images[k], runNumber);
    }
  }

  lemma ImagesValid(values: seq<Document>, read: ImageReader, runNumber: RunNumber)
    requires AllRead(values, read)
    requires forall v :: read(v).Some? ==> ValidImage(read(v).value, runNumber)
    ensures forall i | i in ReadImages(values, read) :: ValidImage(i, runNumber)
  {
    var images := ReadImages(values, read);
    forall i | i in images ensures ValidImage(i, runNumber) {
      var k :| 0 <= k < |images| && images[k] == i;
      assert read(values[k]) == Some(i);
    }
  }

  lemma ReaderValid(runNumber: RunNumber)
    ensures forall v :: Reader(runNumber)(v).Some? ==> ValidImage(Reader(runNumber)(v).value, runNumber)
  {
    forall v ensures Reader(runNumber)(v).Some? ==> ValidImage(Reader(runNumber)(v).value, runNumber) {
      ReadImageValid(v, runNumber);
    }
  }

  lemma ParsedUnique(v: Document, runNumber: RunNumber)
    requires Parsed(v, runNumber).Some?
    ensures Unique(Parsed(v, runNumber).value.images) && Parsed(v, runNumber).value.revision >= 0
    ensures AllRead(v.fields[Images].items, Reader(runNumber))
    ensures Parsed(v, runNumber).value.images == ReadImages(v.fields[Images].items, Reader(runNumber))
  {
  }

  lemma ParsedValid(v: Document, runNumber: RunNumber)
    requires Parsed(v, runNumber).Some?
    ensures forall i | i in Parsed(v, runNumber).value.images :: ValidImage(i, runNumber)
  {
    ParsedUnique(v, runNumber);
    ReaderValid(runNumber);
    ImagesValid(v.fields[Images].items, Reader(runNumber), runNumber);
  }

  /** Parsing the documents that the images of an accepted catalog emit gives the same
      catalog. */
  lemma CatalogReadsBack(v: Document, runNumber: RunNumber)
    requires Parsed(v, runNumber).Some?
    ensures var c := Parsed(v, runNumber).value; Parsed(CatalogValue(c), runNumber) == Some(c)
  {
    var c := Parsed(v, runNumber).value;
    ParsedUnique(v, runNumber);
    ParsedValid(v, runNumber);
    ImagesReadBack(c.images, runNumber);
    assert CatalogValue(c).fields.Keys == CATALOG_KEYS;
    assert CatalogValue(c).fields[Images] == List(ImageValues(c.images));
  }

  lemma ValuesRead(values: seq<Document>, runNumber: RunNumber)
    requires AllRead(values, Reader(runNumber))
    ensures values == ImageValues(ReadImages(values, Reader(runNumber)))
  {
    var images := ReadImages(values, Reader(runNumber));
    forall k | 0 <= k < |values| ensures values[k] == ImageValue(images[k]) {
      ImageExactly(values[k], runNumber, images[k]);
    }
  }

  lemma CatalogFields(v: Document, c: Catalog)
    requires Exact(v, CATALOG_KEYS) && v.fields[Schema] == Text(CATALOG_SCHEMA)
    requires v.fields[CatalogRevision] == Int(c.revision) && v.fields[Images] == List(ImageValues(c.images))
    ensures v == CatalogValue(c)
  {
    assert v.fields == CatalogValue(c).fields;
  }

  /** A document is parsed as a catalog exactly when it is the catalog's own document, its
      revision is not negative, and its images are valid and unique. */
  lemma ParsedExactly(v: Document, runNumber: RunNumber, c: Catalog)
    ensures Parsed(v, runNumber) == Some(c) <==>
            && v == CatalogValue(c) && c.revision >= 0 && Unique(c.images)
            && forall i | i in c.images :: ValidImage(i, runNumber)
  {
    if Parsed(v, runNumber) == Some(c) {
      ParsedUnique(v, runNumber);
      ParsedValid(v, runNumber);
      ValuesRead(v.fields[Images].items, runNumber);
      CatalogFields(v, c);
    }
    if && v == CatalogValue(c) && c.revision >= 0 && Unique(c.images)
       && forall i | i in c.images :: ValidImage(i, runNumber) {
      CatalogParses(c, runNumber);
    }
  }

  lemma CatalogParses(c: Catalog, runNumber: RunNumber)
    requires c.revision >= 0 && Unique(c.images) && forall i | i in c.images :: ValidImage(i, runNumber)
    ensures Parsed(CatalogValue(c), runNumber) == Some(c)
  {
    ImagesReadBack(c.images, runNumber);
    assert CatalogValue(c).fields.Keys == CATALOG_KEYS;
    assert CatalogValue(c).fields[Images] == List(ImageValues(c.images));
  }

  // ----- authorization

  predicate Matches(i: Image, name: Str, sha256: Str, size: int) {
    i.name == name && i.sha256 == sha256 && i.size == size
  }

  function Matching(images: seq<Image>, name: Str, sha256: Str, size: int): seq<Image> {
    if images == [] then []
    else (if Matches(images[0], name, sha256, size) then [images[0]] else [])
         + Matching(images[1..], name, sha256, size)
  }

  /** `TrustCatalogV2.authorize`, or None where it raises. */
  function Authorized(c: Catalog, name: Str, sha256: Str, size: int, current: Layout): Option<Image> {
    var matches := Matching(c.images, name, sha256, size);
    if |matches| != 1 || matches[0].layout != current then None else Some(matches[0])
  }

  lemma {:induction false} NoMatch(images: seq<Image>, name: Str, sha256: Str, size: int)
    requires forall i | i in images :: !Matches(i, name, sha256, size)
    ensures Matching(images, name, sha256, size) == []
  {
    if images != [] {
      NoMatch(images[1..], name, sha256, size);
    }
  }

  lemma {:induction false} MatchingExactly(images: seq<Image>, name: Str, sha256: Str, size: int)
    ensures forall i :: i in Matching(images, name, sha256, size) <==> i in images && Matches(i, name, sha256, size)
    ensures Unique(images) ==> |Matching(images, name, sha256, size)| <= 1
  {
    if images != [] {
      MatchingExactly(images[1..], name, sha256, size);
      assert images == [images[0]] + images[1..];
      if Unique(images) && Matches(images[0], name, sha256, size) {
        forall i | i in images[1..] ensures i.sha256 != images[0].sha256 {
          var k :| 0 <= k < |images[1..]| && images[k + 1] == i;
        }
        NoMatch(images[1..], name, sha256, size);
      }
    }
  }

  /** With unique images, authorization returns an image exactly when it is listed,
      matches name, digest and size, and is bound to the current layout. */
  lemma AuthorizedExactly(c: Catalog, name: Str, sha256: Str, size: int, current: Layout, image: Image)
    requires Unique(c.images)
    ensures Authorized(c, name, sha256, size, current) == Some(image) <==>
            && image in c.images && image.layout == current
            && image.name == name && image.sha256 == sha256 && image.size == size
  {
    MatchingExactly(c.images, name, sha256, size);
    var matches := Matching(c.images, name, sha256, size);
    assert matches != [] ==> matches[0] in matches;
  }
}
