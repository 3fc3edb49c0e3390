/** The members of catalog documents, the checks of single members, and the device layout
    that every image of the catalog is bound to. */
module CatalogLayout {
  import opened Texts
  import opened Documents

  datatype Key =
    | Schema | CatalogRevision | Images
    | ArtifactName | ArtifactVersion | Sha256 | Size | DeviceLayout | UsbAttestations | VaultAttestations
    | ManifestSha256 | PartitionTable | SectorBytes | MediaBytes | AdvertisedBytes | AdvertisedLabel
    | ProfileVersion | ProfileSha256 | VaultPartition
    | Number | Name | MbrType | StartLba | SectorCount
    | Bios | Uefi
    | Passed | BootTransport | BootCount | ZeroWrites | RunId | RunUrl | LogSha256
    | LuksVersion | LuksLabel | Filesystem | FilesystemLabel | StableUuids | JournalBinding | IdentityVerified
    | WrongKeyRejected
    | OtherKey(name: Str)

  type Document = Value<Key>

  const LAYOUT_SCHEMA: Str := Ascii("kernaid.rescue-device-layout.v1")
  const VAULT_NAME: Str := Ascii("KERNAID_VAULT")
  const MBR_TYPE: Str := Ascii("0x83")
  const PARTITION_TABLE: Str := Ascii("mbr")
  const MEDIA_LABEL: Str := Ascii("32 GB")
  const PROFILE_DIGEST: Str :=
    Ascii("b4801359bd4f31ce67fbd3ec15b6c81c") + Ascii("44aa6759ba43b2a4e099a7dfcc25a37c")
  // ----- field checks

  /** `_text`: not empty, bounded, and without control characters. */
  predicate IsText(v: Document) {
    v.Text? && 1 <= |v.s| <= 4096 && forall i | 0 <= i < |v.s| :: v.s[i] >= 0x20 && v.s[i] != 0x7F
  }

  predicate IsInteger(v: Document, minimum: int) {
    v.Int? && v.n >= minimum
  }

  predicate IsDigest(v: Document) {
    v.Text? && HexOf(v.s, 64)
  }

  // ----- the vault partition

  datatype Partition = Partition(number: int, name: Str, mbrType: Str, startLba: int, sectorCount: int)

  const VAULT_PARTITION: Partition := Partition(3, VAULT_NAME, MBR_TYPE, 33_554_432, 16_777_216)

  const PARTITION_KEYS: set<Key> := {Number, Name, MbrType, StartLba, SectorCount}

  function PartitionValue(p: Partition): Document {
    Dict(map[
      Number := Int(p.number), Name := Text(p.name), MbrType := Text(p.mbrType),
      StartLba := Int(p.startLba), SectorCount := Int(p.sectorCount)])
  }

  /** `_vault_partition`. */
  function ReadPartition(v: Document): Option<Partition> {
    if !Exact(v, PARTITION_KEYS) then None
    else
      var f := v.fields;
      if !(&& IsInteger(f[Number], 1) && IsText(f[Name]) && IsText(f[MbrType])
           && IsInteger(f[StartLba], 1) && IsInteger(f[SectorCount], 1)) then None
      else
        var p := Partition(f[Number].n, f[Name].s, f[MbrType].s, f[StartLba].n, f[SectorCount].n);
        if p == VAULT_PARTITION then Some(p) else None
  }

  /** A partition is accepted exactly when it is the fixed one. */
  lemma PartitionReadsBack(p: Partition)
    ensures ReadPartition(PartitionValue(p)) == if IsVaultPartition(p) then Some(p) else None
  {
    var f := PartitionValue(p).fields;
    assert f.Keys == PARTITION_KEYS;
    assert f[Number] == Int(p.number) && f[Name] == Text(p.name) && f[MbrType] == Text(p.mbrType);
    assert f[StartLba] == Int(p.startLba) && f[SectorCount] == Int(p.sectorCount);
    ConstantsAreText();
  }

  lemma ConstantsAreText()
    ensures IsText(Text(VAULT_NAME)) && IsText(Text(MBR_TYPE)) && IsText(Text(PARTITION_TABLE))
    ensures IsText(Text(MEDIA_LABEL)) && IsText(Text(LAYOUT_SCHEMA))
  {
  }

  // ----- the layout

  datatype Layout = Layout(
    schema: Str, manifestSha256: Str, partitionTable: Str, sectorBytes: int, mediaBytes: int,
    advertisedBytes: int, advertisedLabel: Str, profileVersion: int, profileSha256: Str, vault: Partition)

  const LAYOUT_KEYS: set<Key> := {
    Schema, ManifestSha256, PartitionTable, SectorBytes, MediaBytes, AdvertisedBytes, AdvertisedLabel,
    ProfileVersion, ProfileSha256, VaultPartition
  }

  function LayoutValue(l: Layout): Document {
    Dict(map[
      Schema := Text(l.schema), ManifestSha256 := Text(l.manifestSha256), PartitionTable := Text(l.partitionTable),
      SectorBytes := Int(l.sectorBytes), MediaBytes := Int(l.mediaBytes), AdvertisedBytes := Int(l.advertisedBytes),
      AdvertisedLabel := Text(l.advertisedLabel), ProfileVersion := Int(l.profileVersion),
      ProfileSha256 := Text(l.profileSha256), VaultPartition := PartitionValue(l.vault)])
  }

  /** Each member has its type. */
  predicate LayoutTyped(f: map<Key, Document>)
    requires f.Keys == LAYOUT_KEYS
  {
    && IsText(f[Schema]) && IsDigest(f[ManifestSha256]) && IsText(f[PartitionTable])
    && IsInteger(f[SectorBytes], 1) && IsInteger(f[MediaBytes], 1) && IsInteger(f[AdvertisedBytes], 1)
    && IsText(f[AdvertisedLabel]) && IsInteger(f[ProfileVersion], 1) && IsDigest(f[ProfileSha256])
  }

  /** The members that layout v1 fixes. */
  predicate Immutable(l: Layout) {
    && l.schema == LAYOUT_SCHEMA && l.partitionTable == PARTITION_TABLE && l.sectorBytes == 512
    && l.mediaBytes == 25_769_803_776 && l.advertisedBytes == 32_000_000_000 && l.advertisedLabel == MEDIA_LABEL
    && l.profileVersion == 1 && l.profileSha256 == PROFILE_DIGEST
  }

  /** `_catalog_layout`. */
  function ReadLayout(v: Document): Option<Layout> {
    if !Exact(v, LAYOUT_KEYS) || !LayoutTyped(v.fields) || ReadPartition(v.fields[VaultPartition]).None? then None
    else
      var f := v.fields;
      var l := Layout(
        f[Schema].s, f[ManifestSha256].s, f[PartitionTable].s, f[SectorBytes].n, f[MediaBytes].n,
        f[AdvertisedBytes].n, f[AdvertisedLabel].s, f[ProfileVersion].n, f[ProfileSha256].s,
        ReadPartition(f[VaultPartition]).value);
      if Immutable(l) then Some(l) else None
  }

  predicate IsVaultPartition(p: Partition) {
    && p.number == 3 && p.name == Ascii("KERNAID_VAULT") && p.mbrType == Ascii("0x83")
    && p.startLba == 33_554_432 && p.sectorCount == 16_777_216
  }

  /** Layout v1 of a 32 GB device with 512-byte sectors, for any manifest digest. */
  predicate ValidLayout(l: Layout) {
    && l.schema == Ascii("kernaid.rescue-device-layout.v1") && Hexadecimal(l.manifestSha256, 64)
    && l.partitionTable == Ascii("mbr") && l.sectorBytes == 512 && l.mediaBytes == 25_769_803_776
    && l.advertisedBytes == 32_000_000_000 && l.advertisedLabel == Ascii("32 GB") && l.profileVersion == 1
    && l.profileSha256 == PROFILE_DIGEST && IsVaultPartition(l.vault)
  }

  /** The members are those of the layout. */
  ghost predicate LayoutHolds(f: map<Key, Document>, l: Layout) {
    && f.Keys == LAYOUT_KEYS
    && f[Schema] == Text(l.schema) && f[ManifestSha256] == Text(l.manifestSha256)
    && f[PartitionTable] == Text(l.partitionTable) && f[SectorBytes] == Int(l.sectorBytes)
    && f[MediaBytes] == Int(l.mediaBytes) && f[AdvertisedBytes] == Int(l.advertisedBytes)
    && f[AdvertisedLabel] == Text(l.advertisedLabel) && f[ProfileVersion] == Int(l.profileVersion)
    && f[ProfileSha256] == Text(l.profileSha256) && f[VaultPartition] == PartitionValue(l.vault)
  }

  lemma LayoutValueHolds(l: Layout)
    ensures LayoutHolds(LayoutValue(l).fields, l)
  {
  }

  lemma FirstHalfIsHex()
    ensures HexOf(Ascii("b4801359bd4f31ce67fbd3ec15b6c81c"), 32)
  {
  }

  lemma SecondHalfIsHex()
    ensures HexOf(Ascii("44aa6759ba43b2a4e099a7dfcc25a37c"), 32)
  {
  }

  lemma HexJoined(a: Str, b: Str)
    requires HexOf(a, 32) && HexOf(b, 32)
    ensures HexOf(a + b, 64)
  {
  }

  lemma ProfileIsDigest()
    ensures HexOf(PROFILE_DIGEST, 64)
  {
    FirstHalfIsHex();
    SecondHalfIsHex();
    HexJoined(Ascii("b4801359bd4f31ce67fbd3ec15b6c81c"), Ascii("44aa6759ba43b2a4e099a7dfcc25a37c"));
  }

  lemma HeldLayoutReadsBack(f: map<Key, Document>, l: Layout)
    requires LayoutHolds(f, l)
    ensures ReadLayout(Dict(f)) == if ValidLayout(l) then Some(l) else None
  {
    PartitionReadsBack(l.vault);
    ConstantsAreText();
    ProfileIsDigest();
    HexExactly(l.manifestSha256, 64);
  }

  /** A layout is accepted exactly when its manifest digest is one and everything else is
      what layout v1 fixes; and then it is read back. */
  lemma LayoutReadsBack(l: Layout)
    ensures ReadLayout(LayoutValue(l)) == if ValidLayout(l) then Some(l) else None
  {
    LayoutValueHolds(l);
    HeldLayoutReadsBack(LayoutValue(l).fields, l);
  }

  /** Whatever document is accepted, the layout read from it is a valid one. */
  lemma ReadLayoutValid(v: Document)
    ensures ReadLayout(v).Some? ==> ValidLayout(ReadLayout(v).value)
  {
    if ReadLayout(v).Some? {
      HexExactly(ReadLayout(v).value.manifestSha256, 64);
    }
  }

  lemma PartitionExactly(v: Document, p: Partition)
    ensures ReadPartition(v) == Some(p) <==> v == PartitionValue(p) && IsVaultPartition(p)
  {
    PartitionReadsBack(p);
    if ReadPartition(v) == Some(p) {
      assert v.fields == PartitionValue(p).fields;
    }
  }

  lemma HeldIsValue(f: map<Key, Document>, l: Layout)
    requires LayoutHolds(f, l)
    ensures Dict(f) == LayoutValue(l)
  {
    LayoutValueHolds(l);
    assert f == LayoutValue(l).fields;
  }

  /** A document is read as a layout exactly when it is the document of a valid one. */
  lemma LayoutExactly(v: Document, l: Layout)
    ensures ReadLayout(v) == Some(l) <==> v == LayoutValue(l) && ValidLayout(l)
  {
    LayoutReadsBack(l);
    if ReadLayout(v) == Some(l) {
      ReadLayoutValid(v);
      PartitionExactly(v.fields[VaultPartition], l.vault);
      HeldIsValue(v.fields, l);
    }
  }
}
