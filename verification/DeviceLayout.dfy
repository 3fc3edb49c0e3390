/** The MBR rules of the device layout: partition entries, the checks on a boot record,
    and what finalizing adds to it. */
module DeviceLayout {
  import opened Texts

  const MBR_BYTES := 512
  const SIGNATURE_OFFSET := 510
  const TABLE_OFFSET := 446
  const ENTRY_BYTES := 16
  const UINT32_LIMIT := 0x1_0000_0000
  const VAULT_SLOT := 3

  datatype Layout = Layout(sectorBytes: nat, vaultType: int, vaultStart: int, vaultSectors: int)

  /** The geometry that the manifest must repeat exactly. */
  const LAYOUT_V1 := Layout(512, 0x83, 33_554_432, 16_777_216)

  /** What manifest parsing guarantees of every layout it returns. */
  predicate ValidLayout(layout: Layout) {
    && layout.sectorBytes > 0
    && 0 <= layout.vaultType <= 0xFF
    && 0 < layout.vaultStart < UINT32_LIMIT
    && 0 < layout.vaultSectors < UINT32_LIMIT
    && layout.vaultStart + layout.vaultSectors <= UINT32_LIMIT
  }

  datatype LayoutError =
    | MbrTooSmall
    | NoBootSignature
    | ImageReachesVault
    | NotPopulated(slot: int)
    | InvalidStatus(slot: int)
    | EmptyRange(slot: int)
    | ExceedsMbr(slot: int)
    | BeyondImage(slot: int)
    | FirstNotBootable
    | SecondBootable
    | NotAscending
    | Overlapping
    | UntypedFirst
    | FieldRange
    | FourthOccupied
    | VaultConflict
    | NotFinalized
    | ShortRead
    | SizeChanged
    | OutsideChanged
    | Io

  // ----- little-endian fields

  function Little32(n: int): (b: Bytes)
    requires 0 <= n < UINT32_LIMIT
    ensures |b| == 4
  {
    [n % 0x100, n / 0x100 % 0x100, n / 0x1_0000 % 0x100, n / 0x100_0000]
  }

  function Value32(b: Bytes): (n: int)
    requires |b| == 4
    ensures 0 <= n < UINT32_LIMIT
  {
    var b0: int, b1: int, b2: int, b3: int := b[0], b[1], b[2], b[3];
    b0 + 0x100 * b1 + 0x1_0000 * b2 + 0x100_0000 * b3
  }

  lemma Little32RoundTrip(n: int)
    requires 0 <= n < UINT32_LIMIT
    ensures Value32(Little32(n)) == n
  {
    assert n == 0x100 * (n / 0x100) + n % 0x100;
    assert n / 0x100 == 0x100 * (n / 0x1_0000) + n / 0x100 % 0x100;
    assert n / 0x1_0000 == 0x100 * (n / 0x100_0000) + n / 0x1_0000 % 0x100;
  }

  lemma Value32RoundTrip(b: Bytes)
    requires |b| == 4
    ensures Little32(Value32(b)) == b
  {
    var n := Value32(b);
    var b1: int, b2: int, b3: int := b[1], b[2], b[3];
    assert n / 0x100 == b1 + 0x100 * b2 + 0x1_0000 * b3;
    assert n / 0x1_0000 == b2 + 0x100 * b3;
    assert n / 0x100_0000 == b3;
  }

  // ----- partition entries

  datatype Partition = Partition(slot: int, raw: Bytes, status: int, typeCode: int, start: int, sectors: int) {
    predicate IsEmpty() {
      raw == seq(ENTRY_BYTES, _ => 0)
    }

    function End(): int {
      start + sectors
    }
  }

  function PartitionOffset(slot: int): (n: nat)
    requires 1 <= slot <= 4
    ensures TABLE_OFFSET <= n && n + ENTRY_BYTES <= SIGNATURE_OFFSET
  {
    TABLE_OFFSET + (slot - 1) * ENTRY_BYTES
  }

  function Slot(mbr: Bytes, slot: int): (raw: Bytes)
    requires |mbr| == MBR_BYTES && 1 <= slot <= 4
    ensures |raw| == ENTRY_BYTES
  {
    mbr[PartitionOffset(slot)..PartitionOffset(slot) + ENTRY_BYTES]
  }

  function ParseEntry(raw: Bytes, slot: int): Partition
    requires |raw| == ENTRY_BYTES
  {
    Partition(slot, raw, raw[0], raw[4], Value32(raw[8..12]), Value32(raw[12..16]))
  }

  const MAXIMUM_CHS: Bytes := [0xFE, 0xFF, 0xFF]

  predicate InRange(status: int, typeCode: int, start: int, sectors: int) {
    && 0 <= status <= 0xFF && 0 <= typeCode <= 0xFF
    && 0 < start < UINT32_LIMIT && 0 < sectors < UINT32_LIMIT
    && start + sectors <= UINT32_LIMIT
  }

  function EncodeEntry(status: int, typeCode: int, start: int, sectors: int): (r: Result<Bytes, LayoutError>)
    ensures r.Ok? <==> InRange(status, typeCode, start, sectors)
    ensures r.Ok? ==> |r.value| == ENTRY_BYTES && r.value[0] == status && r.value[4] == typeCode
    ensures r.Ok? ==> r.value[1..4] == MAXIMUM_CHS && r.value[5..8] == MAXIMUM_CHS
    ensures r.Ok? ==> r.value[8..12] == Little32(start) && r.value[12..16] == Little32(sectors)
  {
    if !InRange(status, typeCode, start, sectors) then Err(FieldRange)
    else Ok([status] + MAXIMUM_CHS + [typeCode] + MAXIMUM_CHS + Little32(start) + Little32(sectors))
  }

  /** Parsing an encoded entry gives back the fields. */
  lemma ParseEncoded(status: int, typeCode: int, start: int, sectors: int, slot: int)
    requires InRange(status, typeCode, start, sectors)
    ensures var raw := EncodeEntry(status, typeCode, start, sectors).value;
            ParseEntry(raw, slot) == Partition(slot, raw, status, typeCode, start, sectors)
  {
    Little32RoundTrip(start);
    Little32RoundTrip(sectors);
  }

  /** Encoding the fields of an entry gives the entry back exactly when its addresses
      are in range and its cylinder fields hold the maximum. */
  lemma EncodeParsed(raw: Bytes, slot: int)
    requires |raw| == ENTRY_BYTES
    ensures var p := ParseEntry(raw, slot);
            EncodeEntry(p.status, p.typeCode, p.start, p.sectors) == Ok(raw) <==>
            && raw[1..4] == MAXIMUM_CHS && raw[5..8] == MAXIMUM_CHS
            && 0 < p.start && 0 < p.sectors && p.End() <= UINT32_LIMIT
  {
    var p := ParseEntry(raw, slot);
    Value32RoundTrip(raw[8..12]);
    Value32RoundTrip(raw[12..16]);
    if InRange(p.status, p.typeCode, p.start, p.sectors) {
      assert raw == [raw[0]] + raw[1..4] + [raw[4]] + raw[5..8] + raw[8..12] + raw[12..16];
    }
  }

  function VaultEntry(layout: Layout): Result<Bytes, LayoutError> {
    EncodeEntry(0, layout.vaultType, layout.vaultStart, layout.vaultSectors)
  }

  // ----- the checks on a boot record

  function CheckOccupied(p: Partition, imageSectors: int): Option<LayoutError> {
    if p.IsEmpty() then Some(NotPopulated(p.slot))
    else if p.status != 0x00 && p.status != 0x80 then Some(InvalidStatus(p.slot))
    else if p.start == 0 || p.sectors == 0 then Some(EmptyRange(p.slot))
    else if p.End() > UINT32_LIMIT then Some(ExceedsMbr(p.slot))
    else if p.End() > imageSectors then Some(BeyondImage(p.slot))
    else None
  }

  predicate Overlap(a: Partition, b: Partition) {
    a.start < b.End() && b.start < a.End()
  }

  /** Debian's hybrid image: slot 2 nested in the untyped bootable slot 1. */
  predicate IsEnvelope(a: Partition, b: Partition) {
    && a.status == 0x80 && a.typeCode == 0x00
    && b.status == 0x00 && b.typeCode == 0xEF
    && a.start < b.start && b.End() <= a.End()
  }

  function CheckPair(a: Partition, b: Partition, imageSectors: int): Option<LayoutError> {
    if CheckOccupied(a, imageSectors).Some? then CheckOccupied(a, imageSectors)
    else if CheckOccupied(b, imageSectors).Some? then CheckOccupied(b, imageSectors)
    else if a.status != 0x80 then Some(FirstNotBootable)
    else if b.status != 0x00 then Some(SecondBootable)
    else if a.start >= b.start then Some(NotAscending)
    else if Overlap(a, b) && !IsEnvelope(a, b) then Some(Overlapping)
    else if a.typeCode == 0x00 && !IsEnvelope(a, b) then Some(UntypedFirst)
    else None
  }

  function ImageSectors(imageSize: nat, layout: Layout): nat
    requires layout.sectorBytes > 0
  {
    (imageSize + layout.sectorBytes - 1) / layout.sectorBytes
  }

  /** The check of everything but the vault slot. */
  function CheckAround(mbr: Bytes, imageSize: nat, layout: Layout): Option<LayoutError>
    requires layout.sectorBytes > 0
  {
    if |mbr| != MBR_BYTES then Some(MbrTooSmall)
    else if mbr[SIGNATURE_OFFSET..] != [0x55, 0xAA] then Some(NoBootSignature)
    else if imageSize >= layout.vaultStart * layout.sectorBytes then Some(ImageReachesVault)
    else
      var sectors := ImageSectors(imageSize, layout);
      var pair := CheckPair(ParseEntry(Slot(mbr, 1), 1), ParseEntry(Slot(mbr, 2), 2), sectors);
      if pair.Some? then pair
      else if VaultEntry(layout).Err? then Some(VaultEntry(layout).error)
      else if !ParseEntry(Slot(mbr, 4), 4).IsEmpty() then Some(FourthOccupied)
      else None
  }

  /** `_validate_mbr`: whether the vault slot is already final, or why the record is refused. */
  function ValidateMbr(mbr: Bytes, imageSize: nat, layout: Layout, requireFinalized: bool)
    : Result<bool, LayoutError>
    requires layout.sectorBytes > 0
  {
    var around := CheckAround(mbr, imageSize, layout);
    if around.Some? then Err(around.value)
    else if Slot(mbr, VAULT_SLOT) == VaultEntry(layout).value then Ok(true)
    else if !ParseEntry(Slot(mbr, VAULT_SLOT), VAULT_SLOT).IsEmpty() then Err(VaultConflict)
    else if requireFinalized then Err(NotFinalized)
    else Ok(false)
  }

  lemma SectorsBeforeVault(imageSize: nat, layout: Layout)
    requires layout.sectorBytes > 0 && imageSize < layout.vaultStart * layout.sectorBytes
    ensures ImageSectors(imageSize, layout) <= layout.vaultStart
  {
    var s, q := layout.sectorBytes, ImageSectors(imageSize, layout);
    assert q * s <= imageSize + s - 1;
    assert imageSize + s - 1 < (layout.vaultStart + 1) * s;
    TimesMonotone(layout.vaultStart + 1, q, s);
  }

  lemma TimesMonotone(a: int, b: int, s: nat)
    ensures a <= b ==> a * s <= b * s
  {
  }

  /** In every accepted record the system partitions are bootable, non-empty and end
      before the vault; slot 2 is disjoint from slot 1 or nested in it; and the vault,
      when final, is exactly the layout's range within 32-bit addresses. */
  lemma AcceptedGeometry(mbr: Bytes, imageSize: nat, layout: Layout, requireFinalized: bool)
    requires layout.sectorBytes > 0 && ValidateMbr(mbr, imageSize, layout, requireFinalized).Ok?
    ensures |mbr| == MBR_BYTES
    ensures var a, b, v := ParseEntry(Slot(mbr, 1), 1), ParseEntry(Slot(mbr, 2), 2), ParseEntry(Slot(mbr, 3), 3);
            && a.status == 0x80 && b.status == 0 && 0 < a.start < a.End() && a.start < b.start < b.End()
            && a.End() <= layout.vaultStart && b.End() <= layout.vaultStart
            && (a.End() <= b.start || b.End() <= a.End())
            && (ValidateMbr(mbr, imageSize, layout, requireFinalized).value ==>
                  && v.status == 0 && v.typeCode == layout.vaultType
                  && v.start == layout.vaultStart && v.sectors == layout.vaultSectors
                  && v.End() <= UINT32_LIMIT)
            && (!ValidateMbr(mbr, imageSize, layout, requireFinalized).value ==> v.IsEmpty() && !requireFinalized)
  {
    SectorsBeforeVault(imageSize, layout);
    PairGeometry(ParseEntry(Slot(mbr, 1), 1), ParseEntry(Slot(mbr, 2), 2), ImageSectors(imageSize, layout));
    if ValidateMbr(mbr, imageSize, layout, requireFinalized).value {
      ParseEncoded(0, layout.vaultType, layout.vaultStart, layout.vaultSectors, 3);
    }
  }

  lemma PairGeometry(a: Partition, b: Partition, imageSectors: int)
    requires CheckPair(a, b, imageSectors).None?
    requires a.start >= 0 && a.sectors >= 0 && b.start >= 0 && b.sectors >= 0
    ensures a.status == 0x80 && b.status == 0 && 0 < a.start < a.End() && a.start < b.start < b.End()
    ensures a.End() <= imageSectors && b.End() <= imageSectors && (a.End() <= b.start || b.End() <= a.End())
  {
  }

  /** A number of four bytes in a record, the lowest first. */
  function Word(mbr: Bytes, at: nat): (n: int)
    requires at + 4 <= |mbr|
    ensures 0 <= n < UINT32_LIMIT
  {
    mbr[at] as int + 0x100 * mbr[at + 1] as int + 0x1_0000 * mbr[at + 2] as int + 0x100_0000 * mbr[at + 3] as int
  }

  /** The range of sectors is not empty and its last sector starts inside the image. */
  predicate Inside(start: int, sectors: int, imageSize: nat, layout: Layout) {
    0 < start && 0 < sectors && (start + sectors - 1) * layout.sectorBytes < imageSize
  }

  /** The two system partitions, in bytes 446 to 478. */
  predicate SystemPair(mbr: Bytes, imageSize: nat, layout: Layout)
    requires |mbr| == 512
  {
    var start1, end1 := Word(mbr, 454), Word(mbr, 454) + Word(mbr, 458);
    var start2, end2 := Word(mbr, 470), Word(mbr, 470) + Word(mbr, 474);
    && mbr[446] == 0x80 && mbr[462] == 0x00 && start1 < start2
    && Inside(start1, Word(mbr, 458), imageSize, layout) && Inside(start2, Word(mbr, 474), imageSize, layout)
    && (if mbr[450] == 0 then mbr[466] == 0xEF && end2 <= end1 else end1 <= start2)
  }

  /** Bytes 478 to 494 are the entry of the vault: not bootable, of its type, with the
      largest cylinder fields and exactly its range. */
  predicate HoldsVault(bytes: Bytes, layout: Layout) {
    && |bytes| >= 512
    && bytes[478] == 0x00 && bytes[479..482] == [0xFE, 0xFF, 0xFF]
    && bytes[482] == layout.vaultType && bytes[483..486] == [0xFE, 0xFF, 0xFF]
    && Word(bytes, 486) == layout.vaultStart && Word(bytes, 490) == layout.vaultSectors
  }

  /** Bytes 478 to 494 are zero. */
  predicate NoVault(bytes: Bytes) {
    |bytes| >= 512 && forall i | 478 <= i < 494 :: bytes[i] == 0
  }

  lemma SlotFields(mbr: Bytes, slot: int)
    requires |mbr| == MBR_BYTES && 1 <= slot <= 4
    ensures var p, at := ParseEntry(Slot(mbr, slot), slot), 446 + 16 * (slot - 1);
            && p.status == mbr[at] && p.typeCode == mbr[at + 4]
            && p.start == Word(mbr, at + 8) && p.sectors == Word(mbr, at + 12)
    ensures var at := 446 + 16 * (slot - 1);
            ParseEntry(Slot(mbr, slot), slot).IsEmpty() <==> forall i | at <= i < at + 16 :: mbr[i] == 0
  {
    var raw, at := Slot(mbr, slot), 446 + 16 * (slot - 1);
    assert forall i | 0 <= i < 16 :: raw[i] == mbr[at + i];
    if ParseEntry(raw, slot).IsEmpty() {
      forall i | at <= i < at + 16 ensures mbr[i] == 0 {
        assert raw[i - at] == 0;
      }
    }
    if forall i | at <= i < at + 16 :: mbr[i] == 0 {
      assert raw == seq(ENTRY_BYTES, _ => 0);
    }
  }

  lemma WordIs(b: Bytes, at: nat, n: int)
    requires at + 4 <= |b| && 0 <= n < UINT32_LIMIT
    ensures b[at..at + 4] == Little32(n) <==> Word(b, at) == n
  {
    Little32RoundTrip(n);
    Value32RoundTrip(b[at..at + 4]);
  }

  lemma SameEntry(a: Bytes, b: Bytes)
    requires |a| == |b| == 16
    ensures a == b <==>
            && a[0] == b[0] && a[1..4] == b[1..4] && a[4] == b[4] && a[5..8] == b[5..8]
            && a[8..12] == b[8..12] && a[12..16] == b[12..16]
  {
    assert a == [a[0]] + a[1..4] + [a[4]] + a[5..8] + a[8..12] + a[12..16];
    assert b == [b[0]] + b[1..4] + [b[4]] + b[5..8] + b[8..12] + b[12..16];
  }

  lemma EntryParts(bytes: Bytes)
    requires |bytes| >= MBR_BYTES
    ensures var slot := bytes[478..494];
            && slot[0] == bytes[478] && slot[4] == bytes[482]
            && slot[1..4] == bytes[479..482] && slot[5..8] == bytes[483..486]
            && slot[8..12] == bytes[486..490] && slot[12..16] == bytes[490..494]
  {
  }

  /** The bytes of the vault slot are the encoded entry exactly when they hold the vault. */
  lemma VaultBytes(bytes: Bytes, layout: Layout)
    requires |bytes| >= MBR_BYTES && InRange(0, layout.vaultType, layout.vaultStart, layout.vaultSectors)
    ensures bytes[478..494] == VaultEntry(layout).value <==> HoldsVault(bytes, layout)
  {
    WordIs(bytes, 486, layout.vaultStart);
    WordIs(bytes, 490, layout.vaultSectors);
    EntryParts(bytes);
    SameEntry(bytes[478..494], VaultEntry(layout).value);
  }

  lemma WithinSectors(end: int, imageSize: nat, layout: Layout)
    requires layout.sectorBytes > 0
    ensures end <= ImageSectors(imageSize, layout) <==> (end - 1) * layout.sectorBytes < imageSize
  {
    var s, q := layout.sectorBytes, ImageSectors(imageSize, layout);
    assert q * s <= imageSize + s - 1 < q * s + s;
    TimesMonotone(end, q, s);
    TimesMonotone(q + 1, end, s);
    assert (end - 1) * s == end * s - s;
    assert (q + 1) * s == q * s + s;
  }

  lemma PairExactly(a: Partition, b: Partition, imageSize: nat, layout: Layout)
    requires layout.sectorBytes > 0 && layout.vaultStart <= UINT32_LIMIT
    requires imageSize < layout.vaultStart * layout.sectorBytes && |a.raw| == |b.raw| == ENTRY_BYTES
    requires a == ParseEntry(a.raw, a.slot) && b == ParseEntry(b.raw, b.slot)
    ensures CheckPair(a, b, ImageSectors(imageSize, layout)).None? <==>
            && a.status == 0x80 && b.status == 0 && a.start < b.start
            && Inside(a.start, a.sectors, imageSize, layout) && Inside(b.start, b.sectors, imageSize, layout)
            && (if a.typeCode == 0 then b.typeCode == 0xEF && b.End() <= a.End() else a.End() <= b.start)
  {
    SectorsBeforeVault(imageSize, layout);
    OccupiedExactly(a, imageSize, layout);
    OccupiedExactly(b, imageSize, layout);
  }

  lemma OccupiedExactly(p: Partition, imageSize: nat, layout: Layout)
    requires layout.sectorBytes > 0 && |p.raw| == ENTRY_BYTES && p == ParseEntry(p.raw, p.slot)
    requires ImageSectors(imageSize, layout) <= UINT32_LIMIT
    ensures CheckOccupied(p, ImageSectors(imageSize, layout)).None? <==>
            (p.status == 0 || p.status == 0x80) && Inside(p.start, p.sectors, imageSize, layout)
  {
    WithinSectors(p.End(), imageSize, layout);
    if p.IsEmpty() {
      assert p.raw[8..12] == [0, 0, 0, 0];
    }
  }

  lemma SystemPairExactly(mbr: Bytes, imageSize: nat, layout: Layout)
    requires |mbr| == MBR_BYTES && layout.sectorBytes > 0 && layout.vaultStart <= UINT32_LIMIT
    requires imageSize < layout.vaultStart * layout.sectorBytes
    ensures var a, b := ParseEntry(Slot(mbr, 1), 1), ParseEntry(Slot(mbr, 2), 2);
            CheckPair(a, b, ImageSectors(imageSize, layout)).None? <==> SystemPair(mbr, imageSize, layout)
  {
    SlotFields(mbr, 1);
    SlotFields(mbr, 2);
    PairExactly(ParseEntry(Slot(mbr, 1), 1), ParseEntry(Slot(mbr, 2), 2), imageSize, layout);
  }

  /** Everything around the vault slot of an acceptable record. */
  predicate AcceptableAround(mbr: Bytes, imageSize: nat, layout: Layout) {
    && |mbr| == 512 && mbr[510] == 0x55 && mbr[511] == 0xAA
    && InRange(0, layout.vaultType, layout.vaultStart, layout.vaultSectors)
    && imageSize < layout.vaultStart * layout.sectorBytes
    && SystemPair(mbr, imageSize, layout)
    && (forall i | 494 <= i < 510 :: mbr[i] == 0)
  }

  lemma AroundExactly(mbr: Bytes, imageSize: nat, layout: Layout)
    requires layout.sectorBytes > 0
    ensures CheckAround(mbr, imageSize, layout).None? <==> AcceptableAround(mbr, imageSize, layout)
  {
    if |mbr| == MBR_BYTES {
      assert mbr[SIGNATURE_OFFSET..] == [mbr[510], mbr[511]];
      SlotFields(mbr, 4);
      if VaultEntry(layout).Ok? && imageSize < layout.vaultStart * layout.sectorBytes {
        SystemPairExactly(mbr, imageSize, layout);
      }
    }
  }

  /** What the boot record of an acceptable image is. */
  predicate Acceptable(mbr: Bytes, imageSize: nat, layout: Layout, requireFinalized: bool) {
    && AcceptableAround(mbr, imageSize, layout)
    && (HoldsVault(mbr, layout) || (!requireFinalized && NoVault(mbr)))
  }

  /** `_validate_mbr` accepts exactly the acceptable records, and says of an accepted one
      whether it holds the vault; its 32-bit and emptiness checks of the system partitions
      exclude nothing more. */
  lemma AcceptedExactly(mbr: Bytes, imageSize: nat, layout: Layout, requireFinalized: bool)
    requires layout.sectorBytes > 0
    ensures var r := ValidateMbr(mbr, imageSize, layout, requireFinalized);
            && (r.Ok? <==> Acceptable(mbr, imageSize, layout, requireFinalized))
            && (r.Ok? ==> (if r.value then HoldsVault(mbr, layout) else NoVault(mbr)))
  {
    AroundExactly(mbr, imageSize, layout);
    if CheckAround(mbr, imageSize, layout).None? {
      SlotFields(mbr, 3);
      VaultBytes(mbr, layout);
    }
  }

  // ----- why a record is refused

  /** An entry with these fields is refused for this reason. */
  predicate EntryRefused(
    e: LayoutError, number: int, empty: bool, status: int, start: int, sectors: int, imageSize: nat, layout: Layout)
  {
    match e
    case NotPopulated(n) => n == number && empty
    case InvalidStatus(n) => n == number && status != 0x00 && status != 0x80
    case EmptyRange(n) => n == number && (start == 0 || sectors == 0)
    case ExceedsMbr(n) => n == number && start + sectors > 0x1_0000_0000
    case BeyondImage(n) => n == number && (start + sectors - 1) * layout.sectorBytes >= imageSize
    case _ => false
  }

  lemma OccupiedRefused(p: Partition, imageSize: nat, layout: Layout)
    requires layout.sectorBytes > 0
    ensures var e := CheckOccupied(p, ImageSectors(imageSize, layout));
            e.Some? ==> EntryRefused(e.value, p.slot, p.IsEmpty(), p.status, p.start, p.sectors, imageSize, layout)
  {
    WithinSectors(p.End(), imageSize, layout);
  }

  /** The two system partitions are refused for this reason. */
  predicate PairRefused(e: LayoutError, status1: int, type1: int, start1: int, end1: int,
                        status2: int, type2: int, start2: int, end2: int)
  {
    match e
    case FirstNotBootable => status1 == 0x00
    case SecondBootable => status2 == 0x80
    case NotAscending => start2 <= start1
    case Overlapping => start1 < start2 < end1 && (type1 != 0x00 || type2 != 0xEF || end1 < end2)
    case UntypedFirst => type1 == 0x00 && end1 <= start2
    case _ => false
  }

  /** One of the system partitions, or how they lie, is refused for this reason. */
  predicate SystemRefused(e: LayoutError, mbr: Bytes, imageSize: nat, layout: Layout)
    requires |mbr| == 512
  {
    var start1, sectors1, start2, sectors2 := Word(mbr, 454), Word(mbr, 458), Word(mbr, 470), Word(mbr, 474);
    || EntryRefused(e, 1, forall i | 446 <= i < 462 :: mbr[i] == 0, mbr[446], start1, sectors1, imageSize, layout)
    || EntryRefused(e, 2, forall i | 462 <= i < 478 :: mbr[i] == 0, mbr[462], start2, sectors2, imageSize, layout)
    || PairRefused(e, mbr[446], mbr[450], start1, start1 + sectors1, mbr[462], mbr[466], start2, start2 + sectors2)
  }

  lemma CheckedPairRefused(a: Partition, b: Partition, imageSize: nat, layout: Layout)
    requires layout.sectorBytes > 0 && a.sectors >= 0 && b.sectors >= 0
    ensures var e := CheckPair(a, b, ImageSectors(imageSize, layout));
            e.Some? ==>
              || EntryRefused(e.value, a.slot, a.IsEmpty(), a.status, a.start, a.sectors, imageSize, layout)
              || EntryRefused(e.value, b.slot, b.IsEmpty(), b.status, b.start, b.sectors, imageSize, layout)
              || PairRefused(e.value, a.status, a.typeCode, a.start, a.End(), b.status, b.typeCode, b.start, b.End())
  {
    OccupiedRefused(a, imageSize, layout);
    OccupiedRefused(b, imageSize, layout);
  }

  lemma SystemRefusedFor(mbr: Bytes, imageSize: nat, layout: Layout)
    requires |mbr| == MBR_BYTES && layout.sectorBytes > 0
    ensures var a, b := ParseEntry(Slot(mbr, 1), 1), ParseEntry(Slot(mbr, 2), 2);
            var e := CheckPair(a, b, ImageSectors(imageSize, layout));
            e.Some? ==> SystemRefused(e.value, mbr, imageSize, layout)
  {
    CheckedPairRefused(ParseEntry(Slot(mbr, 1), 1), ParseEntry(Slot(mbr, 2), 2), imageSize, layout);
    SlotFields(mbr, 1);
    SlotFields(mbr, 2);
  }

  /** The record is refused for this reason. */
  predicate Refused(e: LayoutError, mbr: Bytes, imageSize: nat, layout: Layout, requireFinalized: bool) {
    || (e == MbrTooSmall && |mbr| != 512)
    || (e == NoBootSignature && |mbr| == 512 && (mbr[510] != 0x55 || mbr[511] != 0xAA))
    || (e == ImageReachesVault && imageSize >= layout.vaultStart * layout.sectorBytes)
    || (|mbr| == 512 && SystemRefused(e, mbr, imageSize, layout))
    || (e == FieldRange && !InRange(0, layout.vaultType, layout.vaultStart, layout.vaultSectors))
    || (e == FourthOccupied && |mbr| == 512 && exists i | 494 <= i < 510 :: mbr[i] != 0)
    || (e == VaultConflict && |mbr| == 512 && !HoldsVault(mbr, layout) && !NoVault(mbr))
    || (e == NotFinalized && requireFinalized && NoVault(mbr) && !HoldsVault(mbr, layout))
  }

  lemma AroundRefused(mbr: Bytes, imageSize: nat, layout: Layout, requireFinalized: bool)
    requires layout.sectorBytes > 0
    ensures var e := CheckAround(mbr, imageSize, layout);
            e.Some? ==> Refused(e.value, mbr, imageSize, layout, requireFinalized)
  {
    if |mbr| == MBR_BYTES {
      assert mbr[SIGNATURE_OFFSET..] == [mbr[510], mbr[511]];
      SlotFields(mbr, 4);
      SystemRefusedFor(mbr, imageSize, layout);
    }
  }

  /** A refused record has the fault that is reported. */
  lemma RefusedFor(mbr: Bytes, imageSize: nat, layout: Layout, requireFinalized: bool)
    requires layout.sectorBytes > 0
    ensures var r := ValidateMbr(mbr, imageSize, layout, requireFinalized);
            r.Err? ==> Refused(r.error, mbr, imageSize, layout, requireFinalized)
  {
    AroundRefused(mbr, imageSize, layout, requireFinalized);
    AroundExactly(mbr, imageSize, layout);
    if CheckAround(mbr, imageSize, layout).None? {
      SlotFields(mbr, 3);
      VaultBytes(mbr, layout);
    }
  }

  // ----- finalizing

  /** The image after the first k bytes of an entry were written over the vault slot. */
  function Written(image: Bytes, entry: Bytes, k: nat): (r: Bytes)
    requires |image| >= MBR_BYTES && |entry| == ENTRY_BYTES && k <= ENTRY_BYTES
    ensures |r| == |image|
    ensures forall i | 0 <= i < |image| ::
              r[i] == if 478 <= i < 478 + k then entry[i - 478] else image[i]
  {
    var offset := PartitionOffset(VAULT_SLOT);
    image[..offset] + entry[..k] + image[offset + k..]
  }

  lemma WrittenSlots(image: Bytes, entry: Bytes, k: nat)
    requires |image| >= MBR_BYTES && |entry| == ENTRY_BYTES && k <= ENTRY_BYTES
    ensures var before, after := image[..MBR_BYTES], Written(image, entry, k)[..MBR_BYTES];
            && (forall slot | 1 <= slot <= 4 && slot != VAULT_SLOT :: Slot(after, slot) == Slot(before, slot))
            && after[SIGNATURE_OFFSET..] == before[SIGNATURE_OFFSET..]
            && Slot(after, VAULT_SLOT) == entry[..k] + Slot(before, VAULT_SLOT)[k..]
  {
    var before, after := image[..MBR_BYTES], Written(image, entry, k)[..MBR_BYTES];
    assert forall i | 0 <= i < MBR_BYTES && !(478 <= i < 478 + k) :: after[i] == before[i];
    forall slot | 1 <= slot <= 4 && slot != VAULT_SLOT ensures Slot(after, slot) == Slot(before, slot) {
      var offset := PartitionOffset(slot);
      assert offset + ENTRY_BYTES <= 478 || offset >= 494;
      forall i | 0 <= i < ENTRY_BYTES ensures Slot(after, slot)[i] == Slot(before, slot)[i] {
        assert after[offset + i] == before[offset + i];
      }
    }
    var now, was := Slot(after, VAULT_SLOT), Slot(before, VAULT_SLOT);
    forall i | 0 <= i < ENTRY_BYTES ensures now[i] == (entry[..k] + was[k..])[i] {
      assert now[i] == after[478 + i] && was[i] == before[478 + i];
    }
  }

  /** Writing into the vault slot leaves every other check as it was. */
  lemma WrittenAround(image: Bytes, entry: Bytes, k: nat, layout: Layout)
    requires |image| >= MBR_BYTES && |entry| == ENTRY_BYTES && k <= ENTRY_BYTES && layout.sectorBytes > 0
    ensures CheckAround(Written(image, entry, k)[..MBR_BYTES], |image|, layout) ==
            CheckAround(image[..MBR_BYTES], |image|, layout)
  {
    WrittenSlots(image, entry, k);
    var before, after := image[..MBR_BYTES], Written(image, entry, k)[..MBR_BYTES];
    assert Slot(after, 1) == Slot(before, 1) && Slot(after, 2) == Slot(before, 2) && Slot(after, 4) == Slot(before, 4);
  }

  /** The check of a whole image. */
  function Inspect(image: Bytes, layout: Layout, requireFinalized: bool): Result<bool, LayoutError>
    requires layout.sectorBytes > 0 && |image| >= MBR_BYTES
  {
    ValidateMbr(image[..MBR_BYTES], |image|, layout, requireFinalized)
  }

  /** What a finalized image holds. */
  function Finalized(image: Bytes, layout: Layout): (r: Bytes)
    requires layout.sectorBytes > 0 && |image| >= MBR_BYTES && Inspect(image, layout, false).Ok?
    ensures |r| == |image|
  {
    Written(image, VaultEntry(layout).value, ENTRY_BYTES)
  }

  lemma FinalizedAccepted(image: Bytes, layout: Layout)
    requires layout.sectorBytes > 0 && |image| >= MBR_BYTES && Inspect(image, layout, false).Ok?
    ensures Inspect(Finalized(image, layout), layout, true) == Ok(true)
  {
    var entry := VaultEntry(layout).value;
    WrittenSlots(image, entry, ENTRY_BYTES);
    WrittenAround(image, entry, ENTRY_BYTES, layout);
    var slot := Slot(image[..MBR_BYTES], VAULT_SLOT);
    assert entry[..ENTRY_BYTES] + slot[ENTRY_BYTES..] == entry;
  }

  /** An image is already final exactly when finalizing would change no byte. */
  lemma FinalizeIdempotent(image: Bytes, layout: Layout)
    requires layout.sectorBytes > 0 && |image| >= MBR_BYTES && Inspect(image, layout, false).Ok?
    ensures Inspect(Finalized(image, layout), layout, false) == Ok(true)
    ensures Finalized(Finalized(image, layout), layout) == Finalized(image, layout)
    ensures Inspect(image, layout, false) == Ok(true) <==> Finalized(image, layout) == image
  {
    FinalizedAccepted(image, layout);
    WrittenTwice(image, VaultEntry(layout).value);
    WrittenSame(image, VaultEntry(layout).value);
  }

  lemma WrittenTwice(image: Bytes, entry: Bytes)
    requires |image| >= MBR_BYTES && |entry| == ENTRY_BYTES
    ensures Written(Written(image, entry, ENTRY_BYTES), entry, ENTRY_BYTES) == Written(image, entry, ENTRY_BYTES)
  {
  }

  lemma WrittenSame(image: Bytes, entry: Bytes)
    requires |image| >= MBR_BYTES && |entry| == ENTRY_BYTES
    ensures Written(image, entry, ENTRY_BYTES) == image <==> Slot(image[..MBR_BYTES], VAULT_SLOT) == entry
  {
    var slot, now := Slot(image[..MBR_BYTES], VAULT_SLOT), Written(image, entry, ENTRY_BYTES);
    assert forall i | 0 <= i < ENTRY_BYTES :: slot[i] == image[478 + i] && entry[i] == now[478 + i];
    if slot == entry {
      forall i | 0 <= i < |image| ensures now[i] == image[i] {
        assert 478 <= i < 494 ==> slot[i - 478] == entry[i - 478];
      }
    }
  }

  lemma VaultEntryV1()
    ensures VaultEntry(LAYOUT_V1) ==
            Ok([0x00, 0xFE, 0xFF, 0xFF, 0x83, 0xFE, 0xFF, 0xFF, 0, 0, 0, 2, 0, 0, 0, 1])
  {
    assert Little32(33_554_432) == [0, 0, 0, 2];
    assert Little32(16_777_216) == [0, 0, 0, 1];
    var entry: Bytes := [0x00, 0xFE, 0xFF, 0xFF, 0x83, 0xFE, 0xFF, 0xFF, 0, 0, 0, 2, 0, 0, 0, 1];
    var start: Bytes, sectors: Bytes := [0, 0, 0, 2], [0, 0, 0, 1];
    assert [0x00] + MAXIMUM_CHS + [0x83] + MAXIMUM_CHS + start + sectors == entry;
    assert EncodeEntry(0, 0x83, 33_554_432, 16_777_216) == Ok(entry);
  }

  /** Only part of the v1 entry, with zeros after it. */
  lemma TornSlot(k: nat)
    requires k <= ENTRY_BYTES
    ensures var zeros := seq(ENTRY_BYTES, _ => 0);
            var slot := VaultEntry(LAYOUT_V1).value[..k] + zeros[k..];
            && (slot == VaultEntry(LAYOUT_V1).value <==> k == ENTRY_BYTES)
            && (slot == zeros <==> k <= 1)
  {
    VaultEntryV1();
    var entry, zeros := VaultEntry(LAYOUT_V1).value, seq(ENTRY_BYTES, _ => 0);
    var slot := entry[..k] + zeros[k..];
    assert k >= 2 ==> slot[1] == 0xFE;
    assert k < ENTRY_BYTES ==> slot[15] == 0;
    assert k == 1 ==> entry[..1] == [0];
  }

  /** A write of the v1 entry that stops after k bytes can be repeated only while it has
      changed nothing: from two bytes on, every later run refuses the image until all
      sixteen are there. */
  lemma TornWrite(image: Bytes, k: nat)
    requires |image| >= MBR_BYTES && Inspect(image, LAYOUT_V1, false) == Ok(false) && k <= ENTRY_BYTES
    ensures Inspect(Written(image, VaultEntry(LAYOUT_V1).value, k), LAYOUT_V1, false) ==
            if k <= 1 then Ok(false) else if k < ENTRY_BYTES then Err(VaultConflict) else Ok(true)
  {
    var entry := VaultEntry(LAYOUT_V1).value;
    WrittenSlots(image, entry, k);
    WrittenAround(image, entry, k, LAYOUT_V1);
    TornSlot(k);
  }
}
