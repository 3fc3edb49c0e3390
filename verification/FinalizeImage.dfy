/** Finalizing an image file in place: reads and writes may be short or fail. */
module FinalizeImage {
  import opened Texts
  import opened DeviceLayout

  /** What a call on the file does: it raises, it moves nothing, or it moves one byte and
      up to so many more. */
  datatype Transfer = Raise | Stall | Move(more: nat)

  /** An open regular file, and what each call on it does. */
  class Image {
    const script: nat -> Transfer
    var calls: nat
    /** How many of the calls were writes. */
    var writes: nat
    var bytes: Bytes
    /** The bytes that the last flush made durable. */
    var durable: Bytes

    constructor (bytes: Bytes, script: nat -> Transfer)
      ensures this.bytes == bytes && this.script == script && calls == 0 && writes == 0 && durable == bytes
    {
      this.bytes, this.script, calls, writes, durable := bytes, script, 0, 0, bytes;
    }

    /** One of these calls raised or moved nothing. */
    ghost predicate Faulted(from: nat, to: nat) {
      exists i | from <= i < to :: !script(i).Move?
    }

    /** `os.pread`: some of the bytes asked for, none only at the end; or it raises. */
    method Pread(length: nat, offset: nat) returns (chunk: Option<Bytes>)
      modifies this`calls
      ensures calls == old(calls) + 1 && (chunk.None? <==> !script(old(calls)).Move?)
      ensures chunk.Some? ==> |chunk.value| <= length && |chunk.value| <= |bytes|
      ensures chunk.Some? && chunk.value != [] ==>
                offset + |chunk.value| <= |bytes| && chunk.value == bytes[offset..offset + |chunk.value|]
      ensures chunk.Some? && chunk.value == [] ==> length == 0 || offset >= |bytes|
    {
      var transfer := script(calls);
      calls := calls + 1;
      if !transfer.Move? {
        return None;
      }
      if offset >= |bytes| || length == 0 {
        return Some([]);
      }
      var count := Least(1 + transfer.more, Least(length, |bytes| - offset));
      return Some(bytes[offset..offset + count]);
    }

    /** `os.pwrite` inside the file: writes a non-empty prefix, or writes nothing and
        reports a count of zero, or raises. */
    method Pwrite(value: Bytes, offset: nat) returns (count: Option<nat>)
      requires value != [] && offset + |value| <= |bytes|
      modifies this`calls, this`writes, this`bytes
      ensures calls == old(calls) + 1 && writes == old(writes) + 1
      ensures count.Some? && count.value > 0 <==> script(old(calls)).Move?
      ensures count.Some? ==> count.value <= |value|
      ensures var n := if count.Some? then count.value else 0;
              bytes == old(bytes)[..offset] + value[..n] + old(bytes)[offset + n..]
    {
      var transfer := script(calls);
      calls, writes := calls + 1, writes + 1;
      var n := if transfer.Move? then Least(1 + transfer.more, |value|) else 0;
      count := if transfer.Raise? then None else Some(n);
      bytes := bytes[..offset] + value[..n] + bytes[offset + n..];
    }

    /** `os.fsync`: makes the bytes durable, or raises. */
    method Fsync() returns (ok: bool)
      modifies this`calls, this`durable
      ensures calls == old(calls) + 1 && (ok <==> script(old(calls)).Move?)
      ensures durable == if ok then bytes else old(durable)
    {
      ok := script(calls).Move?;
      calls := calls + 1;
      if ok {
        durable := bytes;
      }
    }
  }

  function Least(a: nat, b: nat): nat {
    if a <= b then a else b
  }

  method PreadExact(image: Image, length: nat, offset: nat) returns (r: Result<Bytes, LayoutError>)
    modifies image`calls
    ensures old(image.calls) <= image.calls
    ensures r.Ok? && length == 0 ==> r.value == []
    ensures r.Ok? && length > 0 ==>
              offset + length <= |image.bytes| && r.value == image.bytes[offset..offset + length]
    ensures r.Err? ==> length > 0
    ensures r.Err? ==> r.error == Io || (r.error == ShortRead && offset + length > |image.bytes|)
    ensures r == Err(Io) <==> image.Faulted(old(image.calls), image.calls)
  {
    var value: Bytes := [];
    while |value| < length
      invariant |value| <= length && old(image.calls) <= image.calls
      invariant !image.Faulted(old(image.calls), image.calls)
      invariant value != [] ==> offset + |value| <= |image.bytes| && value == image.bytes[offset..offset + |value|]
    {
      var chunk := image.Pread(length - |value|, offset + |value|);
      if chunk.None? {
        return Err(Io);
      }
      if chunk.value == [] {
        return Err(ShortRead);
      }
      ghost var before := value;
      value := value + chunk.value;
      assert value == image.bytes[offset..offset + |before|] + image.bytes[offset + |before|..offset + |value|] ==
             image.bytes[offset..offset + |value|];
    }
    return Ok(value);
  }

  lemma WrittenStep(image: Bytes, entry: Bytes, k: nat, n: nat)
    requires |image| >= MBR_BYTES && |entry| == ENTRY_BYTES && k + n <= ENTRY_BYTES
    ensures var now := Written(image, entry, k);
            now[..478 + k] + entry[k..][..n] + now[478 + k + n..] == Written(image, entry, k + n)
  {
  }

  lemma WrittenNone(image: Bytes, entry: Bytes)
    requires |image| >= MBR_BYTES && |entry| == ENTRY_BYTES
    ensures Written(image, entry, 0) == image
  {
  }

  /** Writes the vault entry; on failure some first part of it has been written. */
  method PwriteEntry(image: Image, entry: Bytes) returns (ok: bool, ghost written: nat)
    requires |image.bytes| >= MBR_BYTES && |entry| == ENTRY_BYTES
    modifies image`calls, image`writes, image`bytes
    ensures written <= ENTRY_BYTES && image.bytes == Written(old(image.bytes), entry, written)
    ensures ok ==> written == ENTRY_BYTES
    ensures old(image.calls) <= image.calls && (ok <==> !image.Faulted(old(image.calls), image.calls))
  {
    var done := 0;
    WrittenNone(image.bytes, entry);
    while done < ENTRY_BYTES
      invariant old(image.calls) <= image.calls && !image.Faulted(old(image.calls), image.calls)
      invariant done <= ENTRY_BYTES && image.bytes == Written(old(image.bytes), entry, done)
    {
      var count := image.Pwrite(entry[done..], PartitionOffset(VAULT_SLOT) + done);
      var n := if count.Some? then count.value else 0;
      WrittenStep(old(image.bytes), entry, done, n);
      if n == 0 {
        return false, done;
      }
      done := done + n;
    }
    return true, done;
  }

  /** Writes the vault entry and flushes the file. */
  method WriteAndFlush(image: Image, entry: Bytes) returns (ok: bool, ghost written: nat)
    requires |image.bytes| >= MBR_BYTES && |entry| == ENTRY_BYTES
    modifies image
    ensures written <= ENTRY_BYTES && image.bytes == Written(old(image.bytes), entry, written)
    ensures ok ==> written == ENTRY_BYTES && image.durable == image.bytes
    ensures old(image.calls) <= image.calls && (ok <==> !image.Faulted(old(image.calls), image.calls))
  {
    ok, written := PwriteEntry(image, entry);
    if ok {
      ok := image.Fsync();
    }
  }

  datatype Action = Verified | AlreadyFinalized | NewlyFinalized

  datatype FinalizeResult = FinalizeResult(action: Action, imageSize: nat, vaultEntry: Bytes)

  /** The check of a file as `process_image` sees it: too short to hold a record, or
      the check of its record. */
  function Verdict(bytes: Bytes, layout: Layout, requireFinalized: bool): Result<bool, LayoutError>
    requires layout.sectorBytes > 0
  {
    if |bytes| < MBR_BYTES then Err(ShortRead) else Inspect(bytes, layout, requireFinalized)
  }

  method ReadMbr(image: Image, layout: Layout, requireFinalized: bool)
    returns (r: Result<bool, LayoutError>, mbr: Bytes)
    requires layout.sectorBytes > 0
    modifies image`calls
    ensures old(image.calls) <= image.calls
    ensures r == if image.Faulted(old(image.calls), image.calls) then Err(Io)
                 else Verdict(image.bytes, layout, requireFinalized)
    ensures r.Ok? ==> |image.bytes| >= MBR_BYTES && mbr == image.bytes[..MBR_BYTES]
  {
    var read := PreadExact(image, MBR_BYTES, 0);
    if read.Err? {
      return Err(read.error), [];
    }
    mbr := read.value;
    r := ValidateMbr(mbr, |image.bytes|, layout, requireFinalized);
  }

  /** Some first part of the vault entry, possibly none, has been written. */
  ghost predicate PartlyWritten(before: Bytes, after: Bytes, layout: Layout)
    requires ValidLayout(layout)
  {
    if |before| < MBR_BYTES then after == before
    else exists k: nat | k <= ENTRY_BYTES :: after == Written(before, VaultEntry(layout).value, k)
  }

  lemma Untouched(bytes: Bytes, layout: Layout)
    requires ValidLayout(layout)
    ensures PartlyWritten(bytes, bytes, layout)
  {
    if |bytes| >= MBR_BYTES {
      WrittenNone(bytes, VaultEntry(layout).value);
    }
  }

  /** The bytes of the vault slot are those of the vault, and no other byte differs. */
  predicate OnlyVaultAdded(before: Bytes, after: Bytes, layout: Layout) {
    && HoldsVault(after, layout) && |after| == |before|
    && forall i | 0 <= i < |before| && !(478 <= i < 494) :: after[i] == before[i]
  }

  /** What a normal return reports and leaves behind: an image that is only verified must
      hold the vault, and one that is finalized holds it already or has an empty slot. */
  predicate Returned(before: Bytes, after: Bytes, layout: Layout, verifyOnly: bool, result: FinalizeResult) {
    && |before| >= 512 && Acceptable(before[..512], |before|, layout, verifyOnly)
    && OnlyVaultAdded(before, after, layout)
    && result.imageSize == |before| && result.vaultEntry == after[478..494]
    && (if verifyOnly then result.action == Verified
        else
          && (result.action == AlreadyFinalized <==> HoldsVault(before, layout))
          && (result.action == NewlyFinalized <==> NoVault(before)))
    && (result.action != NewlyFinalized ==> after == before)
  }

  /** A finalized image is the image with the vault added. */
  lemma FinalizedAdds(before: Bytes, layout: Layout)
    requires ValidLayout(layout) && |before| >= MBR_BYTES && Inspect(before, layout, false).Ok?
    ensures OnlyVaultAdded(before, Finalized(before, layout), layout)
    ensures Finalized(before, layout)[478..494] == VaultEntry(layout).value
  {
    var entry, after := VaultEntry(layout).value, Finalized(before, layout);
    assert after[478..494] == entry;
    VaultBytes(after, layout);
  }

  lemma InFirst512(bytes: Bytes, layout: Layout)
    requires |bytes| >= MBR_BYTES
    ensures HoldsVault(bytes[..MBR_BYTES], layout) == HoldsVault(bytes, layout)
    ensures NoVault(bytes[..MBR_BYTES]) == NoVault(bytes)
  {
    var mbr := bytes[..MBR_BYTES];
    assert mbr[479..482] == bytes[479..482] && mbr[483..486] == bytes[483..486];
    assert forall i | 478 <= i < 494 :: mbr[i] == bytes[i];
  }

  lemma NotBoth(bytes: Bytes, layout: Layout)
    requires HoldsVault(bytes, layout)
    ensures !NoVault(bytes)
  {
    assert bytes[479..482][0] == 0xFE;
  }

  /** What the check of an accepted image found in its vault slot. */
  lemma InspectedSlot(bytes: Bytes, layout: Layout, verifyOnly: bool)
    requires ValidLayout(layout) && |bytes| >= MBR_BYTES && Inspect(bytes, layout, verifyOnly).Ok?
    ensures Acceptable(bytes[..512], |bytes|, layout, verifyOnly)
    ensures Inspect(bytes, layout, verifyOnly).value <==> HoldsVault(bytes, layout)
    ensures HoldsVault(bytes, layout) <==> !NoVault(bytes)
    ensures verifyOnly ==> HoldsVault(bytes, layout)
  {
    AcceptedExactly(bytes[..MBR_BYTES], |bytes|, layout, verifyOnly);
    InFirst512(bytes, layout);
    if HoldsVault(bytes, layout) {
      NotBoth(bytes, layout);
    }
  }

  /** Writes the entry unless the image is only verified or already final. */
  method Update(image: Image, layout: Layout, action: Action) returns (ok: bool)
    requires ValidLayout(layout) && |image.bytes| >= MBR_BYTES && Inspect(image.bytes, layout, false).Ok?
    requires action != NewlyFinalized ==> Inspect(image.bytes, layout, false) == Ok(true)
    modifies image
    ensures PartlyWritten(old(image.bytes), image.bytes, layout)
    ensures ok ==> image.bytes == Finalized(old(image.bytes), layout)
    ensures ok && action == NewlyFinalized ==> image.durable == image.bytes
    ensures action != NewlyFinalized ==> ok && image.bytes == old(image.bytes) && image.writes == old(image.writes)
    ensures old(image.calls) <= image.calls && (ok <==> !image.Faulted(old(image.calls), image.calls))
  {
    Untouched(image.bytes, layout);
    FinalizeIdempotent(image.bytes, layout);
    if action != NewlyFinalized {
      return true;
    }
    ghost var written;
    ok, written := WriteAndFlush(image, VaultEntry(layout).value);
  }

  lemma OutsideSame(a: Bytes, b: Bytes)
    requires |a| == |b| == MBR_BYTES && forall i | 0 <= i < MBR_BYTES && !(478 <= i < 494) :: a[i] == b[i]
    ensures a[..478] == b[..478] && a[494..] == b[494..]
  {
  }

  lemma OutsideKept(before: Bytes, layout: Layout)
    requires ValidLayout(layout) && |before| >= MBR_BYTES && Inspect(before, layout, false).Ok?
    ensures var a, b := before[..MBR_BYTES], Finalized(before, layout)[..MBR_BYTES];
            a[..478] == b[..478] && a[494..] == b[494..]
  {
    FinalizedAdds(before, layout);
    OutsideSame(before[..MBR_BYTES], Finalized(before, layout)[..MBR_BYTES]);
  }

  /** What is reported of an accepted image is what a normal return must report. */
  lemma ReportedIsReturned(before: Bytes, layout: Layout, verifyOnly: bool, action: Action)
    requires ValidLayout(layout) && |before| >= MBR_BYTES && Inspect(before, layout, verifyOnly).Ok?
    requires action == if verifyOnly then Verified
                       else if Inspect(before, layout, verifyOnly).value then AlreadyFinalized else NewlyFinalized
    ensures Inspect(before, layout, false).Ok? && (action == NewlyFinalized ==> NoVault(before))
    ensures action != NewlyFinalized ==> Inspect(before, layout, false) == Ok(true)
    ensures Returned(before, Finalized(before, layout), layout, verifyOnly,
                     FinalizeResult(action, |before|, VaultEntry(layout).value))
  {
    InspectedSlot(before, layout, verifyOnly);
    FinalizedAdds(before, layout);
    FinalizeIdempotent(before, layout);
  }

  /** An image with the vault added is the finalized image. */
  lemma AddedIsFinalized(before: Bytes, after: Bytes, layout: Layout)
    requires ValidLayout(layout) && |before| >= MBR_BYTES && Inspect(before, layout, false).Ok?
    requires OnlyVaultAdded(before, after, layout)
    ensures after == Finalized(before, layout)
  {
    VaultBytes(after, layout);
    var entry := VaultEntry(layout).value;
    forall i | 478 <= i < 494 ensures after[i] == entry[i - 478] {
      assert after[478..494][i - 478] == after[i];
    }
  }

  /** An image that was returned normally is accepted, and what a further normal return
      reports of it differs in the action alone. */
  lemma ReturnedAccepted(before: Bytes, after: Bytes, layout: Layout, result: FinalizeResult)
    requires ValidLayout(layout) && Returned(before, after, layout, false, result)
    ensures Verdict(after, layout, false).Ok? && HoldsVault(after, layout) && !NoVault(after)
  {
    AcceptedExactly(before[..MBR_BYTES], |before|, layout, false);
    AddedIsFinalized(before, after, layout);
    FinalizeIdempotent(before, layout);
    NotBoth(after, layout);
  }

  /** The checks after the update. */
  method Recheck(image: Image, layout: Layout, size: nat, before: Bytes, ghost original: Bytes)
    returns (failure: Option<LayoutError>)
    requires ValidLayout(layout) && |original| >= MBR_BYTES && Inspect(original, layout, false).Ok?
    requires image.bytes == Finalized(original, layout) && size == |original| && before == original[..MBR_BYTES]
    modifies image`calls
    ensures old(image.calls) <= image.calls
    ensures failure == if image.Faulted(old(image.calls), image.calls) then Some(Io) else None
  {
    FinalizedAccepted(original, layout);
    OutsideKept(original, layout);
    if |image.bytes| != size {
      return Some(SizeChanged);
    }
    var revalidated, after := ReadMbr(image, layout, true);
    if revalidated.Err? {
      return Some(revalidated.error);
    }
    if before[..478] != after[..478] || before[494..] != after[494..] {
      return Some(OutsideChanged);
    }
    return None;
  }

  /** Updates the image and checks it again: the only failure left is that of a call. */
  method UpdateAndRecheck(image: Image, layout: Layout, action: Action, before: Bytes)
    returns (failure: Option<LayoutError>)
    requires ValidLayout(layout) && |image.bytes| >= MBR_BYTES && Inspect(image.bytes, layout, false).Ok?
    requires action != NewlyFinalized ==> Inspect(image.bytes, layout, false) == Ok(true)
    requires before == image.bytes[..MBR_BYTES]
    modifies image
    ensures PartlyWritten(old(image.bytes), image.bytes, layout)
    ensures failure.None? ==> image.bytes == Finalized(old(image.bytes), layout)
    ensures failure.None? && action == NewlyFinalized ==> image.durable == image.bytes
    ensures action != NewlyFinalized ==> image.bytes == old(image.bytes) && image.writes == old(image.writes)
    ensures old(image.calls) <= image.calls
    ensures failure == if image.Faulted(old(image.calls), image.calls) then Some(Io) else None
  {
    var size := |image.bytes|;
    var ok := Update(image, layout, action);
    if !ok {
      return Some(Io);
    }
    failure := Recheck(image, layout, size, before, old(image.bytes));
  }

  /** The check of a file never reports an input or output failure of its own. */
  lemma VerdictIsNoFault(bytes: Bytes, layout: Layout, requireFinalized: bool)
    requires layout.sectorBytes > 0
    ensures Verdict(bytes, layout, requireFinalized) != Err(Io)
  {
  }

  /** `process_image`. Whatever happens, only a first part of the vault entry is written
      and nothing else changes. An input or output failure is reported exactly when a call
      on the file raised or moved nothing. Otherwise the image is accepted exactly when
      its record is, and the file then is the image with the vault in its slot; a refusal
      is the verdict on the untouched image. What a new finalization wrote is durable.
      Nothing is written to a file that is only verified, refused, or whose slot is not
      empty. */
  method ProcessImage(image: Image, layout: Layout, verifyOnly: bool) returns (r: Result<FinalizeResult, LayoutError>)
    requires ValidLayout(layout)
    modifies image
    ensures PartlyWritten(old(image.bytes), image.bytes, layout)
    ensures r.Ok? ==> Returned(old(image.bytes), image.bytes, layout, verifyOnly, r.value)
    ensures r.Ok? && r.value.action == NewlyFinalized ==> image.durable == image.bytes
    ensures r.Err? && r.error != Io ==>
              image.bytes == old(image.bytes) && Verdict(image.bytes, layout, verifyOnly) == Err(r.error)
    ensures image.writes != old(image.writes) ==>
              !verifyOnly && NoVault(old(image.bytes)) && Verdict(old(image.bytes), layout, false).Ok?
    ensures verifyOnly ==> image.bytes == old(image.bytes)
    ensures old(image.calls) <= image.calls
    ensures r == Err(Io) <==> image.Faulted(old(image.calls), image.calls)
    ensures !image.Faulted(old(image.calls), image.calls) ==>
              (r.Ok? <==> Verdict(old(image.bytes), layout, verifyOnly).Ok?)
  {
    ghost var original := image.bytes;
    VerdictIsNoFault(original, layout, verifyOnly);
    Untouched(original, layout);
    var validated, before := ReadMbr(image, layout, verifyOnly);
    if validated.Err? {
      return Err(validated.error);
    }
    var size := |image.bytes|;
    var action :=
      if verifyOnly then Verified else if validated.value then AlreadyFinalized else NewlyFinalized;
    ReportedIsReturned(original, layout, verifyOnly, action);
    var failure := UpdateAndRecheck(image, layout, action, before);
    if failure.Some? {
      return Err(failure.value);
    }
    return Ok(FinalizeResult(action, size, VaultEntry(layout).value));
  }

  /** Finalizing twice: when both runs meet no fault and the first succeeds, the second
      reports an image that is already final, with the same entry, and writes nothing. */
  method FinalizeTwice(image: Image, layout: Layout)
    returns (first: Result<FinalizeResult, LayoutError>, second: Result<FinalizeResult, LayoutError>)
    requires ValidLayout(layout)
    modifies image
    ensures old(image.calls) <= image.calls
    ensures first.Ok? && second != Err(Io) ==>
              && second == Ok(first.value.(action := AlreadyFinalized))
              && OnlyVaultAdded(old(image.bytes), image.bytes, layout)
              && (NoVault(old(image.bytes)) || image.writes == old(image.writes))
    ensures first.Ok? ==> second.Ok? || second == Err(Io)
    ensures first.Err? && first.error != Io ==> second == first || second == Err(Io)
  {
    ghost var original := image.bytes;
    first := ProcessImage(image, layout, false);
    if first.Ok? {
      ReturnedAccepted(original, image.bytes, layout, first.value);
    }
    second := ProcessImage(image, layout, false);
  }
}
