# KernAid tooling, modelled and proved in Dafny

KernAid is a machine diagnosis and repair platform. Its release, image and console tooling
contains a number of small algorithms that other parts of the product trust: what is signed
and published, what is installed, which image is written to a drive, which devices a
privileged helper may detach. This project models those algorithms and proves what they
promise, for every input and every run.

`dafny verify dfyconfig.toml` verifies the whole project.

What is modelled, file by file:

- **Signed documents** (`JsonValue`, `JsonText`, `JsonSyntax`, `JsonReader`, `JsonRoundTrip`,
  `Utf8`, `PublishDocument`). The canonical JSON printer of the fleet console and the checks
  around it, together with a reader for the JSON text of RFC 8259. `JsonSyntax` states the
  grammar as trees with a text and a meaning, `JsonReader` proves the reader equal to it, and
  printed text is a tree without blanks. Objects keep their insertion order, so equality up to
  key order is a relation of its own, and sorted normal forms decide it.
- **Tree fingerprint** (`Fingerprint`, `FingerprintReader`, `TreeWalk`, `TreeIdentity`). The
  length-prefixed encoding and a reader of it, the sort, and the walk as a class with mutable
  records and totals. The last theorem connects trees, through records and sorted streams, to
  the bytes that are hashed.
- **Retail image** (`RetailImage`). The one-pass comparison over two readers that return as
  few bytes as they like.
- **Boot record** (`DeviceLayout`, `FinalizeImage`). Entry encoding, the checks of a record,
  and the in-place edit under short reads, short writes and failures.
- **Console and control socket** (`SerialConsole`, `Qmp`, `QmpStream`, `QmpRequest`,
  `Companion`). The incremental scan against a full scan, line framing and request correlation
  for every split of the stream, and the parser of companion responses against their rendering.
- **Device ownership** (`VaultTamper`). The privileged helper as a machine over loops and one
  mapper, in which every tool call and every observation may fail or lie about its effect;
  what each call does is an input.
- **Installer** (`InstallFaults`, `Installer`). A directory of names and inodes, in which whose
  file an inode is never changes. The input is the set of calls that raise, also in the
  handlers, and what other processes do between any two calls; the whole directory afterwards
  is a function of it.
- **Release manifests** (`ReleaseDocument`, `ReleaseTerms`, `ReleaseChannel`, `ReleaseSet`,
  `ReleaseManifest`). The checks in the order of the source, and apart from them what a proper
  entry, frame and set of artifacts is.
- **Framebuffer dumps** (`Ppm`) and the **trust catalog** (`CatalogLayout`, `TrustCatalog`).
- `Texts`, `Decimal`, `Sorting` and `Documents` hold what these share.

Objects that the source updates in place are classes with frames; its loops are loops with
invariants, proved against functions; its recursive and pure code is functions. What these
functions compute is stated a second time without them: by a grammar, by bytes at their
offsets, by a reader of the format, or by literal tables. A run-time failure is a result
value. Reads and writes may be short, any system call may fail, and a hash is an arbitrary
function of the bytes it is fed.

Where the code does not do what one would expect, the model follows the code, and a lemma
states exactly when it does:

- The signature test converts its operand to text, so a signature inside one-element arrays
  passes (`SignatureExactly`, `SignatureMayBeWrapped`).
- Object keys are not checked for unpaired surrogates (`LoneKeyAccepted`); the published text
  is well formed nevertheless, because the printer escapes them (`PrintWellFormed`).
- The id comparison of the control socket is Python equality, under which `true` equals
  request 1 and a number with a zero fraction equals the integer (`IdEqualsExactly`).
- Whether a long line of the control socket is accepted depends on how the socket splits the
  stream: with a line of almost 128 KiB in the buffer, the piece that ends it is accepted when
  it is short and refused as oversized when more bytes come with it. `SplitMattersExactly`
  says when the split matters.
- A carriage return as the terminator of a framebuffer header swallows a first pixel byte
  that is a line feed, and the dump is refused (`ParsesRendered`).
- A write of the vault entry that stops after 2 to 15 bytes leaves a record that every later
  run refuses (`TornWrite`).
- A call of the installer that raises only after its body has completed leaves the verified
  output installed although the installation fails; the last close is such a call
  (`LateClose`, `SingleFault`). A raising close of an unprepared temporary file, and a raising
  inspection of the output, leave these files (`PrepareCloseLeaks`, `UndoInspectLeaks`).
  `FailureLeavesNothing`, `TemporaryStaysExactly` and `FailedOutputStays` state the exact
  conditions for every set of faults.
- When the tamper helper cannot observe the loops at its start and some exist, its cleanup
  takes them for its own leftovers and reports a failure, but leaves them alone (`Cleanup`).

## Model

| member | source | states |
|---|---|---|
| PublishDocument.PublishedExactly | apps/fleet-console/publish-document.js:1-38 | a raw text is published as a given text if and only if both are within the byte limit and there is a document that the raw text is written for, by the grammar and without the reader, which is a signed object whose schema and tenant paths lead to the right strings, with no secret key at any depth and only publishable values, and the text is that document with its keys sorted at every depth |
| PublishDocument.RefusedInOrder | apps/fleet-console/publish-document.js:14-33 | which check refuses a document: not an object, a secret key, no signature, the wrong schema, the wrong tenant, each if and only if the earlier ones pass |
| PublishDocument.AcceptableExactly | apps/fleet-console/publish-document.js:14-33 | the checks pass if and only if the document is acceptable as stated without them |
| JsonReader.ParsesExactly | apps/fleet-console/publish-document.js:8-13 | `JSON.parse` returns a value if and only if the text is written for it: blanks of four kinds around every token, every way to spell a character, a number or a list, and nothing else; both directions, without reference to the reader |
| JsonReader.WritesOne | apps/fleet-console/publish-document.js:8-13 | a text is written for one value at most |
| JsonSyntax.LastWins | apps/fleet-console/publish-document.js:8-13 | an object holds, for every key, the value that was written last for it |
| JsonRoundTrip.ParseAround | apps/fleet-console/publish-document.js:8-13 | blanks around a printed value do not matter, and anything else after it is refused |
| PublishDocument.PublishIsIdempotent | apps/fleet-console/publish-document.js:1-38 | every published text is accepted again unchanged, is within the limit and well formed, parses to the same document up to key order, and names no secret key at any depth |
| PublishDocument.SameDocumentsPublishAlike | apps/fleet-console/publish-document.js:1-38 | two raw texts whose documents differ only in key order publish the same text, or neither is published |
| PublishDocument.PublishedBytesIffSame | apps/fleet-console/publish-document.js:1-38 | the UTF-8 bytes published for two accepted documents are equal if and only if the documents are equal up to key order at every depth |
| PublishDocument.CanonicalIffSame | apps/fleet-console/publish-document.js:69-98 | two accepted values have the same canonical text if and only if they are equal up to key order at every depth |
| PublishDocument.CanonicalReadsBack | apps/fleet-console/publish-document.js:69-98 | parsing the canonical text gives the value back up to key order, and printing that again gives the same text |
| PublishDocument.CanonicalPrintsNormal | apps/fleet-console/publish-document.js:69-98 | the printer throws exactly on ill-formed string values and unsafe numbers, and otherwise prints the value whose keys are sorted at every depth |
| PublishDocument.LoneKeyAccepted | apps/fleet-console/publish-document.js:94-97 | a counterexample to the Unicode rule: an object key with an unpaired surrogate is accepted |
| JsonText.HasLoneIffIllFormed | apps/fleet-console/publish-document.js:72-81 | the regular expression matches exactly the texts that are not well-formed UTF-16 |
| JsonText.PrintWellFormed | apps/fleet-console/publish-document.js:69-98 | printed text is well formed even where a key is not |
| JsonValue.SameIffNormal | apps/fleet-console/publish-document.js:94-97 | two values are equal up to key order if and only if sorting their keys at every depth makes them identical |
| JsonValue.SortSorts | apps/fleet-console/publish-document.js:94-97 | sorting the keys of an object orders them and changes no lookup |
| JsonValue.SortedExtensional | apps/fleet-console/publish-document.js:94-97 | a sorted object is fixed by its lookups |
| Texts.LessExactly | apps/fleet-console/publish-document.js:94-97 | the key order looks at the first differing UTF-16 unit, and a proper prefix comes first |
| Decimal.NumeralInjective | apps/fleet-console/publish-document.js:82-87 | different integers have different numerals |
| JsonRoundTrip.ParsePrinted | apps/fleet-console/publish-document.js:8-13 | `JSON.parse` of a printed value is that value, for every publishable value |
| JsonRoundTrip.ReadPrinted | apps/fleet-console/publish-document.js:8-13 | the reader takes exactly the printed value off the front of any continuation that delimits it, so printed values are prefix-free |
| JsonRoundTrip.ReadQuoted | apps/fleet-console/publish-document.js:8-13 | every string, with any control characters or surrogates, is read back from its quoted form |
| JsonRoundTrip.ParseValid | apps/fleet-console/publish-document.js:8-13 | whatever the reader returns has distinct keys and safe integers in range, also for duplicate keys in the text |
| Utf8.DecodeEncoded | apps/fleet-console/publish-document.js:34-34 | UTF-8 encoding of well-formed text can be undone |
| Utf8.DecodeEncodedAny | apps/fleet-console/publish-document.js:34-34 | the bytes of any text decode to it with U+FFFD for every unpaired surrogate |
| PublishDocument.SecretIffKey | apps/fleet-console/publish-document.js:49-67 | the recursive check refuses exactly the values that have a secret key at some depth |
| PublishDocument.SecretNameExactly | apps/fleet-console/publish-document.js:49-67 | a key is secret if and only if it is one of the ten names, letter for letter in either case |
| PublishDocument.PathLeads | apps/fleet-console/publish-document.js:40-47 | following a path gives a value if and only if members, decimal indices and lengths lead to it one after the other |
| PublishDocument.NormalKeepsKeys | apps/fleet-console/publish-document.js:49-67 | sorting keys keeps the set of keys at every depth |
| PublishDocument.ValueAt | apps/fleet-console/publish-document.js:40-47 | the loop returns the value that following the path reaches, or undefined |
| PublishDocument.PathValueNormal | apps/fleet-console/publish-document.js:40-47 | following a path commutes with sorting keys |
| PublishDocument.SignatureExactly | apps/fleet-console/publish-document.js:18-22 | the signature test, with its conversion to text, accepts exactly a signature string inside any number of one-element arrays |
| PublishDocument.SignatureMayBeWrapped | apps/fleet-console/publish-document.js:18-22 | a counterexample to a string-only reading: a signature inside an array passes |
| Fingerprint.FieldPrefixFree | tools/test-linux-snapshot/tree_fingerprint.py:36-37 | a length-prefixed field and what follows it can be taken apart in one way only |
| Fingerprint.FieldsInjective | tools/test-linux-snapshot/tree_fingerprint.py:36-37 | a concatenation of fields fixes the list of fields, of any number and length |
| Fingerprint.StreamInjective | tools/test-linux-snapshot/tree_fingerprint.py:44-56 | the bytes fed for a list of records fix that list |
| Fingerprint.StreamFixesRecords | tools/test-linux-snapshot/tree_fingerprint.py:40-57 | the fed bytes are equal if and only if the two lists hold the same records, in whatever order |
| Fingerprint.PathCount | tools/test-linux-snapshot/tree_fingerprint.py:42-43 | comparing the number of distinct paths with the number of records detects exactly the lists with a repeated path |
| Fingerprint.FingerprintRecords | tools/test-linux-snapshot/tree_fingerprint.py:40-57 | raises exactly on a repeated path, and otherwise feeds the stream of the records in strictly increasing order of their paths |
| FingerprintReader.StreamReadsBack | tools/test-linux-snapshot/tree_fingerprint.py:36-56 | a reader that knows only the format gets every record back from what is fed: the domain line and a zero byte, lengths of eight bytes with the highest first, and path, kind, mode, size, the two times and the digest in this order |
| Fingerprint.Feed | tools/test-linux-snapshot/tree_fingerprint.py:44-56 | the update loop feeds the stream of the records in order |
| Sorting.OrderedUnique | tools/test-linux-snapshot/tree_fingerprint.py:41-41 | elements that an order tells apart have one ordered arrangement |
| Sorting.SortForgetsArrangement | tools/test-linux-snapshot/tree_fingerprint.py:41-41 | sorting such elements forgets how they were arranged |
| TreeWalk.Collector.constructor | tools/test-linux-snapshot/tree_fingerprint.py:108-115 | a collector starts with nothing listed |
| TreeWalk.Collector.Visit | tools/test-linux-snapshot/tree_fingerprint.py:116-149 | visiting a directory succeeds exactly when the listing stays supported and within both bounds, and then adds exactly that listing |
| TreeWalk.Collector.VisitAll | tools/test-linux-snapshot/tree_fingerprint.py:120-149 | the same for the entries in a given order |
| TreeWalk.Collector.VisitEntry | tools/test-linux-snapshot/tree_fingerprint.py:120-149 | the same for one entry and what lies below it |
| TreeWalk.CollectRecords | tools/test-linux-snapshot/tree_fingerprint.py:108-152 | returns exactly when the root is a readable directory and everything below it can be read, is supported and within both bounds, and then holds the record of every node |
| TreeWalk.SortLists | tools/test-linux-snapshot/tree_fingerprint.py:118-119 | the order in which a directory is visited does not change what is listed |
| TreeIdentity.OneRecordPerNode | tools/test-linux-snapshot/tree_fingerprint.py:116-149 | the walk lists as many records as there are nodes |
| TreeIdentity.RecordsExactly | tools/test-linux-snapshot/tree_fingerprint.py:116-149 | a record is listed if and only if the names of the tree lead to a node whose joined path, kind, metadata and content digest it states |
| TreeIdentity.UnderOneName | tools/test-linux-snapshot/tree_fingerprint.py:120-122 | a path lies under one name of a directory only |
| TreeIdentity.WalkPathsUnique | tools/test-linux-snapshot/tree_fingerprint.py:108-152 | with non-empty, slash-free names unique per directory, no two listed paths are equal, so the duplicate check never fires |
| TreeIdentity.SameRecordsMakeAlike | tools/test-linux-snapshot/tree_fingerprint.py:108-152 | trees that list the same records have the same names, kinds, metadata and content digests at every depth |
| TreeIdentity.StreamFixesTree | tools/test-linux-snapshot/tree_fingerprint.py:40-152 | two accepted trees feed the same bytes if and only if they agree in names, kinds, metadata and content digests at every depth |
| RetailImage.Reader.constructor | tools/build-rescue/verify-retail-image.py:81-81 | a reader starts at the beginning of its content; whether its reads are whole is an input |
| RetailImage.Reader.Read | tools/build-rescue/verify-retail-image.py:83-91 | a read returns some of the bytes asked for, possibly fewer, and none only at the end |
| RetailImage.DigestFile | tools/build-rescue/verify-retail-image.py:54-61 | however reads are split, the digest is fed the whole file and the size is its length |
| RetailImage.CheckPrefix | tools/build-rescue/verify-retail-image.py:89-93 | a chunk accepted as ISO content equals the ISO bytes read for it; with full reads only a wrong image is refused |
| RetailImage.CheckZeros | tools/build-rescue/verify-retail-image.py:94-98 | the rest of a chunk is accepted exactly when it is zero |
| RetailImage.CheckChunk | tools/build-rescue/verify-retail-image.py:87-98 | one turn of the loop keeps what is known of the image so far |
| RetailImage.OverlapStep | tools/build-rescue/verify-retail-image.py:99-102 | the partition digest is fed exactly the part of each chunk that lies in the partition |
| RetailImage.CheckStream | tools/build-rescue/verify-retail-image.py:78-107 | acceptance implies that the image is the ISO followed only by zeros at the exact length, also when ISO reads are short; with full reads every such image is accepted; the partition digest is fed exactly its range |
| RetailImage.P3IsZero | tools/build-rescue/verify-retail-image.py:109-111 | the third partition of such an image is all zeros |
| RetailImage.Verify | tools/build-rescue/verify-retail-image.py:64-128 | the whole check: acceptance implies a non-empty ISO followed by zeros with the reported digests; with full ISO reads and the right pinned digest the two are equivalent |
| DeviceLayout.Little32RoundTrip | tools/build-rescue/finalize-device-layout.py:353-366 | a 32-bit number is read back from its little-endian bytes |
| DeviceLayout.EncodeEntry | tools/build-rescue/finalize-device-layout.py:369-404 | an entry is encoded exactly when every field is in range, and where each field then stands in the sixteen bytes |
| DeviceLayout.ParseEncoded | tools/build-rescue/finalize-device-layout.py:353-404 | parsing an encoded entry gives its fields back |
| DeviceLayout.EncodeParsed | tools/build-rescue/finalize-device-layout.py:353-404 | encoding parsed fields gives the raw entry back if and only if its addresses are in range and its cylinder fields hold the maximum |
| DeviceLayout.AcceptedExactly | tools/build-rescue/finalize-device-layout.py:450-499 | a boot record is accepted if and only if its bytes, at their offsets, have the described geometry, with a partition inside the image meaning that its last sector starts inside it; and what is reported of an accepted one is whether it holds the vault entry or zeros |
| DeviceLayout.RefusedFor | tools/build-rescue/finalize-device-layout.py:416-499 | a refused record has, in its bytes, the fault that is reported |
| DeviceLayout.VaultBytes | tools/build-rescue/finalize-device-layout.py:407-413 | the vault slot is the encoded entry if and only if it is not bootable, has the type and the largest cylinder fields, and exactly the range of the layout |
| DeviceLayout.AcceptedGeometry | tools/build-rescue/finalize-device-layout.py:416-499 | in every accepted record partitions 1 and 2 end at or before the vault start, are disjoint or nested, and a final vault is exactly the range of the layout within 32-bit addresses |
| DeviceLayout.SectorsBeforeVault | tools/build-rescue/finalize-device-layout.py:461-466 | an image that ends before the vault ends before its first sector, also with a partial last sector |
| DeviceLayout.FinalizedAccepted | tools/build-rescue/finalize-device-layout.py:526-583 | a finalized image passes the check that requires finality |
| DeviceLayout.FinalizeIdempotent | tools/build-rescue/finalize-device-layout.py:526-583 | finalizing twice is finalizing once, and an image is already final if and only if finalizing changes no byte |
| DeviceLayout.VaultEntryV1 | tools/build-rescue/finalize-device-layout.py:407-413 | the sixteen bytes of the vault entry of layout v1 |
| DeviceLayout.TornWrite | tools/build-rescue/finalize-device-layout.py:517-523 | an interrupted write of the v1 entry over an empty slot is accepted by a later run if and only if fewer than two or all sixteen bytes were written |
| FinalizeImage.Image.constructor | tools/build-rescue/finalize-device-layout.py:534-541 | the image holds the bytes of the file |
| FinalizeImage.Image.Pread | tools/build-rescue/finalize-device-layout.py:502-514 | some of the bytes asked for, none only at the end, or a failure exactly when the call raises |
| FinalizeImage.Image.Pwrite | tools/build-rescue/finalize-device-layout.py:517-523 | writes a prefix and reports its length, which is positive exactly when the call neither raises nor stalls |
| FinalizeImage.PreadExact | tools/build-rescue/finalize-device-layout.py:502-514 | returns exactly the range, also an empty one; fails exactly when a call raised, and reports a short read only where the file ends before the range |
| FinalizeImage.PwriteEntry | tools/build-rescue/finalize-device-layout.py:517-523 | whatever the pattern of short writes, a first part of the entry is written in place and nothing else, and all of it exactly when no call raised or stalled |
| FinalizeImage.ReadMbr | tools/build-rescue/finalize-device-layout.py:539-548 | the verdict on the record as it is in the file, or an input failure exactly when a call raised |
| FinalizeImage.Update | tools/build-rescue/finalize-device-layout.py:549-557 | writes, and makes durable, only when the image is not yet final, and succeeds exactly when no call raised or stalled |
| FinalizeImage.OutsideKept | tools/build-rescue/finalize-device-layout.py:569-576 | finalizing changes nothing in the record outside offsets 478 to 493 |
| FinalizeImage.ProcessImage | tools/build-rescue/finalize-device-layout.py:526-583 | every run changes at most a first part of the vault entry; an input or output failure is reported if and only if a call on the file raised or stalled; otherwise the image is accepted if and only if its record is, and then differs only in the slot, which holds the vault; the action is verified, already final exactly when the slot held the vault, or newly final exactly when it was zero; nothing is written to an image that is only verified, refused or already final, and what a new finalization wrote is durable |
| FinalizeImage.FinalizeTwice | tools/build-rescue/finalize-device-layout.py:526-583 | a second run without faults reports the same as a first that succeeded except that the image is already final, leaves the same bytes, and a refusal is repeated |
| SerialConsole.Search | tools/build-rescue/qemu-vault-lifecycle-pty.py:109-112 | the search returns the leftmost match from its start |
| SerialConsole.SearchExactly | tools/build-rescue/qemu-vault-lifecycle-pty.py:109-112 | a search finds a match if and only if the marker bytes stand at the very beginning or directly after a line feed, and then that of the first such place, from the line break with its carriage return to the end of the marker |
| SerialConsole.RunExactly | tools/build-rescue/qemu-vault-lifecycle-pty.py:2265-2339 | over every run of appends the incremental scan raises at the first append after which a marker opens a line, with the match of the first one, and otherwise never |
| SerialConsole.MatchInPrefix | tools/build-rescue/qemu-vault-lifecycle-pty.py:2321-2339 | a match that ends within a prefix is a match in the prefix |
| SerialConsole.IncrementalIsFull | tools/build-rescue/qemu-vault-lifecycle-pty.py:2321-2339 | after a prefix without a match, the scan with overlap finds exactly what a scan of everything finds |
| SerialConsole.RunsAgree | tools/build-rescue/qemu-vault-lifecycle-pty.py:2265-2339 | over every run of appends the incremental scan raises at the same step with the same leftmost match as a full rescan |
| SerialConsole.BoundedCapture.constructor | tools/build-rescue/qemu-vault-lifecycle-pty.py:674-684 | a capture starts empty, with its limit and secrets |
| SerialConsole.BoundedCapture.Append | tools/build-rescue/qemu-vault-lifecycle-pty.py:685-693 | refuses exactly what exceeds the limit or exposes a secret, also one that straddles appends; an accepted append adds exactly the chunk |
| SerialConsole.BoundedCapture.Find | tools/build-rescue/qemu-vault-lifecycle-pty.py:711-711 | the first occurrence in the window, or none |
| SerialConsole.BoundedCapture.ContainsContextualLine | tools/build-rescue/qemu-vault-lifecycle-pty.py:699-720 | true if and only if the value fills a line of the window |
| SerialConsole.Console.constructor | tools/build-rescue/qemu-vault-lifecycle-pty.py:2225-2264 | a console starts with nothing scanned |
| SerialConsole.Console.RaiseIfNotReady | tools/build-rescue/qemu-vault-lifecycle-pty.py:2321-2339 | raises if and only if a marker opens a line anywhere in the transcript, reports the match of the first one, and keeps the scan state sound |
| SerialConsole.Console.Receive | tools/build-rescue/qemu-vault-lifecycle-pty.py:2282-2302 | says exactly when a chunk is refused and what the transcript then holds, and keeps the scan state sound |
| Qmp.LinesFixed | tools/build-rescue/qemu-vault-lifecycle-pty.py:1852-1878 | the bytes received and the number of lines taken fix the lines and the buffer, however the socket split them |
| Qmp.Client.constructor | tools/build-rescue/qemu-vault-lifecycle-pty.py:1802-1851 | a client starts with an empty buffer and request number 1 |
| QmpStream.NextLineOfStream | tools/build-rescue/qemu-vault-lifecycle-pty.py:1852-1878 | however the stream is split into pieces and pauses, the next line is taken and the rest is left, for every line that fits into the buffer beside the largest piece that can bring its end |
| Qmp.Client.ReceiveObject | tools/build-rescue/qemu-vault-lifecycle-pty.py:1852-1878 | takes and decodes the next line, or fails as timeout, closed or oversized, exactly when and as buffer and socket events determine; lines taken and buffer re-join to what was received, and the buffer stays within its limit |
| Qmp.Client.TakeLine | tools/build-rescue/qemu-vault-lifecycle-pty.py:1854-1864 | cuts off the first line, keeps the rest, and decodes it |
| Qmp.Client.SendAll | tools/build-rescue/qemu-vault-lifecycle-pty.py:1896-1915 | sends exactly as much of the request as the events of the socket let it, and fails as they say |
| Qmp.DeliversAll | tools/build-rescue/qemu-vault-lifecycle-pty.py:1896-1915 | a socket that keeps taking bytes gets the whole request if and only if it takes enough, however small the parts are |
| Qmp.PayloadFixesRequest | tools/build-rescue/qemu-vault-lifecycle-pty.py:1892-1895 | requests with different numbers are different bytes |
| QmpRequest.PayloadWrites | tools/build-rescue/qemu-vault-lifecycle-pty.py:1892-1895 | a request line is JSON text of the object with the command, the number and the arguments, whatever JSON text was given for them |
| QmpStream.SplitDoesNotMatter | tools/build-rescue/qemu-vault-lifecycle-pty.py:1852-1924 | any number of events for other ids and then a line whose message settles the request give that result, take exactly these lines and leave the rest, for every split of the stream, when every line fits before what follows it |
| QmpStream.RefusingSplit | tools/build-rescue/qemu-vault-lifecycle-pty.py:1875-1877 | when some line does not fit, there is a split of the same stream for which the request fails as oversized |
| QmpStream.SplitMattersExactly | tools/build-rescue/qemu-vault-lifecycle-pty.py:1852-1924 | the result is the same for every split of the stream if and only if every line fits before what follows it |
| Qmp.AwaitSound | tools/build-rescue/qemu-vault-lifecycle-pty.py:1916-1924 | every line before the last is an event with another id, and the last one settles the request: its value for an equal id without error, a failed command for an equal id otherwise, a refusal for another id without event or for no JSON object; or no further line came |
| Qmp.VerdictExactly | tools/build-rescue/qemu-vault-lifecycle-pty.py:1916-1924 | a line ends a request with a result if and only if its decoded message settles it so, and is skipped if and only if it is an event for another id |
| Qmp.Client.AwaitAnswer | tools/build-rescue/qemu-vault-lifecycle-pty.py:1916-1924 | the loop gives exactly the answer that buffer and socket events determine |
| Qmp.Client.ExecuteResult | tools/build-rescue/qemu-vault-lifecycle-pty.py:1887-1924 | issues the next number and sends the request that carries it, as far as the events of the socket let it; then gives exactly the answer that buffer and socket events determine, which the last line taken settles after events for other ids only |
| Qmp.IdEqualsExactly | tools/build-rescue/qemu-vault-lifecycle-pty.py:1916-1921 | which ids pass the comparison: that integer, the same number as a fraction, or `true` for request 1 |
| Qmp.IdsNeverRepeat | tools/build-rescue/qemu-vault-lifecycle-pty.py:1890-1891 | no request number is issued twice over the life of a client |
| Companion.ReplacementsUnify | tools/build-rescue/qemu-vault-lifecycle-pty.py:775-782 | the two replacements together treat CR LF, CR and LF as one line ending each |
| Companion.Normalize | tools/build-rescue/qemu-vault-lifecycle-pty.py:775-782 | the loops that drop empty lines at both ends compute the normalized lines |
| Companion.NormalizedShown | tools/build-rescue/qemu-vault-lifecycle-pty.py:775-782 | lines shown with any mix of line endings and any line breaks around them normalize to themselves |
| Companion.ReadBody | tools/build-rescue/qemu-vault-lifecycle-pty.py:1208-1225 | what is read and what is left make up the lines, and the state and device have their form |
| Companion.ParseCompanionResponse | tools/build-rescue/qemu-vault-lifecycle-pty.py:1195-1275 | parses the normalized lines of the block |
| Companion.ParseIffRendered | tools/build-rescue/qemu-vault-lifecycle-pty.py:1195-1275 | parsing succeeds with a response if and only if the command may give it and the lines are exactly its rendering |
| Companion.RefusedEarly | tools/build-rescue/qemu-vault-lifecycle-pty.py:1200-1212 | an unlock without the prompt, an unknown command and a response without a version are refused as such, each if and only if it is one |
| Companion.ShownParsesBack | tools/build-rescue/qemu-vault-lifecycle-pty.py:1195-1275 | every expected response, shown with any mix of line endings, parses back to itself |
| Companion.RebootExactly | tools/build-rescue/qemu-vault-lifecycle-pty.py:1226-1236 | the reboot failure is raised if and only if a failed lock shows the faulted state followed by that one error |
| VaultTamper.Helper.constructor | tools/build-rescue/qemu-repair-vault-tamper.py:525-544 | nothing has been touched before the run |
| VaultTamper.Helper.Settle | tools/build-rescue/qemu-repair-vault-tamper.py:483-501 | a requested detach may complete later |
| VaultTamper.Helper.ObserveLoops | tools/build-rescue/qemu-repair-vault-tamper.py:398-401 | an observation reports the loops that exist, or raises exactly as the input says |
| VaultTamper.Helper.MapperExists | tools/build-rescue/qemu-repair-vault-tamper.py:450-451 | an observation reports whether the mapper exists, or raises |
| VaultTamper.Helper.SetupLoop | tools/build-rescue/qemu-repair-vault-tamper.py:569-590 | attaching adds at most one loop, whatever the tool reports |
| VaultTamper.Helper.OpenMapper | tools/build-rescue/qemu-repair-vault-tamper.py:604-630 | opening may create the mapper whatever the tool reports |
| VaultTamper.Helper.RunClose | tools/build-rescue/qemu-repair-vault-tamper.py:463-475 | only an owned mapper is closed, and the call is logged |
| VaultTamper.Helper.RunDetach | tools/build-rescue/qemu-repair-vault-tamper.py:483-494 | only an owned loop is detached, only with the mapper gone, and the call is logged |
| VaultTamper.Helper.CloseMapperBounded | tools/build-rescue/qemu-repair-vault-tamper.py:463-480 | says exactly whether the mapper is gone, and gives up only after three closes or when time ran out; a mapper that went away was closed, and without faults it is always gone |
| VaultTamper.Helper.DetachLoopBounded | tools/build-rescue/qemu-repair-vault-tamper.py:483-501 | says exactly whether the loop is gone, and gives up only after one detach or when time ran out; without faults it is always gone |
| VaultTamper.Helper.DetachOwned | tools/build-rescue/qemu-repair-vault-tamper.py:659-663 | without a failure none of the owned loops remains, and a loop that went away was detached |
| VaultTamper.Helper.CleanMapper | tools/build-rescue/qemu-repair-vault-tamper.py:641-653 | the mapper counts as gone only when it was seen gone |
| VaultTamper.Helper.CleanLoops | tools/build-rescue/qemu-repair-vault-tamper.py:654-670 | without a reported failure no loop of this run remains |
| VaultTamper.Helper.Cleanup | tools/build-rescue/qemu-repair-vault-tamper.py:640-678 | without a reported failure the devices are as they were found; a device that went away was given up by a logged call; when no call fails from here on, a failure is reported if and only if the baseline was never recorded and loops had been found |
| VaultTamper.Helper.RecordBaseline | tools/build-rescue/qemu-repair-vault-tamper.py:545-567 | the run goes on only when no loop and no mapper existed |
| VaultTamper.Helper.AttachLoop | tools/build-rescue/qemu-repair-vault-tamper.py:569-602 | whatever appeared is owned; success means one loop, which this run owns |
| VaultTamper.Helper.AcquireMapper | tools/build-rescue/qemu-repair-vault-tamper.py:604-630 | the mapper is owned only when it was seen; success means it is there and owned |
| VaultTamper.Helper.Body | tools/build-rescue/qemu-repair-vault-tamper.py:545-639 | gives up no device; success means that this run owns the mapper and the one loop below it, and comes without faults exactly when no loop and no mapper was found |
| VaultTamper.Helper.Run | tools/build-rescue/qemu-repair-vault-tamper.py:525-688 | with any call failing or lying at any point, devices found before the run are never closed or detached, loops are detached only with the mapper gone, and success is reported only when nothing of this run remains, after a logged close and a logged detach; when no call fails, it is reported if and only if no loop and no mapper was found |
| InstallFaults.NamesApart | tools/build-rescue/fetch-codex-cli.py:195-197 | the prefixes keep the temporary names apart from each other and from the output |
| InstallFaults.Entered | tools/build-rescue/fetch-codex-cli.py:279-338 | a point of the `try` block is entered if and only if no point before it raises, whatever the faults and the files of other processes |
| InstallFaults.FailureLeavesNothing | tools/build-rescue/fetch-codex-cli.py:339-353 | a run whose body fails leaves no name of its own if and only if none of the handler calls that decide it raises: closing or unlinking an unprepared temporary, inspecting or unlinking the output, unlinking a recorded temporary |
| InstallFaults.TemporaryStaysExactly | tools/build-rescue/fetch-codex-cli.py:195-223 | which temporary stays: it was created, and either its own preparation failed and the close or unlink of that handler raised, or the `finally` block had it to remove and the unlink of it or of one before it raised |
| InstallFaults.FailedOutputStays | tools/build-rescue/fetch-codex-cli.py:339-348 | the output of a failed run stays if and only if it was linked and the body had completed or the handler could not inspect or unlink it |
| InstallFaults.CompletionLeavesOutput | tools/build-rescue/fetch-codex-cli.py:349-353 | a completed body leaves the output, the two other temporaries exactly when their removal raises, and the call returns normally exactly when nothing else stays and the last close does not raise |
| InstallFaults.ExecutedAfterChecks | tools/build-rescue/fetch-codex-cli.py:284-317 | the binary is executed only after the archive, the evidence, the binary and the signature were verified, in every run |
| InstallFaults.LinkedAfterExecution | tools/build-rescue/fetch-codex-cli.py:312-338 | the output is linked only after the binary was executed, and rechecked only after it was linked |
| InstallFaults.SingleFault | tools/build-rescue/fetch-codex-cli.py:266-353 | for every single fault: nothing stays if and only if it strikes before the body completes; otherwise the output stays, and a failing removal of a temporary leaves that one and those after it |
| InstallFaults.BodyFaultLeavesEmpty | tools/build-rescue/fetch-codex-cli.py:266-353 | with no other process, a run with one fault in its body leaves an empty directory |
| InstallFaults.LateClose | tools/build-rescue/fetch-codex-cli.py:349-353 | the run in which only the close of the directory raises: the call fails and the directory holds the verified output and nothing else |
| InstallFaults.PrepareCloseLeaks | tools/build-rescue/fetch-codex-cli.py:198-210 | the run in which a temporary cannot be prepared and its close raises: no unlink is attempted, and the directory holds that file and nothing else |
| InstallFaults.UndoInspectLeaks | tools/build-rescue/fetch-codex-cli.py:339-348 | the run in which the recheck fails and the output cannot be inspected: the directory holds the output and nothing else |
| Installer.Install.constructor | tools/build-rescue/fetch-codex-cli.py:266-279 | at the start the directory holds exactly the files of other processes |
| Installer.Install.Interfere | tools/build-rescue/fetch-codex-cli.py:266-353 | other processes act only on a directory in which the run has spared their files, and never change names of this run |
| Installer.Install.Attempt | tools/build-rescue/fetch-codex-cli.py:284-317 | a download, check or flush passes exactly when it does not raise, and changes no name of this run |
| Installer.Install.MakeName | tools/build-rescue/fetch-codex-cli.py:195-197 | the file is created exactly when the call does not raise and the name is free; no file of others is touched |
| Installer.Install.TemporaryFile | tools/build-rescue/fetch-codex-cli.py:195-210 | on success the file exists and is recorded; otherwise the files are those that the handler leaves |
| Installer.Install.AbandonFile | tools/build-rescue/fetch-codex-cli.py:203-210 | a raising close skips the unlink, and the file stays |
| Installer.Install.MakeTemporaries | tools/build-rescue/fetch-codex-cli.py:280-282 | the three files exist and are recorded, or the body stops with exactly the files that its faults determine |
| Installer.Install.VerifyAll | tools/build-rescue/fetch-codex-cli.py:284-317 | the downloads, the checks and the execution pass in order |
| Installer.Install.InspectBinary | tools/build-rescue/fetch-codex-cli.py:319-320 | the recorded identity is the file under the temporary name of the binary |
| Installer.Install.LinkOutput | tools/build-rescue/fetch-codex-cli.py:321-326 | the output is linked to that file exactly when the call does not raise and the name is free |
| Installer.Install.FinishOutput | tools/build-rescue/fetch-codex-cli.py:327-338 | the temporary name of the binary is gone on success |
| Installer.Install.Body | tools/build-rescue/fetch-codex-cli.py:280-338 | the body passes all points, or stops with exactly the files, paths and identity that its faults determine |
| Installer.Install.Undo | tools/build-rescue/fetch-codex-cli.py:339-348 | the output is removed when it is the file of this run, unless inspecting or unlinking it raises; an output of another process stays |
| Installer.Install.CleanupTemporary | tools/build-rescue/fetch-codex-cli.py:213-223 | removes a recorded temporary name from the directory exactly when the unlink does not raise, and nothing else |
| Installer.Install.RemoveTemporaries | tools/build-rescue/fetch-codex-cli.py:349-352 | a removal that raises skips those after it |
| Installer.Install.FetchAndInstall | tools/build-rescue/fetch-codex-cli.py:266-353 | for every set of faults and every behaviour of other processes: which points are entered, whether the call returns normally, and the whole directory afterwards, name by name: the files of this run that remain, and under every other name exactly what other processes have there; a normal return leaves of this run the output alone, linked to the verified binary |
| ReleaseDocument.RunReadsBack | tools/release/release_channel.py:254-272 | the provenance check accepts exactly valid provenance |
| ReleaseDocument.ArtifactReadsBack | tools/release/release_channel.py:275-339 | the entry checks accept the entry of an artifact if and only if the artifact is valid, and read it back |
| ReleaseTerms.InputExactly | tools/release/release_channel.py:275-339 | a descriptor entry is read as an artifact if and only if it describes it: its members are those of the artifact, and file name, size and digest are those of the file staged at its path |
| ReleaseTerms.ArtifactExactly | tools/release/release_channel.py:275-339 | a manifest entry is read as an artifact if and only if it is the entry of that artifact and the artifact is proper |
| ReleaseTerms.OfferedExactly | tools/release/release_channel.py:254-300 | the checks of component, platform, variant and workflow leave exactly the products on offer |
| ReleaseTerms.FrameExactly | tools/release/release_channel.py:404-466 | the frame of a document is accepted if and only if it is that of a manifest with a proper channel, sequence, time, commit and predecessor |
| ReleaseDocument.PriorReadsBack | tools/release/release_channel.py:218-228 | the previous-release object is unchanged by writing and reading it |
| ReleaseDocument.FrameReadsBack | tools/release/release_channel.py:437-466 | the other fields of a document are unchanged by writing and reading a manifest |
| ReleaseChannel.ByKeyOrders | tools/release/release_channel.py:342-351 | the sort key is a total order on artifacts |
| ReleaseChannel.TupleLessExactly | tools/release/release_channel.py:342-351 | sort keys compare by the first field in which they differ |
| ReleaseChannel.CollectGroups | tools/release/release_channel.py:373-387 | the first loop accepts exactly when no file name, URL or identity repeats, and then files every artifact under its group |
| ReleaseChannel.CheckGroups | tools/release/release_channel.py:389-401 | the second loop accepts exactly when every group keeps the group rule, in whatever order groups are visited |
| ReleaseChannel.ValidateArtifactSet | tools/release/release_channel.py:354-401 | accepts exactly the lists of 1 to 64 artifacts that are sorted, unique, within the channel rule and the group rules |
| ReleaseSet.AcceptedSetExactly | tools/release/release_channel.py:354-401 | a set is accepted if and only if it has 1 to 64 artifacts in strict order of seven fields, all apart in file name, URL and identity, repair variants exactly on the repair channel, and in each group a primary artifact and one run |
| ReleaseSet.GroupShape | tools/release/release_channel.py:354-401 | in every accepted set each group has each kind at most once, its primary exactly once, at most five members and one provenance |
| ReleaseSet.RepairIsolated | tools/release/release_channel.py:362-371 | the channel of an accepted set is the repair channel if and only if some artifact is a repair variant, and then all are |
| ReleaseManifest.ManifestRepairIsolated | tools/release/release_channel.py:404-466 | the same for every manifest that building or validating returns |
| ReleaseManifest.BuildManifest | tools/release/release_channel.py:404-434 | returns the manifest that the descriptor is built into, or refuses |
| ReleaseManifest.BuiltValidates | tools/release/release_channel.py:404-466 | validating a built manifest returns it unchanged |
| ReleaseManifest.OrderIsIrrelevant | tools/release/release_channel.py:404-434 | permuting the artifacts of a descriptor changes neither acceptance nor the manifest |
| ReleaseManifest.SortedAlike | tools/release/release_channel.py:342-401 | two arrangements of the same artifacts sort to the same accepted list, or neither is accepted |
| ReleaseManifest.RulesPermute | tools/release/release_channel.py:362-401 | the channel, uniqueness and group rules do not depend on the order of the artifacts |
| ReleaseManifest.BuiltExactly | tools/release/release_channel.py:404-434 | a descriptor is built into a manifest if and only if it has the frame of the manifest and the artifacts of the manifest are those that its entries describe, each entry once, in a proper set |
| ReleaseManifest.ValidatedExactly | tools/release/release_channel.py:437-466 | a document is validated as a manifest if and only if it is the document of that manifest and the manifest is proper throughout |
| ReleaseManifest.SortingIsHarmless | tools/release/release_channel.py:404-434 | a descriptor is built if and only if its artifacts, as listed, keep the rules: the order check never refuses one |
| Ppm.PpmToken | tools/build-rescue/qemu-tauri-ui-smoke.py:160-176 | the token after any blanks and comments, and where it ends, or none |
| Ppm.GapEnd | tools/build-rescue/qemu-tauri-ui-smoke.py:161-170 | the first loop skips exactly blanks and terminated comments |
| Ppm.TokenEnd | tools/build-rescue/qemu-tauri-ui-smoke.py:171-173 | the second loop stops at the end of the token |
| Ppm.ReadTokens | tools/build-rescue/qemu-tauri-ui-smoke.py:179-183 | the four header tokens in turn |
| Ppm.ParsePpm | tools/build-rescue/qemu-tauri-ui-smoke.py:179-201 | computes the parse of the payload |
| Ppm.PythonIntOfDigits | tools/build-rescue/qemu-tauri-ui-smoke.py:186-187 | the decimal digits of a number convert to that number |
| Ppm.IntExactly | tools/build-rescue/qemu-tauri-ui-smoke.py:186-187 | `int` reads a token as a number if and only if the token is that number with feeds around it, a sign or none, and digits with single underscores between them |
| Ppm.ParsesExactly | tools/build-rescue/qemu-tauri-ui-smoke.py:160-201 | a payload parses to a picture if and only if it is that picture written out, with any blanks and comments between tokens, any way to write its dimensions, and any pixel bytes |
| Ppm.ParsesRendered | tools/build-rescue/qemu-tauri-ui-smoke.py:179-201 | plain decimal headers with one terminating blank parse to exactly the picture, except if and only if the terminator is a carriage return and the pixels begin with a line feed |
| TrustCatalog.RunChecked | tools/make-device/catalog_v2.py:633-648 | the prefix and number checks accept a URL if and only if it is the prefix, a component that denotes the run, and nothing or a slash and more |
| TrustCatalog.AttestationReadsBack | tools/make-device/catalog_v2.py:633-754 | an attestation document is accepted if and only if the attestation is valid, and reads back |
| CatalogLayout.PartitionReadsBack | tools/make-device/catalog_v2.py:411-435 | the partition reader, field by field, accepts exactly the fixed vault partition |
| CatalogLayout.LayoutReadsBack | tools/make-device/catalog_v2.py:556-630 | the layout reader, field by field, accepts a layout if and only if its manifest digest is one and the rest is what layout v1 fixes, and reads it back |
| CatalogLayout.LayoutExactly | tools/make-device/catalog_v2.py:556-630 | a document is read as a layout if and only if it is the document of a valid one |
| CatalogLayout.ReadLayoutValid | tools/make-device/catalog_v2.py:556-630 | whatever document is accepted, the layout read from it is valid |
| TrustCatalog.ReadImageValid | tools/make-device/catalog_v2.py:757-860 | every image read is valid: its attestations are bound to it and its runs differ as required |
| TrustCatalog.ImageReadsBack | tools/make-device/catalog_v2.py:110-221 | every valid image reads back from the document it emits |
| TrustCatalog.ImageExactly | tools/make-device/catalog_v2.py:757-860 | a document is read as an image if and only if it is the document that a valid image emits |
| TrustCatalog.ParseImages | tools/make-device/catalog_v2.py:779-860 | the loop accepts exactly when every image is read and no identity or digest repeats |
| TrustCatalog.ParseCatalog | tools/make-device/catalog_v2.py:757-860 | computes the catalog of the document |
| TrustCatalog.ParsedValid | tools/make-device/catalog_v2.py:757-860 | every image of an accepted catalog is valid, whatever document it came from |
| TrustCatalog.CatalogReadsBack | tools/make-device/catalog_v2.py:757-860 | parsing the documents that an accepted catalog emits gives the same catalog |
| TrustCatalog.ParsedExactly | tools/make-device/catalog_v2.py:757-860 | a document is parsed as a catalog if and only if it is the document of that catalog, whose images are valid and unique |
| TrustCatalog.MatchingExactly | tools/make-device/catalog_v2.py:229-257 | the matching images are exactly those listed with that name, digest and size, and there is at most one |
| TrustCatalog.AuthorizedExactly | tools/make-device/catalog_v2.py:229-257 | authorization returns an image if and only if it is listed, matches name, digest and size, and is bound to the current layout |

## Left out

- PublishDocument.PublishedExactly: the rounding of numerals with a fraction or an exponent is a parameter, since only the question whether the result is a safe integer matters; minus zero is the integer zero.
- PublishDocument.ValueAt: properties that JavaScript objects inherit count as undefined, because none of them is a string or leads to one.
- JsonRoundTrip.ParseValid: the order in which JavaScript enumerates integer-like keys is not modelled; no result depends on it.
- TreeWalk.CollectRecords: the digest of a file is a function of its content; the chunks in which it is read are not modelled, and a file or directory that cannot be read or changes meanwhile is marked as such in the input.
- Fingerprint.FingerprintRecords: field lengths below 2^64, as the eight-byte prefix demands.
- RetailImage.Verify: the file names, the checks of the archive file and the xz decoder are not modelled; the decompressed stream is a reader.
- RetailImage.Verify: the sizes of image, partition and chunk are parameters, so the result holds for the fixed ones.
- FinalizeImage.ProcessImage: opening the file and the parsing of the layout manifest are not modelled; the file has no other writer.
- SerialConsole.Console.RaiseIfNotReady: the later classification of a failure by its diagnostic lines is not modelled.
- SerialConsole.Console.Receive: the patterns that callers wait for, time limits and the lock of the capture are not modelled.
- Qmp.Client.ExecuteResult: JSON decoding is a parameter, command and arguments are given as JSON text, and the clock is part of the events of the socket.
- Companion.ParseIffRendered: the limit of Python on the number of digits that `int` converts is not modelled, and the codes that unlock failures are reported under are one error.
- Ppm.ParsesExactly: the same limit on digits is not modelled; it concerns only dimension tokens with thousands of leading zeros.
- VaultTamper.Helper.Run: no other process touches the devices; the shape of the loop and the tampering itself are calls that may fail.
- Installer.Install.FetchAndInstall: downloads and the archive, signature and binary verifiers are calls that may raise; consecutive calls that touch no name are one point; `mkstemp` tries one name; other processes leave the names of this run alone; interrupts that are not ordinary exceptions, file modes and owners are not modelled.
- ReleaseManifest.BuiltValidates: URL and time syntax and the staged files are functions of the world that building and validating share, so files do not change in between.
- ReleaseChannel.ValidateArtifactSet: the variant without the order requirement has no caller.
- TrustCatalog.ParseCatalog: decoding of the JSON text, and the error for a non-ASCII digest, are not modelled; the number in a run address is a parameter.
- Canonical bytes and files of release manifests, and the check of staged files against a manifest: the same patterns again.
- Error messages are merged where only the fact of a refusal matters.
- Cryptography, processes, signals, terminals and sockets beyond the steps above.
- The user interfaces, the Rust core and agents, and the remaining build and qualification scripts.
