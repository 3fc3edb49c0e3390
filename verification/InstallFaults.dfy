/** Where the installer can fail, and what each failure leaves behind. Every call that may
    raise is a point that a run passes at most once, so a run is fixed by the points that
    raise and by the files that other processes have at each point. */
module InstallFaults {
  import opened Texts

  type Name = string

  /** The three temporary files. */
  datatype Label = Archive | Sigstore | Binary

  datatype Point =
    | Entry
    | Make(file: Label)
    | Prepare(file: Label)
    | DownloadArchive
    | VerifyArchive
    | DownloadEvidence
    | VerifyEvidence
    | Reopen
    | VerifyBinary
    | VerifySignature
    | Execute
    | Inspect
    | Link
    | UnlinkBinary
    | FlushDirectory
    | Recheck
    // handlers
    | PrepareClose(file: Label)
    | PrepareUnlink(file: Label)
    | UndoInspect
    | UndoUnlink
    | UndoFlush
    | CleanupUnlink(file: Label)
    | CloseDirectory

  /** How many points the `try` block has. */
  const COUNT: nat := 19

  const EXECUTE: nat := 13
  const INSPECT: nat := 14
  const LINK: nat := 15
  const UNLINK: nat := 16

  /** The points of the `try` block in the order in which it passes them. */
  function BodyPoint(k: nat): Point
    requires k < COUNT
  {
    if k == 0 then Make(Archive)
    else if k == 1 then Prepare(Archive)
    else if k == 2 then Make(Sigstore)
    else if k == 3 then Prepare(Sigstore)
    else if k == 4 then Make(Binary)
    else if k == 5 then Prepare(Binary)
    else if k == 6 then DownloadArchive
    else if k == 7 then VerifyArchive
    else if k == 8 then DownloadEvidence
    else if k == 9 then VerifyEvidence
    else if k == 10 then Reopen
    else if k == 11 then VerifyBinary
    else if k == 12 then VerifySignature
    else if k == EXECUTE then Execute
    else if k == INSPECT then Inspect
    else if k == LINK then Link
    else if k == UNLINK then UnlinkBinary
    else if k == 17 then FlushDirectory
    else Recheck
  }

  /** Where a point stands in the `try` block. */
  function Position(p: Point): (k: Option<nat>)
    ensures k.Some? ==> k.value < COUNT
  {
    match p
    case Make(l) => Some(2 * Index(l))
    case Prepare(l) => Some(2 * Index(l) + 1)
    case DownloadArchive => Some(6)
    case VerifyArchive => Some(7)
    case DownloadEvidence => Some(8)
    case VerifyEvidence => Some(9)
    case Reopen => Some(10)
    case VerifyBinary => Some(11)
    case VerifySignature => Some(12)
    case Execute => Some(EXECUTE)
    case Inspect => Some(INSPECT)
    case Link => Some(LINK)
    case UnlinkBinary => Some(UNLINK)
    case FlushDirectory => Some(17)
    case Recheck => Some(18)
    case _ => None
  }

  function Index(l: Label): (i: nat)
    ensures i < 3
  {
    match l
    case Archive => 0
    case Sigstore => 1
    case Binary => 2
  }

  lemma PositionOfPoint(k: nat)
    requires k < COUNT
    ensures Position(BodyPoint(k)) == Some(k)
  {
  }

  lemma PointAtPosition(p: Point)
    requires Position(p).Some?
    ensures BodyPoint(Position(p).value) == p
  {
  }

  /** The first n points. */
  function Points(n: nat): seq<Point>
    requires n <= COUNT
  {
    seq(n, i requires 0 <= i < COUNT => BodyPoint(i))
  }

  /** The name that the lock file prescribes. */
  const OUTPUT: Name := "codex"

  function Prefix(l: Label): Name {
    match l
    case Archive => ".codex-archive-"
    case Sigstore => ".codex-sigstore-"
    case Binary => ".codex-binary-"
  }

  /** The input of a run: the random ends of the names that `mkstemp` picks, the points
      that raise, and the files of other processes at each point. */
  datatype World = World(suffix: Label -> Name, faults: Point -> bool, foreign: Point -> map<Name, nat>) {
    function Candidate(l: Label): Name {
      Prefix(l) + suffix(l)
    }
  }

  /** The prefixes keep the temporary names apart from each other and from the output. */
  lemma NamesApart(w: World, l: Label, m: Label)
    ensures w.Candidate(l) != OUTPUT
    ensures l != m ==> w.Candidate(l) != w.Candidate(m)
  {
    assert w.Candidate(l)[0] == '.' && OUTPUT[0] == 'c';
    assert w.Candidate(l)[7] == Prefix(l)[7] && w.Candidate(m)[7] == Prefix(m)[7];
  }

  lemma AllNamesApart(w: World)
    ensures w.Candidate(Archive) != OUTPUT && w.Candidate(Sigstore) != OUTPUT && w.Candidate(Binary) != OUTPUT
    ensures w.Candidate(Archive) != w.Candidate(Sigstore)
    ensures w.Candidate(Archive) != w.Candidate(Binary) && w.Candidate(Sigstore) != w.Candidate(Binary)
  {
    NamesApart(w, Archive, Sigstore);
    NamesApart(w, Sigstore, Binary);
    NamesApart(w, Binary, Archive);
  }

  /** `mkstemp` finds the name taken. No file of this run can have it. */
  predicate Taken(w: World, l: Label) {
    w.Candidate(l) in w.foreign(Make(l))
  }

  predicate Raises(w: World, p: Point) {
    || w.faults(p)
    || (p.Make? && Taken(w, p.file))
    || (p == Link && OUTPUT in w.foreign(Link))
  }

  /** The run is refused before it creates anything. */
  predicate Refused(w: World) {
    w.faults(Entry) || OUTPUT in w.foreign(Entry)
  }

  /** How many points of the body pass before the first that raises, counting from k. */
  function FirstRaise(w: World, k: nat): (s: nat)
    requires k <= COUNT
    ensures k <= s <= COUNT
    decreases COUNT - k, w
  {
    if k == COUNT || Raises(w, BodyPoint(k)) then k else FirstRaise(w, k + 1)
  }

  function Stop(w: World): (s: nat)
    ensures s <= COUNT
  {
    FirstRaise(w, 0)
  }

  lemma {:induction false} FirstRaiseIsFirst(w: World, k: nat, i: nat)
    requires k <= i < COUNT
    ensures i < FirstRaise(w, k) ==> !Raises(w, BodyPoint(i))
    ensures i == FirstRaise(w, k) ==> Raises(w, BodyPoint(i))
    decreases COUNT - k
  {
    if k < i && !Raises(w, BodyPoint(k)) {
      FirstRaiseIsFirst(w, k + 1, i);
    }
  }

  /** The points before the stop pass, and the one at the stop raises. */
  lemma StopIsFirst(w: World, i: nat)
    requires i < COUNT
    ensures i < Stop(w) ==> !Raises(w, BodyPoint(i))
    ensures i == Stop(w) ==> Raises(w, BodyPoint(i))
  {
    FirstRaiseIsFirst(w, 0, i);
  }

  predicate Completes(w: World) {
    !Refused(w) && Stop(w) == COUNT
  }

  /** The points of the body that a run enters. */
  function Attempted(w: World): seq<Point> {
    if Refused(w) then [] else if Stop(w) == COUNT then Points(COUNT) else Points(Stop(w) + 1)
  }

  // ----- files

  /** Which names of this run exist. */
  datatype Files = Files(archive: bool, sigstore: bool, binary: bool, output: bool)

  const NOTHING := Files(false, false, false, false)

  function Has(f: Files, l: Label): bool {
    match l
    case Archive => f.archive
    case Sigstore => f.sigstore
    case Binary => f.binary
  }

  function With(f: Files, l: Label, present: bool): Files {
    match l
    case Archive => f.(archive := present)
    case Sigstore => f.(sigstore := present)
    case Binary => f.(binary := present)
  }

  /** Each name of this run and the file that it leads to. */
  function Named(w: World, f: Files): map<Name, Label> {
    (if f.archive then map[w.Candidate(Archive) := Archive] else map[])
    + (if f.sigstore then map[w.Candidate(Sigstore) := Sigstore] else map[])
    + (if f.binary then map[w.Candidate(Binary) := Binary] else map[])
    + (if f.output then map[OUTPUT := Binary] else map[])
  }

  /** The file that this run created for a label, or a file of another process. */
  datatype Inode = Ours(file: Label) | Others(n: nat)

  /** The whole directory: these files of this run, and what other processes have at this
      point under any other name. */
  function Directory(w: World, f: Files, p: Point): map<Name, Inode> {
    map n | n in Named(w, f).Keys + w.foreign(p).Keys ::
      if n in Named(w, f) then Ours(Named(w, f)[n]) else Others(w.foreign(p)[n])
  }

  /** The files after the first k points of the body. */
  function FilesAt(k: nat): Files {
    Files(k >= 1, k >= 3, 5 <= k <= UNLINK, k > LINK)
  }

  /** The paths that the run has recorded by then. */
  function PathsAt(w: World, k: nat): map<Label, Name> {
    (if k >= 2 then map[Archive := w.Candidate(Archive)] else map[])
    + (if k >= 4 then map[Sigstore := w.Candidate(Sigstore)] else map[])
    + (if 6 <= k <= UNLINK then map[Binary := w.Candidate(Binary)] else map[])
  }

  /** The handler of `_temporary_file` leaves the file: closing it raised, so that nothing
      was unlinked, or unlinking it raised. */
  predicate PrepareLeaks(w: World, l: Label) {
    w.faults(PrepareClose(l)) || w.faults(PrepareUnlink(l))
  }

  /** The body stopped while it prepared this file, and the handler removed it. */
  predicate PrepareRemoved(w: World, s: nat, l: Label) {
    s == 2 * Index(l) + 1 && !PrepareLeaks(w, l)
  }

  /** The files when the body ends after s points, however it ends. */
  function AfterBody(w: World, s: nat): Files {
    var f := FilesAt(s);
    Files(
      f.archive && !PrepareRemoved(w, s, Archive),
      f.sigstore && !PrepareRemoved(w, s, Sigstore),
      f.binary && !PrepareRemoved(w, s, Binary),
      f.output)
  }

  predicate OutputStays(w: World, s: nat) {
    s > LINK && (s == COUNT || w.faults(UndoInspect) || w.faults(UndoUnlink))
  }

  predicate Recorded(s: nat, l: Label) {
    match l
    case Archive => s >= 2
    case Sigstore => s >= 4
    case Binary => 6 <= s <= UNLINK
  }

  /** The removal of a temporary raises, or is skipped because an earlier one raised. */
  predicate CleanupMisses(w: World, s: nat, l: Label) {
    var binary := Recorded(s, Binary) && w.faults(CleanupUnlink(Binary));
    var sigstore := binary || (Recorded(s, Sigstore) && w.faults(CleanupUnlink(Sigstore)));
    match l
    case Binary => binary
    case Sigstore => sigstore
    case Archive => sigstore || w.faults(CleanupUnlink(Archive))
  }

  predicate TemporaryStays(w: World, s: nat, l: Label) {
    Has(AfterBody(w, s), l) && (Recorded(s, l) ==> CleanupMisses(w, s, l))
  }

  /** What a run leaves behind whose body ends after s points. */
  function LeftAfter(w: World, s: nat): Files {
    Files(
      TemporaryStays(w, s, Archive), TemporaryStays(w, s, Sigstore), TemporaryStays(w, s, Binary),
      OutputStays(w, s))
  }

  /** What a run leaves behind. */
  function Left(w: World): Files {
    if Refused(w) then NOTHING else LeftAfter(w, Stop(w))
  }

  /** The last call of a run: the removal of a temporary that raises, or the last close. */
  function Last(w: World): Point {
    var s := Stop(w);
    if Refused(w) then Entry
    else if Recorded(s, Binary) && w.faults(CleanupUnlink(Binary)) then CleanupUnlink(Binary)
    else if Recorded(s, Sigstore) && w.faults(CleanupUnlink(Sigstore)) then CleanupUnlink(Sigstore)
    else if Recorded(s, Archive) && w.faults(CleanupUnlink(Archive)) then CleanupUnlink(Archive)
    else CloseDirectory
  }

  /** The run returns normally. */
  predicate Installs(w: World) {
    && Completes(w)
    && !w.faults(CleanupUnlink(Sigstore)) && !w.faults(CleanupUnlink(Archive)) && !w.faults(CloseDirectory)
  }

  // ----- what follows for every input

  /** The handler points that decide what remains when the body stops after s points. */
  predicate Handles(s: nat, p: Point) {
    match p
    case PrepareClose(l) => s == 2 * Index(l) + 1
    case PrepareUnlink(l) => s == 2 * Index(l) + 1
    case CleanupUnlink(l) => Recorded(s, l)
    case UndoInspect => s > LINK
    case UndoUnlink => s > LINK
    case _ => false
  }

  /** A run whose body fails leaves no name behind exactly when none of the handler points
      that it goes through raises. */
  lemma FailureLeavesNothing(w: World)
    requires !Completes(w)
    ensures Left(w) == NOTHING <==> Refused(w) || forall p :: Handles(Stop(w), p) ==> !w.faults(p)
  {
    if !Refused(w) {
      if forall p :: Handles(Stop(w), p) ==> !w.faults(p) {
        QuietHandlers(w, Stop(w));
      }
      if Left(w) == NOTHING {
        forall p | Handles(Stop(w), p) ensures !w.faults(p) {
          LoudHandler(w, Stop(w), p);
        }
      }
    }
  }

  lemma QuietHandlers(w: World, s: nat)
    requires s < COUNT && forall p :: Handles(s, p) ==> !w.faults(p)
    ensures LeftAfter(w, s) == NOTHING
  {
    forall l: Label ensures !TemporaryStays(w, s, l) {
      assert Handles(s, PrepareClose(l)) <==> s == 2 * Index(l) + 1;
      assert Handles(s, PrepareUnlink(l)) <==> s == 2 * Index(l) + 1;
      assert Handles(s, CleanupUnlink(l)) <==> Recorded(s, l);
      assert Handles(s, CleanupUnlink(Binary)) <==> Recorded(s, Binary);
      assert Handles(s, CleanupUnlink(Sigstore)) <==> Recorded(s, Sigstore);
    }
    assert Handles(s, UndoInspect) <==> s > LINK;
    assert Handles(s, UndoUnlink) <==> s > LINK;
  }

  lemma LoudHandler(w: World, s: nat, p: Point)
    requires s < COUNT && LeftAfter(w, s) == NOTHING && Handles(s, p)
    ensures !w.faults(p)
  {
    assert !TemporaryStays(w, s, Archive) && !TemporaryStays(w, s, Sigstore) && !TemporaryStays(w, s, Binary);
    match p
    case PrepareClose(l) => assert Has(FilesAt(s), l) && !Recorded(s, l);
    case PrepareUnlink(l) => assert Has(FilesAt(s), l) && !Recorded(s, l);
    case CleanupUnlink(l) => assert Has(AfterBody(w, s), l);
    case _ =>
  }

  /** A run whose body completes leaves the output, and its own temporaries exactly when
      the removal of one of the two that are left raises. It returns normally exactly when
      closing the directory does not raise either. */
  lemma CompletionLeavesOutput(w: World)
    requires Completes(w)
    ensures Left(w).output && !Left(w).binary
    ensures Left(w).sigstore <==> w.faults(CleanupUnlink(Sigstore))
    ensures Left(w).archive <==> w.faults(CleanupUnlink(Sigstore)) || w.faults(CleanupUnlink(Archive))
    ensures Installs(w) <==> Left(w) == Files(false, false, false, true) && !w.faults(CloseDirectory)
  {
    assert Left(w) == LeftAfter(w, COUNT);
  }

  /** The output of a failed run stays exactly when the body had completed, or when it had
      been linked and the handler could not inspect or unlink it. */
  lemma FailedOutputStays(w: World)
    requires !Installs(w)
    ensures Left(w).output <==>
            && Link in Attempted(w) && !Raises(w, Link)
            && (Completes(w) || w.faults(UndoInspect) || w.faults(UndoUnlink))
  {
    Entered(w, Link);
  }

  /** A point of the body is entered exactly when no point before it raises. */
  lemma Entered(w: World, p: Point)
    requires Position(p).Some?
    ensures p in Attempted(w) <==> !Refused(w) && Stop(w) >= Position(p).value
    ensures p in Attempted(w) && !Raises(w, p) <==> !Refused(w) && Stop(w) > Position(p).value
  {
    PointAtPosition(p);
    if !Refused(w) {
      InPoints(p, |Attempted(w)|);
      StopIsFirst(w, Position(p).value);
    }
  }

  lemma InPoints(p: Point, n: nat)
    requires Position(p).Some? && n <= COUNT
    ensures p in Points(n) <==> Position(p).value < n
  {
    var k := Position(p).value;
    PointAtPosition(p);
    if p in Points(n) {
      var i :| 0 <= i < n && Points(n)[i] == p;
      PositionOfPoint(i);
    }
    assert k < n ==> Points(n)[k] == p;
  }

  predicate Passed(w: World, p: Point) {
    p in Attempted(w) && !Raises(w, p)
  }

  /** The `finally` block has this file to remove. */
  predicate Kept(w: World, l: Label) {
    Passed(w, Prepare(l)) && !(l == Binary && Passed(w, UnlinkBinary))
  }

  lemma KeptIsRecorded(w: World, l: Label)
    ensures Kept(w, l) <==> !Refused(w) && Recorded(Stop(w), l)
  {
    Entered(w, Prepare(l));
    if l == Binary {
      Entered(w, UnlinkBinary);
    }
  }

  /** A temporary file stays exactly when it was created and either it could not be
      prepared and its own handler raised, or the `finally` block had it to remove and the
      removal of this file or of one before it raised. */
  lemma TemporaryStaysExactly(w: World, l: Label)
    ensures Has(Left(w), l) <==>
            && Passed(w, Make(l))
            && if Kept(w, l) then
                 exists m: Label | Index(m) >= Index(l) :: Kept(w, m) && w.faults(CleanupUnlink(m))
               else !Passed(w, Prepare(l)) && PrepareLeaks(w, l)
  {
    Entered(w, Make(l));
    Entered(w, Prepare(l));
    KeptIsRecorded(w, Archive);
    KeptIsRecorded(w, Sigstore);
    KeptIsRecorded(w, Binary);
    if !Refused(w) {
      StaysAt(w, Stop(w), l);
    }
  }

  lemma StaysAt(w: World, s: nat, l: Label)
    ensures TemporaryStays(w, s, l) <==>
            && s > 2 * Index(l)
            && if Recorded(s, l) then
                 exists m: Label | Index(m) >= Index(l) :: Recorded(s, m) && w.faults(CleanupUnlink(m))
               else s == 2 * Index(l) + 1 && PrepareLeaks(w, l)
  {
    assert Index(Archive) == 0 && Index(Sigstore) == 1 && Index(Binary) == 2;
  }

  /** The points that must have passed before the binary is executed. */
  predicate IsCheck(p: Point) {
    || p == DownloadArchive || p == VerifyArchive || p == DownloadEvidence || p == VerifyEvidence
    || p == Reopen || p == VerifyBinary || p == VerifySignature
  }

  lemma CheckPosition(w: World, p: Point)
    requires IsCheck(p)
    ensures Position(p).Some? && Position(p).value < EXECUTE && (Raises(w, p) <==> w.faults(p))
  {
  }

  /** The binary is executed only after the archive, the evidence, the binary and the
      signature were all verified. */
  lemma ExecutedAfterChecks(w: World, p: Point)
    requires IsCheck(p) && Execute in Attempted(w)
    ensures p in Attempted(w) && !w.faults(p)
  {
    CheckPosition(w, p);
    Entered(w, Execute);
    Entered(w, p);
  }

  /** It is linked only after it was executed, and rechecked only after it was linked. */
  lemma LinkedAfterExecution(w: World)
    ensures Link in Attempted(w) ==> Execute in Attempted(w) && !w.faults(Execute)
    ensures Recheck in Attempted(w) ==> Link in Attempted(w) && !Raises(w, Link)
  {
    Entered(w, Execute);
    Entered(w, Link);
    Entered(w, Recheck);
  }

  // ----- runs with chosen faults and no other process

  /** The run in which exactly these points raise. */
  function Only(suffix: Label -> Name, points: set<Point>): World {
    World(suffix, p => p in points, _ => map[])
  }

  lemma OnlyRaises(suffix: Label -> Name, points: set<Point>, p: Point)
    ensures Raises(Only(suffix, points), p) <==> p in points
    ensures Refused(Only(suffix, points)) <==> Entry in points
  {
    var w := Only(suffix, points);
    if p.Make? {
      assert w.foreign(Make(p.file)) == map[];
    }
  }

  /** The body stops at the first of the chosen points, or completes. */
  lemma OnlyStops(suffix: Label -> Name, points: set<Point>, k: nat)
    requires k <= COUNT
    requires k < COUNT ==> BodyPoint(k) in points
    requires forall p | p in points && Position(p).Some? :: Position(p).value >= k
    ensures Stop(Only(suffix, points)) == k
  {
    var w := Only(suffix, points);
    var s := Stop(w);
    if s < COUNT {
      StopIsFirst(w, s);
      OnlyRaises(suffix, points, BodyPoint(s));
      PositionOfPoint(s);
    }
    if k < COUNT {
      StopIsFirst(w, k);
      OnlyRaises(suffix, points, BodyPoint(k));
    }
  }

  /** One fault alone, wherever it strikes in the body, leaves nothing. One that strikes
      only after the body leaves the output, although the run fails when the cleanup or the
      close of the directory raised. */
  lemma SingleFault(suffix: Label -> Name, p: Point)
    ensures var w := Only(suffix, {p});
            && (Left(w) == NOTHING <==> p == Entry || Position(p).Some?)
            && (Left(w).output <==> p != Entry && Position(p).None?)
            && (Left(w).sigstore <==> p == CleanupUnlink(Sigstore))
            && (Left(w).archive <==> p == CleanupUnlink(Sigstore) || p == CleanupUnlink(Archive))
            && !Left(w).binary
  {
    var w := Only(suffix, {p});
    OnlyRaises(suffix, {p}, p);
    if Position(p).Some? {
      PointAtPosition(p);
      OnlyStops(suffix, {p}, Position(p).value);
      FailureLeavesNothing(w);
    } else if p != Entry {
      OnlyStops(suffix, {p}, COUNT);
      CompletionLeavesOutput(w);
    }
  }

  /** With no other process, a fault in the body leaves an empty directory. */
  lemma BodyFaultLeavesEmpty(suffix: Label -> Name, p: Point)
    requires Position(p).Some?
    ensures var w := Only(suffix, {p}); !Installs(w) && Directory(w, Left(w), Last(w)) == map[]
  {
    var w := Only(suffix, {p});
    SingleFault(suffix, p);
    PointAtPosition(p);
    OnlyStops(suffix, {p}, Position(p).value);
    assert w.foreign(Last(w)) == map[];
  }

  /** The close of the directory descriptor is the last call of the run: when it alone
      raises, the run fails, and the verified output is installed and nothing else remains. */
  lemma LateClose(suffix: Label -> Name)
    ensures var w := Only(suffix, {CloseDirectory});
            && !Installs(w) && Attempted(w) == Points(COUNT)
            && Directory(w, Left(w), Last(w)) == map[OUTPUT := Ours(Binary)]
  {
    SingleFault(suffix, CloseDirectory);
    OnlyRaises(suffix, {CloseDirectory}, CloseDirectory);
    OnlyStops(suffix, {CloseDirectory}, COUNT);
  }

  /** When a temporary file cannot be prepared and its descriptor cannot be closed, no
      unlink is attempted, and the file stays. */
  lemma PrepareCloseLeaks(suffix: Label -> Name, l: Label)
    ensures var w := Only(suffix, {Prepare(l), PrepareClose(l)});
            !Installs(w) && Directory(w, Left(w), Last(w)) == map[w.Candidate(l) := Ours(l)]
  {
    var points := {Prepare(l), PrepareClose(l)};
    var w := Only(suffix, points);
    OnlyRaises(suffix, points, Prepare(l));
    PointAtPosition(Prepare(l));
    OnlyStops(suffix, points, 2 * Index(l) + 1);
    assert Left(w) == With(NOTHING, l, true);
  }

  /** When the installed file fails its recheck and cannot be inspected, it stays. */
  lemma UndoInspectLeaks(suffix: Label -> Name)
    ensures var w := Only(suffix, {Recheck, UndoInspect});
            !Installs(w) && Directory(w, Left(w), Last(w)) == map[OUTPUT := Ours(Binary)]
  {
    var points := {Recheck, UndoInspect};
    var w := Only(suffix, points);
    OnlyRaises(suffix, points, Recheck);
    PointAtPosition(Recheck);
    OnlyStops(suffix, points, 18);
    assert Left(w) == Files(false, false, false, true);
  }
}
