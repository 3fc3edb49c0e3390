/** The installer of the pinned command line tool, over a directory of names and inodes.
    Whose file an inode is never changes. Other processes create and remove their own files
    between any two steps, and the run leaves them alone. */
module Installer {
  import opened Texts
  import opened InstallFaults

  datatype Outcome = Installed | Failed

  class Install {
    const world: World
    var names: map<Name, Inode>
    /** The temporary paths that the run has recorded. */
    var paths: map<Label, Name>
    var installedIdentity: Option<Inode>
    /** The points of the body that the run has entered. */
    ghost var attempted: seq<Point>
    /** The point at which other processes last acted, and the names of this run then. */
    ghost var seen: Point
    ghost var held: set<Name>

    constructor (world: World)
      ensures this.world == world && Fresh()
    {
      this.world := world;
      names := map n | n in world.foreign(Entry) :: Others(world.foreign(Entry)[n]);
      paths, installedIdentity, attempted := map[], None, [];
      seen, held := Entry, {};
    }

    /** Nothing has happened yet, and every file belongs to another process. */
    ghost predicate Fresh()
      reads this
    {
      && names == Directory(world, NOTHING, Entry) && seen == Entry && held == {}
      && paths == map[] && installedIdentity.None? && attempted == []
    }

    /** The names that lead to files of this run. */
    function Own(): map<Name, Label>
      reads this
    {
      map n | n in names && names[n].Ours? :: names[n].file
    }

    /** Every other name leads to the file that another process has there, and none of
        these is missing. */
    ghost predicate Spared()
      reads this
    {
      && (forall n :: n in names && names[n].Others? <==> n in world.foreign(seen) && n !in held)
      && (forall n | n in names && names[n].Others? :: names[n].n == world.foreign(seen)[n])
    }

    /** Exactly these files of this run exist, and those of other processes are spared. */
    ghost predicate Holds(f: Files)
      reads this
    {
      Own() == Named(world, f) && Spared()
    }

    /** The first k points of the body passed. */
    ghost predicate Reached(k: nat)
      reads this
    {
      && k <= Stop(world) && attempted == Points(k)
      && Holds(FilesAt(k)) && paths == PathsAt(world, k)
      && installedIdentity == IdentityAt(k)
    }

    /** A point of the body raised. */
    ghost predicate Broken()
      reads this
    {
      var s := Stop(world);
      && s < COUNT && attempted == Points(s + 1)
      && Holds(AfterBody(world, s)) && paths == PathsAt(world, s)
      && installedIdentity == IdentityAt(s)
    }

    // ----- other processes, and steps that only fail

    /** Other processes create and remove names of their own files. */
    method Interfere(p: Point)
      requires Spared()
      modifies this`names, this`seen, this`held
      ensures Own() == old(Own()) && Spared() && seen == p && held == Own().Keys
      ensures forall n :: n in names <==> n in Own() || n in world.foreign(p)
    {
      var own, foreign := Own(), world.foreign(p);
      names := map n | n in own.Keys + foreign.Keys :: if n in own then Ours(own[n]) else Others(foreign[n]);
      seen, held := p, own.Keys;
      assert Own() == own;
    }

    /** A point of the body that changes nothing of this run. */
    method Attempt(p: Point, ghost k: nat) returns (ok: bool)
      requires k < COUNT && Plain(k) && p == BodyPoint(k) && Reached(k)
      modifies this`names, this`seen, this`held, this`attempted
      ensures ok ==> Reached(k + 1)
      ensures !ok ==> Broken()
    {
      Enter(p, k);
      PlainKeeps(world, k);
      ok := !world.faults(p);
    }

    /** Enters a point of the body. */
    method Enter(p: Point, ghost k: nat)
      requires k < COUNT && p == BodyPoint(k) && attempted == Points(k) && k <= Stop(world) && Spared()
      modifies this`names, this`seen, this`held, this`attempted
      ensures attempted == Points(k + 1) && Own() == old(Own()) && Spared()
      ensures forall n :: n in names <==> n in Own() || n in world.foreign(p)
      ensures Stop(world) == k <==> Raises(world, p)
    {
      Interfere(p);
      attempted := attempted + [p];
      StopIsFirst(world, k);
    }

    /** `unlink` of a temporary file that exists. */
    method RemoveTemporary(l: Label, ghost f: Files)
      requires Holds(f) && Has(f, l)
      modifies this`names
      ensures Holds(With(f, l, false))
    {
      names := names - {world.Candidate(l)};
      UnlinkRemoves(world, f, l);
    }

    // ----- temporary files

    /** `mkstemp`: creates the file unless the call raises or the name exists. */
    method MakeName(l: Label) returns (ok: bool)
      requires Reached(2 * Index(l))
      modifies this`names, this`seen, this`held, this`attempted
      ensures attempted == Points(2 * Index(l) + 1)
      ensures ok ==> Stop(world) > 2 * Index(l) && Holds(FilesAt(2 * Index(l) + 1))
      ensures !ok ==> Broken()
    {
      ghost var k := 2 * Index(l);
      PointAtPosition(Make(l));
      Enter(Make(l), k);
      var name := world.Candidate(l);
      NameIsNew(world, l);
      if world.faults(Make(l)) || name in names {
        AfterPlainPoint(world, k);
        return false;
      }
      AddTemporary(l);
      return true;
    }

    method AddTemporary(l: Label)
      requires Holds(FilesAt(2 * Index(l))) && world.Candidate(l) !in names
      modifies this`names
      ensures Holds(FilesAt(2 * Index(l) + 1))
    {
      names := names[world.Candidate(l) := Ours(l)];
      MakeAdds(world, l);
    }

    /** `_temporary_file`. */
    method TemporaryFile(l: Label) returns (ok: bool)
      requires Reached(2 * Index(l))
      modifies this`names, this`seen, this`held, this`attempted, this`paths
      ensures ok ==> Reached(2 * Index(l) + 2)
      ensures !ok ==> Broken()
    {
      ok := MakeName(l);
      if !ok {
        return;
      }
      PathsAroundPrepare(world, l);
      PointAtPosition(Prepare(l));
      Enter(Prepare(l), 2 * Index(l) + 1);
      if world.faults(Prepare(l)) {
        AbandonFile(l);
        return false;
      }
      paths := paths[l := world.Candidate(l)];
      return true;
    }

    /** The handler closes the descriptor and removes the file; when one of these raises,
        the file stays. */
    method AbandonFile(l: Label)
      requires Holds(FilesAt(2 * Index(l) + 1)) && Stop(world) == 2 * Index(l) + 1
      modifies this`names, this`seen, this`held
      ensures Holds(AfterBody(world, Stop(world)))
    {
      PrepareStopped(world, l);
      if world.faults(PrepareClose(l)) {
        return;
      }
      Interfere(PrepareUnlink(l));
      if !world.faults(PrepareUnlink(l)) {
        RemoveTemporary(l, FilesAt(2 * Index(l) + 1));
      }
    }

    /** The three temporary files. */
    method MakeTemporaries() returns (ok: bool)
      requires Reached(0)
      modifies this`names, this`seen, this`held, this`attempted, this`paths
      ensures ok ==> Reached(6)
      ensures !ok ==> Broken()
    {
      ok := TemporaryFile(Archive);
      if ok {
        ok := TemporaryFile(Sigstore);
      }
      if ok {
        ok := TemporaryFile(Binary);
      }
    }

    // ----- the body

    /** Downloads and checks, up to the run of the pinned binary. */
    method VerifyAll() returns (ok: bool)
      requires Reached(6)
      modifies this`names, this`seen, this`held, this`attempted
      ensures ok ==> Reached(INSPECT)
      ensures !ok ==> Broken()
    {
      ok := VerifyDownloads();
      if ok {
        ok := Attempt(Reopen, 10);
      }
      if ok {
        ok := VerifyBinaryAndExecute();
      }
    }

    method VerifyDownloads() returns (ok: bool)
      requires Reached(6)
      modifies this`names, this`seen, this`held, this`attempted
      ensures ok ==> Reached(10)
      ensures !ok ==> Broken()
    {
      ok := VerifyArchiveDownload();
      if ok {
        ok := Attempt(DownloadEvidence, 8);
      }
      if ok {
        ok := Attempt(VerifyEvidence, 9);
      }
    }

    method VerifyArchiveDownload() returns (ok: bool)
      requires Reached(6)
      modifies this`names, this`seen, this`held, this`attempted
      ensures ok ==> Reached(8)
      ensures !ok ==> Broken()
    {
      ok := Attempt(DownloadArchive, 6);
      if ok {
        ok := Attempt(VerifyArchive, 7);
      }
    }

    /** The checks of the reopened binary, and its run. */
    method VerifyBinaryAndExecute() returns (ok: bool)
      requires Reached(11)
      modifies this`names, this`seen, this`held, this`attempted
      ensures ok ==> Reached(INSPECT)
      ensures !ok ==> Broken()
    {
      ok := Attempt(VerifyBinary, 11);
      if ok {
        ok := Attempt(VerifySignature, 12);
      }
      if ok {
        ok := Attempt(Execute, EXECUTE);
      }
    }

    /** Records the identity of the binary. */
    method InspectBinary() returns (ok: bool)
      requires Reached(INSPECT)
      modifies this`names, this`seen, this`held, this`attempted, this`installedIdentity
      ensures ok ==> Reached(LINK)
      ensures !ok ==> Broken()
    {
      Enter(Inspect, INSPECT);
      if world.faults(Inspect) {
        AfterPlainPoint(world, INSPECT);
        return false;
      }
      assert paths[Binary] in Own();
      installedIdentity := Some(names[paths[Binary]]);
      return true;
    }

    /** Links the inspected file to the output, which must not exist. */
    method LinkOutput() returns (ok: bool)
      requires Reached(LINK)
      modifies this`names, this`seen, this`held, this`attempted
      ensures ok ==> Reached(UNLINK)
      ensures !ok ==> Broken()
    {
      Enter(Link, LINK);
      if world.faults(Link) || OUTPUT in names {
        OutputOwned(world, FilesAt(LINK));
        AfterPlainPoint(world, LINK);
        return false;
      }
      AddOutput();
      return true;
    }

    method AddOutput()
      requires Holds(FilesAt(LINK)) && installedIdentity == Some(Ours(Binary)) && OUTPUT !in names
      modifies this`names
      ensures Holds(FilesAt(UNLINK))
    {
      names := names[OUTPUT := installedIdentity.value];
      OutputAdded(world);
    }

    /** Removal of the binary's temporary name. */
    method UnlinkTemporaryBinary() returns (ok: bool)
      requires Reached(UNLINK)
      modifies this`names, this`seen, this`held, this`attempted, this`paths
      ensures ok ==> Reached(UNLINK + 1)
      ensures !ok ==> Broken()
    {
      PathsAfterUnlink(world);
      Enter(UnlinkBinary, UNLINK);
      if world.faults(UnlinkBinary) {
        AfterPlainPoint(world, UNLINK);
        return false;
      }
      RemoveTemporary(Binary, FilesAt(UNLINK));
      paths := paths - {Binary};
      return true;
    }

    /** Removal of the temporary name, and the recheck of the installed file. */
    method FinishOutput() returns (ok: bool)
      requires Reached(UNLINK)
      modifies this`names, this`seen, this`held, this`attempted, this`paths
      ensures ok ==> Reached(COUNT)
      ensures !ok ==> Broken()
    {
      ok := UnlinkTemporaryBinary();
      if ok {
        ok := Attempt(FlushDirectory, 17);
      }
      if ok {
        ok := Attempt(Recheck, 18);
      }
    }

    /** The `try` block. */
    method Body() returns (ok: bool)
      requires Reached(0)
      modifies this
      ensures ok ==> Reached(COUNT)
      ensures !ok ==> Broken()
    {
      ok := MakeTemporaries();
      if ok {
        ok := VerifyAll();
      }
      if ok {
        ok := InspectBinary();
      }
      if ok {
        ok := LinkOutput();
      }
      if ok {
        ok := FinishOutput();
      }
    }

    // ----- handlers

    /** The `except` block: removes the output when it is the file this run linked. */
    method Undo()
      requires Broken()
      modifies this`names, this`seen, this`held
      ensures Holds(AfterUndo(world, Stop(world)))
    {
      ghost var f := AfterBody(world, Stop(world));
      assert f.(output := f.output) == f;
      if installedIdentity.None? {
        return;
      }
      Interfere(UndoInspect);
      if world.faults(UndoInspect) {
        return;
      }
      var mine := IsInstalled(f);
      if !mine {
        return;
      }
      Interfere(UndoUnlink);
      if !world.faults(UndoUnlink) {
        RemoveOutput(f);
        Interfere(UndoFlush);
      }
    }

    /** The output is the file whose identity was recorded. */
    method IsInstalled(ghost f: Files) returns (r: bool)
      requires Holds(f) && installedIdentity == Some(Ours(Binary))
      ensures r <==> f.output
    {
      OutputOwned(world, f);
      r := OUTPUT in names && names[OUTPUT] == installedIdentity.value;
      assert r ==> OUTPUT in Own();
      assert f.output ==> OUTPUT in Own() && Own()[OUTPUT] == Binary;
    }

    method RemoveOutput(ghost f: Files)
      requires Holds(f) && f.output
      modifies this`names
      ensures Holds(f.(output := false))
    {
      names := names - {OUTPUT};
      OutputRemoved(world, f);
    }

    /** `_cleanup_temporary`: removes a recorded temporary name, or raises. */
    method CleanupTemporary(l: Label, ghost f: Files) returns (ok: bool)
      requires Holds(f) && (l in paths ==> paths[l] == world.Candidate(l) && Has(f, l))
      modifies this`names, this`seen, this`held
      ensures ok <==> !(l in paths && world.faults(CleanupUnlink(l)))
      ensures !ok ==> seen == CleanupUnlink(l) && held == Own().Keys
      ensures Holds(if ok && l in paths then With(f, l, false) else f)
    {
      if l !in paths {
        return true;
      }
      Interfere(CleanupUnlink(l));
      if world.faults(CleanupUnlink(l)) {
        return false;
      }
      RemoveTemporary(l, f);
      return true;
    }

    /** The `finally` block up to the last close. A cleanup that raises skips the ones
        after it. */
    method RemoveTemporaries(ghost f: Files) returns (ok: bool)
      requires Holds(f) && forall l | l in paths :: paths[l] == world.Candidate(l) && Has(f, l)
      modifies this`names, this`seen, this`held
      ensures Holds(Swept(world, f, paths.Keys))
      ensures ok <==> SweepsAll(world, paths.Keys)
      ensures !ok ==> seen == FirstMiss(world, paths.Keys) && held == Own().Keys
    {
      ok := CleanupTemporary(Binary, f);
      ghost var g := Without(f, paths.Keys, Binary);
      if ok {
        ok := CleanupTemporary(Sigstore, g);
        if ok {
          ok := CleanupTemporary(Archive, Without(g, paths.Keys, Sigstore));
        }
      }
    }

    // ----- the whole run

    lemma Begin()
      requires Fresh() && !Refused(world)
      ensures Reached(0)
    {
      assert Own() == map[];
      assert Points(0) == [];
    }

    /** The `try` block with its `except` block. */
    method BodyAndUndo() returns (completed: bool)
      requires Reached(0)
      modifies this
      ensures completed <==> Stop(world) == COUNT
      ensures attempted == Points(if Stop(world) == COUNT then COUNT else Stop(world) + 1)
      ensures Holds(AfterUndo(world, Stop(world))) && paths == PathsAt(world, Stop(world))
    {
      completed := Body();
      if !completed {
        Undo();
      } else {
        assert AfterUndo(world, COUNT) == FilesAt(COUNT);
      }
    }

    /** The `finally` block. */
    method Finally() returns (ok: bool)
      requires Holds(AfterUndo(world, Stop(world))) && paths == PathsAt(world, Stop(world))
      modifies this`names, this`seen, this`held
      ensures Holds(LeftAfter(world, Stop(world)))
      ensures ok <==> !world.faults(CloseDirectory) && SweepsAll(world, paths.Keys)
      ensures !Refused(world) ==> seen == Last(world)
      ensures held == Own().Keys
    {
      PathsRecorded(world, Stop(world));
      SweptIsLeft(world, Stop(world));
      ok := RemoveTemporaries(AfterUndo(world, Stop(world)));
      if ok {
        Interfere(CloseDirectory);
        ok := !world.faults(CloseDirectory);
      }
    }

    lemma WholeDirectory(f: Files)
      requires Holds(f) && held == Own().Keys
      ensures names == Directory(world, f, seen)
    {
    }

    /** `fetch_and_install`. The points that raise and the files of others fix which points
        of the body are entered, whether the run returns normally, and what the whole
        directory holds afterwards: which names of this run, each leading to which file,
        and under every other name what other processes have there. */
    method FetchAndInstall() returns (outcome: Outcome)
      requires Fresh()
      modifies this
      ensures attempted == Attempted(world)
      ensures names == Directory(world, Left(world), Last(world))
      ensures outcome == Installed <==> Installs(world)
      ensures outcome == Installed ==> Own() == map[OUTPUT := Binary]
    {
      if world.faults(Entry) || OUTPUT in names {
        return Failed;  // user, lock, directory or output refused
      }
      Begin();
      outcome := Proceed();
    }

    /** The run after its entry. */
    method Proceed() returns (outcome: Outcome)
      requires Reached(0) && !Refused(world)
      modifies this
      ensures attempted == Attempted(world)
      ensures names == Directory(world, Left(world), Last(world))
      ensures outcome == Installed <==> Installs(world)
      ensures outcome == Installed ==> Own() == map[OUTPUT := Binary]
    {
      var completed := BodyAndUndo();
      var ok := Finally();
      WholeDirectory(Left(world));
      outcome := if completed && ok then Installed else Failed;
      InstalledExactly(world);
    }
  }

  // ----- facts about names

  lemma InstalledExactly(w: World)
    ensures Installs(w) <==>
            Completes(w) && !w.faults(CloseDirectory) && SweepsAll(w, PathsAt(w, Stop(w)).Keys)
    ensures Installs(w) ==> Named(w, Left(w)) == map[OUTPUT := Binary]
  {
    if Completes(w) {
      CompletionLeavesOutput(w);
      PathsRecorded(w, Stop(w));
    }
  }

  /** The identity is recorded once the binary was inspected. */
  function IdentityAt(k: nat): Option<Inode> {
    if k > INSPECT then Some(Ours(Binary)) else None
  }

  /** The points that create, remove and record nothing. */
  predicate Plain(k: nat) {
    6 <= k < INSPECT || k == 17 || k == 18
  }

  lemma PlainKeeps(w: World, k: nat)
    requires k < COUNT && Plain(k)
    ensures FilesAt(k + 1) == FilesAt(k) == AfterBody(w, k) && PathsAt(w, k + 1) == PathsAt(w, k)
    ensures IdentityAt(k + 1) == IdentityAt(k) && (Raises(w, BodyPoint(k)) <==> w.faults(BodyPoint(k)))
  {
  }

  lemma AfterPlainPoint(w: World, k: nat)
    requires k < COUNT && !BodyPoint(k).Prepare?
    ensures AfterBody(w, k) == FilesAt(k)
  {
  }

  /** No file of this run has the name that is about to be created. */
  lemma NameIsNew(w: World, l: Label)
    ensures w.Candidate(l) !in Named(w, FilesAt(2 * Index(l)))
  {
    AllNamesApart(w);
  }

  lemma MakeAdds(w: World, l: Label)
    ensures var k := 2 * Index(l); Named(w, FilesAt(k + 1)) == Named(w, FilesAt(k))[w.Candidate(l) := l]
  {
    AllNamesApart(w);
  }

  lemma UnlinkArchive(w: World, f: Files)
    requires f.archive
    ensures Named(w, f.(archive := false)) == Named(w, f) - {w.Candidate(Archive)}
  {
    AllNamesApart(w);
  }

  lemma UnlinkSigstore(w: World, f: Files)
    requires f.sigstore
    ensures Named(w, f.(sigstore := false)) == Named(w, f) - {w.Candidate(Sigstore)}
  {
    AllNamesApart(w);
  }

  lemma UnlinkBinaryName(w: World, f: Files)
    requires f.binary
    ensures Named(w, f.(binary := false)) == Named(w, f) - {w.Candidate(Binary)}
  {
    AllNamesApart(w);
  }

  lemma UnlinkRemoves(w: World, f: Files, l: Label)
    requires Has(f, l)
    ensures Named(w, With(f, l, false)) == Named(w, f) - {w.Candidate(l)}
  {
    match l
    case Archive => UnlinkArchive(w, f);
    case Sigstore => UnlinkSigstore(w, f);
    case Binary => UnlinkBinaryName(w, f);
  }

  lemma PathsAroundPrepare(w: World, l: Label)
    ensures var k := 2 * Index(l);
            && FilesAt(k + 2) == FilesAt(k + 1) && PathsAt(w, k + 1) == PathsAt(w, k)
            && PathsAt(w, k + 2) == PathsAt(w, k)[l := w.Candidate(l)]
            && IdentityAt(k) == IdentityAt(k + 1) == IdentityAt(k + 2)
  {
  }

  lemma PrepareStopped(w: World, l: Label)
    ensures var k := 2 * Index(l) + 1;
            && Has(FilesAt(k), l)
            && AfterBody(w, k) == if PrepareLeaks(w, l) then FilesAt(k) else With(FilesAt(k), l, false)
  {
  }

  lemma PathsAfterUnlink(w: World)
    ensures FilesAt(UNLINK + 1) == With(FilesAt(UNLINK), Binary, false)
    ensures Has(FilesAt(UNLINK), Binary) && PathsAt(w, UNLINK + 1) == PathsAt(w, UNLINK) - {Binary}
  {
  }

  lemma PathsRecorded(w: World, s: nat)
    ensures forall l: Label :: l in PathsAt(w, s) <==> Recorded(s, l)
    ensures forall l: Label | Recorded(s, l) :: PathsAt(w, s)[l] == w.Candidate(l)
    ensures forall l: Label | Recorded(s, l) :: Has(AfterBody(w, s), l)
  {
  }

  /** The files when the `finally` block begins. */
  function AfterUndo(w: World, s: nat): Files {
    AfterBody(w, s).(output := OutputStays(w, s))
  }

  function Without(f: Files, recorded: set<Label>, l: Label): Files {
    if l in recorded then With(f, l, false) else f
  }

  /** What the cleanup of the recorded files leaves: it stops at the first that raises. */
  function Swept(w: World, f: Files, recorded: set<Label>): Files {
    var g := Without(f, recorded, Binary);
    var h := Without(g, recorded, Sigstore);
    if Binary in recorded && w.faults(CleanupUnlink(Binary)) then f
    else if Sigstore in recorded && w.faults(CleanupUnlink(Sigstore)) then g
    else if Archive in recorded && w.faults(CleanupUnlink(Archive)) then h
    else Without(h, recorded, Archive)
  }

  predicate SweepsAll(w: World, recorded: set<Label>) {
    && (Binary in recorded ==> !w.faults(CleanupUnlink(Binary)))
    && (Sigstore in recorded ==> !w.faults(CleanupUnlink(Sigstore)))
    && (Archive in recorded ==> !w.faults(CleanupUnlink(Archive)))
  }

  /** The first removal that raises. */
  function FirstMiss(w: World, recorded: set<Label>): Point {
    if Binary in recorded && w.faults(CleanupUnlink(Binary)) then CleanupUnlink(Binary)
    else if Sigstore in recorded && w.faults(CleanupUnlink(Sigstore)) then CleanupUnlink(Sigstore)
    else CleanupUnlink(Archive)
  }

  lemma SweptIsLeft(w: World, s: nat)
    ensures Swept(w, AfterUndo(w, s), PathsAt(w, s).Keys) == LeftAfter(w, s)
  {
    PathsRecorded(w, s);
  }

  lemma OutputAdded(w: World)
    ensures Named(w, FilesAt(UNLINK)) == Named(w, FilesAt(LINK))[OUTPUT := Binary]
  {
    AllNamesApart(w);
  }

  lemma OutputOwned(w: World, f: Files)
    ensures OUTPUT in Named(w, f) <==> f.output
  {
    AllNamesApart(w);
  }

  lemma OutputRemoved(w: World, f: Files)
    ensures Named(w, f.(output := false)) == Named(w, f) - {OUTPUT}
  {
    AllNamesApart(w);
  }
}
