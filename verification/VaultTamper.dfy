/** Ownership of the loop device and the mapper in the vault tamper helper: any tool call
    may fail or lie about its effect, time may run out at any point, and nobody else changes
    the devices. What each call does is an input. */
module VaultTamper {
  import opened Texts

  /** A loop device, by its path. */
  type Loop = Bytes

  datatype Call = CloseMapper | Detach(loop: Loop, mapperPresent: bool)

  datatype Outcome = Attested | Failed | CleanupFailed

  /** What a call does: whether it raises or reports failure, whether it takes effect,
      whether no time is left, how often its caller looks again, which removals under way
      complete when not all do, and the loop that it attaches and the one that it reports. */
  datatype Behaviour = Behaviour(
    raises: bool, effective: bool, late: bool, polls: nat, gone: set<Loop>, attached: Loop, reported: Loop)

  predicate Faultless(b: Behaviour) {
    !b.raises && b.effective && !b.late && b.reported == b.attached
  }

  class Helper {
    const script: nat -> Behaviour
    var step: nat

    /** The loops backed by the media, and whether the mapper with this run's name exists. */
    var loops: set<Loop>
    var mapper: bool
    /** Loops whose removal was asked for and may still be under way. */
    var leaving: set<Loop>

    var baselineLoops: set<Loop>
    var ownedLoops: set<Loop>
    var loopSetupAttempted: bool
    var mapperBaseline: bool
    var mapperOpenAttempted: bool
    var mapperOwned: bool
    var mediaKnown: bool
    var cleanupFailed: bool

    ghost const foundLoops: set<Loop>
    ghost const foundMapper: bool
    ghost var calls: seq<Call>

    constructor (loops: set<Loop>, mapper: bool, script: nat -> Behaviour)
      ensures this.script == script
      ensures this.loops == loops == foundLoops && this.mapper == mapper == foundMapper
      ensures calls == [] && Fresh() && Safe()
    {
      this.script, step := script, 0;
      this.loops, this.mapper, leaving := loops, mapper, {};
      baselineLoops, ownedLoops := {}, {};
      loopSetupAttempted, mapperBaseline, mapperOpenAttempted, mapperOwned := false, false, false, false;
      mediaKnown, cleanupFailed := false, false;
      foundLoops, foundMapper, calls := loops, mapper, [];
    }

    ghost predicate Fresh()
      reads this
    {
      && ownedLoops == {} && baselineLoops == {} && leaving == {}
      && !loopSetupAttempted && !mapperOpenAttempted && !mapperOwned && !mediaKnown && !cleanupFailed
      && !mapperBaseline && calls == []
    }

    /** What was found is still there; calls touched only what was not; loops were detached
        only while the mapper was gone; and no loop leaves that was not detached. */
    ghost predicate Safe()
      reads this
    {
      && foundLoops <= loops && (foundMapper ==> mapper)
      && leaving !! foundLoops && ownedLoops !! foundLoops
      && (loopSetupAttempted ==> mediaKnown && foundLoops == {} && !foundMapper && !mapperBaseline)
      && (loopSetupAttempted ==> baselineLoops == {})
      && (!loopSetupAttempted ==> loops == foundLoops && ownedLoops == {} && leaving == {})
      && (mapperOpenAttempted ==> loopSetupAttempted)
      && (!mapperOpenAttempted ==> mapper == foundMapper)
      && (mapperOwned ==> mapperOpenAttempted)
      && baselineLoops <= foundLoops
      && (forall l | l in leaving :: Detach(l, false) in calls)
      && forall i | 0 <= i < |calls| ::
           match calls[i]
           case CloseMapper => !foundMapper
           case Detach(l, present) => l !in foundLoops && !present
    }

    /** From this step on every call does what it is asked, reports it, and is in time. */
    ghost predicate Quiet(from: nat) {
      forall i | i >= from :: Faultless(script(i))
    }

    /** One of these steps came when no time was left. */
    ghost predicate Late(from: nat, to: nat) {
      exists i | from <= i < to :: script(i).late
    }

    /** One of these steps raised. */
    ghost predicate Raised(from: nat, to: nat) {
      exists i | from <= i < to :: script(i).raises
    }

    method Next() returns (b: Behaviour)
      modifies this`step
      ensures b == script(old(step)) && step == old(step) + 1
    {
      b := script(step);
      step := step + 1;
    }

    // ----- observations and tools

    /** Removals under way may complete between two looks. */
    method Settle()
      requires Safe()
      modifies this`loops, this`step
      ensures Safe() && old(loops) - leaving <= loops <= old(loops) && old(step) <= step
      ensures !loopSetupAttempted ==> loops == old(loops)
      ensures Quiet(old(step)) ==> loops == old(loops) - leaving
    {
      var b := Next();
      loops := loops - if b.effective then leaving else b.gone * leaving;
    }

    /** `correlated_loop_devices`, which may raise. */
    method ObserveLoops() returns (r: Option<set<Loop>>)
      requires Safe()
      modifies this`loops, this`step
      ensures Safe() && old(loops) - leaving <= loops <= old(loops) && old(step) <= step
      ensures !loopSetupAttempted ==> loops == old(loops)
      ensures r.Some? ==> r.value == loops
      ensures r.None? ==> Raised(old(step), step)
      ensures Quiet(old(step)) ==> r.Some? && loops == old(loops) - leaving
    {
      Settle();
      var b := Next();
      return if b.raises then None else Some(loops);
    }

    /** `mapper_exists`, which may raise. */
    method MapperExists() returns (r: Option<bool>)
      modifies this`step
      ensures old(step) <= step && (r.Some? ==> r.value == mapper)
      ensures r.None? ==> Raised(old(step), step)
      ensures Quiet(old(step)) ==> r.Some?
    {
      var b := Next();
      return if b.raises then None else Some(mapper);
    }

    /** `losetup --find --show`: may attach one new loop, whatever it then reports. */
    method SetupLoop() returns (reported: Option<Loop>, ghost attached: set<Loop>)
      requires Safe() && loopSetupAttempted
      modifies this`loops, this`step
      ensures Safe() && loops == old(loops) + attached && |attached| <= 1 && old(step) <= step
      ensures Quiet(old(step)) ==> reported.Some? && attached == {reported.value}
    {
      var b := Next();
      attached := {};
      if b.effective {
        attached := {b.attached};
        loops := loops + {b.attached};
      }
      reported := if b.raises then None else Some(b.reported);
    }

    /** `cryptsetup open`: may create the mapper, whatever it then reports. */
    method OpenMapper() returns (ok: bool)
      requires Safe() && mapperOpenAttempted
      modifies this`mapper, this`step
      ensures Safe() && (old(mapper) ==> mapper) && old(step) <= step
      ensures Quiet(old(step)) ==> ok && mapper
    {
      var b := Next();
      if b.effective {
        mapper := true;
      }
      ok := !b.raises;
    }

    /** `cryptsetup close`: may remove the mapper. */
    method RunClose()
      requires Safe() && mapperOwned
      modifies this`mapper, this`calls, this`step
      ensures Safe() && calls == old(calls) + [CloseMapper] && old(step) <= step
      ensures Quiet(old(step)) ==> !mapper
    {
      var b := Next();
      calls := calls + [CloseMapper];
      if b.effective {
        mapper := false;
      }
    }

    /** `losetup --detach`: asks for the removal of a loop, now or later. */
    method RunDetach(loop: Loop)
      requires Safe() && loopSetupAttempted && !mapper && loop in ownedLoops
      modifies this`leaving, this`calls
      ensures Safe() && calls == old(calls) + [Detach(loop, mapper)] && leaving == old(leaving) + {loop}
    {
      calls := calls + [Detach(loop, mapper)];
      leaving := leaving + {loop};
      assert calls[|calls| - 1] == Detach(loop, false);
    }

    // ----- bounded cleanup

    /** `close_mapper_bounded`: whether the mapper is gone, or None where an observation
        raises. It gives up on a mapper only after three tries or when time has run out. */
    method CloseMapperBounded() returns (closed: Option<bool>)
      requires Safe() && mapperOwned
      modifies this`mapper, this`calls, this`step
      ensures Safe() && old(step) <= step
      ensures closed.Some? ==> (closed.value <==> !mapper)
      ensures closed == Some(false) ==> |calls| == |old(calls)| + 3 || Late(old(step), step)
      ensures closed.None? ==> Raised(old(step), step)
      ensures old(calls) <= calls && |calls| <= |old(calls)| + 3
      ensures forall i | |old(calls)| <= i < |calls| :: calls[i] == CloseMapper
      ensures old(mapper) && !mapper ==> CloseMapper in calls
      ensures Quiet(old(step)) ==> closed == Some(true)
    {
      for attempt := 0 to 3
        invariant Safe() && (old(mapper) && !mapper ==> CloseMapper in calls) && old(step) <= step
        invariant old(calls) <= calls && |calls| == |old(calls)| + attempt
        invariant forall i | |old(calls)| <= i < |calls| :: calls[i] == CloseMapper
        invariant Quiet(old(step)) && attempt > 0 ==> !mapper
      {
        var present := MapperExists();
        if present.None? {
          return None;
        }
        if !present.value {
          return Some(true);
        }
        var clock := Next();
        if clock.late {
          return Some(false);
        }
        RunClose();
        var answered := AwaitMapperGone();
        if !answered {
          return None;
        }
      }
      var last := MapperExists();
      if last.None? {
        return None;
      }
      return Some(!last.value);
    }

    /** Looks until the mapper is gone or time is up; false where a look raises. */
    method AwaitMapperGone() returns (answered: bool)
      modifies this`step
      ensures old(step) <= step && (Quiet(old(step)) ==> answered)
      ensures !answered ==> Raised(old(step), step)
    {
      var b := Next();
      var polls := b.polls;
      while polls > 0
        invariant old(step) <= step
        decreases polls
      {
        var present := MapperExists();
        if present.None? {
          return false;
        }
        if !present.value {
          return true;
        }
        polls := polls - 1;
      }
      return true;
    }

    /** `detach_loop_bounded`: whether the loop is gone, or None where an observation
        raises. A loop that is there is detached once, unless time has run out. */
    method DetachLoopBounded(loop: Loop) returns (gone: Option<bool>)
      requires Safe() && loopSetupAttempted && !mapper && loop in ownedLoops
      modifies this`loops, this`leaving, this`calls, this`step
      ensures Safe() && old(loops) - leaving <= loops <= old(loops) && old(leaving) <= leaving && old(step) <= step
      ensures gone.Some? ==> (gone.value <==> loop !in loops)
      ensures calls == old(calls) || calls == old(calls) + [Detach(loop, false)]
      ensures gone == Some(false) ==> calls != old(calls) || Late(old(step), step)
      ensures gone.None? ==> Raised(old(step), step)
      ensures Quiet(old(step)) ==> gone == Some(true)
    {
      var seen := ObserveLoops();
      if seen.None? {
        return None;
      }
      if loop !in seen.value {
        return Some(true);
      }
      var clock := Next();
      if clock.late {
        return Some(false);
      }
      RunDetach(loop);
      gone := AwaitLoopGone(loop);
    }

    /** Looks until the loop is gone or time is up, and then once more. */
    method AwaitLoopGone(loop: Loop) returns (gone: Option<bool>)
      requires Safe() && loopSetupAttempted && loop in leaving
      modifies this`loops, this`step
      ensures Safe() && old(loops) - leaving <= loops <= old(loops) && old(step) <= step
      ensures gone.Some? ==> (gone.value <==> loop !in loops)
      ensures gone.None? ==> Raised(old(step), step)
      ensures Quiet(old(step)) ==> gone == Some(true)
    {
      var b := Next();
      var polls := b.polls;
      while polls > 0
        invariant Safe() && old(loops) - leaving <= loops <= old(loops) && old(step) <= step
        decreases polls
      {
        var seen := ObserveLoops();
        if seen.None? {
          return None;
        }
        if loop !in seen.value {
          return Some(true);
        }
        polls := polls - 1;
      }
      var last := ObserveLoops();
      if last.None? {
        return None;
      }
      return Some(loop !in last.value);
    }

    /** The loop over the owned loops, smallest path first. */
    method DetachOwned() returns (raised: bool)
      requires Safe() && loopSetupAttempted && !mapper
      modifies this`loops, this`leaving, this`calls, this`cleanupFailed, this`step
      ensures Safe() && (old(cleanupFailed) ==> cleanupFailed) && old(calls) <= calls && old(step) <= step
      ensures !raised && !cleanupFailed ==> ownedLoops !! loops
      ensures old(loops) - leaving <= loops <= old(loops) && old(leaving) <= leaving
      ensures Quiet(old(step)) ==> !raised && cleanupFailed == old(cleanupFailed)
    {
      var left := ownedLoops;
      while left != {}
        invariant Safe() && left <= ownedLoops && (old(cleanupFailed) ==> cleanupFailed)
        invariant old(calls) <= calls && old(step) <= step
        invariant old(loops) - leaving <= loops <= old(loops) && old(leaving) <= leaving
        invariant !cleanupFailed ==> (ownedLoops - left) !! loops
        invariant Quiet(old(step)) ==> cleanupFailed == old(cleanupFailed)
        decreases left
      {
        var loop := Smallest(left);
        left := left - {loop};
        var gone := DetachLoopBounded(loop);
        if gone.None? {
          return true;
        }
        if !gone.value {
          cleanupFailed := true;
        }
      }
      return false;
    }

    /** The mapper half of the cleanup; `stillOpen` is false only when the mapper was
        seen gone. */
    method CleanMapper() returns (stillOpen: bool)
      requires Safe()
      modifies this`mapper, this`calls, this`cleanupFailed, this`mapperOwned, this`step
      ensures Safe() && (!stillOpen ==> !mapper) && old(step) <= step
      ensures (old(cleanupFailed) ==> cleanupFailed) && old(calls) <= calls
      ensures old(mapper) && !mapper ==> CloseMapper in calls
      ensures stillOpen && !cleanupFailed ==> mapper && (mapperOpenAttempted ==> mapperOwned)
      ensures Quiet(old(step)) ==>
                cleanupFailed == old(cleanupFailed) && (stillOpen <==> foundMapper && !mapperOpenAttempted)
    {
      stillOpen := true;
      var now := MapperExists();
      if now.None? {
        cleanupFailed := true;
        return;
      }
      if mapperOpenAttempted && !mapperBaseline && now.value {
        mapperOwned := true;
      }
      if mapperOwned && now.value {
        var closed := CloseMapperBounded();
        if closed.None? {
          cleanupFailed := true;
          return;
        }
        if !closed.value {
          cleanupFailed := true;
        }
      }
      var last := MapperExists();
      if last.None? {
        cleanupFailed := true;
        return;
      }
      stillOpen := last.value;
    }

    /** The loop half of the cleanup, entered only with the mapper seen gone. */
    method CleanLoops()
      requires Safe() && mediaKnown && !mapper
      modifies this`loops, this`leaving, this`calls, this`cleanupFailed, this`ownedLoops, this`step
      ensures Safe() && (old(cleanupFailed) ==> cleanupFailed) && old(calls) <= calls && old(step) <= step
      ensures !cleanupFailed ==> loops <= foundLoops
      ensures old(loops) - leaving <= loops
      ensures Quiet(old(step)) ==>
                (cleanupFailed <==> old(cleanupFailed) || (!loopSetupAttempted && baselineLoops != foundLoops))
    {
      if loopSetupAttempted {
        var ok := SweepLoops();
        if !ok {
          cleanupFailed := true;
          return;
        }
      }
      ghost var before := loops;
      var rest := ObserveLoops();
      if rest.None? || rest.value - baselineLoops != {} {
        cleanupFailed := true;
      }
    }

    /** Owns whatever appeared and detaches it; false where a look raises. */
    method SweepLoops() returns (ok: bool)
      requires Safe() && loopSetupAttempted && !mapper
      modifies this`loops, this`leaving, this`calls, this`cleanupFailed, this`ownedLoops, this`step
      ensures Safe() && (old(cleanupFailed) ==> cleanupFailed) && old(calls) <= calls && old(step) <= step
      ensures old(loops) - leaving <= loops
      ensures ok && !cleanupFailed ==> loops == {}
      ensures Quiet(old(step)) ==> ok && cleanupFailed == old(cleanupFailed) && loops <= ownedLoops
      ensures Quiet(old(step)) && !cleanupFailed ==> loops == {}
    {
      var seen := ObserveLoops();
      if seen.None? {
        return false;
      }
      ownedLoops := ownedLoops + (seen.value - baselineLoops);
      ghost var before := loops;
      var raised := DetachOwned();
      assert loops <= before <= ownedLoops;
      ok := !raised;
    }

    /** The `finally` block. Unless it reports failure, the devices are as they were found;
        and a device that is gone was given up by a call. When no call fails from here on,
        it reports a failure exactly when the baseline was not recorded and loops that were
        found look as if this run had left them. */
    method Cleanup()
      requires Safe()
      modifies this`loops, this`mapper, this`leaving, this`calls, this`cleanupFailed, this`ownedLoops,
               this`mapperOwned, this`step
      ensures Safe() && old(calls) <= calls
      ensures !cleanupFailed ==> loops == foundLoops && mapper == foundMapper
      ensures !cleanupFailed && mapperOpenAttempted ==> !mapper
      ensures old(mapper) && !mapper ==> CloseMapper in calls
      ensures forall l | l in old(loops) && l !in loops :: Detach(l, false) in calls
      ensures Quiet(old(step)) ==>
                (cleanupFailed <==>
                 || old(cleanupFailed)
                 || (mediaKnown && !foundMapper && !loopSetupAttempted && baselineLoops != foundLoops))
    {
      var stillOpen := CleanMapper();
      if mediaKnown && !stillOpen {
        CleanLoops();
      } else if mediaKnown && ownedLoops != {} {
        cleanupFailed := true;
      }
      if mapperOwned && stillOpen {
        cleanupFailed := true;
      }
      var closing := Next();
      if closing.raises {
        cleanupFailed := true;  // a descriptor could not be closed
      }
    }

    // ----- the run

    /** Opens the inputs and records what exists already; true when nothing does. */
    method RecordBaseline() returns (ok: bool)
      requires Fresh() && Safe()
      modifies this`mediaKnown, this`baselineLoops, this`mapperBaseline, this`loops, this`step
      ensures Safe() && !loopSetupAttempted && !mapperOpenAttempted && !mapperOwned
      ensures loops == old(loops) && old(step) <= step
      ensures ok ==> mediaKnown && baselineLoops == foundLoops == {} && !foundMapper && !mapperBaseline
      ensures Quiet(old(step)) ==>
                mediaKnown && baselineLoops == foundLoops && (ok <==> foundLoops == {} && !foundMapper)
    {
      var inputs := Next();
      if inputs.raises {
        return false;  // arguments, caller, media or key refused
      }
      mediaKnown := true;
      var baseline := ObserveLoops();
      if baseline.None? {
        return false;
      }
      baselineLoops := baseline.value;
      if baselineLoops != {} {
        return false;
      }
      var existing := MapperExists();
      if existing.None? {
        return false;
      }
      mapperBaseline := existing.value;
      return !mapperBaseline;
    }

    /** Attaches the loop and owns whatever appeared; true when it is the one loop that was
        reported, and has its pristine shape. */
    method AttachLoop() returns (ok: bool)
      requires Safe() && loopSetupAttempted && !mapperOpenAttempted
      requires loops == ownedLoops == leaving == {}
      modifies this`loops, this`ownedLoops, this`step
      ensures Safe() && |loops| <= 1 && (ownedLoops == {} || ownedLoops == loops) && old(step) <= step
      ensures ok ==> ownedLoops == loops != {}
      ensures Quiet(old(step)) ==> ok
    {
      var reported, attached := SetupLoop();
      assert loops == attached;
      var observed := ObserveLoops();
      assert loops == attached - leaving == attached;
      if observed.None? {
        return false;
      }
      ownedLoops := ownedLoops + (observed.value - baselineLoops);
      if reported.None? || observed.value != baselineLoops + {reported.value} {
        return false;
      }
      var shape := Next();
      ok := !shape.raises;
    }

    /** Opens the mapper and owns it exactly when it is seen; true when it opened too. */
    method AcquireMapper() returns (ok: bool)
      requires Safe() && mapperOpenAttempted && !mapperOwned
      modifies this`mapper, this`mapperOwned, this`step
      ensures Safe() && (mapperOwned ==> mapper) && (ok ==> mapperOwned) && old(step) <= step
      ensures old(mapper) ==> mapper
      ensures Quiet(old(step)) ==> ok
    {
      var openOk := OpenMapper();
      var appeared := MapperExists();
      if appeared.None? {
        return false;
      }
      mapperOwned := !mapperBaseline && appeared.value;
      return openOk && mapperOwned;
    }

    /** The `try` block: true when every step up to the verified tamper succeeded, and then
        this run owns the mapper and the one loop below it. No device is given up here. */
    method Body() returns (completed: bool)
      requires Fresh() && Safe()
      modifies this
      ensures Safe() && !cleanupFailed && calls == [] && old(step) <= step
      ensures completed ==> mapperOpenAttempted && foundLoops == {} && !foundMapper
      ensures completed ==> mapperOwned && mapper && ownedLoops == loops && |loops| == 1
      ensures Quiet(old(step)) ==>
                baselineLoops == foundLoops && (completed <==> foundLoops == {} && !foundMapper)
    {
      var ok := RecordBaseline();
      if !ok {
        return false;
      }
      loopSetupAttempted := true;
      ok := AttachLoop();
      if !ok {
        return false;
      }
      mapperOpenAttempted := true;
      ok := AcquireMapper();
      if !ok {
        return false;
      }
      var tamper := Next();
      completed := !tamper.raises;  // whether the backup was found and the tamper verified
    }

    /** `main`. Devices found before the run are never closed or detached, whatever fails.
        Only a run that reports a failed cleanup leaves anything behind, and the
        attestation is printed only when nothing does. When no call fails, it is printed
        exactly when no loop and no mapper was found. */
    method Run() returns (outcome: Outcome)
      requires Fresh() && Safe()
      modifies this
      ensures Safe()
      ensures outcome == Attested ==> CloseMapper in calls && exists l :: Detach(l, false) in calls
      ensures outcome != CleanupFailed ==> loops == foundLoops && mapper == foundMapper
      ensures outcome == Attested ==> loops == {} && !mapper
      ensures Quiet(old(step)) ==>
                outcome == if foundLoops == {} && !foundMapper then Attested else Failed
    {
      var completed := Body();
      ghost var held := loops;
      Cleanup();
      assert completed && !cleanupFailed ==> forall l | l in held :: Detach(l, false) in calls;
      outcome := if cleanupFailed then CleanupFailed else if !completed then Failed else Attested;
    }
  }

  method Smallest(s: set<Loop>) returns (least: Loop)
    requires s != {}
    ensures least in s && forall x | x in s :: !Less(x, least)
  {
    least :| least in s;
    LessIrreflexive(least);
    var left := s - {least};
    while left != {}
      invariant left <= s && least in s && forall x | x in s && x !in left :: !Less(x, least)
      decreases left
    {
      var x :| x in left;
      left := left - {x};
      if Less(x, least) {
        LessIrreflexive(x);
        forall y | Less(y, x) ensures Less(y, least) {
          LessTransitive(y, x, least);
        }
        least := x;
      }
    }
  }
}
