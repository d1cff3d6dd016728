/** The remote module appliance: capture_install and restore as they act on the disk, one durable
    step at a time, under every way a run can be cut off. */
module ApplianceRuns {
  import opened Wrappers
  import opened ModuleTree
  import opened Checkpoint
  import opened Protocol

  datatype Halt = Crashed | Raised(code: ErrorCode)

  /** What an interrupted step leaves behind: a staging directory it had begun to make, the part of
      a tree copied so far, and, when a tree removal is torn, the paths not yet removed. */
  datatype Debris = Debris(begun: bool, copied: Option<Tree>, torn: bool, survivors: set<string>)

  /** The fate of one run: left alone, or cut off (by a crash or an I/O error) inside the durable
      step after the first `after` ones. */
  datatype Fate = Undisturbed | Cut(after: nat, halt: Halt, debris: Debris)

  predicate Persists(f: Fate, g: Fate) {
    f.Undisturbed? == g.Undisturbed? && (f.Cut? ==> g.Cut? && f.halt == g.halt && f.debris == g.debris)
  }

  /** The run takes n more durable steps. */
  predicate Lasts(f: Fate, n: nat) {
    f.Cut? ==> n <= f.after
  }

  function Spent(f: Fate, n: nat): Fate
    requires Lasts(f, n)
  {
    if f.Cut? then f.(after := f.after - n) else f
  }

  /** The run is cut off in its first step and leaves nothing behind. */
  predicate Idle(f: Fate) {
    f.Cut? && f.after == 0 && !f.debris.begun
  }

  /** A restore from a finished install is cut off while it makes the staging directory, copies the
      captured tree into it or records restore-ready. */
  predicate CutsStaging(f: Fate) {
    f.Cut? && f.after < 3 && !Idle(f)
  }

  /** The run is cut off after n durable steps and tears the removal it is in. */
  predicate Tears(f: Fate, n: nat) {
    f.Cut? && f.after == n && f.debris.torn
  }

  /** The same, and the removal leaves part of this tree. */
  predicate TearsTree(f: Fate, n: nat, tree: Option<Tree>) {
    Tears(f, n) && tree.Some? && Surviving(tree.value, f.debris.survivors) != tree.value
  }

  /** The durable steps from replacement-ready to the removal of the staging directory. */
  function SwapSteps(origin: Option<Tree>): nat {
    if origin.Some? then 3 else 1
  }

  /** The durable steps of a capture. */
  function CaptureSteps(d: Disk): nat {
    (if d.capture.Some? then 1 else 0) + (if d.destination.Some? then 2 else 1)
  }

  /** From captured to replacement-ready: the intent, mkdir, copy, depmod, flush and the record. */
  const STAGE_STEPS: nat := 6

  /** The run tears the removal of the staging directory or, three steps on, of the original, n
      steps before replacement-ready included. */
  predicate TearsSwap(f: Fate, n: nat, origin: Option<Tree>) {
    Tears(f, n + SwapSteps(origin)) || TearsTree(f, n + SwapSteps(origin) + 3, origin)
  }

  /** The durable steps of a restore up to restore-ready. */
  function StageSteps(captured: Option<Digest>): nat {
    if captured.Some? then 3 else 1
  }

  /** The durable steps from restore-ready until the captured tree is back. */
  function MoveSteps(captured: Option<Digest>): nat {
    if captured.Some? then 5 else 2
  }

  /** The run tears the removal of the staging directory or of the replacement, n steps before
      restore-ready included. */
  predicate TearsReturn(f: Fate, n: nat, captured: Option<Digest>, installed: Digest) {
    || (captured.Some? && Tears(f, n + 3))
    || TearsTree(f, n + (if captured.Some? then 6 else 3), Some(installed.entries))
  }

  /** The run tears no tree removal in half. */
  predicate Clean(f: Fate) {
    f.Cut? ==> !f.debris.torn
  }

  /** One boot: the operation document, what the source volume and depmod yield, the fate of the
      operation, and the failures recorded after it while unmounting and powering off.  Unreadable
      is a boot that never got a document. */
  datatype Run =
    | Unreadable(code: ErrorCode)
    | Attempt(doc: Document, source: Option<Tree>, indexed: Option<Tree>, fate: Fate, late: seq<ErrorCode>)

  predicate CleanRun(run: Run) {
    run.Attempt? ==> Clean(run.fate)
  }

  /** The disk when making the staging directory is cut off. */
  function Begun(d: Disk, f: Fate): Disk {
    if f.Cut? && f.debris.begun then d.(stage := Stage(false, None)) else d
  }

  function Raise<T>(r: Result<T, ErrorCode>): Result<T, Halt> {
    match r
    case Ok(value) => Ok(value)
    case Err(code) => Err(Raised(code))
  }

  class Appliance {
    var disk: Disk
    var fate: Fate

    /** The destination before the first run, and every disk state there has been since. */
    ghost const origin: Option<Tree>
    ghost var history: Trace

    constructor (destination: Option<Tree>, capture: Option<Tree>)
      ensures Valid() && origin == destination && history == First(disk)
      ensures disk == Disk(destination, NoStage, None, capture, None)
    {
      disk, fate := Disk(destination, NoStage, None, capture, None), Undisturbed;
      origin := destination;
      history := First(Disk(destination, NoStage, None, capture, None));
    }

    ghost predicate Valid()
      reads this
    {
      IsRun(origin, history) && history.disk == disk
    }

    // ---- Durable steps ----

    /** One durable step to `next`, which leaves `partial` when it is the one cut off. */
    method Apply(partial: Disk, next: Disk) returns (r: Result<(), Halt>)
      modifies this
      ensures forall t | Precedes(t, old(history)) :: Precedes(t, history)
      ensures Persists(old(fate), fate) && history == Then(old(history), disk)
      ensures if r.Ok? then disk == next else old(fate).Cut? && r.error == old(fate).halt && disk == partial
      ensures if Lasts(old(fate), 1) then r.Ok? && fate == Spent(old(fate), 1) else r.Err?
      ensures old(Valid()) && Legal(origin, old(disk), disk) ==> Valid()
    {
      r := Ok(());
      disk := next;
      if fate.Cut? {
        if fate.after == 0 {
          disk := partial;
          r := Err(fate.halt);
        } else {
          fate := fate.(after := fate.after - 1);
        }
      }
      history := Then(history, disk);
    }

    /** A flush: nothing changes, but the run may end here. */
    method Sync() returns (r: Result<(), Halt>)
      modifies this
      ensures forall t | Precedes(t, old(history)) :: Precedes(t, history)
      ensures Persists(old(fate), fate) && disk == old(disk)
      ensures if Lasts(old(fate), 1) then r.Ok? && fate == Spent(old(fate), 1) else r.Err?
      ensures old(Valid()) ==> Valid()
    {
      r := Apply(disk, disk);
    }

    method Write(next: Record) returns (r: Result<(), Halt>)
      modifies this
      ensures forall t | Precedes(t, old(history)) :: Precedes(t, history)
      ensures Persists(old(fate), fate)
      ensures if r.Ok? then disk == old(disk).(record := Some(next)) else disk == old(disk)
      ensures if Lasts(old(fate), 1) then r.Ok? && fate == Spent(old(fate), 1) else r.Err?
      ensures old(Valid()) && Legal(origin, old(disk), old(disk).(record := Some(next))) ==> Valid()
    {
      r := Apply(disk, disk.(record := Some(next)));
    }

    /** _remove_empty_stage: only a staging directory that holds just lib/modules may go. */
    method RemoveEmptyStage() returns (r: Result<(), Halt>)
      modifies this
      ensures forall t | Precedes(t, old(history)) :: Precedes(t, history)
      ensures Persists(old(fate), fate)
      ensures if r.Ok? then old(disk).stage == Stage(true, None) && disk == old(disk).(stage := NoStage)
              else || disk == old(disk)
                   || (old(fate).Cut? && old(fate).debris.torn && disk == old(disk).(stage := Stage(false, None)))
      ensures r.Ok? <==> old(disk).stage == Stage(true, None) && Lasts(old(fate), 1)
      ensures r.Ok? ==> fate == Spent(old(fate), 1)
      ensures r.Err? && Lasts(old(fate), 1) ==> disk == old(disk)
      ensures old(disk).stage == Stage(true, None) && !Lasts(old(fate), 1) && old(fate).debris.torn ==>
                disk.stage == Stage(false, None)
      ensures old(Valid()) && StageMayGo(origin, old(disk)) ==> Valid()
    {
      if disk.stage != Stage(true, None) {
        return Err(Raised(RECOVERY_CONFLICT));
      }
      var torn := fate.Cut? && fate.debris.torn;
      r := Apply(if torn then disk.(stage := Stage(false, None)) else disk, disk.(stage := NoStage));
    }

    /** _remove_owned_tree on the displaced tree; a torn removal leaves some of its entries. */
    method RemoveDisplaced() returns (r: Result<(), Halt>)
      modifies this
      ensures forall t | Precedes(t, old(history)) :: Precedes(t, history)
      ensures Persists(old(fate), fate)
      ensures disk.(displaced := None) == old(disk).(displaced := None)
      ensures disk.displaced.Some? ==> old(disk).displaced.Some? && Remnant(disk.displaced.value, old(disk).displaced.value)
      ensures old(disk).displaced.None? ==> disk == old(disk)
      ensures if r.Ok? then disk.displaced.None? else old(fate).Cut? && (Clean(old(fate)) ==> disk == old(disk))
      ensures r.Ok? <==> old(disk).displaced.None? || Lasts(old(fate), 1)
      ensures r.Ok? ==> fate == if old(disk).displaced.None? then old(fate) else Spent(old(fate), 1)
      ensures r.Err? && old(fate).debris.torn ==>
                disk.displaced == Some(Surviving(old(disk).displaced.value, old(fate).debris.survivors))
      ensures old(Valid()) && (InPhase(old(disk), Installed) || InPhase(old(disk), Restored)) ==> Valid()
    {
      if disk.displaced.None? {
        return Ok(());
      }
      var torn := fate.Cut? && fate.debris.torn;
      var rest := if torn then Surviving(disk.displaced.value, fate.debris.survivors) else disk.displaced.value;
      SurvivingIsRemnant(disk.displaced.value, if torn then fate.debris.survivors else {});
      r := Apply(disk.(displaced := Some(rest)), disk.(displaced := None));
    }

    /** The renames of _transition_replacement, from wherever the last run stopped. */
    method SwapTrees() returns (r: Result<(), Halt>)
      requires disk.record.Some?
      modifies this
      ensures forall t | Precedes(t, old(history)) :: Precedes(t, history)
      ensures Persists(old(fate), fate) && disk.record == old(disk).record
      ensures old(Valid()) && InPhase(old(disk), ReplacementReady) ==>
                && Valid()
                && (r.Ok? ==> Swapped(origin, disk) && disk.stage.NoStage?)
                && (old(fate).Undisturbed? ==> (r.Ok? <==> !Torn(origin, old(disk))))
                && (Torn(origin, old(disk)) ==> r.Err? && disk == old(disk))
                && (Clean(old(fate)) && !Torn(origin, old(disk)) ==> !Torn(origin, disk))
                && (Unmoved(origin, old(disk)) ==>
                      && (Torn(origin, disk) <==> Tears(old(fate), SwapSteps(origin)))
                      && (r.Ok? <==> Lasts(old(fate), SwapSteps(origin) + 2))
                      && (r.Ok? ==> fate == Spent(old(fate), SwapSteps(origin) + 2)))
    {
      ghost var valid := Valid() && InPhase(disk, ReplacementReady);
      var aside :- Raise(PlanSwap(disk, disk.record.value));
      if valid {
        SwapPlanned(origin, disk);
      }
      if aside {
        var _ :- Apply(disk, Aside(disk));
        var _ :- Sync();
      }
      assert valid ==> Valid() && (Loaded(origin, disk) || Swapped(origin, disk));
      r := PromoteStage();
    }

    method PromoteStage() returns (r: Result<(), Halt>)
      requires disk.record.Some?
      modifies this
      ensures forall t | Precedes(t, old(history)) :: Precedes(t, history)
      ensures Persists(old(fate), fate) && disk.record == old(disk).record
      ensures old(Valid()) && InPhase(old(disk), ReplacementReady) && (Loaded(origin, old(disk)) || Swapped(origin, old(disk))) ==>
                && Valid()
                && (r.Ok? ==> Swapped(origin, disk) && disk.stage.NoStage?)
                && (old(fate).Undisturbed? ==> (r.Ok? <==> !Torn(origin, old(disk))))
                && (Torn(origin, old(disk)) ==> r.Err? && disk == old(disk))
                && (Clean(old(fate)) && !Torn(origin, old(disk)) ==> !Torn(origin, disk))
                && (Loaded(origin, old(disk)) ==>
                      && (Torn(origin, disk) <==> Tears(old(fate), 1))
                      && (r.Ok? <==> Lasts(old(fate), 3)) && (r.Ok? ==> fate == Spent(old(fate), 3)))
    {
      ghost var valid := Valid() && InPhase(disk, ReplacementReady) && (Loaded(origin, disk) || Swapped(origin, disk));
      var standing :- Raise(ManifestOrNone(InstalledKind, disk.destination));
      if standing.None? {
        if disk.stage.NoStage? || disk.stage.tree.None? {
          return Err(Raised(FILESYSTEM_FAILURE));
        }
        if valid {
          SwapPromoted(origin, disk);
        }
        var _ :- Apply(disk, Promoted(disk));
        var _ :- RemoveEmptyStage();
        r := Sync();
      } else if disk.stage.Stage? {
        var _ :- RemoveEmptyStage();
        r := Sync();
      } else {
        r := Ok(());
      }
    }

    /** _transition_replacement. */
    method TransitionReplacement() returns (r: Result<(), Halt>)
      requires disk.record.Some?
      modifies this
      ensures forall t | Precedes(t, old(history)) :: Precedes(t, history)
      ensures Persists(old(fate), fate)
      ensures old(Valid()) && InPhase(old(disk), ReplacementReady) ==>
                && Valid()
                && (r.Ok? ==> InstallDone(origin, disk, old(disk).record.value.identity)
                              && disk.record.value.installed == old(disk).record.value.installed)
                && (old(fate).Undisturbed? ==> (r.Ok? <==> !Torn(origin, old(disk))))
                && (Torn(origin, old(disk)) ==> r.Err? && disk == old(disk))
                && (Unmoved(origin, old(disk)) ==> (Torn(origin, disk) <==> TearsSwap(old(fate), 0, origin)))
                && (Clean(old(fate)) && !Torn(origin, old(disk)) ==> !Torn(origin, disk))
                && 3 <= Rank(disk) <= 4 && !RestoreStaging(disk) && disk.record.value.identity == old(disk).record.value.identity
    {
      ghost var valid := Valid() && InPhase(disk, ReplacementReady);
      var _ :- SwapTrees();
      var done :- Raise(CheckSwapped(disk, disk.record.value));
      if valid {
        SwapRecorded(origin, disk);
      }
      var _ :- Write(done);
      var _ :- RemoveDisplaced();
      r := Sync();
    }

    /** _finish_installed: a rerun after the installed record. */
    method FinishInstalled() returns (r: Result<(), Halt>)
      requires disk.record.Some?
      modifies this
      ensures forall t | Precedes(t, old(history)) :: Precedes(t, history)
      ensures Persists(old(fate), fate)
      ensures old(Valid()) && InPhase(old(disk), Installed) ==>
                && Valid()
                && (r.Ok? ==> InstallDone(origin, disk, old(disk).record.value.identity))
                && (old(disk).stage.NoStage? && old(disk).displaced.None? ==> SameTrees(old(disk), disk))
                && (old(fate).Undisturbed? ==>
                      (r.Ok? <==> !Torn(origin, old(disk)) && (RestoreStaging(old(disk)) ==> old(disk).stage == Stage(true, None))))
                && (Clean(old(fate)) && !Torn(origin, old(disk)) ==> !Torn(origin, disk))
                && (Torn(origin, old(disk)) ==> r.Err? && disk == old(disk))
                && InPhase(disk, Installed) && disk.record.value.identity == old(disk).record.value.identity
                && (old(disk).stage.NoStage? ==> disk.stage.NoStage?)
    {
      var _ :- Raise(CheckStanding(disk, disk.record.value));
      if disk.stage.Stage? {
        var _ :- RemoveEmptyStage();
        var _ :- Sync();
      }
      r := RecordInstalled();
    }

    /** Its second half: rewrite the installed record and drop the displaced tree. */
    method RecordInstalled() returns (r: Result<(), Halt>)
      requires disk.record.Some?
      modifies this
      ensures forall t | Precedes(t, old(history)) :: Precedes(t, history)
      ensures Persists(old(fate), fate)
      ensures disk.(displaced := None, record := None) == old(disk).(displaced := None, record := None)
      ensures old(disk).displaced.None? ==> disk.displaced.None?
      ensures old(Valid()) && InPhase(old(disk), Installed) && old(disk).stage.NoStage? ==>
                && Valid()
                && (r.Ok? ==> InstallDone(origin, disk, old(disk).record.value.identity))
                && (old(fate).Undisturbed? ==> (r.Ok? <==> !Torn(origin, old(disk))))
                && (Torn(origin, old(disk)) ==> r.Err? && disk == old(disk))
                && (Clean(old(fate)) && !Torn(origin, old(disk)) ==> !Torn(origin, disk))
                && InPhase(disk, Installed) && disk.record.value.identity == old(disk).record.value.identity
    {
      var done :- Raise(CheckDisplaced(disk, disk.record.value));
      var _ :- Write(done);
      var _ :- RemoveDisplaced();
      r := Sync();
    }

    /** The capture at the start of _capture_install. */
    method CaptureOriginal(identity: Identity) returns (r: Result<(), Halt>)
      modifies this
      ensures forall t | Precedes(t, old(history)) :: Precedes(t, history)
      ensures Persists(old(fate), fate)
      ensures r.Ok? ==> disk.record.Some?
      ensures old(Valid()) && Rank(old(disk)) == 0 && Mine(old(disk), identity) ==>
                && Valid()
                && (if r.Ok? then InPhase(disk, Captured) && disk.record.value.identity == Some(identity)
                    else Rank(disk) == 0 && disk.record == old(disk).record)
                && (old(fate).Undisturbed? ==>
                      (r.Ok? <==> (origin.Some? ==> Fits(RecoveryKind, origin.value) && RootOwned(origin.value))))
                && (r.Ok? ==> Lasts(old(fate), CaptureSteps(old(disk))) && fate == Spent(old(fate), CaptureSteps(old(disk))))
                && (Lasts(old(fate), CaptureSteps(old(disk))) ==>
                      (r.Ok? <==> (origin.Some? ==> Fits(RecoveryKind, origin.value) && RootOwned(origin.value))))
    {
      hide Fits, RootOwned, Surviving, Copied;
      if disk.stage.Stage? {
        return Err(Raised(RECOVERY_CONFLICT));
      }
      var moved :- Raise(ManifestOrNone(RecoveryKind, disk.displaced));
      if moved.Some? {
        return Err(Raised(RECOVERY_CONFLICT));
      }
      if disk.capture.Some? {
        var torn := fate.Cut? && fate.debris.torn;
        var rest := if torn then Surviving(disk.capture.value, fate.debris.survivors) else disk.capture.value;
        var _ :- Apply(disk.(capture := Some(rest)), disk.(capture := None));
      }
      if disk.destination.None? {
        r := Write(Record(Captured, None, Some(identity), Some(CaptureAbsent), None, Some(Counts(0, 0))));
      } else {
        var expected :- Raise(TreeManifest(RecoveryKind, disk.destination.value));
        CopyIsFaithful(RecoveryKind, disk.destination.value);
        var copy := Copied(RecoveryKind, disk.destination.value);
        var _ :- Apply(disk.(capture := if fate.Cut? then fate.debris.copied else None), disk.(capture := Some(copy)));
        if TreeManifest(RecoveryKind, copy) != Ok(expected) {
          return Err(Raised(FILESYSTEM_FAILURE));
        }
        r := Write(Record(Captured, None, Some(identity), Some(CaptureManifest(expected.digest)), None, Some(expected.counts)));
      }
    }

    /** Building and indexing the replacement in the staging directory. */
    method StageReplacement(identity: Identity, source: Tree, indexed: Option<Tree>) returns (r: Result<(), Halt>)
      requires disk.record.Some?
      modifies this
      ensures forall t | Precedes(t, old(history)) :: Precedes(t, history)
      ensures Persists(old(fate), fate)
      ensures disk.record.Some?
      ensures r.Ok? ==> indexed.Some? && disk.record.value.installed == Some(DigestOf(InstalledKind, indexed.value))
      ensures old(Valid()) && 1 <= Rank(old(disk)) <= 2 && old(disk).record.value.identity == Some(identity)
              && Fits(SourceKind, source) ==>
                && Valid()
                && (if r.Ok? then InPhase(disk, ReplacementReady) && disk.record.value.identity == Some(identity) && !Torn(origin, disk)
                    else 1 <= Rank(disk) <= 2 && disk.record.value.identity == Some(identity))
                && (old(fate).Undisturbed? ==> (r.Ok? <==> indexed.Some? && Fits(InstalledKind, indexed.value)))
                && (r.Ok? ==> Unmoved(origin, disk))
                && (InPhase(old(disk), Captured) && indexed.Some? && Fits(InstalledKind, indexed.value) ==>
                      && (r.Ok? <==> Lasts(old(fate), STAGE_STEPS))
                      && (r.Ok? ==> fate == Spent(old(fate), STAGE_STEPS)))
    {
      ghost var valid := Valid() && 1 <= Rank(disk) <= 2 && disk.record.value.identity == Some(identity) && Fits(SourceKind, source);
      hide Fits, Copied, CheckCaptured, Legal;
      if valid {
        CapturedChecked(origin, disk);
      }
      var fields :- Raise(CheckCaptured(disk, disk.record.value));
      if disk.record.value.phase == Captured {
        var _ :- Write(Record(StagingIntent, None, Some(identity), Some(fields), None, None));
      }
      assert valid ==> Valid() && InPhase(disk, StagingIntent) && fields == CaptureOf(origin);
      var _ :- BuildStage(source, indexed);
      var built :- Raise(TreeManifest(InstalledKind, indexed.value));
      if valid {
        BuiltIsReady(origin, disk, indexed.value);
      }
      r := Write(Record(ReplacementReady, None, Some(identity), Some(fields), Some(built.digest), Some(built.counts)));
    }

    /** Clear the staging directory, copy the source into it and run depmod over the copy. */
    method BuildStage(source: Tree, indexed: Option<Tree>) returns (r: Result<(), Halt>)
      requires disk.record.Some?
      modifies this
      ensures forall t | Precedes(t, old(history)) :: Precedes(t, history)
      ensures Persists(old(fate), fate)
      ensures disk.(stage := NoStage) == old(disk).(stage := NoStage)
      ensures r.Ok? ==> indexed.Some? && disk.stage == Stage(true, indexed)
      ensures old(fate).Undisturbed? && Fits(SourceKind, source) ==> (r.Ok? <==> indexed.Some?)
      ensures old(disk).stage.NoStage? && Fits(SourceKind, source) && indexed.Some? ==>
                (r.Ok? <==> Lasts(old(fate), 4)) && (r.Ok? ==> fate == Spent(old(fate), 4))
      ensures old(Valid()) && InPhase(old(disk), StagingIntent) ==> Valid()
    {
      hide Fits, RootOwned, Copied;
      var copied := if fate.Cut? then fate.debris.copied else None;
      var torn := fate.Cut? && fate.debris.torn;
      if disk.stage.Stage? {
        var _ :- Apply(if torn then disk.(stage := Stage(false, copied)) else disk, disk.(stage := NoStage));
      }
      var _ :- Apply(Begun(disk, fate), disk.(stage := Stage(true, None)));
      var expected :- Raise(TreeManifest(SourceKind, source));
      CopyIsFaithful(SourceKind, source);
      var _ :- Apply(disk.(stage := Stage(true, copied)), disk.(stage := Stage(true, Some(Copied(SourceKind, source)))));
      if TreeManifest(SourceKind, Copied(SourceKind, source)) != Ok(expected) {
        return Err(Raised(FILESYSTEM_FAILURE));
      }
      var _ :- Apply(disk.(stage := Stage(true, copied)), disk.(stage := Stage(true, if indexed.Some? then indexed else copied)));
      if indexed.None? {
        return Err(Raised(DEPMOD_FAILURE));
      }
      r := Sync();
    }

    method CaptureInstall(identity: Identity, source: Option<Tree>, indexed: Option<Tree>) returns (r: Result<(), Halt>)
      modifies this
      ensures forall t | Precedes(t, old(history)) :: Precedes(t, history)
      ensures Persists(old(fate), fate)
      ensures !Mine(old(disk), identity) ==> r.Err? && disk == old(disk)
      ensures old(Valid()) ==>
                && Valid()
                && (r.Ok? ==> InstallDone(origin, disk, Some(identity)))
                && (old(fate).Undisturbed? ==> (r.Ok? <==> InstallCompletes(origin, old(disk), identity, source, indexed)))
                && (Clean(old(fate)) && !Torn(origin, old(disk)) ==> !Torn(origin, disk))
                && (old(InstallDone(origin, disk, Some(identity))) ==> SameTrees(old(disk), disk))
                && (Installing(old(disk), identity) ==> Installing(disk, identity))
                && (Torn(origin, old(disk)) ==> r.Err? && disk == old(disk))
                && (r.Ok? && Rank(old(disk)) <= 2 ==> disk.destination == indexed)
                && (Rank(old(disk)) == 0 && InstallCompletes(origin, old(disk), identity, source, indexed) ==>
                      (Torn(origin, disk) <==> TearsSwap(old(fate), CaptureSteps(old(disk)) + STAGE_STEPS, origin)))
    {
      hide Inv, IsRun, Legal, RootOwned, Surviving, Precedes;
      var found :- Raise(ManifestOrNone(SourceKind, source));
      if found != Some(identity.sourceManifest) {
        return Err(Raised(SOURCE_INVALID));
      }
      var checkpoint :- Raise(Load(disk.record, identity));
      if checkpoint.None? || checkpoint.value.phase == Accepted {
        var _ :- CaptureOriginal(identity);
      }
      r := Resume(identity, source.value, indexed);
    }

    /** The rest of _capture_install once a checkpoint is on record. */
    method Resume(identity: Identity, source: Tree, indexed: Option<Tree>) returns (r: Result<(), Halt>)
      requires disk.record.Some?
      modifies this
      ensures forall t | Precedes(t, old(history)) :: Precedes(t, history)
      ensures Persists(old(fate), fate)
      ensures old(Valid()) && 1 <= Rank(old(disk)) && old(disk).record.value.identity == Some(identity) && Fits(SourceKind, source) ==>
                && Valid()
                && (r.Ok? ==> InstallDone(origin, disk, Some(identity)))
                && (old(fate).Undisturbed? ==> (r.Ok? <==> ResumeCompletes(origin, old(disk), indexed)))
                && (Clean(old(fate)) && !Torn(origin, old(disk)) ==> !Torn(origin, disk))
                && (old(InstallDone(origin, disk, Some(identity))) ==> SameTrees(old(disk), disk))
                && (Installing(old(disk), identity) ==> Installing(disk, identity))
                && (Torn(origin, old(disk)) ==> r.Err? && disk == old(disk))
                && (r.Ok? && Rank(old(disk)) <= 2 ==> disk.destination == indexed)
                && (InPhase(old(disk), Captured) && indexed.Some? && Fits(InstalledKind, indexed.value) ==>
                      (Torn(origin, disk) <==> TearsSwap(old(fate), STAGE_STEPS, origin)))
    {
      hide Inv, IsRun, Legal, RootOwned, Surviving, Precedes;
      match disk.record.value.phase {
        case Installed => r := FinishInstalled();
        case ReplacementReady => r := TransitionReplacement();
        case Captured =>
          var _ :- StageReplacement(identity, source, indexed);
          r := TransitionReplacement();
        case StagingIntent =>
          var _ :- StageReplacement(identity, source, indexed);
          r := TransitionReplacement();
        case _ => r := Err(Raised(RECOVERY_CONFLICT));
      }
    }

    // ---- restore ----

    /** Staging the captured tree and recording restore-ready. */
    method StageRestore(captured: Option<Digest>, installed: Digest) returns (r: Result<(), Halt>)
      requires disk.record.Some?
      modifies this
      ensures forall t | Precedes(t, old(history)) :: Precedes(t, history)
      ensures Persists(old(fate), fate)
      ensures disk.record.Some? && disk.record.value.identity == old(disk).record.value.identity
      ensures old(disk).stage.Stage? ==> r.Err? && disk == old(disk)
      ensures old(Valid()) && InPhase(old(disk), Installed) && Names(origin, captured) ==>
                && Valid()
                && (if r.Ok? then InPhase(disk, RestoreReady) && disk.record.value.installed == Some(installed)
                                  && DigestTarget(captured) == Target(origin, disk.record.value) && !Torn(origin, disk)
                    else InPhase(disk, Installed))
                && (r.Ok? ==> Unreturned(disk) && Lasts(old(fate), StageSteps(captured)) && fate == Spent(old(fate), StageSteps(captured)))
                && (old(fate).Undisturbed? ==>
                      (r.Ok? <==> old(disk).stage.NoStage? && old(disk).displaced.None? && old(disk).record.value.installed == Some(installed)))
                && (!Torn(origin, old(disk)) ==> !Torn(origin, disk))
                && (Torn(origin, old(disk)) ==> r.Err? && disk == old(disk))
                && (old(disk).stage.NoStage? && old(disk).displaced.None? && old(disk).record.value.installed == Some(installed) ==>
                      && (captured.Some? ==> (RestoreStaging(disk) <==> CutsStaging(old(fate))) && (Resting(disk) <==> Idle(old(fate))))
                      && (captured.None? ==> !RestoreStaging(disk))
                      && (r.Ok? <==> Lasts(old(fate), StageSteps(captured))))
                && (forall id | Returning(origin, old(disk), id, captured, installed) :: Returning(origin, disk, id, captured, installed))
    {
      var _ :- Raise(CheckInstalled(disk, installed));
      if captured.Some? {
        var _ :- StageCapture();
      }
      r := Write(Record(RestoreReady, None, disk.record.value.identity, Some(FieldsOf(captured)), Some(installed), None));
    }

    /** mkdir, then copy the capture into the staging directory. */
    method StageCapture() returns (r: Result<(), Halt>)
      modifies this
      ensures forall t | Precedes(t, old(history)) :: Precedes(t, history)
      ensures Persists(old(fate), fate)
      ensures disk.(stage := NoStage) == old(disk).(stage := NoStage)
      ensures r.Ok? ==> disk.capture.Some? && disk.stage == Stage(true, Some(Copied(RecoveryKind, disk.capture.value)))
      ensures old(Valid()) && InPhase(old(disk), Installed) && old(disk).displaced.None? ==>
                && Valid()
                && (r.Ok? ==> disk.stage == Stage(true, origin))
                && (origin.Some? ==> (r.Ok? <==> Lasts(old(fate), 2)))
                && (r.Ok? ==> Lasts(old(fate), 2) && fate == Spent(old(fate), 2))
                && (r.Err? && origin.Some? && old(disk).stage.NoStage? ==> (disk.stage.NoStage? <==> Idle(old(fate))))
    {
      var copied := if fate.Cut? then fate.debris.copied else None;
      var _ :- Apply(Begun(disk, fate), disk.(stage := Stage(true, None)));
      if disk.capture.None? {
        return Err(Raised(FILESYSTEM_FAILURE));
      }
      var expected :- Raise(TreeManifest(RecoveryKind, disk.capture.value));
      CopyIsFaithful(RecoveryKind, disk.capture.value);
      var copy := Copied(RecoveryKind, disk.capture.value);
      var _ :- Apply(disk.(stage := Stage(true, copied)), disk.(stage := Stage(true, Some(copy))));
      if TreeManifest(RecoveryKind, copy) != Ok(expected) {
        return Err(Raised(FILESYSTEM_FAILURE));
      }
      r := Ok(());
    }

    /** The renames of _restore on a restore-ready disk, from wherever the last run stopped. */
    method MoveBack(captured: Option<Digest>, installed: Digest) returns (r: Result<(), Halt>)
      requires disk.record.Some?
      modifies this
      ensures forall t | Precedes(t, old(history)) :: Precedes(t, history)
      ensures Persists(old(fate), fate) && disk.record == old(disk).record
      ensures old(Valid()) && InPhase(old(disk), RestoreReady) && Names(origin, captured) ==>
                && Valid()
                && (r.Ok? ==> Returned(disk, captured, installed))
                && (old(fate).Undisturbed? ==> (r.Ok? <==> MoveCompletes(origin, old(disk), captured, installed)))
                && (Torn(origin, old(disk)) ==> r.Err? && disk == old(disk))
                && (Clean(old(fate)) && !Torn(origin, old(disk)) ==> !Torn(origin, disk))
                && (Unreturned(old(disk)) && MoveCompletes(origin, old(disk), captured, installed) ==>
                      && (Torn(origin, disk) <==> captured.Some? && Tears(old(fate), 3))
                      && (r.Ok? <==> Lasts(old(fate), MoveSteps(captured)))
                      && (r.Ok? ==> fate == Spent(old(fate), MoveSteps(captured))))
    {
      ghost var valid := Valid() && InPhase(disk, RestoreReady) && Names(origin, captured);
      var aside :- Raise(PlanRestore(disk, captured, installed));
      if valid {
        RestorePlanned(origin, disk, captured, installed);
      }
      if aside {
        var _ :- Apply(disk, Aside(disk));
        var _ :- Sync();
      }
      assert valid ==> Valid() && Halfway(origin, disk, captured, installed);
      r := PromoteCapture(captured, installed);
    }

    method PromoteCapture(captured: Option<Digest>, ghost installed: Digest) returns (r: Result<(), Halt>)
      requires disk.record.Some?
      modifies this
      ensures forall t | Precedes(t, old(history)) :: Precedes(t, history)
      ensures Persists(old(fate), fate) && disk.record == old(disk).record
      ensures old(Valid()) && InPhase(old(disk), RestoreReady) && Halfway(origin, old(disk), captured, installed) ==>
                && Valid()
                && (r.Ok? ==> Returned(disk, captured, installed))
                && (old(fate).Undisturbed? ==> (r.Ok? <==> MoveCompletes(origin, old(disk), captured, installed)))
                && (Torn(origin, old(disk)) ==> r.Err? && disk == old(disk))
                && (Clean(old(fate)) && !Torn(origin, old(disk)) ==> !Torn(origin, disk))
                && (old(disk).destination.None? && MoveCompletes(origin, old(disk), captured, installed) ==>
                      if captured.None? then r.Ok? && disk == old(disk) && fate == old(fate)
                      else
                        && (Torn(origin, disk) <==> Tears(old(fate), 1))
                        && (r.Ok? <==> Lasts(old(fate), 3)) && (r.Ok? ==> fate == Spent(old(fate), 3)))
    {
      ghost var valid := Valid() && InPhase(disk, RestoreReady) && Halfway(origin, disk, captured, installed);
      var standing :- Raise(ManifestOrNone(RecoveryKind, disk.destination));
      if captured.Some? && standing.None? {
        if disk.stage.NoStage? || disk.stage.tree.None? {
          return Err(Raised(FILESYSTEM_FAILURE));
        }
        if valid {
          RestorePromoted(origin, disk, captured, installed);
        }
        var _ :- Apply(disk, Promoted(disk));
        var _ :- RemoveEmptyStage();
        r := Sync();
      } else if disk.stage.Stage? {
        var _ :- RemoveEmptyStage();
        r := Sync();
      } else {
        r := Ok(());
      }
    }

    /** The closing part of _restore: drop the replacement and record restored once more. */
    method FinishRestore(captured: Option<Digest>, installed: Digest) returns (r: Result<(), Halt>)
      requires disk.record.Some?
      modifies this
      ensures forall t | Precedes(t, old(history)) :: Precedes(t, history)
      ensures Persists(old(fate), fate)
      ensures old(Valid()) && InPhase(old(disk), Restored) && Names(origin, captured) ==>
                && Valid()
                && (r.Ok? ==> RestoreDone(origin, disk, old(disk).record.value.identity, captured))
                && (old(fate).Undisturbed? ==> (r.Ok? <==> FinishCompletes(old(disk), captured, installed)))
                && (Torn(origin, old(disk)) && old(disk).record.value.installed == Some(installed) ==> r.Err? && disk == old(disk))
                && (FinishCompletes(old(disk), captured, installed) && old(disk).record.value.installed == Some(installed) ==>
                      (Torn(origin, disk) <==> TearsTree(old(fate), 0, old(disk).displaced)))
                && (Clean(old(fate)) && !Torn(origin, old(disk)) ==> !Torn(origin, disk))
                && (forall id | Returning(origin, old(disk), id, captured, installed) :: Returning(origin, disk, id, captured, installed))
    {
      hide RootOwned, Surviving, Precedes;
      if disk.stage.Stage? {
        return Err(Raised(RECOVERY_CONFLICT));
      }
      var _ :- Raise(CheckRestored(disk, captured, installed));
      var _ :- RemoveDisplaced();
      var _ :- Sync();
      r := Write(Record(Restored, None, disk.record.value.identity, Some(FieldsOf(captured)), Some(installed), None));
    }

    /** _restore from restore-ready on. */
    method ReturnCapture(captured: Option<Digest>, installed: Digest) returns (r: Result<(), Halt>)
      requires disk.record.Some?
      modifies this
      ensures forall t | Precedes(t, old(history)) :: Precedes(t, history)
      ensures Persists(old(fate), fate)
      ensures old(Valid()) && InPhase(old(disk), RestoreReady) && Names(origin, captured) ==>
                && Valid()
                && (r.Ok? ==> RestoreDone(origin, disk, old(disk).record.value.identity, captured))
                && (old(fate).Undisturbed? ==> (r.Ok? <==> MoveCompletes(origin, old(disk), captured, installed)))
                && (Torn(origin, old(disk)) ==> r.Err? && disk == old(disk))
                && (Unreturned(old(disk)) && MoveCompletes(origin, old(disk), captured, installed) ==>
                      (Torn(origin, disk) <==> TearsReturn(old(fate), 0, captured, installed)))
                && (Clean(old(fate)) && !Torn(origin, old(disk)) ==> !Torn(origin, disk))
                && (forall id | Returning(origin, old(disk), id, captured, installed) :: Returning(origin, disk, id, captured, installed))
    {
      ghost var valid := Valid() && InPhase(disk, RestoreReady) && Names(origin, captured);
      hide Fits, FinishCompletes, MoveCompletes;
      var _ :- MoveBack(captured, installed);
      if valid {
        ReturnedIsRestored(origin, disk, captured, installed);
      }
      var standing :- Raise(ManifestOrNone(RecoveryKind, disk.destination));
      if standing != captured {
        return Err(Raised(RECOVERY_CONFLICT));
      }
      var _ :- Write(Record(Restored, None, disk.record.value.identity, Some(FieldsOf(captured)), Some(installed), None));
      assert valid ==> InPhase(disk, Restored) && FinishCompletes(disk, captured, installed) && !Torn(origin, disk);
      r := FinishRestore(captured, installed);
    }

    method Restore(identity: Identity, captured: Option<Digest>, installed: Digest) returns (r: Result<(), Halt>)
      modifies this
      ensures forall t | Precedes(t, old(history)) :: Precedes(t, history)
      ensures Persists(old(fate), fate)
      ensures !Mine(old(disk), identity) ==> r.Err? && disk == old(disk)
      ensures RestoreStaging(old(disk)) ==> disk == old(disk)
      ensures old(Valid()) ==>
                && Valid()
                && (r.Ok? ==> RestoreDone(origin, disk, Some(identity), captured))
                && (old(fate).Undisturbed? ==> (r.Ok? <==> RestoreCompletes(origin, old(disk), identity, captured, installed)))
                && (Clean(old(fate)) && !Torn(origin, old(disk)) ==> !Torn(origin, disk))
                && (Returning(origin, old(disk), identity, captured, installed) ==> Returning(origin, disk, identity, captured, installed))
                && (Torn(origin, old(disk)) && old(disk).record.value.installed == Some(installed) ==> r.Err? && disk == old(disk))
                && (Returning(origin, old(disk), identity, captured, installed) && Resting(old(disk)) ==>
                      && (captured.Some? ==> (RestoreStaging(disk) <==> CutsStaging(old(fate))) && (Resting(disk) <==> Idle(old(fate))))
                      && (captured.None? ==> !RestoreStaging(disk))
                      && (Torn(origin, disk) <==> TearsReturn(old(fate), StageSteps(captured), captured, installed)))
    {
      hide RootOwned, Surviving;
      ghost var valid := Valid();
      var checkpoint :- Raise(CheckRestorable(disk, identity, captured));
      assert Valid() ==> Names(origin, captured);
      if checkpoint.phase == Installed {
        var _ :- StageRestore(captured, installed);
        ghost var staged := history;
        r := ReturnCapture(captured, installed);
        if valid {
          RunKeepsProgress(origin, staged, history);
        }
      } else if checkpoint.phase == RestoreReady {
        r := ReturnCapture(captured, installed);
      } else {
        r := FinishRestore(captured, installed);
      }
    }

    // ---- main ----

    /** _write_failure for a run whose operation document was read. */
    method WriteFailure(identity: Identity, code: ErrorCode)
      modifies this
      ensures forall t | Precedes(t, old(history)) :: Precedes(t, history)
      ensures disk == old(disk) || disk == old(disk).(record := FailureRecord(old(disk).record, identity, code))
      ensures Reported(old(disk), disk, identity)
      ensures old(Valid()) ==> Valid()
    {
      var next := FailureRecord(disk.record, identity, code);
      if next.Some? {
        var _ := Write(next.value);
      }
    }

    /** The failures a boot goes on to record while unmounting and powering off. */
    method WriteFailures(identity: Identity, codes: seq<ErrorCode>)
      modifies this
      ensures forall t | Precedes(t, old(history)) :: Precedes(t, history)
      ensures Reported(old(disk), disk, identity)
      ensures old(Valid()) ==> Valid()
      ensures codes == [] ==> disk == old(disk)
    {
      for i := 0 to |codes|
        invariant forall t | Precedes(t, old(history)) :: Precedes(t, history)
        invariant old(Valid()) ==> Valid()
        invariant Reported(old(disk), disk, identity)
        invariant i == 0 ==> disk == old(disk)
      {
        WriteFailure(identity, codes[i]);
      }
    }

    /** One operation and the report of its failure. */
    method Execute(doc: Document, source: Option<Tree>, indexed: Option<Tree>) returns (r: Result<(), Halt>)
      requires Valid()
      modifies this
      ensures forall t | Precedes(t, old(history)) :: Precedes(t, history)
      ensures Valid()
      ensures !Mine(old(disk), doc.identity) ==> r.Err? && disk == old(disk)
      ensures Clean(old(fate)) && !Torn(origin, old(disk)) ==> !Torn(origin, disk)
      ensures doc.operation.CaptureInstall? ==>
                && (Installing(old(disk), doc.identity) ==> Installing(disk, doc.identity))
                && (r.Ok? ==> InstallDone(origin, disk, Some(doc.identity)))
                && (old(fate).Undisturbed? ==> (r.Ok? <==> InstallCompletes(origin, old(disk), doc.identity, source, indexed)))
                && (InstallDone(origin, old(disk), Some(doc.identity)) ==> SameTrees(old(disk), disk))
                && (r.Ok? && Rank(old(disk)) <= 2 ==> disk.destination == indexed)
                && (Rank(old(disk)) == 0 && InstallCompletes(origin, old(disk), doc.identity, source, indexed) ==>
                      (Torn(origin, disk) <==> TearsSwap(old(fate), CaptureSteps(old(disk)) + STAGE_STEPS, origin)))
      ensures Torn(origin, old(disk)) && Truthful(old(disk), doc) ==> r.Err? && Reported(old(disk), disk, doc.identity)
      ensures doc.operation.Restore? ==>
                var captured, installed := doc.operation.captured, doc.operation.installed;
                && (Returning(origin, old(disk), doc.identity, captured, installed) ==>
                      Returning(origin, disk, doc.identity, captured, installed))
                && (RestoreStaging(old(disk)) ==> Reported(old(disk), disk, doc.identity))
                && (Returning(origin, old(disk), doc.identity, captured, installed) && Resting(old(disk)) ==>
                      && (captured.Some? ==> (RestoreStaging(disk) <==> CutsStaging(old(fate))) && (Resting(disk) <==> Idle(old(fate))))
                      && (captured.None? ==> !RestoreStaging(disk))
                      && (Torn(origin, disk) <==> TearsReturn(old(fate), StageSteps(captured), captured, installed)))
                && (r.Ok? ==> RestoreDone(origin, disk, Some(doc.identity), captured))
                && (old(fate).Undisturbed? ==> (r.Ok? <==> RestoreCompletes(origin, old(disk), doc.identity, captured, installed)))
    {
      if doc.operation.CaptureInstall? {
        r := CaptureInstall(doc.identity, source, indexed);
      } else {
        r := Restore(doc.identity, doc.operation.captured, doc.operation.installed);
      }
      if r.Err? && r.error.Raised? {
        ghost var before := disk;
        fate := Undisturbed;
        WriteFailure(doc.identity, r.error.code);
        ReportIsNeutral(origin, before, disk, doc.identity);
      }
    }

    /** One boot of the appliance. */
    method Boot(run: Run) returns (r: Result<(), Halt>)
      requires Valid()
      modifies this
      ensures forall t | Precedes(t, old(history)) :: Precedes(t, history)
      ensures Valid()
      ensures run.Unreadable? ==> Sealed(disk) && SameTrees(old(disk), disk)
      ensures run.Attempt? && !Mine(old(disk), run.doc.identity) ==> r.Err? && disk == old(disk)
      ensures CleanRun(run) && !Torn(origin, old(disk)) ==> !Torn(origin, disk)
      ensures run.Attempt? && run.doc.operation.CaptureInstall? ==>
                var identity := run.doc.identity;
                && (Installing(old(disk), identity) ==> Installing(disk, identity))
                && (InstallDone(origin, old(disk), Some(identity)) ==> SameTrees(old(disk), disk))
                && (run.fate.Undisturbed? ==> (r.Ok? <==> InstallCompletes(origin, old(disk), identity, run.source, run.indexed)))
                && (r.Ok? && run.late == [] ==> InstallDone(origin, disk, Some(identity)))
                && (r.Ok? && Rank(old(disk)) <= 2 ==> disk.destination == run.indexed)
                && (Rank(old(disk)) == 0 && InstallCompletes(origin, old(disk), identity, run.source, run.indexed) ==>
                      (Torn(origin, disk) <==> TearsSwap(run.fate, CaptureSteps(old(disk)) + STAGE_STEPS, origin)))
      ensures run.Attempt? && Torn(origin, old(disk)) && Truthful(old(disk), run.doc) ==>
                r.Err? && Reported(old(disk), disk, run.doc.identity) && Torn(origin, disk)
      ensures run.Attempt? && run.doc.operation.Restore? ==>
                var identity, captured, installed := run.doc.identity, run.doc.operation.captured, run.doc.operation.installed;
                && (Returning(origin, old(disk), identity, captured, installed) ==> Returning(origin, disk, identity, captured, installed))
                && (RestoreStaging(old(disk)) ==> Reported(old(disk), disk, identity) && RestoreStaging(disk))
                && (Returning(origin, old(disk), identity, captured, installed) && Resting(old(disk)) ==>
                      && (captured.Some? ==> (RestoreStaging(disk) <==> CutsStaging(run.fate)) && (Resting(disk) <==> Idle(run.fate)))
                      && (captured.None? ==> !RestoreStaging(disk))
                      && (Torn(origin, disk) <==> TearsReturn(run.fate, StageSteps(captured), captured, installed)))
                && (run.fate.Undisturbed? ==> (r.Ok? <==> RestoreCompletes(origin, old(disk), identity, captured, installed)))
                && (r.Ok? && run.late == [] ==> RestoreDone(origin, disk, Some(identity), captured))
    {
      hide RootOwned, Surviving, Fits, InstallCompletes, RestoreCompletes, TearsSwap, TearsReturn;
      if run.Unreadable? {
        fate := Undisturbed;
        r := Write(Record(Accepted, Some(run.code), None, None, None, None));
      } else {
        fate := run.fate;
        r := Execute(run.doc, run.source, run.indexed);
        ghost var before := disk;
        WriteFailures(run.doc.identity, run.late);
        ReportIsNeutral(origin, before, disk, run.doc.identity);
      }
    }

    /** Any number of boots, each with its own document and fate. */
    method Serve(runs: seq<Run>)
      requires Valid()
      modifies this
      ensures forall t | Precedes(t, old(history)) :: Precedes(t, history)
      ensures Valid()
      ensures forall t | Precedes(t, history) && !Sealed(t.disk) :: Safe(origin, t.disk)
      ensures (forall i | 0 <= i < |runs| :: CleanRun(runs[i])) && !Torn(origin, old(disk)) ==> !Torn(origin, disk)
    {
      for i := 0 to |runs|
        invariant forall t | Precedes(t, old(history)) :: Precedes(t, history)
        invariant Valid()
        invariant (forall k | 0 <= k < i :: CleanRun(runs[k])) && !Torn(origin, old(disk)) ==> !Torn(origin, disk)
      {
        var _ := Boot(runs[i]);
      }
      SafeThroughout(origin, history);
    }
  }

  /** A boot that installs, or restores what an install reported, and tears no removal. */
  predicate Repeats(run: Run, doc: Document) {
    run.Attempt? && run.doc == doc && CleanRun(run)
  }

  /** A boot nothing interferes with, from which the source volume and depmod deliver. */
  predicate Smooth(run: Run) {
    && run.Attempt? && run.fate.Undisturbed? && run.late == []
    && SourceMatches(run.doc.identity, run.source)
    && run.indexed.Some? && Fits(InstalledKind, run.indexed.value)
  }

  /** Install converges: after any number of boots of one install, cut off anywhere and reporting
      any failures, one smooth boot finishes it. */
  method InstallConverges(tree: Option<Tree>, scratch: Option<Tree>, runs: seq<Run>, last: Run)
    returns (a: Appliance)
    requires tree.Some? ==> Fits(RecoveryKind, tree.value) && RootOwned(tree.value)
    requires Smooth(last) && last.doc.operation.CaptureInstall?
    requires forall i | 0 <= i < |runs| :: Repeats(runs[i], last.doc)
    ensures fresh(a) && a.Valid() && a.origin == tree
    ensures InstallDone(tree, a.disk, Some(last.doc.identity))
  {
    a := new Appliance(tree, scratch);
    for i := 0 to |runs|
      invariant fresh(a) && a.Valid() && !Torn(tree, a.disk) && Installing(a.disk, last.doc.identity)
    {
      var _ := a.Boot(runs[i]);
    }
    var _ := a.Boot(last);
  }

  /** The first of the boots that gets as far as making the staging directory is cut off before
      restore-ready is on record. */
  predicate CutsWindow(runs: seq<Run>) {
    && runs != [] && runs[0].Attempt?
    && if Idle(runs[0].fate) then CutsWindow(runs[1..]) else CutsStaging(runs[0].fate)
  }

  /** Install then restore is the identity: after any number of restore boots with the manifests
      the install reported, one smooth boot puts the original back, except exactly when there is a
      captured tree to stage and the boots cut its staging off; then the installed tree stays where
      it is. */
  method RestoreConverges(a: Appliance, runs: seq<Run>, last: Run)
    requires a.Valid() && last.Attempt? && InstallDone(a.origin, a.disk, Some(last.doc.identity))
    requires last.fate.Undisturbed? && last.late == []
    requires last.doc.operation ==
             Restore(OriginalManifest(CaptureOf(a.origin)), Sha256(InstalledKind, a.disk.destination.value))
    requires forall i | 0 <= i < |runs| :: Repeats(runs[i], last.doc)
    modifies a
    ensures a.Valid()
    ensures if a.origin.Some? && CutsWindow(runs) then RestoreStaging(a.disk) && a.disk.destination == old(a.disk).destination
            else RestoreDone(a.origin, a.disk, Some(last.doc.identity), OriginalManifest(CaptureOf(a.origin))) && a.disk.destination == a.origin
  {
    ghost var op := last.doc.operation;
    InstallReports(a.origin, a.disk, last.doc.identity);
    assert runs[0..] == runs;
    for i := 0 to |runs|
      invariant a.Valid() && !Torn(a.origin, a.disk)
      invariant Returning(a.origin, a.disk, last.doc.identity, op.captured, op.installed)
      invariant if a.origin.Some?
                then CutsWindow(runs) <==> RestoreStaging(a.disk) || (Resting(a.disk) && CutsWindow(runs[i..]))
                else !RestoreStaging(a.disk)
    {
      assert runs[i..][1..] == runs[i + 1..];
      ghost var before := a.history;
      var _ := a.Boot(runs[i]);
      RunKeepsProgress(a.origin, before, a.history);
    }
    ReturningCompletes(a.origin, a.disk, last.doc.identity, op.captured, op.installed);
    var _ := a.Boot(last);
  }

  /** The whole life of an operation: any interrupted installs, then any interrupted restores, and
      the original is back, unless the restores cut off the staging of a captured tree.  The restore
      document is made of what the install put on record. */
  method InstallThenRestore(tree: Option<Tree>, scratch: Option<Tree>, installs: seq<Run>, install: Run,
                            fates: seq<Fate>, late: seq<seq<ErrorCode>>)
    returns (a: Appliance)
    requires tree.Some? ==> Fits(RecoveryKind, tree.value) && RootOwned(tree.value)
    requires Smooth(install) && install.doc.operation.CaptureInstall?
    requires forall i | 0 <= i < |installs| :: Repeats(installs[i], install.doc)
    requires |late| == |fates| && forall i | 0 <= i < |fates| :: Clean(fates[i])
    ensures a.Valid() && a.origin == tree
    ensures tree.None? || !CutsWindow(Restores(install.doc, fates, late)) ==>
              a.disk.destination == tree && InPhase(a.disk, Restored) && a.disk.stage.NoStage? && a.disk.displaced.None?
    ensures tree.Some? && CutsWindow(Restores(install.doc, fates, late)) ==> RestoreStaging(a.disk)
  {
    a := InstallConverges(tree, scratch, installs, install);
    InstallReports(tree, a.disk, install.doc.identity);
    var record := a.disk.record.value;
    var document := Document(install.doc.identity, Restore(OriginalManifest(record.capture.value), record.installed.value));
    WindowByFates(install.doc, document, fates, late);
    RestoreConverges(a, Restores(document, fates, late), Attempt(document, None, None, Undisturbed, []));
  }

  /** Boots with one document, by their fates and late failures. */
  function Restores(doc: Document, fates: seq<Fate>, late: seq<seq<ErrorCode>>): (r: seq<Run>)
    requires |late| == |fates|
    ensures |r| == |fates| && forall i | 0 <= i < |r| :: r[i] == Attempt(doc, None, None, fates[i], late[i])
  {
    seq(|fates|, i requires 0 <= i < |fates| => Attempt(doc, None, None, fates[i], late[i]))
  }

  /** Whether boots cut off the staging depends on their fates alone. */
  lemma {:induction false} WindowByFates(doc: Document, other: Document, fates: seq<Fate>, late: seq<seq<ErrorCode>>)
    requires |late| == |fates|
    ensures CutsWindow(Restores(doc, fates, late)) <==> CutsWindow(Restores(other, fates, late))
  {
    if fates != [] {
      WindowByFates(doc, other, fates[1..], late[1..]);
      assert Restores(doc, fates, late)[1..] == Restores(doc, fates[1..], late[1..]);
      assert Restores(other, fates, late)[1..] == Restores(other, fates[1..], late[1..]);
    }
  }

  // ---- The windows are real ----

  /** A torn disk stays as it is, failure reports aside, whatever boots follow with truthful
      documents. */
  method Strand(a: Appliance, runs: seq<Run>)
    requires a.Valid() && Torn(a.origin, a.disk)
    requires forall i | 0 <= i < |runs| :: runs[i].Attempt? && Truthful(a.disk, runs[i].doc)
    modifies a
    ensures a.Valid() && Torn(a.origin, a.disk) && SameTrees(old(a.disk), a.disk)
    ensures a.disk.record.Some? && a.disk.record.value.(failure := old(a.disk).record.value.failure) == old(a.disk).record.value
  {
    for i := 0 to |runs|
      invariant a.Valid() && Torn(a.origin, a.disk) && SameTrees(old(a.disk), a.disk)
      invariant a.disk.record.Some? && a.disk.record.value.(failure := old(a.disk).record.value.failure) == old(a.disk).record.value
    {
      var _ := a.Boot(runs[i]);
    }
  }

  /** A first install with any fate, then any reruns that tear nothing, then a smooth boot: it fails,
      on a torn disk, exactly when the first run tore one of its two removals. */
  method TornInstall(tree: Option<Tree>, scratch: Option<Tree>, fate: Fate, late: seq<ErrorCode>, runs: seq<Run>, last: Run)
    returns (a: Appliance, r: Result<(), Halt>)
    requires tree.Some? ==> Fits(RecoveryKind, tree.value) && RootOwned(tree.value)
    requires Smooth(last) && last.doc.operation.CaptureInstall?
    requires forall i | 0 <= i < |runs| :: Repeats(runs[i], last.doc)
    ensures a.Valid() && a.origin == tree
    ensures var tears := TearsSwap(fate, CaptureSteps(Disk(tree, NoStage, None, scratch, None)) + STAGE_STEPS, tree);
            (r.Err? <==> tears) && (Torn(tree, a.disk) <==> tears)
  {
    a := new Appliance(tree, scratch);
    var _ := a.Boot(Attempt(last.doc, last.source, last.indexed, fate, late));
    ghost var tears := Torn(tree, a.disk);
    for i := 0 to |runs|
      invariant a.Valid() && a.origin == tree && Installing(a.disk, last.doc.identity) && (Torn(tree, a.disk) <==> tears)
    {
      var _ := a.Boot(runs[i]);
    }
    r := a.Boot(last);
  }

  /** A restore of a finished install with any fate, then an undisturbed one: it fails exactly when
      the first tore one of its two removals or was cut off while it staged a captured tree. */
  method TornRestore(tree: Option<Tree>, scratch: Option<Tree>, install: Run, fate: Fate, late: seq<ErrorCode>)
    returns (a: Appliance, r: Result<(), Halt>)
    requires tree.Some? ==> Fits(RecoveryKind, tree.value) && RootOwned(tree.value)
    requires Smooth(install) && install.doc.operation.CaptureInstall?
    ensures a.Valid() && a.origin == tree
    ensures var op := RestoreDocument(install, OriginalManifest(CaptureOf(tree))).operation;
            var tears := TearsReturn(fate, StageSteps(op.captured), op.captured, op.installed);
            && (Torn(tree, a.disk) <==> tears)
            && (r.Err? <==> tears || (tree.Some? && CutsStaging(fate)))
            && (r.Ok? ==> a.disk.destination == tree)
  {
    hide TearsReturn;
    a := FinishedInstall(tree, scratch, install);
    var document := RestoreDocument(install, OriginalManifest(CaptureOf(tree)));
    var op := document.operation;
    InstallReports(tree, a.disk, install.doc.identity);
    var _ := a.Boot(Attempt(document, None, None, fate, late));
    ReturningCompletes(tree, a.disk, document.identity, op.captured, op.installed);
    r := a.Boot(Attempt(document, None, None, Undisturbed, []));
  }

  /** One boot without a document seals a finished install: its trees stay, and no later boot is
      accepted, whatever its document. */
  method SealedInstall(tree: Option<Tree>, scratch: Option<Tree>, install: Run, code: ErrorCode, runs: seq<Run>, last: Run)
    returns (a: Appliance, r: Result<(), Halt>)
    requires tree.Some? ==> Fits(RecoveryKind, tree.value) && RootOwned(tree.value)
    requires Smooth(install) && install.doc.operation.CaptureInstall? && last.Attempt?
    ensures a.Valid() && a.origin == tree && Sealed(a.disk) && r.Err?
    ensures a.disk.destination == install.indexed && a.disk.stage.NoStage? && a.disk.displaced.None?
  {
    a := FinishedInstall(tree, scratch, install);
    var _ := a.Boot(Unreadable(code));
    for i := 0 to |runs|
      invariant fresh(a) && a.Valid() && a.origin == tree && Sealed(a.disk)
      invariant a.disk.destination == install.indexed && a.disk.stage.NoStage? && a.disk.displaced.None?
    {
      var _ := a.Boot(runs[i]);
    }
    r := a.Boot(last);
  }

  /** Every restore of a captured tree has steps in which a cut strands it. */
  method CutRestore(tree: Tree, scratch: Option<Tree>, install: Run, cut: Fate, late: seq<ErrorCode>)
    returns (a: Appliance, r: Result<(), Halt>)
    requires Fits(RecoveryKind, tree) && RootOwned(tree)
    requires Smooth(install) && install.doc.operation.CaptureInstall? && CutsStaging(cut)
    ensures a.Valid() && a.origin == Some(tree) && RestoreStaging(a.disk) && r.Err?
    ensures a.disk.destination == install.indexed
  {
    a := FinishedInstall(Some(tree), scratch, install);
    var document := RestoreDocument(install, Some(Sha256(RecoveryKind, tree)));
    InstallReports(a.origin, a.disk, install.doc.identity);
    var _ := a.Boot(Attempt(document, None, None, cut, late));
    r := a.Boot(Attempt(document, None, None, Undisturbed, []));
  }

  /** A document that says "absent" is believed after an install over any tree. */
  method AbsentIsBelieved(tree: Tree, scratch: Option<Tree>, install: Run) returns (a: Appliance)
    requires Fits(RecoveryKind, tree) && RootOwned(tree)
    requires Smooth(install) && install.doc.operation.CaptureInstall?
    ensures a.Valid() && a.origin == Some(tree)
    ensures RestoreDone(Some(tree), a.disk, Some(install.doc.identity), None) && a.disk.destination.None?
  {
    a := FinishedInstall(Some(tree), scratch, install);
    var _ := a.Boot(Attempt(RestoreDocument(install, None), None, None, Undisturbed, []));
  }

  /** A finished install, in one boot. */
  method FinishedInstall(tree: Option<Tree>, scratch: Option<Tree>, install: Run) returns (a: Appliance)
    requires tree.Some? ==> Fits(RecoveryKind, tree.value) && RootOwned(tree.value)
    requires Smooth(install) && install.doc.operation.CaptureInstall?
    ensures fresh(a) && a.Valid() && a.origin == tree && InstallDone(tree, a.disk, Some(install.doc.identity))
    ensures a.disk.destination == install.indexed
  {
    a := new Appliance(tree, scratch);
    var _ := a.Boot(install);
  }

  /** The document that undoes an install, with this capture. */
  function RestoreDocument(install: Run, captured: Option<Digest>): Document
    requires install.Attempt? && install.indexed.Some?
  {
    Document(install.doc.identity, Restore(captured, Sha256(InstalledKind, install.indexed.value)))
  }
}
