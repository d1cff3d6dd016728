/** The durable state of the remote module appliance and what every run keeps true of it. */
module Protocol {
  import opened Wrappers
  import opened ModuleTree
  import opened Checkpoint

  /** The staging directory .kdive-<nonce>-new: tree is what stands at lib/modules/<release> in it,
      skeleton says that apart from the tree it holds exactly lib and lib/modules. */
  datatype Stage = NoStage | Stage(skeleton: bool, tree: Option<Tree>)

  datatype Disk = Disk(
    destination: Option<Tree>, stage: Stage, displaced: Option<Tree>, capture: Option<Tree>, record: Option<Record>)

  datatype Operation = CaptureInstall | Restore(captured: Option<Digest>, installed: Digest)

  datatype Document = Document(identity: Identity, operation: Operation)

  // ---- Progress ----

  /** A record without identity: no run with a document will ever touch the disk again. */
  predicate Sealed(d: Disk) {
    d.record.Some? && d.record.value.identity.None?
  }

  predicate InPhase(d: Disk, p: Phase) {
    !Sealed(d) && d.record.Some? && d.record.value.phase == p
  }

  function PhaseRank(p: Phase): nat {
    match p
    case Accepted => 0
    case Captured => 1
    case StagingIntent => 2
    case ReplacementReady => 3
    case Installed => 4
    case RestoreReady => 5
    case Restored => 6
  }

  function Rank(d: Disk): nat {
    if d.record.None? then 0 else if Sealed(d) then 7 else PhaseRank(d.record.value.phase)
  }

  predicate SameTrees(d: Disk, e: Disk) {
    d.(record := e.record) == e
  }

  // ---- The invariant ----

  function CaptureOf(origin: Option<Tree>): CaptureFields {
    if origin.None? then CaptureAbsent else CaptureManifest(Sha256(RecoveryKind, origin.value))
  }

  /** The captured copy is the original tree, and can be copied back. */
  ghost predicate Kept(origin: Option<Tree>, d: Disk) {
    && d.capture == origin
    && (origin.Some? ==> Fits(RecoveryKind, origin.value) && RootOwned(origin.value))
  }

  predicate Tracks(r: Record) {
    r.installed.Some? && r.installed.value.kind == InstalledKind && Fits(InstalledKind, r.installed.value.entries)
  }

  predicate Counted(r: Record) {
    r.counts.Some? && r.counts.value.entries <= ENTRY_LIMIT && r.counts.value.bytes <= BYTE_LIMIT
  }

  /** The installed tree a record names. */
  function Replacement(r: Record): Option<Tree> {
    if r.installed.Some? then Some(r.installed.value.entries) else None
  }

  /** The tree a restore record says to put back. */
  function Target(origin: Option<Tree>, r: Record): Option<Tree> {
    if r.capture == Some(CaptureAbsent) then None else origin
  }

  /** Moving the replacement in: nothing moved; original moved aside; replacement in place. */
  ghost predicate Replacing(origin: Option<Tree>, d: Disk, r: Record) {
    var inst := Replacement(r);
    || (d.destination == origin && d.displaced.None? && d.stage == Stage(true, inst))
    || (d.destination.None? && d.displaced == origin && d.stage == Stage(true, inst))
    || (d.destination == inst && d.displaced == origin && (d.stage.Stage? ==> d.stage.tree.None?))
  }

  /** Moving the captured tree back: nothing moved; replacement moved aside; target in place. */
  ghost predicate Restoring(origin: Option<Tree>, d: Disk, r: Record) {
    var inst, target := Replacement(r), Target(origin, r);
    var staged := if target.None? then NoStage else Stage(true, target);
    || (d.destination == inst && d.displaced.None? && d.stage == staged)
    || (d.destination.None? && d.displaced == inst && d.stage == staged)
    || (target.Some? && d.destination == target && d.displaced == inst && (d.stage.Stage? ==> d.stage.tree.None?))
  }

  ghost predicate Inv(origin: Option<Tree>, d: Disk) {
    && (d.record.Some? ==> WellFormed(d.record.value))
    && (!Sealed(d) ==>
          if d.record.None? || d.record.value.phase == Accepted then
            d.destination == origin && d.stage.NoStage? && d.displaced.None?
          else
            var r := d.record.value;
            && Kept(origin, d)
            && (PhaseRank(r.phase) <= 4 ==> r.capture == Some(CaptureOf(origin)))
            && (PhaseRank(r.phase) >= 5 ==> r.capture == Some(CaptureOf(origin)) || r.capture == Some(CaptureAbsent))
            && (r.phase in {ReplacementReady, Installed, RestoreReady} ==> Tracks(r))
            && (r.phase in {ReplacementReady, Installed} ==> Counted(r))
            && match r.phase
               case Captured => d.destination == origin && d.stage.NoStage? && d.displaced.None?
               case StagingIntent => d.destination == origin && d.displaced.None?
               case ReplacementReady => Replacing(origin, d, r)
               case Installed =>
                 && d.destination == Replacement(r)
                 && (d.displaced.Some? ==>
                       d.stage.NoStage? && origin.Some? && Remnant(d.displaced.value, origin.value))
               case RestoreReady => Restoring(origin, d, r)
               case Restored => d.destination == Target(origin, r) && d.stage.NoStage?)
  }

  /** What one durable step may change. */
  ghost predicate Step(d: Disk, e: Disk) {
    && Rank(d) <= Rank(e)
    && (1 <= Rank(d) ==> e.capture == d.capture)
    && (3 <= Rank(d) && Rank(e) <= 5 ==> e.record.value.installed == d.record.value.installed)
    && (e.record != d.record ==> SameTrees(d, e))
    && (Sealed(e) ==> SameTrees(d, e))
    && (e.record != d.record && e.record.Some? && !Sealed(e) && e.record.value.failure.Some? ==>
          if d.record.None? then Rank(e) == 0
          else e.record.value.(failure := d.record.value.failure) == d.record.value)
  }

  ghost predicate Legal(origin: Option<Tree>, d: Disk, e: Disk) {
    Inv(origin, e) && Step(d, e)
  }

  /** Every state of the disk, from the first on. */
  datatype Trace = First(disk: Disk) | Then(earlier: Trace, disk: Disk)

  ghost predicate IsRun(origin: Option<Tree>, t: Trace) {
    match t
    case First(d) => Inv(origin, d) && !Sealed(d)
    case Then(earlier, d) => IsRun(origin, earlier) && Legal(origin, earlier.disk, d)
  }

  /** t is s at some earlier instant. */
  ghost predicate Precedes(t: Trace, s: Trace) {
    t == s || (s.Then? && Precedes(t, s.earlier))
  }

  // ---- What the invariant means ----

  /** The original tree, the installed tree and the progress record at one instant. */
  ghost predicate Safe(origin: Option<Tree>, d: Disk) {
    var inst := if d.record.Some? then Replacement(d.record.value) else None;
    // never a partial tree, never a foreign one
    && (d.destination == origin || d.destination.None? || d.destination == inst)
    // untouched until the replacement is ready and recorded
    && (Rank(d) <= 2 ==> d.destination == origin && d.displaced.None?)
    // captured exactly from the captured record on
    && (1 <= Rank(d) ==> d.capture == origin)
    // a moment without a destination has the tree that left it standing next door
    && (d.destination.None? && origin.Some? && Rank(d) <= 5 ==> d.displaced == origin || d.displaced == inst)
    // the installed tree stays whole until the restored record is written
    && (4 <= Rank(d) <= 5 ==> inst.Some? && (d.destination == inst || d.displaced == inst))
  }

  lemma InvIsSafe(origin: Option<Tree>, d: Disk)
    requires Inv(origin, d) && !Sealed(d)
    ensures Safe(origin, d)
  {
  }

  /** A whole run, with any number of crashes and restarts in it: progress never goes back, the
      capture never changes once recorded, and the installed tree on record stays the same from
      replacement-ready through restore-ready. */
  lemma {:induction false} RunKeepsProgress(origin: Option<Tree>, t: Trace, s: Trace)
    requires IsRun(origin, s) && Precedes(t, s)
    ensures Rank(t.disk) <= Rank(s.disk)
    ensures 1 <= Rank(t.disk) ==> s.disk.capture == t.disk.capture
    ensures 3 <= Rank(t.disk) && Rank(s.disk) <= 5 ==>
              s.disk.record.value.installed == t.disk.record.value.installed
    ensures Sealed(t.disk) ==> SameTrees(t.disk, s.disk) && Sealed(s.disk)
  {
    if t != s {
      RunKeepsProgress(origin, t, s.earlier);
    }
  }

  /** Nothing is lost at any instant: every disk of a run holds the trees of a safe disk of the
      same run (itself, unless a run without document sealed the record). */
  lemma {:induction false} NothingLost(origin: Option<Tree>, t: Trace, s: Trace) returns (k: Trace)
    requires IsRun(origin, s) && Precedes(t, s)
    ensures Precedes(k, t) && !Sealed(k.disk) && Safe(origin, k.disk) && SameTrees(k.disk, t.disk)
    ensures !Sealed(t.disk) ==> k == t
    decreases s
  {
    if t != s {
      k := NothingLost(origin, t, s.earlier);
    } else if Sealed(t.disk) {
      k := NothingLost(origin, t.earlier, t.earlier);
    } else {
      InvIsSafe(origin, t.disk);
      k := t;
    }
  }

  /** Every instant of a run before sealing is safe. */
  lemma SafeThroughout(origin: Option<Tree>, s: Trace)
    requires IsRun(origin, s)
    ensures forall t | Precedes(t, s) && !Sealed(t.disk) :: Safe(origin, t.disk)
  {
    forall t | Precedes(t, s) && !Sealed(t.disk) ensures Safe(origin, t.disk) {
      var _ := NothingLost(origin, t, s);
    }
  }

  // ---- Decisions ----

  function StageManifest(stage: Stage, kind: Kind): Result<Option<Digest>, ErrorCode> {
    if stage.NoStage? then Ok(None) else ManifestOrNone(kind, stage.tree)
  }

  function OriginalManifest(fields: CaptureFields): Option<Digest> {
    if fields.CaptureManifest? then Some(fields.digest) else None
  }

  /** _capture_material: the capture fields of a record, once the capture location agrees. */
  function CaptureMaterial(r: Record, capture: Option<Tree>): Result<CaptureFields, ErrorCode> {
    if r.capture.None? then Err(RECOVERY_CONFLICT)
    else
      var found :- ManifestOrNone(RecoveryKind, capture);
      if found == OriginalManifest(r.capture.value) then Ok(r.capture.value) else Err(RECOVERY_CONFLICT)
  }

  function CountFields(r: Record): Result<Counts, ErrorCode> {
    if Counted(r) then Ok(r.counts.value) else Err(RECOVERY_CONFLICT)
  }

  /** The checks at the head of _transition_replacement.  Ok(true) asks for the destination to be
      moved aside first. */
  function PlanSwap(d: Disk, r: Record): Result<bool, ErrorCode> {
    var fields :- CaptureMaterial(r, d.capture);
    if r.installed.None? then Err(RECOVERY_CONFLICT)
    else
      var original := OriginalManifest(fields);
      var destinationInstalled :- ManifestOrNone(InstalledKind, d.destination);
      var destinationOriginal :- ManifestOrNone(RecoveryKind, d.destination);
      var staged :- StageManifest(d.stage, InstalledKind);
      var moved :- ManifestOrNone(RecoveryKind, d.displaced);
      if destinationOriginal == original && staged == r.installed && moved.None? then Ok(destinationOriginal.Some?)
      else if destinationInstalled == r.installed then Ok(false)
      else if destinationOriginal.None? && staged == r.installed && moved == original then Ok(false)
      else Err(RECOVERY_CONFLICT)
  }

  /** The checks before the installed record is written: destination and displaced are final. */
  function CheckSwapped(d: Disk, r: Record): Result<Record, ErrorCode> {
    var fields :- CaptureMaterial(r, d.capture);
    var standing :- ManifestOrNone(InstalledKind, d.destination);
    if standing != r.installed then Err(RECOVERY_CONFLICT)
    else
      var moved :- ManifestOrNone(RecoveryKind, d.displaced);
      if moved != OriginalManifest(fields) then Err(RECOVERY_CONFLICT)
      else
        var counts :- CountFields(r);
        Ok(Record(Installed, None, r.identity, Some(fields), r.installed, Some(counts)))
  }

  function Aside(d: Disk): Disk {
    d.(destination := None, displaced := d.destination)
  }

  function Promoted(d: Disk): Disk
    requires d.stage.Stage?
  {
    d.(destination := d.stage.tree, stage := Stage(d.stage.skeleton, None))
  }

  lemma SwapPlanned(origin: Option<Tree>, d: Disk)
    requires Inv(origin, d) && InPhase(d, ReplacementReady)
    ensures var plan := PlanSwap(d, d.record.value);
            && plan.Ok?
            && (if plan.value then d.destination == origin && Legal(origin, d, Aside(d)) && Loaded(origin, Aside(d))
                else Loaded(origin, d) || Swapped(origin, d))
  {
  }

  lemma SwapPromoted(origin: Option<Tree>, d: Disk)
    requires Inv(origin, d) && InPhase(d, ReplacementReady) && Loaded(origin, d)
    ensures Legal(origin, d, Promoted(d)) && Swapped(origin, Promoted(d)) && Promoted(d).stage == Stage(true, None)
  {
  }

  ghost predicate Loaded(origin: Option<Tree>, d: Disk) {
    && d.record.Some? && d.destination.None? && d.displaced == origin
    && d.stage == Stage(true, Replacement(d.record.value))
  }

  ghost predicate Swapped(origin: Option<Tree>, d: Disk) {
    && d.record.Some? && d.destination == Replacement(d.record.value) && d.displaced == origin
    && (d.stage.Stage? ==> d.stage.tree.None?)
  }

  /** An emptied staging directory may be removed without breaking the protocol. */
  ghost predicate StageMayGo(origin: Option<Tree>, d: Disk) {
    d.stage == Stage(true, None) ==>
      && Legal(origin, d, d.(stage := NoStage))
      && Legal(origin, d, d.(stage := Stage(false, None)))
  }

  lemma SwapRecorded(origin: Option<Tree>, d: Disk)
    requires Inv(origin, d) && InPhase(d, ReplacementReady) && Swapped(origin, d) && d.stage.NoStage?
    ensures var r := CheckSwapped(d, d.record.value);
            && r.Ok? && Legal(origin, d, d.(record := Some(r.value)))
            && r.value.phase == Installed && r.value.identity == d.record.value.identity
  {
  }

  /** The checks of _finish_installed before it touches the staging directory. */
  function CheckStanding(d: Disk, r: Record): Result<(), ErrorCode> {
    var _ :- CaptureMaterial(r, d.capture);
    var standing :- ManifestOrNone(InstalledKind, d.destination);
    if r.installed.None? || standing != r.installed then Err(RECOVERY_CONFLICT)
    else
      var staged :- StageManifest(d.stage, InstalledKind);
      if staged.Some? then Err(RECOVERY_CONFLICT) else Ok(())
  }

  /** The rest of its checks, and the record it then writes. */
  function CheckDisplaced(d: Disk, r: Record): Result<Record, ErrorCode> {
    var fields :- CaptureMaterial(r, d.capture);
    var moved :- ManifestOrNone(RecoveryKind, d.displaced);
    if moved.Some? && moved != OriginalManifest(fields) then Err(RECOVERY_CONFLICT)
    else
      var counts :- CountFields(r);
      Ok(Record(Installed, None, r.identity, Some(fields), r.installed, Some(counts)))
  }

  /** The checks of _capture_install on a captured or staging-intent disk. */
  function CheckCaptured(d: Disk, r: Record): Result<CaptureFields, ErrorCode> {
    var fields :- CaptureMaterial(r, d.capture);
    var original :- ManifestOrNone(RecoveryKind, d.destination);
    if original != OriginalManifest(fields) then Err(RECOVERY_CONFLICT)
    else
      var moved :- ManifestOrNone(RecoveryKind, d.displaced);
      if moved.Some? then Err(RECOVERY_CONFLICT) else Ok(fields)
  }

  function FieldsOf(captured: Option<Digest>): CaptureFields {
    if captured.None? then CaptureAbsent else CaptureManifest(captured.value)
  }

  /** The checks at the head of _restore. */
  function CheckRestorable(d: Disk, identity: Identity, captured: Option<Digest>): Result<Record, ErrorCode> {
    var found :- Load(d.record, identity);
    if found.None? || found.value.phase !in {Installed, RestoreReady, Restored} then Err(RECOVERY_CONFLICT)
    else if captured.None? then Ok(found.value)
    else
      var kept :- ManifestOrNone(RecoveryKind, d.capture);
      if kept != captured then Err(RECOVERY_CONFLICT) else Ok(found.value)
  }

  /** The checks before a restore stages the captured tree. */
  function CheckInstalled(d: Disk, installed: Digest): Result<(), ErrorCode> {
    var standing :- ManifestOrNone(InstalledKind, d.destination);
    if standing != Some(installed) || d.stage.Stage? then Err(RECOVERY_CONFLICT)
    else
      var moved :- ManifestOrNone(InstalledKind, d.displaced);
      if moved.Some? then Err(RECOVERY_CONFLICT) else Ok(())
  }

  /** The branch a restore-ready disk takes.  Ok(true) asks for the destination to be moved aside. */
  function PlanRestore(d: Disk, captured: Option<Digest>, installed: Digest): Result<bool, ErrorCode> {
    var destinationInstalled :- ManifestOrNone(InstalledKind, d.destination);
    var destinationCaptured :- ManifestOrNone(RecoveryKind, d.destination);
    var staged :- StageManifest(d.stage, RecoveryKind);
    var moved :- ManifestOrNone(InstalledKind, d.displaced);
    if destinationInstalled == Some(installed) && moved.None? then
      if staged != captured then Err(RECOVERY_CONFLICT) else Ok(true)
    else if destinationInstalled.None? && moved == Some(installed) then Ok(false)
    else if destinationCaptured == captured && moved == Some(installed) then Ok(false)
    else Err(RECOVERY_CONFLICT)
  }

  /** The closing checks of _restore. */
  function CheckRestored(d: Disk, captured: Option<Digest>, installed: Digest): Result<(), ErrorCode> {
    var standing :- ManifestOrNone(RecoveryKind, d.destination);
    if standing != captured then Err(RECOVERY_CONFLICT)
    else
      var moved :- ManifestOrNone(InstalledKind, d.displaced);
      if moved.Some? && moved != Some(installed) then Err(RECOVERY_CONFLICT) else Ok(())
  }

  /** A restore whose replacement is aside: the staged tree waits, or the target is in place. */
  ghost predicate Halfway(origin: Option<Tree>, d: Disk, captured: Option<Digest>, installed: Digest) {
    && Names(origin, captured) && d.record.Some?
    && d.record.value.installed == Some(installed) && d.displaced == Replacement(d.record.value)
    && (d.destination.Some? ==> d.destination == DigestTarget(captured) && (d.stage.Stage? ==> d.stage.tree.None?))
  }

  /** The captured tree is back and the staging directory gone. */
  ghost predicate Returned(d: Disk, captured: Option<Digest>, installed: Digest) {
    && d.record.Some? && d.record.value.installed == Some(installed) && d.displaced == Replacement(d.record.value)
    && d.destination == DigestTarget(captured) && d.stage.NoStage?
  }

  ghost predicate MoveCompletes(origin: Option<Tree>, d: Disk, captured: Option<Digest>, installed: Digest) {
    && d.record.Some?
    && d.stage != Stage(false, None)
    && d.record.value.installed == Some(installed)
    && DigestTarget(captured) == Target(origin, d.record.value)
  }

  predicate FinishCompletes(d: Disk, captured: Option<Digest>, installed: Digest) {
    && DigestTarget(captured) == d.destination
    && (d.displaced.Some? ==>
          Fits(InstalledKind, d.displaced.value) && installed == Sha256(InstalledKind, d.displaced.value))
  }

  lemma RestorePlanned(origin: Option<Tree>, d: Disk, captured: Option<Digest>, installed: Digest)
    requires Inv(origin, d) && InPhase(d, RestoreReady) && Names(origin, captured)
    ensures var plan := PlanRestore(d, captured, installed);
            && (plan == Ok(true) ==> Legal(origin, d, Aside(d)) && Halfway(origin, Aside(d), captured, installed))
            && (plan == Ok(false) ==> Halfway(origin, d, captured, installed))
            && (MoveCompletes(origin, d, captured, installed) ==> plan.Ok?)
            && (plan == Ok(true) ==> MoveCompletes(origin, d, captured, installed))
  {
  }

  lemma RestorePromoted(origin: Option<Tree>, d: Disk, captured: Option<Digest>, installed: Digest)
    requires Inv(origin, d) && InPhase(d, RestoreReady) && Halfway(origin, d, captured, installed)
    requires captured.Some? && d.destination.None? && d.stage.Stage? && d.stage.tree.Some?
    ensures Legal(origin, d, Promoted(d)) && Halfway(origin, Promoted(d), captured, installed)
    ensures Promoted(d).destination == DigestTarget(captured) && Promoted(d).stage == Stage(true, None)
    ensures MoveCompletes(origin, d, captured, installed)
  {
  }

  lemma CapturedChecked(origin: Option<Tree>, d: Disk)
    requires Inv(origin, d) && 1 <= Rank(d) <= 2
    ensures CheckCaptured(d, d.record.value) == Ok(CaptureOf(origin))
    ensures var next := Record(StagingIntent, None, d.record.value.identity, Some(CaptureOf(origin)), None, None);
            Legal(origin, d, d.(record := Some(next)))
  {
  }

  lemma BuiltIsReady(origin: Option<Tree>, d: Disk, built: Tree)
    requires Inv(origin, d) && InPhase(d, StagingIntent)
    requires d.stage == Stage(true, Some(built)) && Fits(InstalledKind, built)
    ensures var next := Record(ReplacementReady, None, d.record.value.identity, Some(CaptureOf(origin)),
                               Some(Sha256(InstalledKind, built)), Some(Counts(|built|, Bytes(built))));
            Legal(origin, d, d.(record := Some(next))) && !Torn(origin, d.(record := Some(next)))
  {
  }

  lemma ReturnedIsRestored(origin: Option<Tree>, d: Disk, captured: Option<Digest>, installed: Digest)
    requires Inv(origin, d) && InPhase(d, RestoreReady) && Names(origin, captured) && Returned(d, captured, installed)
    ensures ManifestOrNone(RecoveryKind, d.destination) == Ok(captured)
    ensures var next := Record(Restored, None, d.record.value.identity, Some(FieldsOf(captured)), Some(installed), None);
            var e := d.(record := Some(next));
            && Legal(origin, d, e) && FinishCompletes(e, captured, installed) && !Torn(origin, e)
            && forall id | Returning(origin, d, id, captured, installed) :: Returning(origin, e, id, captured, installed)
  {
  }

  // ---- When a run can complete ----

  /** A tree removal was cut off half way, where a rerun finds something it cannot classify. */
  ghost predicate Torn(origin: Option<Tree>, d: Disk) {
    || ((InPhase(d, ReplacementReady) || InPhase(d, RestoreReady)) && d.stage == Stage(false, None))
    || (InPhase(d, Installed) && d.displaced.Some? && d.displaced != origin)
    || (InPhase(d, Restored) && d.displaced.Some? && d.displaced != Replacement(d.record.value))
  }

  /** A restore document for the tree on record; an install says nothing about it. */
  predicate Truthful(d: Disk, doc: Document) {
    doc.operation.Restore? ==> d.record.Some? && d.record.value.installed == Some(doc.operation.installed)
  }

  /** The install on record, before anything of a restore is staged. */
  predicate Resting(d: Disk) {
    InPhase(d, Installed) && d.stage.NoStage?
  }

  /** The replacement is staged and recorded, and nothing has moved yet. */
  ghost predicate Unmoved(origin: Option<Tree>, d: Disk) {
    && d.record.Some? && d.destination == origin && d.displaced.None?
    && d.stage == Stage(true, Replacement(d.record.value))
  }

  /** A restore is on record, and nothing has moved yet. */
  predicate Unreturned(d: Disk) {
    d.record.Some? && d.destination == Replacement(d.record.value) && d.displaced.None?
  }

  /** A restore was cut off between creating the staging directory and recording restore-ready. */
  predicate RestoreStaging(d: Disk) {
    InPhase(d, Installed) && d.stage.Stage?
  }

  predicate Mine(d: Disk, identity: Identity) {
    d.record.None? || d.record.value.identity == Some(identity)
  }

  predicate SourceMatches(identity: Identity, source: Option<Tree>) {
    && source.Some? && Fits(SourceKind, source.value)
    && DigestOf(SourceKind, source.value) == identity.sourceManifest
  }

  /** Exactly when an undisturbed capture_install carries a recorded operation to the end. */
  ghost predicate ResumeCompletes(origin: Option<Tree>, d: Disk, indexed: Option<Tree>) {
    && (Rank(d) <= 2 ==> indexed.Some? && Fits(InstalledKind, indexed.value))
    && Rank(d) <= 4
    && !Torn(origin, d)
    && (RestoreStaging(d) ==> d.stage == Stage(true, None))
  }

  /** Exactly when an undisturbed capture_install ends in phase installed. */
  ghost predicate InstallCompletes(
    origin: Option<Tree>, d: Disk, identity: Identity, source: Option<Tree>, indexed: Option<Tree>)
  {
    && SourceMatches(identity, source)
    && Mine(d, identity)
    && (Rank(d) == 0 && origin.Some? ==> Fits(RecoveryKind, origin.value) && RootOwned(origin.value))
    && ResumeCompletes(origin, d, indexed)
  }

  /** A finished install of this operation. */
  ghost predicate InstallDone(origin: Option<Tree>, d: Disk, identity: Option<Identity>) {
    && Inv(origin, d) && InPhase(d, Installed)
    && d.record.value.identity == identity && d.record.value.failure.None?
    && d.destination == Replacement(d.record.value)
    && d.stage.NoStage? && d.displaced.None?
  }

  function DigestTarget(captured: Option<Digest>): Option<Tree> {
    if captured.None? then None else Some(captured.value.entries)
  }

  /** A restore document that repeats what the install reported; the absent flag is not compared
      with the checkpoint by the appliance. */
  ghost predicate Names(origin: Option<Tree>, captured: Option<Digest>) {
    captured.None? || (origin.Some? && captured == Some(Sha256(RecoveryKind, origin.value)))
  }

  ghost predicate RestoreCompletes(
    origin: Option<Tree>, d: Disk, identity: Identity, captured: Option<Digest>, installed: Digest)
  {
    && !Sealed(d) && d.record.Some? && d.record.value.identity == Some(identity)
    && 4 <= Rank(d)
    && Names(origin, captured)
    && (InPhase(d, Installed) ==>
          d.stage.NoStage? && d.displaced.None? && d.record.value.installed == Some(installed))
    && (InPhase(d, RestoreReady) ==> MoveCompletes(origin, d, captured, installed))
    && (InPhase(d, Restored) ==> FinishCompletes(d, captured, installed))
  }

  ghost predicate RestoreDone(origin: Option<Tree>, d: Disk, identity: Option<Identity>, captured: Option<Digest>) {
    && Inv(origin, d) && InPhase(d, Restored)
    && d.record.value.identity == identity && d.record.value.failure.None?
    && d.destination == DigestTarget(captured)
    && d.stage.NoStage? && d.displaced.None?
  }

  // ---- Sequences of runs ----

  /** Where installing runs alone can lead. */
  predicate Installing(d: Disk, identity: Identity) {
    Mine(d, identity) && Rank(d) <= 4 && !RestoreStaging(d)
  }

  /** Where restore runs alone can lead from a finished install, when their document repeats the
      manifests that install reported. */
  ghost predicate Returning(
    origin: Option<Tree>, d: Disk, identity: Identity, captured: Option<Digest>, installed: Digest)
  {
    && captured == OriginalManifest(CaptureOf(origin))
    && d.record.Some? && d.record.value.identity == Some(identity) && 4 <= Rank(d)
    && Tracks(d.record.value) && d.record.value.installed == Some(installed)
    && d.record.value.capture == Some(CaptureOf(origin))
    && (InPhase(d, Installed) ==> d.displaced.None?)
  }

  /** e is d with nothing but failure reports added by runs with this identity. */
  predicate Reported(d: Disk, e: Disk, identity: Identity) {
    && SameTrees(d, e)
    && (if d.record.None? || e.record.None?
        then e == d || (e.record.Some? && e.record.value.identity == Some(identity) && e.record.value.phase == Accepted)
        else e.record.value.(failure := d.record.value.failure) == d.record.value)
    && (!Mine(d, identity) ==> e == d)
  }

  lemma ReportIsNeutral(origin: Option<Tree>, d: Disk, e: Disk, identity: Identity)
    requires Reported(d, e, identity)
    ensures Torn(origin, e) <==> Torn(origin, d)
    ensures RestoreStaging(e) <==> RestoreStaging(d)
    ensures Resting(e) <==> Resting(d)
    ensures Installing(d, identity) ==> Installing(e, identity)
    ensures forall captured, installed | Returning(origin, d, identity, captured, installed) ::
              Returning(origin, e, identity, captured, installed)
  {
  }

  /** What the install reported and the checkpoint records. */
  lemma InstallReports(origin: Option<Tree>, d: Disk, identity: Identity)
    requires InstallDone(origin, d, Some(identity))
    ensures d.record.value.installed.Some? && d.record.value.capture.Some?
    ensures Returning(origin, d, identity, OriginalManifest(d.record.value.capture.value), d.record.value.installed.value)
  {
  }

  /** Outside the two windows a truthful restore completes, and puts the original back. */
  lemma ReturningCompletes(
    origin: Option<Tree>, d: Disk, identity: Identity, captured: Option<Digest>, installed: Digest)
    requires Inv(origin, d) && Returning(origin, d, identity, captured, installed)
    ensures RestoreCompletes(origin, d, identity, captured, installed) <==> !Torn(origin, d) && !RestoreStaging(d)
    ensures DigestTarget(captured) == origin
  {
  }

  /** A torn removal strands the operation: neither operation completes any more. */
  lemma TornStrands(origin: Option<Tree>, d: Disk, identity: Identity, captured: Option<Digest>,
                    source: Option<Tree>, indexed: Option<Tree>)
    requires Inv(origin, d) && Torn(origin, d)
    ensures !InstallCompletes(origin, d, identity, source, indexed)
    ensures d.record.value.installed.Some? ==>
              !RestoreCompletes(origin, d, identity, captured, d.record.value.installed.value)
  {
  }

  /** A completed restore put the original back exactly when its document named the capture the
      install reported: a document that says "absent" is believed. */
  lemma RestoreExactIff(origin: Option<Tree>, d: Disk, identity: Identity, captured: Option<Digest>)
    requires RestoreDone(origin, d, Some(identity), captured) && Names(origin, captured)
    ensures d.destination == origin <==> captured == OriginalManifest(CaptureOf(origin))
  {
  }
}
