/** The checkpoint file result-v1.json: what _checkpoint and _write_failure put in it and what
    _existing_checkpoint makes of an arbitrary object it finds there. */
module Checkpoint {
  import opened Wrappers
  import opened ModuleTree

  datatype Phase = Accepted | Captured | StagingIntent | ReplacementReady | Installed | RestoreReady | Restored

  /** The operation identity; it names neither the operation nor the manifests of a restore. */
  datatype Identity = Identity(
    systemId: string, runId: string, planIdentity: string, nonce: string, release: string,
    rootKey: string, rootIdentity: string, sourceManifest: Digest, applianceImage: string)

  datatype CaptureFields = CaptureManifest(digest: Digest) | CaptureAbsent

  /** A checkpoint record.  failure is None for status "success"; identity is None only in the
      record of a run that could not read its operation document. */
  datatype Record = Record(
    phase: Phase, failure: Option<ErrorCode>, identity: Option<Identity>,
    capture: Option<CaptureFields>, installed: Option<Digest>, counts: Option<Counts>)

  datatype IdentityKey =
    | SystemId | RunId | PlanIdentity | Nonce | Release | RootKey | RootIdentity | SourceManifest | ApplianceImage

  datatype FieldKey = InstalledKey | CaptureKey | AbsentKey | EntryCount | ContentBytes

  /** Member names of a record; Other is any name outside the protocol. */
  datatype Key =
    | ProtocolKey | StatusKey | PhaseKey | ErrorKey | Id(id: IdentityKey) | Field(field: FieldKey) | Other(name: string)

  /** JSON values.  The protocol's own words have a constructor each: Protocol is
      "remote-module-result-v1", Success and Failure are the two status words, and Sha is the text
      of a digest.  Text is every other string. */
  datatype Json =
    | Protocol | Success | Failure | PhaseText(phase: Phase) | CodeText(code: ErrorCode)
    | Sha(digest: Digest) | Text(text: string) | Number(number: int) | Flag(flag: bool)

  /** A JSON object: the value of every member name, None where it is missing. */
  type Object = Key -> Option<Json>

  function IdentityMember(i: Identity, k: IdentityKey): Json {
    match k
    case SystemId => Text(i.systemId)
    case RunId => Text(i.runId)
    case PlanIdentity => Text(i.planIdentity)
    case Nonce => Text(i.nonce)
    case Release => Text(i.release)
    case RootKey => Text(i.rootKey)
    case RootIdentity => Text(i.rootIdentity)
    case SourceManifest => Sha(i.sourceManifest)
    case ApplianceImage => Text(i.applianceImage)
  }

  function FieldMember(r: Record, k: FieldKey): Option<Json> {
    match k
    case InstalledKey => if r.installed.Some? then Some(Sha(r.installed.value)) else None
    case CaptureKey =>
      if r.capture.Some? && r.capture.value.CaptureManifest? then Some(Sha(r.capture.value.digest)) else None
    case AbsentKey => if r.capture == Some(CaptureAbsent) then Some(Flag(true)) else None
    case EntryCount => if r.counts.Some? then Some(Number(r.counts.value.entries)) else None
    case ContentBytes => if r.counts.Some? then Some(Number(r.counts.value.bytes)) else None
  }

  function Member(r: Record, k: Key): Option<Json> {
    match k
    case ProtocolKey => Some(Protocol)
    case StatusKey => Some(if r.failure.None? then Success else Failure)
    case PhaseKey => Some(PhaseText(r.phase))
    case ErrorKey => if r.failure.Some? then Some(CodeText(r.failure.value)) else None
    case Id(id) => if r.identity.Some? then Some(IdentityMember(r.identity.value, id)) else None
    case Field(field) => FieldMember(r, field)
    case Other(_) => None
  }

  /** The object written for a record. */
  function Encode(r: Record): Object {
    k => Member(r, k)
  }

  predicate ReportsFailure(o: Object) {
    && o(StatusKey) == Some(Failure)
    && o(ErrorKey).Some? && o(ErrorKey).value.CodeText?
  }

  /** The shape test of _existing_checkpoint, applied to the parsed object. */
  ghost predicate Acceptable(o: Object) {
    && (forall name :: o(Other(name)).None?)
    && o(ProtocolKey) == Some(Protocol)
    && o(PhaseKey).Some? && o(PhaseKey).value.PhaseText?
    && ((o(StatusKey) == Some(Success) && o(ErrorKey).None?) || ReportsFailure(o))
    && (o(PhaseKey).value.phase == Accepted ==> ReportsFailure(o) && forall f :: o(Field(f)).None?)
  }

  ghost predicate SameIdentity(o: Object, identity: Identity) {
    forall id :: o(Id(id)) == Some(IdentityMember(identity, id))
  }

  /** What _existing_checkpoint answers for a file holding the object: None is acceptance. */
  ghost function Refusal(o: Object, identity: Identity): Option<ErrorCode> {
    if !Acceptable(o) then Some(RECOVERY_CONFLICT)
    else if !SameIdentity(o, identity) then Some(IDENTITY_MISMATCH)
    else None
  }

  /** Every record the appliance writes: an accepted one reports a failure and carries no fields. */
  predicate WellFormed(r: Record) {
    r.phase == Accepted ==> r.failure.Some? && r.capture.None? && r.installed.None? && r.counts.None?
  }

  /** The record a run with this identity sees. */
  function Load(file: Option<Record>, identity: Identity): Result<Option<Record>, ErrorCode> {
    if file.None? then Ok(None)
    else if file.value.identity == Some(identity) then Ok(file)
    else Err(IDENTITY_MISMATCH)
  }

  /** The record _write_failure puts in place of the file, or None when it leaves the file alone. */
  function FailureRecord(file: Option<Record>, identity: Identity, code: ErrorCode): Option<Record> {
    match Load(file, identity)
    case Ok(None) => Some(Record(Accepted, Some(code), Some(identity), None, None, None))
    case Ok(Some(r)) => Some(r.(failure := Some(code)))
    case Err(_) => None
  }

  lemma IdentityInjective(i: Identity, j: Identity)
    requires forall k :: IdentityMember(i, k) == IdentityMember(j, k)
    ensures i == j
  {
    assert IdentityMember(i, SystemId) == IdentityMember(j, SystemId);
    assert IdentityMember(i, RunId) == IdentityMember(j, RunId);
    assert IdentityMember(i, PlanIdentity) == IdentityMember(j, PlanIdentity);
    assert IdentityMember(i, Nonce) == IdentityMember(j, Nonce);
    assert IdentityMember(i, Release) == IdentityMember(j, Release);
    assert IdentityMember(i, RootKey) == IdentityMember(j, RootKey);
    assert IdentityMember(i, RootIdentity) == IdentityMember(j, RootIdentity);
    assert IdentityMember(i, SourceManifest) == IdentityMember(j, SourceManifest);
    assert IdentityMember(i, ApplianceImage) == IdentityMember(j, ApplianceImage);
  }

  /** A record in the file is accepted for its own identity and refused for every other one. */
  lemma RecordRoundTrip(r: Record, identity: Identity)
    requires WellFormed(r)
    ensures Refusal(Encode(r), identity) == if r.identity == Some(identity) then None else Some(IDENTITY_MISMATCH)
    ensures Load(Some(r), identity).Err? <==> Refusal(Encode(r), identity).Some?
  {
    var o := Encode(r);
    if SameIdentity(o, identity) {
      assert o(Id(RunId)) == Member(r, Id(RunId));
      forall k ensures IdentityMember(identity, k) == IdentityMember(r.identity.value, k) {
        assert o(Id(k)) == Member(r, Id(k));
      }
      IdentityInjective(identity, r.identity.value);
    }
  }

  /** Nothing is lost in the file: the members determine the record. */
  lemma EncodeInjective(r: Record, s: Record)
    requires forall k :: Encode(r)(k) == Encode(s)(k)
    ensures r == s
  {
    forall k ensures Member(r, k) == Member(s, k) {
      assert Encode(r)(k) == Encode(s)(k);
    }
    assert Member(r, PhaseKey) == Member(s, PhaseKey) && Member(r, ErrorKey) == Member(s, ErrorKey);
    assert Member(r, Id(RunId)) == Member(s, Id(RunId));
    assert Member(r, Field(CaptureKey)) == Member(s, Field(CaptureKey));
    assert Member(r, Field(AbsentKey)) == Member(s, Field(AbsentKey));
    assert Member(r, Field(InstalledKey)) == Member(s, Field(InstalledKey));
    assert Member(r, Field(EntryCount)) == Member(s, Field(EntryCount));
    assert Member(r, Field(ContentBytes)) == Member(s, Field(ContentBytes));
    if r.identity.Some? {
      forall k ensures IdentityMember(r.identity.value, k) == IdentityMember(s.identity.value, k) {
        assert Member(r, Id(k)) == Member(s, Id(k));
      }
      IdentityInjective(r.identity.value, s.identity.value);
    }
  }

  /** A failure record keeps phase, identity and fields of the record it replaces, is well formed
      and is again accepted for the same identity; for a foreign record nothing is written. */
  lemma FailureKeepsRecord(file: Option<Record>, identity: Identity, code: ErrorCode)
    requires file.Some? ==> WellFormed(file.value)
    ensures var next := FailureRecord(file, identity, code);
            && (next.None? <==> file.Some? && Refusal(Encode(file.value), identity).Some?)
            && (next.Some? ==>
                  && WellFormed(next.value)
                  && Refusal(Encode(next.value), identity).None?
                  && Encode(next.value)(ErrorKey) == Some(CodeText(code))
                  && (file.Some? ==> forall k | k != StatusKey && k != ErrorKey ::
                                       Encode(next.value)(k) == Encode(file.value)(k))
                  && (file.None? ==> next.value.phase == Accepted))
  {
    var next := FailureRecord(file, identity, code);
    if file.Some? {
      RecordRoundTrip(file.value, identity);
    }
    if next.Some? {
      RecordRoundTrip(next.value, identity);
    }
  }
}
