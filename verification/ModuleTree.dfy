/** Kernel module trees, as far as the appliance's manifests can tell them apart.

    A tree is the list of its entries in path order, each with everything an "installed" or
    "recovery" manifest records.  A digest is a constructor over the entries it covers, so equal
    digests mean equal entries: SHA-256 is taken to be free of collisions. */
module ModuleTree {
  import opened Wrappers

  const ENTRY_LIMIT: nat := 200_000
  const BYTE_LIMIT: nat := 8 * 1024 * 1024 * 1024
  const XATTR_BYTE_LIMIT: nat := 32 * 1024 * 1024

  datatype ErrorCode =
    | INVALID_DOCUMENT | IDENTITY_MISMATCH | LIMIT_EXCEEDED | SOURCE_INVALID | ROOT_DISCOVERY_FAILED
    | FILESYSTEM_FAILURE | RECOVERY_CONFLICT | DEPMOD_FAILURE | FLUSH_FAILURE | SHUTDOWN_FAILURE

  datatype Kind = SourceKind | InstalledKind | RecoveryKind

  type Mode = bv16
  const MODE_DIR: Mode := 0x1ED   // 0755
  const MODE_FILE: Mode := 0x1A4  // 0644
  const EXEC_BITS: Mode := 0x049  // 0111

  datatype Body = Dir(mode: Mode) | File(mode: Mode, content: string) | Symlink(target: string)

  datatype Xattr = Xattr(name: string, value: string)

  /** Ownership and extended attributes; a source manifest leaves them out. */
  datatype Extra = NoExtra | Extra(uid: nat, gid: nat, xattrs: seq<Xattr>)

  datatype Entry = Entry(path: string, body: Body, extra: Extra)

  type Tree = seq<Entry>

  datatype Digest = Sha256(kind: Kind, entries: Tree)

  datatype Counts = Counts(entries: nat, bytes: nat)

  datatype Measured = Measured(digest: Digest, counts: Counts)

  function NormalMode(mode: Mode): Mode {
    if mode & EXEC_BITS != 0 then MODE_DIR else MODE_FILE
  }

  predicate Absolute(target: string) {
    target != "" && target[0] == '/'
  }

  /** The build and source back references of a module tree, which a source manifest skips. */
  predicate Skipped(e: Entry) {
    e.body.Symlink? && (e.path == "build" || e.path == "source") && Absolute(e.body.target)
  }

  function NormalBody(body: Body): Body {
    match body
    case Dir(_) => Dir(MODE_DIR)
    case File(mode, content) => File(NormalMode(mode), content)
    case Symlink(target) => Symlink(target)
  }

  /** What a source manifest records of a tree. */
  function SourceEntries(t: Tree): Tree {
    if t == [] then []
    else (if Skipped(t[0]) then [] else [Entry(t[0].path, NormalBody(t[0].body), NoExtra)]) + SourceEntries(t[1..])
  }

  /** The staged copy of a source tree: modes normalised, attributes dropped, owner root. */
  function Normalized(t: Tree): Tree {
    if t == [] then []
    else [Entry(t[0].path, NormalBody(t[0].body), Extra(0, 0, []))] + Normalized(t[1..])
  }

  /** What copytree makes of a tree when the appliance runs as root: it keeps modes and
      attributes but not the owner. */
  function AsRoot(t: Tree): Tree {
    if t == [] then []
    else
      var e := t[0];
      [if e.extra.Extra? then e.(extra := e.extra.(uid := 0, gid := 0)) else e] + AsRoot(t[1..])
  }

  function Bytes(t: Tree): nat {
    if t == [] then 0
    else (if t[0].body.File? then |t[0].body.content| else 0) + Bytes(t[1..])
  }

  function XattrSum(xs: seq<Xattr>): nat {
    if xs == [] then 0 else |xs[0].name| + |xs[0].value| + XattrSum(xs[1..])
  }

  function XattrBytes(t: Tree): nat {
    if t == [] then 0
    else (if t[0].extra.Extra? then XattrSum(t[0].extra.xattrs) else 0) + XattrBytes(t[1..])
  }

  /** The tree passes the manifest limits. */
  predicate Fits(kind: Kind, t: Tree) {
    && |t| <= ENTRY_LIMIT
    && Bytes(t) <= BYTE_LIMIT
    && (kind == SourceKind || XattrBytes(t) <= XATTR_BYTE_LIMIT)
  }

  function DigestOf(kind: Kind, t: Tree): Digest {
    Sha256(kind, if kind == SourceKind then SourceEntries(t) else t)
  }

  function TreeManifest(kind: Kind, t: Tree): Result<Measured, ErrorCode> {
    if Fits(kind, t) then Ok(Measured(DigestOf(kind, t), Counts(|t|, Bytes(t)))) else Err(LIMIT_EXCEEDED)
  }

  function ManifestOrNone(kind: Kind, place: Option<Tree>): Result<Option<Digest>, ErrorCode> {
    if place.None? then Ok(None)
    else
      var m :- TreeManifest(kind, place.value);
      Ok(Some(m.digest))
  }

  /** The tree a complete copy leaves. */
  function Copied(kind: Kind, t: Tree): Tree {
    if kind == SourceKind then Normalized(t) else AsRoot(t)
  }

  /** The entries of an interrupted removal that are still there. */
  function Surviving(t: Tree, survivors: set<string>): Tree {
    if t == [] then []
    else (if t[0].path in survivors then [t[0]] else []) + Surviving(t[1..], survivors)
  }

  predicate Remnant(part: Tree, whole: Tree) {
    forall e | e in part :: e in whole
  }

  predicate RootOwned(t: Tree) {
    forall i | 0 <= i < |t| :: t[i].extra.Extra? ==> t[i].extra.uid == 0 && t[i].extra.gid == 0
  }

  /** Normalising a source tree keeps its size and everything its source manifest records. */
  lemma {:induction false} NormalizedKeepsSource(t: Tree)
    ensures SourceEntries(Normalized(t)) == SourceEntries(t)
    ensures |Normalized(t)| == |t| && Bytes(Normalized(t)) == Bytes(t)
  {
    if t != [] {
      NormalizedKeepsSource(t[1..]);
      assert Normalized(t)[1..] == Normalized(t[1..]);
    }
  }

  lemma {:induction false} AsRootFixed(t: Tree)
    ensures AsRoot(t) == t <==> RootOwned(t)
    ensures |AsRoot(t)| == |t|
  {
    if t != [] {
      AsRootFixed(t[1..]);
      var r := AsRoot(t);
      assert r[1..] == AsRoot(t[1..]);
      assert t == [t[0]] + t[1..] && r == [r[0]] + r[1..];
      if RootOwned(t) {
        assert RootOwned(t[1..]);
      }
      if r == t {
        assert r[0] == t[0];
        forall i | 0 <= i < |t|
          ensures t[i].extra.Extra? ==> t[i].extra.uid == 0 && t[i].extra.gid == 0
        {
          if i > 0 {
            assert t[1..][i - 1] == t[i];
          }
        }
      }
    }
  }

  /** A source copy always passes the manifest comparison that closes _copy_tree; any other copy
      passes it, and is exact, precisely for trees that root owns. */
  lemma CopyIsFaithful(kind: Kind, t: Tree)
    requires Fits(kind, t)
    ensures TreeManifest(kind, Copied(kind, t)) == TreeManifest(kind, t) <==> kind == SourceKind || RootOwned(t)
    ensures kind != SourceKind && RootOwned(t) ==> Copied(kind, t) == t
  {
    NormalizedKeepsSource(t);
    AsRootFixed(t);
  }

  /** An interrupted removal leaves only entries that were there. */
  lemma {:induction false} SurvivingIsRemnant(t: Tree, survivors: set<string>)
    ensures Remnant(Surviving(t, survivors), t)
  {
    if t != [] {
      SurvivingIsRemnant(t[1..], survivors);
    }
  }
}
