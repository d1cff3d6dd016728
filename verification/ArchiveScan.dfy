/** _scan_external_boot_archive: the members of a combined kernel bundle, and the module manifest
    the validator makes of them. */
module ArchiveScan {
  import opened Wrappers
  import opened Limits
  import opened ModuleTree
  import opened Order
  import opened TreeWalk

  const BOOT: Path := ["boot", "vmlinuz"]

  datatype TarBody = TarDir | TarFile(mode: Mode, content: string) | TarLink(target: string) | TarOther

  /** A tar member; its name is given by the parts between slashes. */
  datatype Member = Member(name: Path, body: TarBody)

  datatype Failure =
    | TooManyMembers | BadPath | Duplicate | TooManyBytes | BadBoot | BadModulePath | BadModule
    | NoBoot | NotOneRelease | BadTopology | ReleaseMismatch

  function Size(b: TarBody): nat {
    if b.TarFile? then |b.content| else 0
  }

  predicate PlainParts(path: Path) {
    path != [] && forall c | c in path :: c != "" && c != "." && c != ".." && '\\' !in c
  }

  /** _canonical_tar_path */
  function CanonicalPath(text: TextTest, m: Member): Option<Path> {
    var last := |m.name| - 1;
    var path := if m.body.TarDir? && last > 0 && m.name[last] == "" then m.name[..last] else m.name;
    if PlainParts(path) && text(Join(path)) then Some(path) else None
  }

  /** A member of a module tree: its release and its path below it. */
  datatype Place = Ancestor | Module(release: string, relative: Path)

  /** _module_member_path */
  function ModulePlace(path: Path, b: TarBody): Option<Place> {
    if path == ["lib"] || path == ["lib", "modules"] then if b.TarDir? then Some(Ancestor) else None
    else if |path| < 3 || path[..2] != ["lib", "modules"] || (|path| == 3 && !b.TarDir?) then None
    else Some(Module(path[2], path[3..]))
  }

  /** _module_manifest_entry */
  function ModuleEntry(text: TextTest, relative: Path, b: TarBody): Result<Option<Entry>, Failure>
    requires relative != []
  {
    match b
    case TarDir => Ok(Some(Entry(Join(relative), Dir(MODE_DIR), NoExtra)))
    case TarFile(mode, content) => Ok(Some(Entry(Join(relative), File(NormalMode(mode), content), NoExtra)))
    case TarLink(target) =>
      if !text(target) then Err(BadModule)
      else if BackReference(relative, target) then Ok(None)
      else if Absolute(target) || Resolve(relative[..|relative| - 1], Split(target)).None? then Err(BadModule)
      else Ok(Some(Entry(Join(relative), Symlink(target), NoExtra)))
    case TarOther => Err(BadModule)
  }

  /** _validate_module_topology: a listed ancestor of a listed path is a directory. */
  predicate Topology(directories: map<Path, bool>) {
    forall p | p in directories :: forall end | 1 <= end < |p| :: p[..end] in directories ==> directories[p[..end]]
  }

  datatype Summary = Summary(
    members: nat, archiveBytes: nat, bootBytes: nat, moduleBytes: nat, release: string, entries: seq<Entry>)

  /** What the scan has gathered. */
  datatype State = State(
    names: set<Path>, archiveBytes: nat, boot: Option<string>, bootBytes: nat, moduleBytes: nat,
    releases: set<string>, directories: map<Path, bool>, entries: seq<Entry>)

  /** The loop body for one member. */
  function ScanMember(text: TextTest, inspect: TarBody -> Option<string>, s: State, m: Member): Result<State, Failure> {
    var canonical := CanonicalPath(text, m);
    if canonical.None? then Err(BadPath)
    else if canonical.value in s.names then Err(Duplicate)
    else
      var path := canonical.value;
      var s := s.(names := s.names + {path}, archiveBytes := s.archiveBytes + Size(m.body));
      if s.archiveBytes > ARCHIVE_MAX_BYTES then Err(TooManyBytes)
      else if path == BOOT then
        if !m.body.TarFile? || s.boot.Some? || Size(m.body) > MEMBER_MAX_BYTES || inspect(m.body).None? then Err(BadBoot)
        else Ok(s.(boot := inspect(m.body), bootBytes := Size(m.body)))
      else
        var place := ModulePlace(path, m.body);
        if place.None? then Err(BadModulePath)
        else if place.value.Ancestor? then Ok(s)
        else
          var s := s.(releases := s.releases + {place.value.release});
          if place.value.relative == [] then Ok(s)
          else
            var entry :- ModuleEntry(text, place.value.relative, m.body);
            var s := s.(moduleBytes := s.moduleBytes + Size(m.body));
            if entry.None? then Ok(s)
            else Ok(s.(entries := s.entries + [entry.value], directories := s.directories[place.value.relative := m.body.TarDir?]))
  }

  const EMPTY: State := State({}, 0, None, 0, 0, {}, map[], [])

  /** The scan of a whole archive, member by member. */
  function Scan(text: TextTest, inspect: TarBody -> Option<string>, members: seq<Member>): Result<State, Failure> {
    if members == [] then Ok(EMPTY)
    else
      var before :- Scan(text, inspect, members[..|members| - 1]);
      ScanMember(text, inspect, before, members[|members| - 1])
  }

  /** Names come split at their slashes. */
  predicate SplitNames(members: seq<Member>) {
    forall m | m in members :: forall c | c in m.name :: '/' !in c
  }

  /** The member at k stands at this canonical path. */
  predicate At(text: TextTest, members: seq<Member>, k: nat, path: Path) {
    k < |members| && CanonicalPath(text, members[k]) == Some(path)
  }

  /** Where a member stands in the module tree of its release. */
  function PlaceOf(text: TextTest, m: Member): Option<Place> {
    var path := CanonicalPath(text, m);
    if path.None? || path.value == BOOT then None else ModulePlace(path.value, m.body)
  }

  /** A member below a release directory is of a kind and with a target a manifest can list. */
  predicate Listable(text: TextTest, m: Member) {
    var place := PlaceOf(text, m);
    place.Some? && place.value.Module? && place.value.relative != [] ==>
      ModuleEntry(text, place.value.relative, m.body).Ok?
  }

  function Total(members: seq<Member>): nat {
    if members == [] then 0
    else Total(members[..|members| - 1]) + Size(members[|members| - 1].body)
  }

  /** Every byte of a regular member is a byte of the kernel or of a module file. */
  lemma {:induction false} BytesConserved(text: TextTest, inspect: TarBody -> Option<string>, members: seq<Member>)
    requires Scan(text, inspect, members).Ok?
    ensures var s := Scan(text, inspect, members).value;
            && s.archiveBytes == Total(members) == s.bootBytes + s.moduleBytes <= ARCHIVE_MAX_BYTES
            && (s.boot.None? ==> s.bootBytes == 0)
  {
    hide CanonicalPath, ModuleEntry;
    if members != [] {
      BytesConserved(text, inspect, members[..|members| - 1]);
    }
  }

  /** Every member has a canonical path, and no two have the same. */
  lemma {:induction false} PathsDiffer(text: TextTest, inspect: TarBody -> Option<string>, members: seq<Member>)
    requires Scan(text, inspect, members).Ok?
    ensures var s := Scan(text, inspect, members).value;
            && (forall k | 0 <= k < |members| ::
                  CanonicalPath(text, members[k]).Some? && CanonicalPath(text, members[k]).value in s.names)
            && (forall i, j | 0 <= i < j < |members| :: CanonicalPath(text, members[i]) != CanonicalPath(text, members[j]))
  {
    hide CanonicalPath;
    if members != [] {
      var last := |members| - 1;
      PathsDiffer(text, inspect, members[..last]);
      var before, after := Scan(text, inspect, members[..last]).value, Scan(text, inspect, members).value;
      assert after.names == before.names + {CanonicalPath(text, members[last]).value};
      forall k | 0 <= k < last
        ensures CanonicalPath(text, members[k]).Some? && CanonicalPath(text, members[k]).value in before.names
      {
        assert members[..last][k] == members[k];
      }
      forall i, j | 0 <= i < j < |members| ensures CanonicalPath(text, members[i]) != CanonicalPath(text, members[j]) {
        if j < last {
          assert members[..last][i] == members[i] && members[..last][j] == members[j];
        }
      }
    }
  }

  /** The kernel on record is a regular member at boot/vmlinuz, which is there exactly when a
      kernel is on record; everything else belongs to a module tree whose release is on record. */
  lemma {:induction false} MembersPlaced(
    text: TextTest, inspect: TarBody -> Option<string>, members: seq<Member>, k: nat)
    requires Scan(text, inspect, members).Ok? && k < |members|
    ensures var s, m := Scan(text, inspect, members).value, members[k];
            if CanonicalPath(text, m) == Some(BOOT) then
              m.body.TarFile? && inspect(m.body) == s.boot && s.boot.Some? && Size(m.body) == s.bootBytes <= MEMBER_MAX_BYTES
            else
              && PlaceOf(text, m).Some?
              && (PlaceOf(text, m).value.Module? ==> PlaceOf(text, m).value.release in s.releases)
              && Listable(text, m)
  {
    hide CanonicalPath, ModulePlace, ModuleEntry;
    var last := |members| - 1;
    if k < last {
      MembersPlaced(text, inspect, members[..last], k);
    }
  }

  lemma {:induction false} BootFound(text: TextTest, inspect: TarBody -> Option<string>, members: seq<Member>)
    returns (k: nat)
    requires Scan(text, inspect, members).Ok? && Scan(text, inspect, members).value.boot.Some?
    ensures At(text, members, k, BOOT)
  {
    hide CanonicalPath, ModulePlace, ModuleEntry;
    var last := |members| - 1;
    if Scan(text, inspect, members[..last]).value.boot.Some? {
      k := BootFound(text, inspect, members[..last]);
    } else {
      k := last;
    }
  }

  /** A member below a release directory contributes this. */
  ghost predicate Contributes(text: TextTest, m: Member, e: Entry) {
    var place := PlaceOf(text, m);
    && place.Some? && place.value.Module? && place.value.relative != []
    && ModuleEntry(text, place.value.relative, m.body) == Ok(Some(e))
  }

  lemma MemberContributes(text: TextTest, inspect: TarBody -> Option<string>, s: State, m: Member, e: Entry)
    requires ScanMember(text, inspect, s, m).Ok?
    ensures e in ScanMember(text, inspect, s, m).value.entries <==> e in s.entries || Contributes(text, m, e)
  {
    hide CanonicalPath, ModulePlace, ModuleEntry;
  }

  /** The entries are those of the members, no more and no less. */
  lemma {:induction false} EntriesContributed(
    text: TextTest, inspect: TarBody -> Option<string>, members: seq<Member>, e: Entry)
    requires Scan(text, inspect, members).Ok?
    ensures e in Scan(text, inspect, members).value.entries <==> exists m | m in members :: Contributes(text, m, e)
  {
    hide ScanMember, Contributes;
    if members != [] {
      var last := |members| - 1;
      EntriesContributed(text, inspect, members[..last], e);
      MemberContributes(text, inspect, Scan(text, inspect, members[..last]).value, members[last], e);
      assert members == members[..last] + [members[last]];
      assert forall m :: m in members <==> m in members[..last] || m == members[last];
    }
  }

  /** Below one release no two entries have the same path. */
  lemma {:induction false} EntriesDiffer(
    text: TextTest, inspect: TarBody -> Option<string>, members: seq<Member>, release: string)
    requires Scan(text, inspect, members).Ok? && SplitNames(members)
    requires Scan(text, inspect, members).value.releases <= {release}
    ensures Distinct(Scan(text, inspect, members).value.entries, EntryKey)
  {
    if members != [] {
      var last := |members| - 1;
      var before, after := Scan(text, inspect, members[..last]).value, Scan(text, inspect, members).value;
      ScanGrows(text, inspect, before, members[last]);
      assert forall m | m in members[..last] :: m in members;
      EntriesDiffer(text, inspect, members[..last], release);
      if |after.entries| > |before.entries| {
        var e := after.entries[|before.entries|];
        forall d | d in before.entries ensures EntryKey(d) != EntryKey(e) {
          NewEntry(text, inspect, members, release, d, e);
        }
      }
    }
  }

  lemma ScanGrows(text: TextTest, inspect: TarBody -> Option<string>, s: State, m: Member)
    requires ScanMember(text, inspect, s, m).Ok?
    ensures var t := ScanMember(text, inspect, s, m).value;
            && s.releases <= t.releases
            && (t.entries == s.entries || (|t.entries| == |s.entries| + 1 && t.entries[..|s.entries|] == s.entries
                                           && Contributes(text, m, t.entries[|s.entries|])))
  {
    hide CanonicalPath, ModulePlace, ModuleEntry;
  }

  lemma NewEntry(text: TextTest, inspect: TarBody -> Option<string>, members: seq<Member>, release: string, d: Entry, e: Entry)
    requires Scan(text, inspect, members).Ok? && SplitNames(members) && members != []
    requires Scan(text, inspect, members).value.releases <= {release}
    requires Scan(text, inspect, members[..|members| - 1]).Ok?
    requires d in Scan(text, inspect, members[..|members| - 1]).value.entries
    requires Contributes(text, members[|members| - 1], e)
    ensures EntryKey(d) != EntryKey(e)
  {
    hide Scan, CanonicalPath, ModuleEntry, Join;
    var last := |members| - 1;
    EntriesContributed(text, inspect, members[..last], d);
    var m :| m in members[..last] && Contributes(text, m, d);
    var k :| 0 <= k < last && members[k] == m;
    PathsDiffer(text, inspect, members);
    MembersPlaced(text, inspect, members, k);
    MembersPlaced(text, inspect, members, last);
    ContributedPath(text, m, d);
    ContributedPath(text, members[last], e);
    if EntryKey(d) == EntryKey(e) {
      CodesInjective(d.path, e.path);
      JoinInjective(PlaceOf(text, m).value.relative, PlaceOf(text, members[last]).value.relative);
    }
  }

  /** The full path of a contributing member, its release and its entry. */
  lemma ContributedPath(text: TextTest, m: Member, e: Entry)
    requires Contributes(text, m, e) && forall c | c in m.name :: '/' !in c
    ensures var place := PlaceOf(text, m).value;
            && e.path == Join(place.relative) && Slashless(place.relative)
            && CanonicalPath(text, m) == Some(["lib", "modules", place.release] + place.relative)
  {
    hide CanonicalPath, ModuleEntry, Join;
    var path := CanonicalPath(text, m).value;
    CanonicalParts(text, m);
    EntryAt(text, path[3..], m.body, e);
    assert path == path[..2] + [path[2]] + path[3..] && path[..2] == ["lib", "modules"];
    assert path[..2] + [path[2]] == ["lib", "modules", path[2]];
    forall c | c in path[3..] ensures c != "" && '/' !in c {
      assert c in path;
    }
  }

  lemma CanonicalParts(text: TextTest, m: Member)
    requires CanonicalPath(text, m).Some? && forall c | c in m.name :: '/' !in c
    ensures Slashless(CanonicalPath(text, m).value)
  {
    hide Join;
    var path := CanonicalPath(text, m).value;
    forall c | c in path ensures c != "" && '/' !in c {
      assert c in m.name;
    }
  }

  lemma EntryAt(text: TextTest, relative: Path, b: TarBody, e: Entry)
    requires relative != [] && ModuleEntry(text, relative, b) == Ok(Some(e))
    ensures e.path == Join(relative)
  {
  }

  /** The member stands below a release directory at this relative path. */
  predicate ModuleAt(text: TextTest, m: Member, relative: Path) {
    var place := PlaceOf(text, m);
    relative != [] && place.Some? && place.value.Module? && place.value.relative == relative
  }

  /** What the scan listed for the topology check, below one release. */
  lemma {:induction false} DirectoriesListed(
    text: TextTest, inspect: TarBody -> Option<string>, members: seq<Member>, release: string, k: nat, e: Entry)
    requires Scan(text, inspect, members).Ok? && SplitNames(members) && k < |members|
    requires Scan(text, inspect, members).value.releases <= {release}
    requires Contributes(text, members[k], e)
    ensures var relative, listed := PlaceOf(text, members[k]).value.relative, Scan(text, inspect, members).value.directories;
            relative in listed && listed[relative] == members[k].body.TarDir?
  {
    hide CanonicalPath, ModuleEntry, ModulePlace;
    var last := |members| - 1;
    var before := Scan(text, inspect, members[..last]).value;
    ScanGrows(text, inspect, before, members[last]);
    if k < last {
      assert forall m | m in members[..last] :: m in members;
      DirectoriesListed(text, inspect, members[..last], release, k, e);
      PathsDiffer(text, inspect, members);
      MembersPlaced(text, inspect, members, k);
      MembersPlaced(text, inspect, members, last);
      ContributedPath(text, members[k], e);
      ListedOnce(text, inspect, before, members[last], members[k], e);
    }
  }

  lemma ListedOnce(text: TextTest, inspect: TarBody -> Option<string>, s: State, m: Member, other: Member, e: Entry)
    requires ScanMember(text, inspect, s, m).Ok? && Contributes(text, other, e)
    requires (forall c | c in m.name :: '/' !in c) && (forall c | c in other.name :: '/' !in c)
    requires CanonicalPath(text, m) != CanonicalPath(text, other)
    requires PlaceOf(text, m).Some? && PlaceOf(text, m).value.Module? ==> PlaceOf(text, m).value.release == PlaceOf(text, other).value.release
    requires PlaceOf(text, other).value.relative in s.directories
    ensures var relative, next := PlaceOf(text, other).value.relative, ScanMember(text, inspect, s, m).value.directories;
            relative in next && next[relative] == s.directories[relative]
  {
    hide CanonicalPath, ModuleEntry, ModulePlace, Join;
    ContributedPath(text, other, e);
    var place := PlaceOf(text, m);
    if place.Some? && place.value.Module? && place.value.relative != [] {
      var entry := ModuleEntry(text, place.value.relative, m.body);
      if entry.Ok? && entry.value.Some? {
        ContributedPath(text, m, entry.value.value);
      }
    }
  }

  /** The manifest of the module members: their entries, strictly in path order. */
  ghost predicate IsModuleManifest(text: TextTest, members: seq<Member>, entries: seq<Entry>) {
    && Ascending(entries, EntryKey)
    && (forall e :: e in entries <==> exists m | m in members :: Contributes(text, m, e))
  }

  ghost predicate PathsAllDiffer(text: TextTest, members: seq<Member>) {
    forall i, j | 0 <= i < j < |members| :: CanonicalPath(text, members[i]) != CanonicalPath(text, members[j])
  }

  /** A member a bundle of this release may hold: its kernel, or part of its module tree. */
  ghost predicate Belongs(text: TextTest, inspect: TarBody -> Option<string>, m: Member, release: string) {
    if CanonicalPath(text, m) == Some(BOOT) then
      m.body.TarFile? && Size(m.body) <= MEMBER_MAX_BYTES && inspect(m.body) == Some(release)
    else
      && PlaceOf(text, m).Some? && (PlaceOf(text, m).value.Module? ==> PlaceOf(text, m).value.release == release)
      && Listable(text, m)
  }

  ghost predicate AllBelong(text: TextTest, inspect: TarBody -> Option<string>, members: seq<Member>, release: string) {
    forall m | m in members :: Belongs(text, inspect, m, release)
  }

  /** Every listed ancestor of a listed module path is a directory. */
  ghost predicate Rooted(text: TextTest, members: seq<Member>) {
    forall m, n, e, f | m in members && n in members && Contributes(text, m, e) && Contributes(text, n, f)
      && PlaceOf(text, n).value.relative < PlaceOf(text, m).value.relative :: n.body.TarDir?
  }

  /** A bundle of one kernel and the modules of its release, in whatever order its members come. */
  ghost predicate Admissible(text: TextTest, inspect: TarBody -> Option<string>, members: seq<Member>, release: string) {
    && |members| <= ARCHIVE_MAX_MEMBERS && Total(members) <= ARCHIVE_MAX_BYTES
    && PathsAllDiffer(text, members) && AllBelong(text, inspect, members, release)
    && (exists k :: At(text, members, k, BOOT))
    && (exists m, e :: m in members && Contributes(text, m, e))
    && Rooted(text, members)
  }

  /** What the summary of a bundle says of it. */
  ghost predicate Summarizes(text: TextTest, members: seq<Member>, s: Summary) {
    && s.members == |members|
    && s.archiveBytes == Total(members) == s.bootBytes + s.moduleBytes
    && (forall m | m in members && CanonicalPath(text, m) == Some(BOOT) :: Size(m.body) == s.bootBytes)
    && IsModuleManifest(text, members, s.entries)
  }

  /** It accepts exactly the admissible bundles. */
  method ScanArchive(text: TextTest, inspect: TarBody -> Option<string>, members: seq<Member>)
    returns (r: Result<Summary, Failure>)
    requires SplitNames(members)
    ensures r.Ok? <==> exists release :: Admissible(text, inspect, members, release)
    ensures r.Ok? ==> Admissible(text, inspect, members, r.value.release) && Summarizes(text, members, r.value)
  {
    hide ScanMember, Summarizes, Admissible, Topology;
    AdmissibleIsScanned(text, inspect, members);
    var s := EMPTY;
    for i := 0 to |members|
      invariant Scan(text, inspect, members[..i]) == Ok(s) && i <= ARCHIVE_MAX_MEMBERS
    {
      if i + 1 > ARCHIVE_MAX_MEMBERS {
        return Err(TooManyMembers);
      }
      assert members[..i + 1][..i] == members[..i];
      ScanPrefix(text, inspect, members, i + 1);
      s :- ScanMember(text, inspect, s, members[i]);
    }
    assert members[..|members|] == members;
    AdmissibleConcludes(text, inspect, members, s);
    r := Conclude(text, inspect, members, s);
  }

  lemma {:induction false} ScanPrefix(text: TextTest, inspect: TarBody -> Option<string>, members: seq<Member>, n: nat)
    requires n <= |members|
    ensures Scan(text, inspect, members).Ok? ==> Scan(text, inspect, members[..n]).Ok?
  {
    hide ScanMember;
    var last := |members| - 1;
    if n <= last {
      ScanPrefix(text, inspect, members[..last], n);
      assert members[..last][..n] == members[..n];
    } else {
      assert members[..n] == members;
    }
  }

  /** Every name on record is that of a member, a kernel on record has the release, and so have the
      modules. */
  ghost predicate Recorded(text: TextTest, members: seq<Member>, release: string, s: State) {
    && (forall p | p in s.names :: exists k :: At(text, members, k, p))
    && (s.boot.Some? ==> BOOT in s.names && s.boot == Some(release))
    && s.archiveBytes == Total(members) && s.releases <= {release}
  }

  /** No member that belongs stops the scan. */
  lemma {:induction false} BelongingIsScanned(
    text: TextTest, inspect: TarBody -> Option<string>, members: seq<Member>, release: string)
    requires AllBelong(text, inspect, members, release) && PathsAllDiffer(text, members) && Total(members) <= ARCHIVE_MAX_BYTES
    ensures Scan(text, inspect, members).Ok?
    ensures Recorded(text, members, release, Scan(text, inspect, members).value)
  {
    hide CanonicalPath, ModulePlace, ModuleEntry, ScanMember;
    if members != [] {
      var last := |members| - 1;
      var before := members[..last];
      assert forall m | m in before :: m in members;
      BelongingIsScanned(text, inspect, before, release);
      var s := Scan(text, inspect, before).value;
      forall k: nat, p | At(text, before, k, p) ensures At(text, members, k, p) && CanonicalPath(text, members[last]) != Some(p) {
        assert before[k] == members[k];
      }
      assert Belongs(text, inspect, members[last], release);
      NextIsScanned(text, inspect, s, members[last], release);
      assert At(text, members, last, CanonicalPath(text, members[last]).value);
    }
  }

  lemma NextIsScanned(text: TextTest, inspect: TarBody -> Option<string>, s: State, m: Member, release: string)
    requires Belongs(text, inspect, m, release)
    requires forall p | p in s.names :: CanonicalPath(text, m) != Some(p)
    requires s.boot.Some? ==> BOOT in s.names && s.boot == Some(release)
    requires s.archiveBytes + Size(m.body) <= ARCHIVE_MAX_BYTES && s.releases <= {release}
    ensures CanonicalPath(text, m).Some? && ScanMember(text, inspect, s, m).Ok?
    ensures var t := ScanMember(text, inspect, s, m).value;
            && t.names == s.names + {CanonicalPath(text, m).value} && t.archiveBytes == s.archiveBytes + Size(m.body)
            && (t.boot.Some? ==> BOOT in t.names && t.boot == Some(release)) && t.releases <= {release}
  {
    hide CanonicalPath, ModulePlace, ModuleEntry;
  }

  lemma AdmissibleIsScanned(text: TextTest, inspect: TarBody -> Option<string>, members: seq<Member>)
    ensures (exists release :: Admissible(text, inspect, members, release)) ==>
              |members| <= ARCHIVE_MAX_MEMBERS && Scan(text, inspect, members).Ok?
  {
    hide Scan, AllBelong, PathsAllDiffer, Rooted;
    if release :| Admissible(text, inspect, members, release) {
      BelongingIsScanned(text, inspect, members, release);
    }
  }

  /** The state of a finished scan passes the closing checks. */
  predicate Closes(s: State) {
    s.boot.Some? && |s.releases| == 1 && s.entries != [] && Topology(s.directories) && s.boot.value in s.releases
  }

  lemma AdmissibleConcludes(text: TextTest, inspect: TarBody -> Option<string>, members: seq<Member>, s: State)
    requires Scan(text, inspect, members) == Ok(s)
    ensures (exists release :: Admissible(text, inspect, members, release)) ==> Closes(s)
  {
    hide Scan, AllBelong, PathsAllDiffer, Rooted, CanonicalPath, Contributes, PlaceOf, Topology;
    if release :| Admissible(text, inspect, members, release) {
      BelongingIsScanned(text, inspect, members, release);
      var k :| At(text, members, k, BOOT);
      MembersPlaced(text, inspect, members, k);
      var m, e :| m in members && Contributes(text, m, e);
      EntriesContributed(text, inspect, members, e);
      var j :| 0 <= j < |members| && members[j] == m;
      ContributorPlaced(text, inspect, members, j, e);
      assert s.releases == {release};
      RootedIsTopology(text, inspect, members, s);
    }
  }

  lemma ContributorPlaced(text: TextTest, inspect: TarBody -> Option<string>, members: seq<Member>, k: nat, e: Entry)
    requires Scan(text, inspect, members).Ok? && k < |members| && Contributes(text, members[k], e)
    ensures Scan(text, inspect, members).value.releases != {}
  {
    hide Scan, CanonicalPath, ModulePlace, ModuleEntry;
    MembersPlaced(text, inspect, members, k);
  }

  /** Whatever the scan listed for the topology check comes from a contributing member. */
  lemma {:induction false} ListedFrom(text: TextTest, inspect: TarBody -> Option<string>, members: seq<Member>, p: Path)
    returns (m: Member, e: Entry)
    requires Scan(text, inspect, members).Ok? && p in Scan(text, inspect, members).value.directories
    ensures m in members && Contributes(text, m, e) && PlaceOf(text, m).value.relative == p
    ensures Scan(text, inspect, members).value.directories[p] == m.body.TarDir?
  {
    hide CanonicalPath, ModulePlace, ModuleEntry;
    var last := |members| - 1;
    m := members[last];
    var before := Scan(text, inspect, members[..last]).value;
    var place := PlaceOf(text, m);
    if place.Some? && place.value.Module? && place.value.relative == p && p != [] && ModuleEntry(text, p, m.body).value.Some? {
      e := ModuleEntry(text, p, m.body).value.value;
    } else {
      m, e := ListedFrom(text, inspect, members[..last], p);
    }
  }

  lemma RootedIsTopology(text: TextTest, inspect: TarBody -> Option<string>, members: seq<Member>, s: State)
    requires Scan(text, inspect, members) == Ok(s) && Rooted(text, members)
    ensures Topology(s.directories)
  {
    hide Scan, ModuleEntry, PlaceOf;
    forall p, end | p in s.directories && 1 <= end < |p| && p[..end] in s.directories ensures s.directories[p[..end]] {
      var m, e := ListedFrom(text, inspect, members, p);
      var n, f := ListedFrom(text, inspect, members, p[..end]);
      assert PlaceOf(text, n).value.relative < PlaceOf(text, m).value.relative;
    }
  }

  lemma OneRelease(releases: set<string>, release: string)
    requires |releases| == 1 && release in releases
    ensures releases == {release}
  {
    assert |releases - {release}| == 0;
  }

  lemma ConcludedIsAdmissible(text: TextTest, inspect: TarBody -> Option<string>, members: seq<Member>, s: State, release: string)
    requires SplitNames(members) && Scan(text, inspect, members) == Ok(s) && |members| <= ARCHIVE_MAX_MEMBERS
    requires s.boot == Some(release) && s.releases == {release} && s.entries != [] && Topology(s.directories)
    ensures Admissible(text, inspect, members, release)
  {
    hide Scan, SplitNames, AllBelong, Rooted, CanonicalPath, Contributes, At, Topology, Total;
    BytesConserved(text, inspect, members);
    PathsDiffer(text, inspect, members);
    KernelAndRelease(text, inspect, members, s, release);
    AllRooted(text, inspect, members, s, release);
    EntriesContributed(text, inspect, members, s.entries[0]);
  }

  lemma ConcludedIsSummarized(text: TextTest, inspect: TarBody -> Option<string>, members: seq<Member>, s: State, release: string)
    requires SplitNames(members) && Scan(text, inspect, members) == Ok(s)
    requires s.boot == Some(release) && s.releases == {release}
    ensures Summarizes(text, members,
                       Summary(|members|, s.archiveBytes, s.bootBytes, s.moduleBytes, release, Sort(s.entries, EntryKey)))
  {
    hide Scan, SplitNames, AllBelong, IsModuleManifest, CanonicalPath, At, Total, Size, Sort, EntryKey;
    BytesConserved(text, inspect, members);
    KernelAndRelease(text, inspect, members, s, release);
    SortedManifest(text, inspect, members, s, release);
  }

  lemma KernelAndRelease(text: TextTest, inspect: TarBody -> Option<string>, members: seq<Member>, s: State, release: string)
    requires Scan(text, inspect, members) == Ok(s) && s.boot == Some(release) && s.releases == {release}
    ensures AllBelong(text, inspect, members, release) && exists k :: At(text, members, k, BOOT)
    ensures forall m | m in members && CanonicalPath(text, m) == Some(BOOT) :: Size(m.body) == s.bootBytes
  {
    hide Scan, CanonicalPath, PlaceOf, Listable;
    var boot := BootFound(text, inspect, members);
    forall m | m in members
      ensures Belongs(text, inspect, m, release) && (CanonicalPath(text, m) == Some(BOOT) ==> Size(m.body) == s.bootBytes)
    {
      var k :| 0 <= k < |members| && members[k] == m;
      MembersPlaced(text, inspect, members, k);
    }
  }

  lemma SortedManifest(text: TextTest, inspect: TarBody -> Option<string>, members: seq<Member>, s: State, release: string)
    requires SplitNames(members) && Scan(text, inspect, members) == Ok(s) && s.releases == {release}
    ensures IsModuleManifest(text, members, Sort(s.entries, EntryKey))
  {
    hide Scan, Contributes;
    EntriesDiffer(text, inspect, members, release);
    SortAscends(s.entries, EntryKey);
    forall e ensures e in Sort(s.entries, EntryKey) <==> exists m | m in members :: Contributes(text, m, e) {
      EntriesContributed(text, inspect, members, e);
    }
  }

  lemma AllRooted(text: TextTest, inspect: TarBody -> Option<string>, members: seq<Member>, s: State, release: string)
    requires SplitNames(members) && Scan(text, inspect, members) == Ok(s)
    requires s.releases == {release} && Topology(s.directories)
    ensures Rooted(text, members)
  {
    hide Scan, CanonicalPath, ModulePlace, ModuleEntry, Topology;
    forall m, n, e, f | m in members && n in members && Contributes(text, m, e) && Contributes(text, n, f)
      && PlaceOf(text, n).value.relative < PlaceOf(text, m).value.relative ensures n.body.TarDir?
    {
      AncestorIsDir(text, inspect, members, s, release, m, n, e, f);
    }
  }

  lemma AncestorIsDir(text: TextTest, inspect: TarBody -> Option<string>, members: seq<Member>, s: State, release: string,
                      m: Member, n: Member, e: Entry, f: Entry)
    requires SplitNames(members) && Scan(text, inspect, members) == Ok(s)
    requires s.releases == {release} && Topology(s.directories)
    requires m in members && n in members && Contributes(text, m, e) && Contributes(text, n, f)
    requires PlaceOf(text, n).value.relative < PlaceOf(text, m).value.relative
    ensures n.body.TarDir?
  {
    hide Scan, CanonicalPath, ModulePlace, ModuleEntry;
    var i :| 0 <= i < |members| && members[i] == m;
    var j :| 0 <= j < |members| && members[j] == n;
    DirectoriesListed(text, inspect, members, release, i, e);
    DirectoriesListed(text, inspect, members, release, j, f);
    var p, q := PlaceOf(text, m).value.relative, PlaceOf(text, n).value.relative;
    assert p[..|q|] == q && q != [];
  }

  /** The checks after the last member. */
  method Conclude(text: TextTest, inspect: TarBody -> Option<string>, members: seq<Member>, s: State)
    returns (r: Result<Summary, Failure>)
    requires SplitNames(members) && Scan(text, inspect, members) == Ok(s) && |members| <= ARCHIVE_MAX_MEMBERS
    ensures r.Ok? <==> Closes(s)
    ensures r.Ok? ==> Admissible(text, inspect, members, r.value.release) && Summarizes(text, members, r.value)
  {
    hide Scan, Admissible, Summarizes, Topology;
    if s.boot.None? {
      return Err(NoBoot);
    }
    if |s.releases| != 1 || s.entries == [] {
      return Err(NotOneRelease);
    }
    if !Topology(s.directories) {
      return Err(BadTopology);
    }
    var release :| release in s.releases;
    OneRelease(s.releases, release);
    if s.boot.value != release {
      return Err(ReleaseMismatch);
    }
    ConcludedIsAdmissible(text, inspect, members, s, release);
    ConcludedIsSummarized(text, inspect, members, s, release);
    r := Ok(Summary(|members|, s.archiveBytes, s.bootBytes, s.moduleBytes, release, Sort(s.entries, EntryKey)));
  }

  // ---- The validator and the appliance see the same manifest ----

  function TarOf(m: Meta): TarBody {
    match m
    case DirMeta(_, _) => TarDir
    case FileMeta(mode, _, _, content) => TarFile(mode, content)
    case LinkMeta(_, target) => TarLink(target)
    case SpecialMeta => TarOther
  }

  /** Every item of the tree has its own member, in any order. */
  ghost predicate AllPacked(text: TextTest, members: seq<Member>, items: multiset<Item>) {
    forall i | i in items :: exists m | m in members :: ModuleAt(text, m, i.path) && m.body == TarOf(i.meta)
  }

  /** No other member stands below the release directory. */
  ghost predicate NothingElse(text: TextTest, members: seq<Member>, items: multiset<Item>) {
    forall m, p | m in members && ModuleAt(text, m, p) :: exists i | i in items :: i.path == p && TarOf(i.meta) == m.body
  }

  lemma EntriesAgree(tarText: TextTest, text: TextTest, i: Item)
    requires i.path != []
    requires EntryOf(SourceKind, text, i).Ok? && ModuleEntry(tarText, i.path, TarOf(i.meta)).Ok?
    ensures EntryOf(SourceKind, text, i).value == ModuleEntry(tarText, i.path, TarOf(i.meta)).value
  {
  }

  /** For a source tree and a bundle that packs it, whenever both sides accept, the manifest the
      validator records is the one the appliance computes. */
  lemma ManifestsAgree(tarText: TextTest, text: TextTest, members: seq<Member>, items: multiset<Item>, a: seq<Entry>, b: seq<Entry>)
    requires AllPacked(tarText, members, items) && NothingElse(tarText, members, items)
    requires IsModuleManifest(tarText, members, a)
    requires forall m | m in members :: Listable(tarText, m)
    requires IsManifest(SourceKind, text, items, b)
    requires forall i | i in items :: i.path != [] && EntryOf(SourceKind, text, i).Ok?
    ensures a == b
  {
    hide AllPacked, NothingElse, IsModuleManifest, IsManifest, Listable;
    forall e ensures e in a <==> e in b {
      if e in a {
        PackedIsWalked(tarText, text, members, items, a, b, e);
      }
      if e in b {
        WalkedIsPacked(tarText, text, members, items, a, b, e);
      }
    }
    ManifestsAscend(tarText, text, members, items, a, b);
    AscendingOnce(a, b, EntryKey);
  }

  lemma ManifestsAscend(tarText: TextTest, text: TextTest, members: seq<Member>, items: multiset<Item>, a: seq<Entry>, b: seq<Entry>)
    requires IsModuleManifest(tarText, members, a) && IsManifest(SourceKind, text, items, b)
    ensures Ascending(a, EntryKey) && Ascending(b, EntryKey)
  {
  }

  lemma PackedIsWalked(tarText: TextTest, text: TextTest, members: seq<Member>, items: multiset<Item>, a: seq<Entry>, b: seq<Entry>, e: Entry)
    requires NothingElse(tarText, members, items) && IsModuleManifest(tarText, members, a)
    requires IsManifest(SourceKind, text, items, b) && e in a
    requires forall i | i in items :: i.path != [] && EntryOf(SourceKind, text, i).Ok?
    ensures e in b
  {
    hide EntryOf, ModuleEntry, PlaceOf, Ascending;
    var m :| m in members && Contributes(tarText, m, e);
    var p := PlaceOf(tarText, m).value.relative;
    assert ModuleAt(tarText, m, p);
    var i :| i in items && i.path == p && TarOf(i.meta) == m.body;
    EntriesAgree(tarText, text, i);
  }

  lemma WalkedIsPacked(tarText: TextTest, text: TextTest, members: seq<Member>, items: multiset<Item>, a: seq<Entry>, b: seq<Entry>, e: Entry)
    requires AllPacked(tarText, members, items) && IsModuleManifest(tarText, members, a)
    requires forall m | m in members :: Listable(tarText, m)
    requires IsManifest(SourceKind, text, items, b) && e in b
    ensures e in a
  {
    hide EntryOf, ModuleEntry, PlaceOf, Ascending;
    var i :| i in items && i.path != [] && EntryOf(SourceKind, text, i) == Ok(Some(e));
    var m :| m in members && ModuleAt(tarText, m, i.path) && m.body == TarOf(i.meta);
    assert Listable(tarText, m);
    EntriesAgree(tarText, text, i);
    assert Contributes(tarText, m, e);
  }

  /** The bundle check and the appliance on the tree that bundle packs: when both accept, the source
      digest the validator records is the one the appliance compares with. */
  method BundleMatchesTree(tarText: TextTest, text: TextTest, inspect: TarBody -> Option<string>, members: seq<Member>,
                           root: seq<Child>)
    returns (bundle: Result<Summary, Failure>, tree: Result<Measured, ErrorCode>)
    requires SplitNames(members) && WellNamed(root)
    requires AllPacked(tarText, members, Below([], root)) && NothingElse(tarText, members, Below([], root))
    ensures bundle.Ok? && tree.Ok? ==> Sha256(SourceKind, bundle.value.entries) == tree.value.digest
  {
    hide AllPacked, NothingElse, IsManifest, IsModuleManifest, Below, Rooted, Contributes, At, PathsAllDiffer, Total, EntryOf, Listable;
    bundle := ScanArchive(tarText, inspect, members);
    tree := WalkTree(SourceKind, text, root);
    if bundle.Ok? && tree.Ok? {
      BelongingIsListable(tarText, inspect, members, bundle.value.release);
      ManifestsAgree(tarText, text, members, Below([], root), bundle.value.entries, tree.value.digest.entries);
    }
  }

  lemma BelongingIsListable(text: TextTest, inspect: TarBody -> Option<string>, members: seq<Member>, release: string)
    requires AllBelong(text, inspect, members, release)
    ensures forall m | m in members :: Listable(text, m)
  {
    forall m | m in members ensures Listable(text, m) {
      assert Belongs(text, inspect, m, release);
    }
  }
}
