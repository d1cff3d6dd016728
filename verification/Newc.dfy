/** The cpio "newc" archive of the appliance's initramfs, and a reader of that format. */
module Newc {
  import opened Wrappers
  import opened Bytes
  import opened Order

  type Name = seq<Byte>

  const SLASH: Byte := 47
  const MAGIC: seq<Byte> := [48, 55, 48, 55, 48, 49]  // "070701"
  const TRAILER: Name := [84, 82, 65, 73, 76, 69, 82, 33, 33, 33]  // "TRAILER!!!"
  const HEADER: nat := 110
  const S_IFDIR: nat := 0x4000
  const S_IFREG: nat := 0x8000
  const DIR_MODE: nat := 0x16D  // 0555
  const BLOCK: nat := 512
  const DOT: Name := [46]

  datatype Entry = Entry(inode: nat, mode: nat, links: nat, name: Name, data: seq<Byte>)

  // ---- Hexadecimal fields ----

  function DigitValue(b: Byte): Option<nat> {
    if 48 <= b <= 57 then Some(b - 48)
    else if 97 <= b <= 102 then Some(b - 87)
    else if 65 <= b <= 70 then Some(b - 55)
    else None
  }

  /** f"{n:0{width}x}" for a number that fits the width. */
  function Hex(n: nat, width: nat): (r: seq<Byte>)
    ensures |r| == width
  {
    if width == 0 then [] else Hex(n / 16, width - 1) + [HexDigit(n % 16)]
  }

  function ParseHex(s: seq<Byte>): Option<nat> {
    if s == [] then Some(0)
    else
      var last := |s| - 1;
      var high, low := ParseHex(s[..last]), DigitValue(s[last]);
      if high.Some? && low.Some? then Some(16 * high.value + low.value) else None
  }

  function Power16(width: nat): nat {
    if width == 0 then 1 else 16 * Power16(width - 1)
  }

  lemma {:induction false} HexRoundTrip(n: nat, width: nat)
    requires n < Power16(width)
    ensures ParseHex(Hex(n, width)) == Some(n)
  {
    if width > 0 {
      HexRoundTrip(n / 16, width - 1);
      assert Hex(n, width)[..width - 1] == Hex(n / 16, width - 1);
    }
  }

  function Field(n: nat): (r: seq<Byte>)
    ensures |r| == 8
  {
    Hex(n, 8)
  }

  lemma FieldRoundTrip(n: nat)
    requires n < WORD
    ensures ParseHex(Field(n)) == Some(n)
  {
    assert Power16(8) == WORD by {
      assert Power16(4) == 0x1_0000;
    }
    HexRoundTrip(n, 8);
  }

  function EncodeFields(fields: seq<nat>): (r: seq<Byte>)
    ensures |r| == 8 * |fields|
  {
    if fields == [] then [] else Field(fields[0]) + EncodeFields(fields[1..])
  }

  lemma {:induction false} FieldSlice(fields: seq<nat>, k: nat)
    requires k < |fields|
    ensures EncodeFields(fields)[8 * k..8 * k + 8] == Field(fields[k])
  {
    var rest := EncodeFields(fields[1..]);
    if k == 0 {
      assert (Field(fields[0]) + rest)[..8] == Field(fields[0]);
    } else {
      FieldSlice(fields[1..], k - 1);
      assert (Field(fields[0]) + rest)[8 * k..8 * k + 8] == rest[8 * (k - 1)..8 * (k - 1) + 8];
    }
  }

  // ---- Writing ----

  predicate Encodable(e: Entry) {
    e.inode < WORD && e.mode < WORD && e.links < WORD && |e.name| + 1 < WORD && |e.data| < WORD
  }

  function Fields(e: Entry): seq<nat> {
    [e.inode, e.mode, 0, 0, e.links, 0, |e.data|, 0, 0, 0, 0, |e.name| + 1, 0]
  }

  function NamePart(e: Entry): seq<Byte> {
    e.name + [0] + Zeros(Padding(HEADER + |e.name| + 1, 4))
  }

  /** _newc_entry */
  function EncodeEntry(e: Entry): seq<Byte> {
    MAGIC + EncodeFields(Fields(e)) + NamePart(e) + e.data + Zeros(Padding(|e.data|, 4))
  }

  function EncodeEntries(entries: seq<Entry>): seq<Byte> {
    if entries == [] then [] else EncodeEntries(entries[..|entries| - 1]) + EncodeEntry(entries[|entries| - 1])
  }

  // ---- Reading ----

  function Aligned(n: nat): nat {
    n + Padding(n, 4)
  }

  function FieldAt(data: seq<Byte>, at: nat, k: nat): Option<nat>
    requires k < 13 && at + HEADER <= |data|
  {
    ParseHex(data[at + 6 + 8 * k..at + 14 + 8 * k])
  }

  /** One entry of an archive at an aligned offset, and where the next one starts. */
  function ReadEntry(data: seq<Byte>, at: nat): Option<(Entry, nat)> {
    if at + HEADER > |data| || data[at..at + 6] != MAGIC then None
    else
      var inode, mode, links := FieldAt(data, at, 0), FieldAt(data, at, 1), FieldAt(data, at, 4);
      var size, nameSize := FieldAt(data, at, 6), FieldAt(data, at, 11);
      if inode.None? || mode.None? || links.None? || size.None? || nameSize.None? || nameSize.value == 0 then None
      else
        var start := Aligned(at + HEADER + nameSize.value);
        var next := Aligned(start + size.value);
        if next > |data| || data[at + HEADER + nameSize.value - 1] != 0 then None
        else
          var name := data[at + HEADER..at + HEADER + nameSize.value - 1];
          Some((Entry(inode.value, mode.value, links.value, name, data[start..start + size.value]), next))
  }

  /** The entries before the trailer. */
  function ReadArchive(data: seq<Byte>, at: nat): Option<seq<Entry>>
    decreases |data| - at
  {
    var read := ReadEntry(data, at);
    if read.None? || read.value.1 <= at || at > |data| then None
    else if read.value.0.name == TRAILER then Some([])
    else
      var rest := ReadArchive(data, read.value.1);
      if rest.None? then None else Some([read.value.0] + rest.value)
  }

  // ---- Round trip of one entry ----

  lemma EntryLength(e: Entry)
    ensures |EncodeEntry(e)| % 4 == 0 && |EncodeEntry(e)| >= HEADER
    ensures |EncodeEntry(e)| == Aligned(Aligned(HEADER + |e.name| + 1) + |e.data|)
  {
    hide EncodeFields, Padding;
    var named := Aligned(HEADER + |e.name| + 1);
    AlignedIsMultiple(HEADER + |e.name| + 1);
    AlignedIsMultiple(|e.data|);
    AlignedShift(named, |e.data|);
    assert |EncodeEntry(e)| == named + Aligned(|e.data|);
  }

  lemma AlignedIsMultiple(n: nat)
    ensures Aligned(n) % 4 == 0 && n <= Aligned(n)
  {
  }

  lemma AlignedShift(at: nat, n: nat)
    requires at % 4 == 0
    ensures Aligned(at + n) == at + Aligned(n)
  {
  }

  lemma FieldReadBack(before: seq<Byte>, e: Entry, after: seq<Byte>, k: nat)
    requires k < 13 && Fields(e)[k] < WORD
    ensures var data := before + EncodeEntry(e) + after;
            |before| + HEADER <= |data| && FieldAt(data, |before|, k) == Some(Fields(e)[k])
  {
    hide Field, EncodeFields;
    var data, at := before + EncodeEntry(e) + after, |before|;
    FieldSlice(Fields(e), k);
    FieldRoundTrip(Fields(e)[k]);
    var fields := EncodeFields(Fields(e));
    assert data[at + 6..at + 110] == fields;
    SliceOfSlice(data, at + 6, at + 110, 8 * k, 8 * k + 8);
  }

  /** An entry written at an aligned place is read back from there. */
  lemma EntryReadBack(before: seq<Byte>, e: Entry, after: seq<Byte>)
    requires Encodable(e) && |before| % 4 == 0
    ensures ReadEntry(before + EncodeEntry(e) + after, |before|) == Some((e, |before| + |EncodeEntry(e)|))
  {
    hide EncodeEntry, FieldAt, Aligned;
    var data, at := before + EncodeEntry(e) + after, |before|;
    FieldReadBack(before, e, after, 0);
    FieldReadBack(before, e, after, 1);
    FieldReadBack(before, e, after, 4);
    FieldReadBack(before, e, after, 6);
    FieldReadBack(before, e, after, 11);
    EntryLength(e);
    AlignedShift(at, HEADER + |e.name| + 1);
    AlignedShift(at, Aligned(HEADER + |e.name| + 1) + |e.data|);
    EntryParts(before, e, after);
  }

  lemma EntryParts(before: seq<Byte>, e: Entry, after: seq<Byte>)
    ensures var data, at := before + EncodeEntry(e) + after, |before|;
            var start := at + Aligned(HEADER + |e.name| + 1);
            && at + |EncodeEntry(e)| <= |data|
            && data[at..at + 6] == MAGIC
            && data[at + HEADER..at + HEADER + |e.name|] == e.name && data[at + HEADER + |e.name|] == 0
            && start + |e.data| <= |data| && data[start..start + |e.data|] == e.data
  {
    hide EncodeFields;
  }

  // ---- Round trip of an archive ----

  function UntilTrailer(entries: seq<Entry>): seq<Entry> {
    if entries == [] || entries[0].name == TRAILER then [] else [entries[0]] + UntilTrailer(entries[1..])
  }

  function TrailerEntry(inode: nat): Entry {
    Entry(inode, S_IFREG, 1, TRAILER, [])
  }

  lemma EncodeNone()
    ensures EncodeEntries([]) == []
  {
  }

  lemma EncodeSnoc(entries: seq<Entry>, e: Entry)
    ensures EncodeEntries(entries + [e]) == EncodeEntries(entries) + EncodeEntry(e)
  {
    assert (entries + [e])[..|entries|] == entries;
  }

  lemma {:induction false} EncodeJoin(a: seq<Entry>, b: seq<Entry>)
    ensures EncodeEntries(a + b) == EncodeEntries(a) + EncodeEntries(b)
    ensures |EncodeEntries(b)| % 4 == 0
    decreases |b|
  {
    hide EncodeEntry, EncodeEntries;
    if b == [] {
      assert a + b == a;
      EncodeNone();
    } else {
      var last := |b| - 1;
      EncodeJoin(a, b[..last]);
      EntryLength(b[last]);
      EncodeSnoc(a + b[..last], b[last]);
      EncodeSnoc(b[..last], b[last]);
      assert a + b == a + b[..last] + [b[last]] && b == b[..last] + [b[last]];
    }
  }

  lemma EncodeOne(e: Entry)
    ensures EncodeEntries([e]) == EncodeEntry(e)
  {
    EncodeSnoc([], e);
    assert [] + [e] == [e];
  }

  /** Reading on after some entries finds the rest, up to the trailer. */
  lemma {:induction false} ReadRest(done: seq<Entry>, rest: seq<Entry>, inode: nat, pad: seq<Byte>)
    requires inode < WORD && forall e | e in rest :: Encodable(e)
    ensures ReadArchive(EncodeEntries(done + rest + [TrailerEntry(inode)]) + pad, |EncodeEntries(done)|)
         == Some(UntilTrailer(rest))
    decreases |rest|
  {
    hide EncodeEntry, ReadEntry, EncodeEntries;
    var trailer := TrailerEntry(inode);
    var e, later := if rest == [] then trailer else rest[0], if rest == [] then [] else rest[1..] + [trailer];
    var all := done + rest + [trailer];
    assert all == done + [e] + later;
    EncodeJoin(done + [e], later);
    EncodeJoin(done, [e]);
    EncodeJoin([], done);
    EncodeOne(e);
    EntryLength(e);
    assert [] + done == done;
    var after := EncodeEntries(later) + pad;
    assert EncodeEntries(all) + pad == EncodeEntries(done) + EncodeEntry(e) + after;
    EntryReadBack(EncodeEntries(done), e, after);
    if rest != [] && e.name != TRAILER {
      assert done + rest == done + [e] + rest[1..];
      ReadRest(done + [e], rest[1..], inode, pad);
    }
  }

  lemma ArchiveRoundTrip(entries: seq<Entry>, inode: nat, pad: seq<Byte>)
    requires inode < WORD && forall e | e in entries :: Encodable(e)
    ensures ReadArchive(EncodeEntries(entries + [TrailerEntry(inode)]) + pad, 0) == Some(UntilTrailer(entries))
  {
    ReadRest([], entries, inode, pad);
    assert [] + entries + [TrailerEntry(inode)] == entries + [TrailerEntry(inode)];
  }

  /** The reader gets everything back exactly when nothing in the archive is called TRAILER!!!. */
  lemma {:induction false} CompleteIff(entries: seq<Entry>)
    ensures UntilTrailer(entries) == entries <==> forall e | e in entries :: e.name != TRAILER
  {
    if entries != [] {
      CompleteIff(entries[1..]);
      assert entries == [entries[0]] + entries[1..];
      assert entries[0] in entries;
    }
  }

  // ---- Names and their order ----

  function LastSlash(name: Name): (r: Option<nat>)
    ensures r.Some? ==> r.value < |name| && name[r.value] == SLASH
  {
    if name == [] then None
    else if name[|name| - 1] == SLASH then Some(|name| - 1)
    else LastSlash(name[..|name| - 1])
  }

  /** Path(name).parent, None for ".". */
  function Parent(name: Name): (r: Option<Name>)
    ensures r.Some? ==> r.value < name
  {
    var slash := LastSlash(name);
    if slash.None? then None else Some(name[..slash.value])
  }

  predicate Absolute(name: Name) {
    name != [] && name[0] == SLASH
  }

  /** Path(name).as_posix() for a relative name, with the empty name for ".": no empty and no "."
      component is left. */
  function Normal(name: Name): (r: Name)
    ensures |r| <= |name|
    decreases |name|
  {
    var slash := LastSlash(name);
    var last := if slash.None? then name else name[slash.value + 1..];
    Below(if slash.None? then [] else Normal(name[..slash.value]), last)
  }

  /** A path with one more component. */
  function Below(front: Name, last: Name): Name {
    if last == [] || last == DOT then front
    else if front == [] then last
    else front + [SLASH] + last
  }

  lemma BelowIsFixed(front: Name, last: Name)
    requires Normal(front) == front && SLASH !in last
    ensures Normal(Below(front, last)) == Below(front, last)
  {
    hide LastSlash;
    if last != [] && last != DOT {
      LastSlashOf(front, last);
      if front != [] {
        var all := front + [SLASH] + last;
        assert all[..|front|] == front && all[|front| + 1..] == last;
      }
    }
  }

  lemma {:induction false} LastSlashOf(front: Name, last: Name)
    requires SLASH !in last
    ensures LastSlash(last).None? && LastSlash(front + [SLASH] + last) == Some(|front|)
  {
    var name := front + [SLASH] + last;
    if last != [] {
      LastSlashOf(front, last[..|last| - 1]);
      assert name[..|name| - 1] == front + [SLASH] + last[..|last| - 1];
      assert last[|last| - 1] in last;
    }
  }

  lemma {:induction false} AfterLastSlash(name: Name)
    ensures var slash := LastSlash(name);
            SLASH !in if slash.None? then name else name[slash.value + 1..]
  {
    if name != [] && name[|name| - 1] != SLASH {
      var front := name[..|name| - 1];
      AfterLastSlash(front);
      var from := if LastSlash(front).None? then 0 else LastSlash(front).value + 1;
      assert name[from..] == front[from..] + [name[|name| - 1]];
      assert name[0..] == name && front[0..] == front;
    }
  }

  /** A normal path is left as it is. */
  lemma {:induction false} NormalIsFixed(name: Name)
    ensures Normal(Normal(name)) == Normal(name)
    decreases |name|
  {
    var slash := LastSlash(name);
    AfterLastSlash(name);
    hide LastSlash, Below;
    if slash.Some? {
      NormalIsFixed(name[..slash.value]);
      BelowIsFixed(Normal(name[..slash.value]), name[slash.value + 1..]);
    } else {
      NothingIsFixed();
      BelowIsFixed([], name);
    }
  }

  lemma NothingIsFixed()
    ensures Normal([]) == []
  {
  }

  /** So is every directory above it. */
  lemma {:induction false} AncestorsFixed(name: Name, d: Name)
    requires Normal(name) == name && d in Ancestors(name)
    ensures Normal(d) == d
    decreases |name|
  {
    var slash := LastSlash(name).value;
    var front, last := Normal(name[..slash]), name[slash + 1..];
    assert name == front + [SLASH] + last;
    assert |front| == slash;
    assert name[..slash] == front;
    NormalIsFixed(name[..slash]);
    if d != front {
      AncestorsFixed(front, d);
    }
  }

  function Ancestors(name: Name): set<Name>
    decreases |name|
  {
    var parent := Parent(name);
    if parent.None? then {} else {parent.value} + Ancestors(parent.value)
  }

  datatype File = File(name: Name, data: seq<Byte>, mode: nat)

  function Directories(files: seq<File>): set<Name> {
    if files == [] then {} else Directories(files[..|files| - 1]) + Ancestors(Normal(files[|files| - 1].name))
  }

  lemma {:induction false} AncestorsClosed(name: Name, d: Name)
    requires d in Ancestors(name) && Parent(d).Some?
    ensures Parent(d).value in Ancestors(name)
    decreases |name|
  {
    var parent := Parent(name).value;
    if d != parent {
      AncestorsClosed(parent, d);
    }
  }

  /** Every parent of a directory or file of the archive is a directory of it. */
  lemma {:induction false} DirectoriesClosed(files: seq<File>, name: Name)
    requires Parent(name).Some? && (name in Directories(files) || exists f | f in files :: Normal(f.name) == name)
    ensures Parent(name).value in Directories(files)
  {
    var last := |files| - 1;
    if files != [] {
      assert files == files[..last] + [files[last]];
      var path := Normal(files[last].name);
      if name in Ancestors(path) {
        AncestorsClosed(path, name);
      } else if name != path {
        DirectoriesClosed(files[..last], name);
      }
    }
  }

  /** Names strictly in order. */
  predicate InOrder(names: seq<Name>) {
    forall i, j | 0 <= i < j < |names| :: Less(names[i], names[j])
  }

  lemma {:induction false} LeastExists(names: set<Name>) returns (least: Name)
    requires names != {}
    ensures least in names && forall n | n in names :: n == least || Less(least, n)
  {
    var x :| x in names;
    var rest := names - {x};
    least := x;
    if rest != {} {
      var m := LeastExists(rest);
      LessTotal(m, x);
      if Less(m, x) {
        least := m;
      } else {
        forall n | n in rest && n != m ensures Less(x, n) {
          LessTransitive(x, m, n);
        }
      }
    }
  }

  /** sorted(directories) */
  method SortedNames(names: set<Name>) returns (r: seq<Name>)
    ensures InOrder(r) && (forall n :: n in r <==> n in names)
  {
    r := [];
    var rest := names;
    while rest != {}
      invariant rest <= names && InOrder(r)
      invariant forall n :: n in r <==> n in names && n !in rest
      invariant forall a, b | a in r && b in rest :: Less(a, b)
      decreases |rest|
    {
      ghost var _ := LeastExists(rest);
      var least :| least in rest && forall n | n in rest :: n == least || Less(least, n);
      r := r + [least];
      rest := rest - {least};
    }
  }

  /** Python's order on (name, data, mode). */
  predicate FileLeq(a: File, b: File) {
    Less(a.name, b.name) || (a.name == b.name && (Less(a.data, b.data) || (a.data == b.data && a.mode <= b.mode)))
  }

  predicate FilesSorted(files: seq<File>) {
    forall i | 0 < i < |files| :: FileLeq(files[i - 1], files[i])
  }

  function InsertFile(f: File, files: seq<File>): (r: seq<File>)
    requires FilesSorted(files)
    ensures FilesSorted(r) && multiset(r) == multiset(files) + multiset{f}
    ensures r != [] && (r[0] == f || (files != [] && r[0] == files[0]))
  {
    if files == [] || FileLeq(f, files[0]) then [f] + files
    else
      LessTotal(f.name, files[0].name);
      LessTotal(f.data, files[0].data);
      assert files == [files[0]] + files[1..];
      [files[0]] + InsertFile(f, files[1..])
  }

  /** sorted(files) */
  function SortFiles(files: seq<File>): (r: seq<File>)
    ensures FilesSorted(r) && multiset(r) == multiset(files)
  {
    if files == [] then []
    else
      assert files == [files[0]] + files[1..];
      InsertFile(files[0], SortFiles(files[1..]))
  }

  // ---- _initramfs ----

  function DirEntries(names: seq<Name>): (r: seq<Entry>)
    ensures |r| == |names|
  {
    seq(|names|, i requires 0 <= i < |names| => Entry(1 + i, S_IFDIR + DIR_MODE, 2, names[i], []))
  }

  /** S_IFREG | mode */
  function Regular(mode: nat): nat {
    if mode / S_IFREG % 2 == 1 then mode else mode + S_IFREG
  }

  function FileEntries(files: seq<File>, inode: nat): (r: seq<Entry>)
    ensures |r| == |files|
  {
    seq(|files|, i requires 0 <= i < |files| =>
      Entry(inode + i, Regular(files[i].mode), 1, files[i].name, files[i].data))
  }

  /** The entries of an initramfs: directories in name order, then files, numbered from 1. */
  function ArchiveEntries(names: seq<Name>, files: seq<File>): seq<Entry> {
    DirEntries(names) + FileEntries(files, 1 + |names|)
  }

  /** What the loop over a file's parents ends for, and what its header fields can hold. */
  predicate Acceptable(f: File) {
    !Absolute(f.name) && |f.name| + 1 < WORD && |f.data| < WORD && f.mode < WORD
  }

  method CollectDirectories(files: seq<File>) returns (directories: set<Name>)
    ensures directories == Directories(files)
  {
    hide Normal, LastSlash;
    directories := {};
    for i := 0 to |files|
      invariant directories == Directories(files[..i])
    {
      assert files[..i + 1][..i] == files[..i];
      var parent := Parent(Normal(files[i].name));
      while parent.Some?
        invariant directories + (if parent.None? then {} else {parent.value} + Ancestors(parent.value)) == Directories(files[..i + 1])
        decreases if parent.None? then 0 else 1 + |parent.value|
      {
        directories := directories + {parent.value};
        parent := Parent(parent.value);
      }
    }
    assert files[..|files|] == files;
  }

  lemma {:induction false} InOrderSize(names: seq<Name>, s: set<Name>)
    requires InOrder(names) && (forall n :: n in names <==> n in s)
    ensures |names| == |s|
  {
    if names == [] {
      assert s == {};
    } else {
      var last := |names| - 1;
      assert names == names[..last] + [names[last]];
      forall i | 0 <= i < last ensures names[i] != names[last] {
        LessTotal(names[i], names[last]);
      }
      InOrderSize(names[..last], s - {names[last]});
    }
  }

  lemma EntriesEncodable(names: seq<Name>, files: seq<File>)
    requires |names| + |files| + 1 < WORD
    requires forall n | n in names :: |n| + 1 < WORD
    requires forall f | f in files :: Acceptable(f)
    ensures forall e | e in ArchiveEntries(names, files) :: Encodable(e)
  {
    hide Absolute;
    var dirs, regular := DirEntries(names), FileEntries(files, 1 + |names|);
    forall e | e in dirs + regular ensures Encodable(e) {
      if e in dirs {
        var i :| 0 <= i < |dirs| && dirs[i] == e;
        assert names[i] in names;
      } else {
        var i :| 0 <= i < |regular| && regular[i] == e;
        assert files[i] in files;
      }
    }
  }

  lemma {:induction false} DirectoriesShort(files: seq<File>, n: Name)
    requires n in Directories(files) && forall f | f in files :: |f.name| + 1 < WORD
    ensures |n| + 1 < WORD && Normal(n) == n
  {
    var last := |files| - 1;
    var path := Normal(files[last].name);
    if n in Ancestors(path) {
      AncestorsShort(path, n);
      NormalIsFixed(files[last].name);
      AncestorsFixed(path, n);
    } else {
      DirectoriesShort(files[..last], n);
    }
  }

  lemma {:induction false} AncestorsShort(name: Name, d: Name)
    requires d in Ancestors(name)
    ensures |d| < |name|
    decreases |name|
  {
    if d != Parent(name).value {
      AncestorsShort(Parent(name).value, d);
    }
  }

  method EmitDirectories(names: seq<Name>) returns (output: seq<Byte>)
    ensures output == EncodeEntries(DirEntries(names))
  {
    hide EncodeEntry;
    output := [];
    var inode := 1;
    for i := 0 to |names|
      invariant inode == 1 + i && output == EncodeEntries(DirEntries(names[..i]))
    {
      assert DirEntries(names[..i + 1])[..i] == DirEntries(names[..i]);
      output := output + EncodeEntry(Entry(inode, S_IFDIR + DIR_MODE, 2, names[i], []));
      inode := inode + 1;
    }
    assert names[..|names|] == names;
  }

  method EmitFiles(before: seq<Byte>, ghost dirs: seq<Entry>, files: seq<File>, first: nat) returns (output: seq<Byte>)
    requires before == EncodeEntries(dirs)
    ensures output == EncodeEntries(dirs + FileEntries(files, first))
  {
    hide EncodeEntry;
    output := before;
    var inode := first;
    assert dirs + FileEntries(files[..0], first) == dirs;
    for i := 0 to |files|
      invariant inode == first + i && output == EncodeEntries(dirs + FileEntries(files[..i], first))
    {
      var e := Entry(inode, Regular(files[i].mode), 1, files[i].name, files[i].data);
      ghost var more := dirs + FileEntries(files[..i + 1], first);
      assert more[..|more| - 1] == dirs + FileEntries(files[..i], first) && more[|more| - 1] == e;
      output := output + EncodeEntry(e);
      inode := inode + 1;
    }
    assert files[..|files|] == files;
  }

  /** No file is called like the trailer, and none lies in a directory called like it. */
  ghost predicate TrailerFree(files: seq<File>) {
    TRAILER !in Directories(files) && forall f | f in files :: f.name != TRAILER
  }

  lemma TrailerFreeIff(files: seq<File>, names: seq<Name>)
    requires forall n :: n in names <==> n in Directories(files)
    ensures var entries := ArchiveEntries(names, SortFiles(files));
            UntilTrailer(entries) == entries <==> TrailerFree(files)
  {
    hide Directories, SortFiles, UntilTrailer, Regular;
    var sorted := SortFiles(files);
    var dirs, regular := DirEntries(names), FileEntries(sorted, 1 + |names|);
    CompleteIff(dirs + regular);
    assert forall f :: f in files <==> f in multiset(sorted);
    forall i | 0 <= i < |names| ensures dirs[i] in dirs + regular && names[i] in names {
    }
    forall i | 0 <= i < |sorted| ensures regular[i] in dirs + regular && sorted[i] in multiset(sorted) {
      assert (dirs + regular)[|dirs| + i] == regular[i];
    }
  }

  /** _initramfs: the archive holds the directories in name order and then the files.  The reader
      recovers them up to the first that is called like the trailer, so all of them exactly when
      nothing is. */
  method Initramfs(files: seq<File>) returns (output: seq<Byte>, ghost names: seq<Name>)
    requires forall f | f in files :: Acceptable(f)
    requires |Directories(files)| + |files| + 1 < WORD
    ensures |output| % BLOCK == 0
    ensures InOrder(names) && (forall n :: n in names <==> n in Directories(files))
    ensures ReadArchive(output, 0) == Some(UntilTrailer(ArchiveEntries(names, SortFiles(files))))
    ensures ReadArchive(output, 0) == Some(ArchiveEntries(names, SortFiles(files))) <==> TrailerFree(files)
  {
    hide EncodeEntry, EncodeEntries, Ancestors, Directories, ReadArchive, UntilTrailer, SortFiles, TrailerFree;
    var directories := CollectDirectories(files);
    var sortedNames := SortedNames(directories);
    var sortedFiles := SortFiles(files);
    names := sortedNames;
    ghost var entries := ArchiveEntries(names, sortedFiles);
    output := EmitDirectories(sortedNames);
    output := EmitFiles(output, DirEntries(names), sortedFiles, 1 + |sortedNames|);
    var inode := 1 + |sortedNames| + |sortedFiles|;
    EncodeJoin(entries, [TrailerEntry(inode)]);
    EncodeOne(TrailerEntry(inode));
    output := output + EncodeEntry(TrailerEntry(inode));
    var pad := Zeros(Padding(|output|, BLOCK));
    InitramfsReadable(files, names, pad);
    TrailerFreeIff(files, names);
    output := output + pad;
  }

  lemma InitramfsReadable(files: seq<File>, names: seq<Name>, pad: seq<Byte>)
    requires forall f | f in files :: Acceptable(f)
    requires |Directories(files)| + |files| + 1 < WORD
    requires InOrder(names) && (forall n :: n in names <==> n in Directories(files))
    ensures var sorted := SortFiles(files);
            var entries := ArchiveEntries(names, sorted);
            ReadArchive(EncodeEntries(entries + [TrailerEntry(1 + |names| + |sorted|)]) + pad, 0) == Some(UntilTrailer(entries))
  {
    hide EncodeEntry, EncodeEntries, Ancestors, Directories, ReadArchive, UntilTrailer, SortFiles, ArchiveEntries;
    var sorted := SortFiles(files);
    assert |multiset(sorted)| == |multiset(files)|;
    assert forall f | f in sorted :: f in multiset(sorted);
    InOrderSize(names, Directories(files));
    forall n | n in names ensures |n| + 1 < WORD {
      DirectoriesShort(files, n);
    }
    EntriesEncodable(names, sorted);
    ArchiveRoundTrip(ArchiveEntries(names, sorted), 1 + |names| + |sorted|, pad);
  }

  /** Unpacking never meets a path before its parent: the parent of every entry's path is a
      directory entry with a smaller inode number. */
  lemma ParentsFirst(files: seq<File>, names: seq<Name>, j: nat) returns (i: nat)
    requires forall f | f in files :: Acceptable(f)
    requires InOrder(names) && (forall n :: n in names <==> n in Directories(files))
    requires var entries := ArchiveEntries(names, SortFiles(files));
             j < |entries| && Parent(Normal(entries[j].name)).Some?
    ensures var entries := ArchiveEntries(names, SortFiles(files));
            && i < j && entries[i].name == Parent(Normal(entries[j].name)).value && entries[i].mode == S_IFDIR + DIR_MODE
            && entries[i].inode < entries[j].inode
  {
    hide Less, Parent, Normal, Directories, SortFiles, FilesSorted, Regular;
    var sorted := SortFiles(files);
    var entries := ArchiveEntries(names, sorted);
    var path := Normal(entries[j].name);
    if j < |names| {
      assert names[j] in names;
      DirectoriesShort(files, names[j]);
    } else {
      assert sorted[j - |names|] in multiset(sorted);
    }
    DirectoriesClosed(files, path);
    var parent := Parent(path).value;
    i :| 0 <= i < |names| && names[i] == parent;
    if j < |names| {
      PrefixLess(parent, path);
      LessTotal(parent, path);
    }
  }
}
