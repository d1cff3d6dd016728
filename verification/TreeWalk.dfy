/** _tree_manifest: a directory tree walked with a worklist, and the manifest entries it yields. */
module TreeWalk {
  import opened Wrappers
  import opened ModuleTree
  import opened Order

  /** A path as its components. */
  type Path = seq<string>

  datatype Node =
    | DirNode(mode: Mode, extra: Extra, children: seq<Child>)
    | FileNode(mode: Mode, extra: Extra, inode: nat, content: string)
    | LinkNode(extra: Extra, target: string)
    | SpecialNode

  /** An entry of a directory; the children of a directory come in the order scandir lists them. */
  datatype Child = Child(name: string, node: Node)

  /** What there is at a path, without what is below it. */
  datatype Meta =
    | DirMeta(mode: Mode, extra: Extra)
    | FileMeta(mode: Mode, extra: Extra, inode: nat, content: string)
    | LinkMeta(extra: Extra, target: string)
    | SpecialMeta

  datatype Item = Item(path: Path, meta: Meta)

  /** _valid_manifest_text: NFC, no surrogate, no NUL. */
  type TextTest = string -> bool

  function MetaOf(n: Node): Meta {
    match n
    case DirNode(mode, extra, _) => DirMeta(mode, extra)
    case FileNode(mode, extra, inode, content) => FileMeta(mode, extra, inode, content)
    case LinkNode(extra, target) => LinkMeta(extra, target)
    case SpecialNode => SpecialMeta
  }

  // ---- The reference: everything below a directory ----

  /** All that stands below a directory, children first come first. */
  function Below(path: Path, children: seq<Child>): multiset<Item>
    decreases children
  {
    if children == [] then multiset{}
    else Under(path, children[0]) + Below(path, children[1..])
  }

  function Under(path: Path, c: Child): multiset<Item>
    decreases c
  {
    var here := path + [c.name];
    multiset{Item(here, MetaOf(c.node))} + (if c.node.DirNode? then Below(here, c.node.children) else multiset{})
  }

  /** A real directory: names are not empty, hold no slash and differ. */
  predicate WellNamed(children: seq<Child>) {
    && (forall i, j | 0 <= i < j < |children| :: children[i].name != children[j].name)
    && (forall c | c in children :: c.name != "" && '/' !in c.name && (c.node.DirNode? ==> WellNamed(c.node.children)))
  }

  /** The size of a multiset of items in bytes of file content, or of extended attributes. */
  function ContentWeight(i: Item): nat {
    if i.meta.FileMeta? then |i.meta.content| else 0
  }

  function ExtraOf(m: Meta): Extra {
    if m.SpecialMeta? then NoExtra else m.extra
  }

  function XattrWeight(kind: Kind): Item -> nat {
    (i: Item) => if kind == SourceKind || ExtraOf(i.meta).NoExtra? then 0 else XattrSum(ExtraOf(i.meta).xattrs)
  }

  ghost function Sum(items: multiset<Item>, weight: Item -> nat): nat
    decreases |items|
  {
    if items == multiset{} then 0
    else
      var i :| i in items;
      weight(i) + Sum(items - multiset{i}, weight)
  }

  lemma {:induction false} SumSplit(items: multiset<Item>, i: Item, weight: Item -> nat)
    requires i in items
    ensures Sum(items, weight) == weight(i) + Sum(items - multiset{i}, weight)
    decreases |items|
  {
    var j :| j in items && Sum(items, weight) == weight(j) + Sum(items - multiset{j}, weight);
    if j != i {
      SumSplit(items - multiset{j}, i, weight);
      SumSplit(items - multiset{i}, j, weight);
      assert items - multiset{i} - multiset{j} == items - multiset{j} - multiset{i};
    }
  }

  lemma SumAdd(items: multiset<Item>, i: Item, weight: Item -> nat)
    ensures Sum(items + multiset{i}, weight) == Sum(items, weight) + weight(i)
  {
    SumSplit(items + multiset{i}, i, weight);
    assert items + multiset{i} - multiset{i} == items;
  }

  lemma {:induction false} SumMonotone(a: multiset<Item>, b: multiset<Item>, weight: Item -> nat)
    requires a <= b
    ensures Sum(a, weight) <= Sum(b, weight)
    decreases |b|
  {
    assert a + (b - a) == b;
    if b - a != multiset{} {
      var i :| i in b - a;
      assert a <= b - multiset{i};
      SumMonotone(a, b - multiset{i}, weight);
      SumSplit(b, i, weight);
    } else {
      assert a == b;
    }
  }

  // ---- Paths ----

  function Join(path: Path): string {
    if path == [] then "" else path[0] + (if |path| == 1 then "" else "/" + Join(path[1..]))
  }

  predicate Slashless(path: Path) {
    forall c | c in path :: c != "" && '/' !in c
  }

  /** The text before the first slash. */
  function Head(s: string): string {
    if s == "" || s[0] == '/' then "" else [s[0]] + Head(s[1..])
  }

  lemma {:induction false} HeadOf(c: string, rest: string)
    requires '/' !in c && (rest == "" || rest[0] == '/')
    ensures Head(c + rest) == c
  {
    if c == "" {
      assert c + rest == rest;
    } else {
      assert (c + rest)[1..] == c[1..] + rest;
      HeadOf(c[1..], rest);
    }
  }

  function AfterHead(path: Path): string
    requires path != []
  {
    if |path| == 1 then "" else "/" + Join(path[1..])
  }

  /** Slash-free components can be told from the joined text. */
  lemma {:induction false} JoinInjective(p: Path, q: Path)
    requires Slashless(p) && Slashless(q) && p != [] && q != [] && Join(p) == Join(q)
    ensures p == q
  {
    hide Join, Head, AfterHead;
    JoinParts(p);
    JoinParts(q);
    assert AfterHead(p) == Join(p)[|p[0]|..] == AfterHead(q);
    assert p == [p[0]] + p[1..] && q == [q[0]] + q[1..];
    if |p| > 1 && |q| > 1 {
      assert (forall c | c in p[1..] :: c in p) && (forall c | c in q[1..] :: c in q);
      JoinInjective(p[1..], q[1..]);
    }
  }

  lemma JoinParts(p: Path)
    requires Slashless(p) && p != []
    ensures Join(p) == p[0] + AfterHead(p) && Head(Join(p)) == p[0]
    ensures AfterHead(p) == "" <==> |p| == 1
    ensures |p| > 1 ==> AfterHead(p)[1..] == Join(p[1..])
  {
    hide Head;
    assert p[0] in p;
    HeadOf(p[0], AfterHead(p));
  }

  /** Everything below a directory has a path through one of its children. */
  lemma {:induction false} BelowThrough(path: Path, children: seq<Child>, i: Item)
    requires i in Below(path, children)
    ensures |i.path| > |path| && i.path[..|path|] == path
    ensures exists c | c in children :: i.path[|path|] == c.name && i in Under(path, c)
    decreases children
  {
    var c := children[0];
    if i in Under(path, c) {
      assert c in children;
      var here := path + [c.name];
      if i != Item(here, MetaOf(c.node)) {
        BelowThrough(here, c.node.children, i);
        assert i.path[..|path|] == i.path[..|path| + 1][..|path|];
        assert i.path[|path|] == i.path[..|path| + 1][|path|];
      }
    } else {
      BelowThrough(path, children[1..], i);
    }
  }

  /** No two things below a well-named directory share a path, and all paths are slash-free. */
  ghost predicate Placed(items: multiset<Item>) {
    && (forall i | i in items :: i.path != [] && Slashless(i.path) && items[i] == 1)
    && (forall i, j | i in items && j in items && i.path == j.path :: i == j)
  }

  lemma {:induction false} BelowPlaced(path: Path, children: seq<Child>)
    requires WellNamed(children) && Slashless(path)
    ensures Placed(Below(path, children))
    decreases children
  {
    if children != [] {
      var c, rest := children[0], children[1..];
      assert Below(path, children) == Under(path, c) + Below(path, rest);
      hide Placed, Below, Under;
      assert forall d | d in rest :: d in children;
      var here := path + [c.name];
      BelowPlaced(path, rest);
      if c.node.DirNode? {
        BelowPlaced(here, c.node.children);
      }
      UnderPlaced(path, c);
      Apart(path, c, rest);
    }
  }

  lemma Apart(path: Path, c: Child, rest: seq<Child>)
    requires forall d | d in rest :: d.name != c.name
    requires Placed(Under(path, c)) && Placed(Below(path, rest))
    ensures Placed(Under(path, c) + Below(path, rest))
  {
    hide Placed, Below, Under;
    forall i | i in Under(path, c) ensures |i.path| > |path| && i.path[|path|] == c.name {
      UnderStarts(path, c, i);
    }
    forall i | i in Below(path, rest) ensures |i.path| > |path| && i.path[|path|] != c.name {
      BelowThrough(path, rest, i);
    }
    PlacedApart(Under(path, c), Below(path, rest), |path|, c.name);
  }

  /** What stands under different names stays placed together. */
  lemma PlacedApart(a: multiset<Item>, b: multiset<Item>, n: nat, name: string)
    requires Placed(a) && Placed(b)
    requires forall i | i in a :: |i.path| > n && i.path[n] == name
    requires forall i | i in b :: |i.path| > n && i.path[n] != name
    ensures Placed(a + b)
  {
    hide Slashless;
    assert forall i | i in a + b :: i in a || i in b;
  }

  lemma UnderStarts(path: Path, c: Child, i: Item)
    requires i in Under(path, c)
    ensures |i.path| > |path| && i.path[|path|] == c.name
    ensures i != Item(path + [c.name], MetaOf(c.node)) ==> |i.path| > |path| + 1
  {
    var here := path + [c.name];
    if c.node.DirNode? && i in Below(here, c.node.children) {
      BelowThrough(here, c.node.children, i);
      assert i.path[|path|] == i.path[..|path| + 1][|path|];
    }
  }

  lemma UnderPlaced(path: Path, c: Child)
    requires Slashless(path) && c.name != "" && '/' !in c.name
    requires c.node.DirNode? ==> Placed(Below(path + [c.name], c.node.children))
    ensures Placed(Under(path, c))
  {
    var here := path + [c.name];
    if c.node.DirNode? {
      forall i | i in Below(here, c.node.children) ensures |i.path| > |here| {
        BelowThrough(here, c.node.children, i);
      }
    }
  }

  // ---- Manifest entries ----

  function Split(s: string): (r: seq<string>)
    ensures r != []
  {
    if s == "" then [""]
    else if s[0] == '/' then [""] + Split(s[1..])
    else
      var rest := Split(s[1..]);
      [[s[0]] + rest[0]] + rest[1..]
  }

  /** Follow the parts of a target from a directory; None when it leaves the tree. */
  function Resolve(at: Path, parts: seq<string>): Option<Path>
    decreases |parts|
  {
    if parts == [] then Some(at)
    else if parts[0] == ".." then if at == [] then None else Resolve(at[..|at| - 1], parts[1..])
    else if parts[0] == "" || parts[0] == "." then Resolve(at, parts[1..])
    else Resolve(at + [parts[0]], parts[1..])
  }

  predicate BackReference(path: Path, target: string) {
    (path == ["build"] || path == ["source"]) && Absolute(target)
  }

  /** A link target the appliance takes for a source tree: relative, plain, ending below the root. */
  predicate ContainedTarget(path: Path, target: string)
    requires path != []
  {
    var parts := Split(target);
    var resolved := Resolve(path[..|path| - 1], parts);
    && !Absolute(target)
    && (forall part | part in parts :: part != "" && part != ".")
    && resolved.Some? && resolved.value != []
  }

  /** _manifest_entry: the entry an item contributes, None for one that is skipped. */
  function EntryOf(kind: Kind, text: TextTest, i: Item): Result<Option<Entry>, ErrorCode>
    requires i.path != []
  {
    var name := i.path[|i.path| - 1];
    var path := Join(i.path);
    if !text(path) || name == "" || name == "." || name == ".." then Err(SOURCE_INVALID)
    else
      var extra := if kind == SourceKind then NoExtra else ExtraOf(i.meta);
      if extra.Extra? && exists x | x in extra.xattrs :: !text(x.name) then Err(RECOVERY_CONFLICT)
      else
        match i.meta
        case DirMeta(mode, _) => Ok(Some(Entry(path, Dir(if kind == SourceKind then MODE_DIR else mode), extra)))
        case FileMeta(mode, _, _, content) =>
          Ok(Some(Entry(path, File(if kind == SourceKind then NormalMode(mode) else mode, content), extra)))
        case LinkMeta(_, target) =>
          if !text(target) then Err(SOURCE_INVALID)
          else if kind == SourceKind && BackReference(i.path, target) then Ok(None)
          else if kind == SourceKind && !ContainedTarget(i.path, target) then Err(SOURCE_INVALID)
          else Ok(Some(Entry(path, Symlink(target), extra)))
        case SpecialMeta => Err(SOURCE_INVALID)
  }

  function Codes(s: string): (r: seq<int>)
    ensures |r| == |s|
  {
    seq(|s|, i requires 0 <= i < |s| => s[i] as int)
  }

  function EntryKey(e: Entry): seq<int> {
    Codes(e.path)
  }

  lemma CodesInjective(s: string, t: string)
    requires Codes(s) == Codes(t)
    ensures s == t
  {
    forall i | 0 <= i < |s| ensures s[i] == t[i] {
      assert Codes(s)[i] == Codes(t)[i];
    }
  }

  /** The order-free meaning of a manifest: the entries of all items, strictly in path order. */
  ghost predicate IsManifest(kind: Kind, text: TextTest, items: multiset<Item>, entries: seq<Entry>) {
    Ascending(entries, EntryKey) && Yields(kind, text, items, entries)
  }

  ghost predicate Yields(kind: Kind, text: TextTest, items: multiset<Item>, entries: seq<Entry>) {
    forall e :: e in entries <==> exists i | i in items && i.path != [] :: EntryOf(kind, text, i) == Ok(Some(e))
  }

  /** There is one manifest of a tree, in whatever order its directories list their children. */
  lemma ManifestIsUnique(kind: Kind, text: TextTest, items: multiset<Item>, a: seq<Entry>, b: seq<Entry>)
    requires IsManifest(kind, text, items, a) && IsManifest(kind, text, items, b)
    ensures a == b
  {
    AscendingOnce(a, b, EntryKey);
  }

  ghost predicate InodesDiffer(items: multiset<Item>) {
    forall i, j | i in items && j in items && i.meta.FileMeta? && j.meta.FileMeta? && i.meta.inode == j.meta.inode :: i == j
  }

  /** Exactly the trees a manifest can be made of. */
  ghost predicate Acceptable(kind: Kind, text: TextTest, items: multiset<Item>) {
    && |items| <= ENTRY_LIMIT
    && (forall i | i in items :: i.path != [] && EntryOf(kind, text, i).Ok?)
    && Sum(items, ContentWeight) <= BYTE_LIMIT
    && Sum(items, XattrWeight(kind)) <= XATTR_BYTE_LIMIT
    && InodesDiffer(items)
  }

  /** Every item can be listed, and no two files are the same one. */
  ghost predicate AllListable(kind: Kind, text: TextTest, items: multiset<Item>) {
    (forall i | i in items :: i.path != [] && EntryOf(kind, text, i).Ok?) && InodesDiffer(items)
  }

  /** How the walk may refuse a tree: one that can be listed is only ever too large. */
  ghost predicate Refused(kind: Kind, text: TextTest, items: multiset<Item>, code: ErrorCode) {
    !Acceptable(kind, text, items) && (AllListable(kind, text, items) ==> code == LIMIT_EXCEEDED)
  }

  // ---- The walk ----

  /** What the walk has added up so far. */
  datatype Tally = Tally(bytes: nat, xattrs: nat, inodes: set<nat>, docs: seq<Entry>)

  /** The loop body of _tree_manifest for one directory entry. */
  function Visit(kind: Kind, text: TextTest, t: Tally, i: Item): Result<Tally, ErrorCode>
    requires i.path != []
  {
    if i.meta.FileMeta? && i.meta.inode in t.inodes then Err(SOURCE_INVALID)
    else if i.meta.FileMeta? && t.bytes + |i.meta.content| > BYTE_LIMIT then Err(LIMIT_EXCEEDED)
    else
      var doc :- EntryOf(kind, text, i);
      var bytes, xattrs := t.bytes + ContentWeight(i), t.xattrs + XattrWeight(kind)(i);
      if bytes > BYTE_LIMIT || xattrs > XATTR_BYTE_LIMIT then Err(LIMIT_EXCEEDED)
      else
        Ok(Tally(bytes, xattrs, t.inodes + (if i.meta.FileMeta? then {i.meta.inode} else {}),
                 t.docs + (if doc.Some? then [doc.value] else [])))
  }

  ghost predicate InodesSeen(seen: multiset<Item>, inodes: set<nat>) {
    && (forall n :: n in inodes <==> exists i | i in seen :: i.meta.FileMeta? && i.meta.inode == n)
    && InodesDiffer(seen)
  }

  /** The tally of a set of visited items. */
  ghost predicate Tallied(kind: Kind, text: TextTest, seen: multiset<Item>, t: Tally) {
    && (forall i | i in seen :: i.path != [] && EntryOf(kind, text, i).Ok?)
    && t.bytes == Sum(seen, ContentWeight) <= BYTE_LIMIT
    && t.xattrs == Sum(seen, XattrWeight(kind)) <= XATTR_BYTE_LIMIT
    && InodesSeen(seen, t.inodes)
    && Yields(kind, text, seen, t.docs)
    && Distinct(t.docs, EntryKey)
  }

  /** A new item is not among the seen ones, nor is its path. */
  lemma NewPath(all: multiset<Item>, seen: multiset<Item>, i: Item, j: Item)
    requires Placed(all) && seen + multiset{i} <= all && j in seen
    ensures j != i && j.path != i.path && Join(j.path) != Join(i.path)
  {
    assert all[i] == 1 && (seen + multiset{i})[i] <= all[i];
    assert j in all && i in all;
    if Join(j.path) == Join(i.path) {
      JoinInjective(i.path, j.path);
    }
  }

  lemma DocsKeep(kind: Kind, text: TextTest, all: multiset<Item>, seen: multiset<Item>, docs: seq<Entry>, i: Item)
    requires Placed(all) && seen + multiset{i} <= all && i.path != [] && EntryOf(kind, text, i).Ok?
    requires Yields(kind, text, seen, docs) && Distinct(docs, EntryKey)
    ensures var doc := EntryOf(kind, text, i).value;
            var next := docs + (if doc.Some? then [doc.value] else []);
            Yields(kind, text, seen + multiset{i}, next) && Distinct(next, EntryKey)
  {
    hide EntryOf;
    var doc := EntryOf(kind, text, i).value;
    if doc.Some? {
      forall d | d in docs ensures EntryKey(d) != EntryKey(doc.value) {
        var j :| j in seen && j.path != [] && EntryOf(kind, text, j) == Ok(Some(d));
        NewPath(all, seen, i, j);
        EntryPath(kind, text, i);
        EntryPath(kind, text, j);
        if EntryKey(d) == EntryKey(doc.value) {
          CodesInjective(d.path, doc.value.path);
        }
      }
    }
    var next := docs + (if doc.Some? then [doc.value] else []);
    forall e ensures e in next <==> exists j | j in seen + multiset{i} && j.path != [] :: EntryOf(kind, text, j) == Ok(Some(e)) {
      if e in docs {
        var j :| j in seen && j.path != [] && EntryOf(kind, text, j) == Ok(Some(e));
        assert j in seen + multiset{i};
      } else if doc == Some(e) {
        assert i in seen + multiset{i};
      }
    }
  }

  lemma EntryPath(kind: Kind, text: TextTest, i: Item)
    requires i.path != []
    ensures var r := EntryOf(kind, text, i);
            r.Ok? && r.value.Some? ==> r.value.value.path == Join(i.path)
  {
  }

  lemma InodesKeep(all: multiset<Item>, seen: multiset<Item>, inodes: set<nat>, i: Item)
    requires Placed(all) && seen + multiset{i} <= all && InodesSeen(seen, inodes)
    ensures if i.meta.FileMeta? && i.meta.inode in inodes then !InodesDiffer(all)
            else InodesSeen(seen + multiset{i}, inodes + (if i.meta.FileMeta? then {i.meta.inode} else {}))
  {
    hide Join, Slashless;
    assert i in all && i in seen + multiset{i};
    assert forall j :: j in seen + multiset{i} <==> j in seen || j == i;
    if i.meta.FileMeta? && i.meta.inode in inodes {
      var j :| j in seen && j.meta.FileMeta? && j.meta.inode == i.meta.inode;
      NewPath(all, seen, i, j);
      assert j in all;
    }
  }

  /** One visit keeps the tally, or shows that the whole tree is not acceptable. */
  lemma VisitKeeps(kind: Kind, text: TextTest, all: multiset<Item>, seen: multiset<Item>, t: Tally, i: Item)
    requires Placed(all) && seen + multiset{i} <= all && Tallied(kind, text, seen, t)
    ensures i.path != []
    ensures match Visit(kind, text, t, i)
            case Ok(next) => Tallied(kind, text, seen + multiset{i}, next)
            case Err(code) => Refused(kind, text, all, code)
  {
    hide EntryOf, XattrWeight, Distinct, Yields, Sum, InodesSeen, InodesDiffer;
    assert i in all;
    SumAdd(seen, i, ContentWeight);
    SumAdd(seen, i, XattrWeight(kind));
    SumMonotone(seen + multiset{i}, all, ContentWeight);
    SumMonotone(seen + multiset{i}, all, XattrWeight(kind));
    InodesKeep(all, seen, t.inodes, i);
    if EntryOf(kind, text, i).Ok? {
      DocsKeep(kind, text, all, seen, t.docs, i);
    }
  }

  /** A directory on the worklist. */
  datatype Folder = Folder(path: Path, children: seq<Child>)

  function Pending(stack: seq<Folder>): multiset<Item> {
    if stack == [] then multiset{}
    else Pending(stack[..|stack| - 1]) + Below(stack[|stack| - 1].path, stack[|stack| - 1].children)
  }

  function NameKey(c: Child): seq<int> {
    Codes(c.name)
  }

  lemma {:induction false} BelowRemove(path: Path, children: seq<Child>, k: nat)
    requires k < |children|
    ensures Below(path, children) == Under(path, children[k]) + Below(path, children[..k] + children[k + 1..])
    decreases children
  {
    if k > 0 {
      BelowRemove(path, children[1..], k - 1);
      assert (children[..k] + children[k + 1..])[1..] == children[1..][..k - 1] + children[1..][k..];
    } else {
      assert children[..0] + children[1..] == children[1..];
    }
  }

  lemma WithoutAt(xs: seq<Child>, k: nat)
    requires k < |xs|
    ensures multiset(xs[..k] + xs[k + 1..]) == multiset(xs) - multiset{xs[k]}
  {
    assert xs == xs[..k] + [xs[k]] + xs[k + 1..];
  }

  /** The order in which a directory lists its children makes no difference. */
  lemma {:induction false} ListingOrder(path: Path, a: seq<Child>, b: seq<Child>)
    requires multiset(a) == multiset(b)
    ensures Below(path, a) == Below(path, b)
    decreases |a|
  {
    hide Below, Under;
    if a == [] {
      assert |multiset(b)| == 0;
    } else {
      assert a[0] in multiset(b);
      var k :| 0 <= k < |b| && b[k] == a[0];
      BelowRemove(path, a, 0);
      BelowRemove(path, b, k);
      WithoutAt(a, 0);
      WithoutAt(b, k);
      ListingOrder(path, a[..0] + a[1..], b[..k] + b[k + 1..]);
    }
  }

  lemma {:induction false} BelowSize(path: Path, children: seq<Child>)
    ensures |Below(path, children)| >= |children|
    decreases |children|
  {
    if children != [] {
      BelowSize(path, children[1..]);
    }
  }

  /** What is left of a directory splits into its next child, what is below that, and the rest. */
  lemma BelowNext(path: Path, children: seq<Child>, k: nat)
    requires k < |children|
    ensures var c := children[k];
            var here := path + [c.name];
            Below(path, children[k..]) ==
              multiset{Item(here, MetaOf(c.node))} + (if c.node.DirNode? then Below(here, c.node.children) else multiset{})
              + Below(path, children[k + 1..])
  {
    assert children[k..][0] == children[k] && children[k..][1..] == children[k + 1..];
  }

  lemma PendingPush(stack: seq<Folder>, dir: Folder)
    ensures Pending(stack + [dir]) == Pending(stack) + Below(dir.path, dir.children)
  {
    assert (stack + [dir])[..|stack|] == stack;
  }

  /** Visit the children of one directory and put its subdirectories on the worklist. */
  method ScanDirectory(kind: Kind, text: TextTest, dir: Folder, stack: seq<Folder>, t: Tally,
                       ghost all: multiset<Item>, ghost seen: multiset<Item>)
    returns (r: Result<(seq<Folder>, Tally), ErrorCode>, ghost now: multiset<Item>)
    requires Placed(all) && Tallied(kind, text, seen, t)
    requires seen + Pending(stack) + Below(dir.path, dir.children) == all
    ensures match r
            case Ok((stack', t')) =>
              && Tallied(kind, text, now, t') && now + Pending(stack') == all
              && |now| == |seen| + |dir.children| && |stack'| <= |stack| + |dir.children|
            case Err(code) => Refused(kind, text, all, code)
  {
    hide Tallied, Refused, Placed, Visit, MetaOf, Below, Pending, Sort, NonDescending, NameKey;
    var children := Sort(dir.children, NameKey);
    ListingOrder(dir.path, dir.children, children);
    assert |multiset(children)| == |multiset(dir.children)|;
    assert children[0..] == children;
    var work, tally := stack, t;
    now := seen;
    for k := 0 to |children|
      invariant Tallied(kind, text, now, tally) && |now| == |seen| + k && |work| <= |stack| + k
      invariant now + Pending(work) + Below(dir.path, children[k..]) == all
    {
      var c := children[k];
      var here := dir.path + [c.name];
      var item := Item(here, MetaOf(c.node));
      BelowNext(dir.path, children, k);
      VisitKeeps(kind, text, all, now, tally, item);
      if c.node.DirNode? {
        PendingPush(work, Folder(here, c.node.children));
        work := work + [Folder(here, c.node.children)];
      }
      var next := Visit(kind, text, tally, item);
      if next.Err? {
        return Err(next.error), now;
      }
      tally := next.value;
      now := now + multiset{item};
    }
    BelowNothing(dir.path);
    assert children[|children|..] == [];
    r := Ok((work, tally));
  }

  lemma BelowNothing(path: Path)
    ensures Below(path, []) == multiset{} && Pending([]) == multiset{}
  {
  }

  lemma TallyNothing(kind: Kind, text: TextTest)
    ensures Tallied(kind, text, multiset{}, Tally(0, 0, {}, []))
  {
  }

  /** A complete tally is the manifest. */
  lemma TallyComplete(kind: Kind, text: TextTest, all: multiset<Item>, t: Tally)
    requires Tallied(kind, text, all, t) && |all| <= ENTRY_LIMIT
    ensures Acceptable(kind, text, all) && IsManifest(kind, text, all, Sort(t.docs, EntryKey))
    ensures t.bytes == Sum(all, ContentWeight)
  {
    SortAscends(t.docs, EntryKey);
  }

  /** _tree_manifest: it accepts exactly the acceptable trees, and then reports every entry once,
      in path order, with the exact number of items and of content bytes. */
  method WalkTree(kind: Kind, text: TextTest, root: seq<Child>) returns (r: Result<Measured, ErrorCode>)
    requires WellNamed(root)
    ensures r.Ok? <==> Acceptable(kind, text, Below([], root))
    ensures r.Err? ==> Refused(kind, text, Below([], root), r.error)
    ensures r.Ok? ==>
              && r.value.digest.kind == kind && IsManifest(kind, text, Below([], root), r.value.digest.entries)
              && r.value.counts == Counts(|Below([], root)|, Sum(Below([], root), ContentWeight))
  {
    hide Below, Pending, Tallied, Placed, IsManifest, Sum;
    ghost var all, seen := Below([], root), multiset{};
    BelowPlaced([], root);
    BelowNothing([]);
    TallyNothing(kind, text);
    PendingPush([], Folder([], root));
    var stack, entries, tally := [Folder([], root)], 0, Tally(0, 0, {}, []);
    assert [] + stack == stack;
    while stack != []
      invariant Tallied(kind, text, seen, tally) && seen + Pending(stack) == all && |seen| == entries <= ENTRY_LIMIT
      decreases |Pending(stack)| + |stack|
    {
      var dir, rest := stack[|stack| - 1], stack[..|stack| - 1];
      assert stack == rest + [dir];
      PendingPush(rest, dir);
      BelowSize(dir.path, dir.children);
      assert |all| == |seen| + |Pending(rest)| + |Below(dir.path, dir.children)|;
      entries := entries + |dir.children|;
      if entries > ENTRY_LIMIT {
        return Err(LIMIT_EXCEEDED);
      }
      var step: Result<(seq<Folder>, Tally), ErrorCode>;
      step, seen := ScanDirectory(kind, text, dir, rest, tally, all, seen);
      if step.Err? {
        return Err(step.error);
      }
      assert |all| == |seen| + |Pending(step.value.0)|;
      stack, tally := step.value.0, step.value.1;
    }
    assert seen == all;
    TallyComplete(kind, text, all, tally);
    r := Ok(Measured(Sha256(kind, Sort(tally.docs, EntryKey)), Counts(entries, tally.bytes)));
  }

  // ---- The three kinds of manifest of one tree ----

  /** A recovery manifest lists what an installed manifest lists. */
  lemma RecoveryIsInstalled(text: TextTest, items: multiset<Item>, a: seq<Entry>)
    requires IsManifest(InstalledKind, text, items, a)
    ensures IsManifest(RecoveryKind, text, items, a)
  {
    forall i: Item | i.path != [] ensures EntryOf(InstalledKind, text, i) == EntryOf(RecoveryKind, text, i) {
    }
  }

  lemma {:induction false} SourceEntriesAre(a: Tree, e: Entry)
    ensures e in SourceEntries(a) <==>
            exists x | x in a :: !Skipped(x) && e == Entry(x.path, NormalBody(x.body), NoExtra)
  {
    if a != [] {
      SourceEntriesAre(a[1..], e);
      assert a == [a[0]] + a[1..];
    }
  }

  lemma {:induction false} SourceEntriesAscend(a: Tree)
    requires Ascending(a, EntryKey)
    ensures Ascending(SourceEntries(a), EntryKey)
  {
    if a != [] {
      SourceEntriesAscend(a[1..]);
      var rest := SourceEntries(a[1..]);
      forall j | 0 <= j < |rest| ensures Less(EntryKey(a[0]), EntryKey(rest[j])) {
        SourceEntriesAre(a[1..], rest[j]);
        var x :| x in a[1..] && rest[j] == Entry(x.path, NormalBody(x.body), NoExtra);
        assert EntryKey(x) == EntryKey(rest[j]);
      }
      var first := Entry(a[0].path, NormalBody(a[0].body), NoExtra);
      assert EntryKey(first) == EntryKey(a[0]);
    }
  }

  /** A source manifest of a tree is computed from its installed manifest alone. */
  lemma SourceOfInstalled(text: TextTest, items: multiset<Item>, a: seq<Entry>, b: seq<Entry>)
    requires Placed(items)
    requires IsManifest(InstalledKind, text, items, a) && IsManifest(SourceKind, text, items, b)
    requires forall i | i in items :: EntryOf(InstalledKind, text, i).Ok? && EntryOf(SourceKind, text, i).Ok?
    ensures b == SourceEntries(a)
  {
    forall e ensures e in b <==> e in SourceEntries(a) {
      SourceEntriesAre(a, e);
      if e in b {
        var i :| i in items && i.path != [] && EntryOf(SourceKind, text, i) == Ok(Some(e));
        EntriesCorrespond(text, i);
        var x := EntryOf(InstalledKind, text, i).value.value;
        assert x in a;
      }
      if x :| x in a && !Skipped(x) && e == Entry(x.path, NormalBody(x.body), NoExtra) {
        var i :| i in items && i.path != [] && EntryOf(InstalledKind, text, i) == Ok(Some(x));
        EntriesCorrespond(text, i);
      }
    }
    SourceEntriesAscend(a);
    AscendingOnce(b, SourceEntries(a), EntryKey);
  }

  lemma EntriesCorrespond(text: TextTest, i: Item)
    requires i.path != [] && Slashless(i.path)
    requires EntryOf(InstalledKind, text, i).Ok? && EntryOf(SourceKind, text, i).Ok?
    ensures EntryOf(InstalledKind, text, i).value.Some?
    ensures var x := EntryOf(InstalledKind, text, i).value.value;
            EntryOf(SourceKind, text, i).value ==
              if Skipped(x) then None else Some(Entry(x.path, NormalBody(x.body), NoExtra))
  {
    var path := Join(i.path);
    forall name | name == "build" || name == "source" ensures i.path == [name] <==> path == name {
      if path == name {
        JoinInjective(i.path, [name]);
      }
    }
  }

  // ---- The walk and the manifests of the protocol ----

  lemma {:induction false} SumZero(items: multiset<Item>)
    ensures Sum(items, XattrWeight(SourceKind)) == 0
    decreases |items|
  {
    if items != multiset{} {
      var i :| i in items;
      SumSplit(items, i, XattrWeight(SourceKind));
      SumZero(items - multiset{i});
    }
  }

  /** Without the item of its first entry, a manifest is its rest. */
  lemma RestOfManifest(text: TextTest, items: multiset<Item>, a: Tree, i: Item)
    requires Placed(items) && IsManifest(InstalledKind, text, items, a) && a != []
    requires i in items && i.path != [] && EntryOf(InstalledKind, text, i) == Ok(Some(a[0]))
    ensures Placed(items - multiset{i}) && IsManifest(InstalledKind, text, items - multiset{i}, a[1..])
  {
    hide EntryOf, Less;
    var rest := items - multiset{i};
    assert forall j :: j in rest <==> j in items && j != i;
    HeadIsAlone(a, EntryKey);
    assert a == [a[0]] + a[1..];
    forall e ensures e in a[1..] <==> exists j | j in rest && j.path != [] :: EntryOf(InstalledKind, text, j) == Ok(Some(e)) {
      if e in a[1..] {
        assert e in a;
        var j :| j in items && j.path != [] && EntryOf(InstalledKind, text, j) == Ok(Some(e));
        assert j in rest;
      }
      if j :| j in rest && j.path != [] && EntryOf(InstalledKind, text, j) == Ok(Some(e)) {
        assert e in a;
        EntryPath(InstalledKind, text, i);
        EntryPath(InstalledKind, text, j);
        if e == a[0] {
          JoinInjective(i.path, j.path);
        }
      }
    }
  }

  /** An installed manifest has an entry for every item, and its sizes are those of the tree. */
  lemma {:induction false} ManifestMeasures(text: TextTest, items: multiset<Item>, a: Tree)
    requires Placed(items) && IsManifest(InstalledKind, text, items, a)
    requires forall i | i in items :: i.path != [] && EntryOf(InstalledKind, text, i).Ok?
    ensures |a| == |items| && Bytes(a) == Sum(items, ContentWeight)
    ensures XattrBytes(a) == Sum(items, XattrWeight(InstalledKind))
    decreases a
  {
    hide EntryOf, Ascending, Placed, Yields;
    if a == [] {
      NothingListed(text, items);
    } else {
      var i := FirstItem(text, items, a);
      RestOfManifest(text, items, a, i);
      ManifestMeasures(text, items - multiset{i}, a[1..]);
      EntryMeasures(text, i);
      SumSplit(items, i, ContentWeight);
      SumSplit(items, i, XattrWeight(InstalledKind));
    }
  }

  lemma NothingListed(text: TextTest, items: multiset<Item>)
    requires Placed(items) && IsManifest(InstalledKind, text, items, [])
    requires forall i | i in items :: EntryOf(InstalledKind, text, i).Ok?
    ensures items == multiset{}
  {
    hide EntryOf;
    if items != multiset{} {
      var i :| i in items;
      EntryMeasures(text, i);
    }
  }

  lemma FirstItem(text: TextTest, items: multiset<Item>, a: Tree) returns (i: Item)
    requires IsManifest(InstalledKind, text, items, a) && a != []
    ensures i in items && i.path != [] && EntryOf(InstalledKind, text, i) == Ok(Some(a[0]))
  {
    hide EntryOf, Ascending;
    assert a[0] in a;
    i :| i in items && i.path != [] && EntryOf(InstalledKind, text, i) == Ok(Some(a[0]));
  }

  lemma EntryMeasures(text: TextTest, i: Item)
    requires i.path != [] && EntryOf(InstalledKind, text, i).Ok?
    ensures var e := EntryOf(InstalledKind, text, i).value;
            && e.Some?
            && ContentWeight(i) == (if e.value.body.File? then |e.value.body.content| else 0)
            && XattrWeight(InstalledKind)(i) == (if e.value.extra.Extra? then XattrSum(e.value.extra.xattrs) else 0)
  {
    hide Join;
  }

  /** The limits a walk applies are those of the tree's installed manifest. */
  lemma AcceptableIffFits(kind: Kind, text: TextTest, items: multiset<Item>, a: Tree)
    requires Placed(items) && IsManifest(InstalledKind, text, items, a)
    requires AllListable(InstalledKind, text, items) && AllListable(kind, text, items)
    ensures Acceptable(kind, text, items) <==> Fits(kind, a)
  {
    hide EntryOf, IsManifest, Placed, InodesDiffer;
    ManifestMeasures(text, items, a);
    SumZero(items);
    assert kind == RecoveryKind ==> SameWeight(XattrWeight(kind), XattrWeight(InstalledKind));
    if kind == RecoveryKind {
      SumSame(items, XattrWeight(RecoveryKind), XattrWeight(InstalledKind));
    }
  }

  ghost predicate SameWeight(v: Item -> nat, w: Item -> nat) {
    forall i :: v(i) == w(i)
  }

  lemma {:induction false} SumSame(items: multiset<Item>, v: Item -> nat, w: Item -> nat)
    requires SameWeight(v, w)
    ensures Sum(items, v) == Sum(items, w)
    decreases |items|
  {
    if items != multiset{} {
      var i :| i in items;
      SumSplit(items, i, v);
      SumSplit(items, i, w);
      SumSame(items - multiset{i}, v, w);
    }
  }

  /** The digest a walk reports is the one the protocol computes from the installed manifest. */
  lemma WalkedDigest(kind: Kind, text: TextTest, items: multiset<Item>, a: Tree, b: seq<Entry>)
    requires Placed(items) && IsManifest(InstalledKind, text, items, a) && IsManifest(kind, text, items, b)
    requires AllListable(InstalledKind, text, items) && AllListable(kind, text, items)
    ensures Sha256(kind, b) == DigestOf(kind, a)
  {
    hide EntryOf, IsManifest, Placed, InodesDiffer, SourceEntries;
    match kind
    case SourceKind => SourceOfInstalled(text, items, a, b);
    case InstalledKind => ManifestIsUnique(kind, text, items, a, b);
    case RecoveryKind =>
      RecoveryIsInstalled(text, items, a);
      ManifestIsUnique(kind, text, items, a, b);
  }

  /** A tree that can be listed stands in the protocol for its installed manifest: of any kind, the
      walk answers what TreeManifest says, digest, counts and limits included. */
  method ProtocolManifest(kind: Kind, text: TextTest, root: seq<Child>, ghost a: Tree) returns (r: Result<Measured, ErrorCode>)
    requires WellNamed(root) && IsManifest(InstalledKind, text, Below([], root), a)
    requires AllListable(InstalledKind, text, Below([], root)) && AllListable(kind, text, Below([], root))
    ensures r == TreeManifest(kind, a)
  {
    hide IsManifest, Below, Placed, AllListable, Acceptable, Sum, Fits;
    ghost var items := Below([], root);
    BelowPlaced([], root);
    AcceptableIffFits(kind, text, items, a);
    r := WalkTree(kind, text, root);
    if r.Ok? {
      WalkedDigest(kind, text, items, a, r.value.digest.entries);
      MeasuredCounts(text, items, a);
    }
  }

  lemma MeasuredCounts(text: TextTest, items: multiset<Item>, a: Tree)
    requires Placed(items) && IsManifest(InstalledKind, text, items, a) && AllListable(InstalledKind, text, items)
    ensures |a| == |items| && Bytes(a) == Sum(items, ContentWeight)
  {
    ManifestMeasures(text, items, a);
  }
}
