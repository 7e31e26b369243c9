/** The tree that a walk sees below a directory of the mutable file system. */
module ShownTree {
  import opened Bytes
  import opened Wrappers
  import opened Text
  import opened BundlePath
  import opened BundleTree
  import opened BundleWalk
  import opened BundleFiles
  import opened FileSystem

  // ---- what a walk sees of the file system --------------------------------------------

  ghost predicate ShowsAt(s: State, dist: Path, root: Node, p: Position) {
    match Lookup(root, p)
    case Some(File(data)) => dist + p in s.files && s.files[dist + p] == data && dist + p !in s.dirs
    case Some(Dir(_)) => dist + p in s.dirs && dist + p !in s.files
    case Some(Special) => false
    case None => dist + p !in s.files && dist + p !in s.dirs
  }

  // `root` is the tree below `dist`.
  ghost predicate Shows(s: State, dist: Path, root: Node) {
    forall p: Position :: ShowsAt(s, dist, root, p)
  }

  lemma ShownFile(s: State, dist: Path, root: Node, path: string)
    requires Shows(s, dist, root) && path in Files(root)
    ensures Under(dist, path) in s.files && s.files[Under(dist, path)] == Files(root)[path]
  {
    hide Files, Lookup, Entries, Split;
    var p := FileHasPosition(root, path);
    PathInjective(p);
    EntryIsLookup(root, Entry(p, File(Files(root)[path])));
    assert ShowsAt(s, dist, root, p);
  }

  datatype Kind = Missing | IsFile | IsDirectory | IsSpecial

  ghost function KindAt(root: Node, p: Position): Kind {
    match Lookup(root, p)
    case Some(File(_)) => IsFile
    case Some(Dir(_)) => IsDirectory
    case Some(Special) => IsSpecial
    case None => Missing
  }

  ghost predicate SameShape(a: Node, b: Node) {
    forall p: Position :: KindAt(a, p) == KindAt(b, p)
  }

  // The same files and directories below `dist`, whatever the files hold.
  ghost predicate SamePaths(before: State, now: State, dist: Path) {
    forall q :: dist <= q ==> (q in now.files <==> q in before.files) && (q in now.dirs <==> q in before.dirs)
  }

  lemma ShownShape(before: State, now: State, dist: Path, u: Node, g: Node)
    requires Shows(before, dist, u) && Shows(now, dist, g) && SamePaths(before, now, dist)
    ensures SameShape(u, g)
  {
    hide Lookup;
    forall p: Position
      ensures KindAt(u, p) == KindAt(g, p)
    {
      assert ShowsAt(before, dist, u, p) && ShowsAt(now, dist, g, p);
      assert dist <= dist + p;
    }
  }

  // An entry's counterpart in a tree of the same shape.
  lemma Counterpart(a: Node, b: Node, e: Entry) returns (f: Entry)
    requires SameShape(a, b) && e in Entries([], a)
    ensures f in Entries([], b) && f.position == e.position
    ensures (f.node.Special? <==> e.node.Special?) && (f.node.File? <==> e.node.File?)
  {
    hide Entries, Lookup;
    EntryIsLookup(a, e);
    assert KindAt(a, e.position) == KindAt(b, e.position);
    f := Entry(e.position, Lookup(b, e.position).value);
    EntryIsLookup(b, f);
  }

  lemma ShapeKeepsOrder(a: Node, b: Node)
    requires SameShape(a, b) && TreeOk(a)
    ensures TreeOk(b)
  {
    hide Entries, Fold, ValidPosition, SameShape;
    RootKind(a, b);
    forall e | e in Entries([], b)
      ensures ValidPosition(e.position) && !e.node.Special?
    {
      SameShapeBack(a, b);
      var f := Counterpart(b, a, e);
    }
    forall e, f | e in Entries([], b) && f in Entries([], b) && e != f
      ensures Fold(e.position) != Fold(f.position)
    {
      SameShapeBack(a, b);
      EntryIsLookup(b, e);
      EntryIsLookup(b, f);
      var c := Counterpart(b, a, e);
      var d := Counterpart(b, a, f);
    }
  }

  lemma RootKind(a: Node, b: Node)
    requires SameShape(a, b) && a.Dir?
    ensures b.Dir?
  {
    assert KindAt(a, []) == KindAt(b, []);
  }

  lemma SameShapeBack(a: Node, b: Node)
    requires SameShape(a, b)
    ensures SameShape(b, a)
  {
  }

  lemma ShapeKeepsPaths(a: Node, b: Node)
    requires SameShape(a, b)
    ensures Files(a).Keys <= Files(b).Keys
  {
    hide Files, Entries, Lookup, SameShape;
    forall path | path in Files(a)
      ensures path in Files(b)
    {
      var p := FileHasPosition(a, path);
      var f := Counterpart(a, b, Entry(p, File(Files(a)[path])));
      FileEntry(b, f);
    }
  }

  // ---- there is such a tree -----------------------------------------------------------

  ghost predicate FitsSlice(b: seq<byte>) {
    |b| < 0x8000_0000_0000_0000
  }

  // The tree `n` at `at`, with the files' present contents.
  ghost function Refill(n: Node, at: Path, files: map<Path, seq<byte>>): Node
    decreases n
  {
    match n
    case File(data) => File(if at in files && FitsSlice(files[at]) then files[at] else data)
    case Dir(children) => Dir(map k | k in children :: Refill(children[k], at + [k], files))
    case Special => Special
  }

  lemma {:induction false} RefillLookup(n: Node, at: Path, files: map<Path, seq<byte>>, p: Position)
    ensures Lookup(n, p).None? ==> Lookup(Refill(n, at, files), p).None?
    ensures Lookup(n, p).Some? ==> Lookup(Refill(n, at, files), p) == Some(Refill(Lookup(n, p).value, at + p, files))
    decreases |p|
  {
    if p == [] {
      assert at + p == at;
    } else if n.Dir? && p[0] in n.children {
      RefillLookup(n.children[p[0]], at + [p[0]], files, p[1..]);
      assert at + [p[0]] + p[1..] == at + p;
    }
  }

  lemma ShownAgain(before: State, now: State, dist: Path, u: Node) returns (g: Node)
    requires Shows(before, dist, u) && SamePaths(before, now, dist)
    requires forall p: Position :: dist + p in now.files ==> FitsSlice(now.files[dist + p])
    ensures Shows(now, dist, g)
  {
    hide Lookup;
    g := Refill(u, dist, now.files);
    forall p: Position
      ensures ShowsAt(now, dist, g, p)
    {
      RefillLookup(u, dist, now.files, p);
      assert ShowsAt(before, dist, u, p) && dist <= dist + p;
    }
  }
}
