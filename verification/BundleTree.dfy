/** A bundle directory as the file system shows it, and the recursive walk over it. */
module BundleTree {
  import opened Bytes
  import opened Wrappers
  import opened Text
  import opened BundlePath

  // `Special` stands for symbolic links, reparse points and whatever else is neither file nor directory.
  datatype Node = File(data: Slice) | Dir(children: map<Name, Node>) | Special

  ghost function Lookup(n: Node, p: Position): Option<Node> {
    if p == [] then Some(n)
    else if n.Dir? && p[0] in n.children then Lookup(n.children[p[0]], p[1..])
    else None
  }

  // An entry as the walk meets it: where it is and what it is.
  datatype Entry = Entry(position: Position, node: Node)

  // All entries below the directory `n` at `prefix`, at any depth, directories included.
  ghost function Entries(prefix: Position, n: Node): (es: set<Entry>)
    decreases n
  {
    if !n.Dir? then {}
    else
      set k, e
        | k in n.children && e in {Entry(prefix + [k], n.children[k])} + Entries(prefix + [k], n.children[k])
        :: e
  }

  // The entries a child contributes: itself and everything below it.
  ghost function ChildEntries(prefix: Position, k: Name, child: Node): set<Entry> {
    {Entry(prefix + [k], child)} + Entries(prefix + [k], child)
  }

  ghost predicate FromChild(prefix: Position, n: Node, k: Name, e: Entry) {
    n.Dir? && k in n.children && e in ChildEntries(prefix, k, n.children[k])
  }

  lemma EntriesByChild(prefix: Position, n: Node, e: Entry)
    ensures e in Entries(prefix, n) <==> exists k :: FromChild(prefix, n, k, e)
  {
    if e in Entries(prefix, n) {
      var k :| k in n.children && e in {Entry(prefix + [k], n.children[k])} + Entries(prefix + [k], n.children[k]);
      assert FromChild(prefix, n, k, e);
    }
  }

  lemma {:induction false} EntriesAreLookups(prefix: Position, n: Node, e: Entry)
    ensures e in Entries(prefix, n) <==>
            prefix < e.position && Lookup(n, e.position[|prefix|..]) == Some(e.node)
    decreases n
  {
    var p := e.position;
    EntriesByChild(prefix, n, e);
    if n.Dir? {
      forall k | k in n.children
        ensures FromChild(prefix, n, k, e) <==>
              prefix + [k] <= p && Lookup(n.children[k], p[|prefix| + 1..]) == Some(e.node)
      {
        EntriesAreLookups(prefix + [k], n.children[k], e);
        assert p == prefix + [k] ==> p[|prefix| + 1..] == [];
      }
      if prefix < p {
        assert p[|prefix|..][1..] == p[|prefix| + 1..];
        assert forall k :: prefix + [k] <= p <==> k == p[|prefix|];
      }
    }
  }

  // ---- files by path ------------------------------------------------------------------

  ghost predicate IsFileAt(n: Node, path: string, e: Entry) {
    e in Entries([], n) && e.node.File? && PathOf(e.position) == path
  }

  ghost function FilePaths(n: Node): set<string> {
    set e | e in Entries([], n) && IsFileAt(n, PathOf(e.position), e) :: PathOf(e.position)
  }

  ghost function BytesAt(n: Node, path: string): Slice
    requires path in FilePaths(n)
  {
    var e :| e in Entries([], n) && IsFileAt(n, path, e);
    e.node.data
  }

  /** The simple view of a bundle: which bytes each path holds.  Directories do not show. */
  ghost function Files(n: Node): map<string, Slice> {
    map path | path in FilePaths(n) :: BytesAt(n, path)
  }

  lemma FilesAt(n: Node, p: Position)
    requires p != []
    ensures PathOf(p) in Files(n) <==> Lookup(n, p).Some? && Lookup(n, p).value.File?
    ensures PathOf(p) in Files(n) ==> Lookup(n, p) == Some(File(Files(n)[PathOf(p)]))
  {
    hide Entries, Lookup, Join;
    if PathOf(p) in Files(n) {
      var q := FileHasPosition(n, PathOf(p));
      EntryIsLookup(n, Entry(q, File(Files(n)[PathOf(p)])));
      PathInjective(p);
      PathInjective(q);
    }
    if Lookup(n, p).Some? && Lookup(n, p).value.File? {
      var e := Entry(p, Lookup(n, p).value);
      EntryIsLookup(n, e);
      assert IsFileAt(n, PathOf(p), e);
    }
  }

  lemma BytesAtFile(n: Node, path: string)
    requires path in FilePaths(n)
    ensures exists e :: IsFileAt(n, path, e) && e.node.data == BytesAt(n, path)
  {
    hide Entries, Join;
  }

  lemma EntryIsLookup(n: Node, e: Entry)
    ensures e in Entries([], n) <==> e.position != [] && Lookup(n, e.position) == Some(e.node)
  {
    EntriesAreLookups([], n, e);
    assert e.position[0..] == e.position;
  }

  lemma FileHasPosition(n: Node, path: string) returns (p: Position)
    requires path in Files(n)
    ensures p != [] && PathOf(p) == path && Entry(p, File(Files(n)[path])) in Entries([], n)
  {
    hide Entries, Lookup, Join;
    BytesAtFile(n, path);
    var e: Entry :| IsFileAt(n, path, e) && e.node.data == Files(n)[path];
    EntryIsLookup(n, e);
    p := e.position;
  }
}
