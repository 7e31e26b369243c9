/** The recursive walk over a bundle tree: path policy, case-fold collisions, file identities. */
module BundleWalk {
  import opened Bytes
  import opened Wrappers
  import opened Text
  import opened Checksum
  import PeLayout
  import opened PeSigning
  import opened BundlePath
  import opened BundleTree

  datatype BundleFileIdentity = BundleFileIdentity(
    path: string, size: nat, sha256: string, pePayloadSha256: Option<string>, isPe: bool)

  // What the walk needs to know besides the tree.
  datatype Policy = Policy(sha: Sha256, targets: set<string>, state: BundleState)

  // ---- what the walk establishes ------------------------------------------------------

  ghost function IdentityOf(y: Policy, path: string, data: Slice): BundleFileIdentity {
    BundleFileIdentity(
      path, |data|, Identity(y.sha, data),
      if path in y.targets && PeLayout.Accepted(data) then Some(Identity(y.sha, Stream(data))) else None,
      [0x4d, 0x5a] <= data)
  }

  ghost predicate EntryOk(y: Policy, e: Entry) {
    && ValidPosition(e.position) && !e.node.Special?
    && (e.node.File? && PathOf(e.position) in y.targets ==> Accepts(e.node.data, y.state))
  }

  ghost predicate EntriesOk(y: Policy, es: set<Entry>) {
    forall e :: e in es ==> EntryOk(y, e)
  }

  ghost predicate FoldsApart(es: set<Entry>) {
    forall e, f :: e in es && f in es && e != f ==> Fold(e.position) != Fold(f.position)
  }

  ghost function Folds(es: set<Entry>): set<string> {
    set e | e in es :: Fold(e.position)
  }

  // Every entry passes the policy, and no two share a folded path, nor one with `seen`.
  ghost predicate WalkOk(y: Policy, es: set<Entry>, seen: set<string>) {
    EntriesOk(y, es) && FoldsApart(es) && Folds(es) !! seen
  }

  ghost function Identities(y: Policy, es: set<Entry>): set<BundleFileIdentity> {
    set e | e in es && e.node.File? :: IdentityOf(y, PathOf(e.position), e.node.data)
  }

  ghost function Elements<T>(s: seq<T>): set<T> {
    set x | x in s
  }

  lemma SameElements<T>(a: seq<T>, b: seq<T>)
    requires multiset(a) == multiset(b)
    ensures Elements(a) == Elements(b)
  {
    forall x
      ensures x in Elements(a) <==> x in Elements(b)
    {
      assert x in a <==> x in multiset(a);
      assert x in b <==> x in multiset(b);
    }
  }

  // ---- one child more -----------------------------------------------------------------

  lemma AddChild(prefix: Position, part: Node, k: Name, child: Node)
    requires part.Dir? && k !in part.children
    ensures Entries(prefix, Dir(part.children[k := child])) == Entries(prefix, part) + ChildEntries(prefix, k, child)
  {
    var full := Dir(part.children[k := child]);
    forall e
      ensures e in Entries(prefix, full) <==> e in Entries(prefix, part) + ChildEntries(prefix, k, child)
    {
      EntriesByChild(prefix, full, e);
      EntriesByChild(prefix, part, e);
      assert forall j :: j != k ==> (FromChild(prefix, full, j, e) <==> FromChild(prefix, part, j, e));
      assert FromChild(prefix, full, k, e) <==> e in ChildEntries(prefix, k, child);
    }
  }

  lemma ChildrenApart(prefix: Position, part: Node, k: Name, child: Node)
    requires part.Dir? && k !in part.children
    ensures Entries(prefix, part) !! ChildEntries(prefix, k, child)
    ensures Entry(prefix + [k], child) !in Entries(prefix + [k], child)
  {
    forall e | e in Entries(prefix, part)
      ensures |prefix| < |e.position| && e.position[|prefix|] != k
    {
      EntriesAreLookups(prefix, part, e);
      assert e.position[|prefix|..][0] == e.position[|prefix|];
    }
    forall e | e in Entries(prefix + [k], child)
      ensures prefix + [k] < e.position && e.position[|prefix|] == k
    {
      EntriesAreLookups(prefix + [k], child, e);
    }
  }

  lemma FoldsOfUnion(a: set<Entry>, b: set<Entry>)
    requires a !! b
    ensures Folds(a + b) == Folds(a) + Folds(b)
    ensures FoldsApart(a + b) <==> FoldsApart(a) && FoldsApart(b) && Folds(a) !! Folds(b)
  {
    if FoldsApart(a + b) {
      forall x | x in Folds(a)
        ensures x !in Folds(b)
      {
        var e :| e in a && Fold(e.position) == x;
        assert forall f :: f in b ==> e in a + b && f in a + b && Fold(f.position) != x;
      }
      assert forall e :: e in a ==> e in a + b;
      assert forall e :: e in b ==> e in a + b;
    }
    if FoldsApart(a) && FoldsApart(b) && Folds(a) !! Folds(b) {
      assert forall e :: e in a ==> Fold(e.position) in Folds(a);
      assert forall e :: e in b ==> Fold(e.position) in Folds(b);
    }
  }

  // The walk's accumulated state: folded paths seen, files found.
  datatype Progress = Progress(seen: set<string>, found: set<BundleFileIdentity>)

  ghost function After(y: Policy, s: Progress, es: set<Entry>): Progress {
    Progress(s.seen + Folds(es), s.found + Identities(y, es))
  }

  // The entry `e` with all of `below` passes against what has been seen so far.
  ghost predicate ChildOk(y: Policy, e: Entry, below: set<Entry>, seen: set<string>) {
    Fold(e.position) !in seen && EntryOk(y, e) && WalkOk(y, below, seen + {Fold(e.position)})
  }

  /** A walk over one more child passes exactly when the child passes after the walk so far,
      and leaves what visiting the child leaves. */
  lemma AddChildWalk(y: Policy, es: set<Entry>, e: Entry, below: set<Entry>, s: Progress)
    requires es !! {e} + below && e !in below
    ensures WalkOk(y, es + ({e} + below), s.seen) <==>
          WalkOk(y, es, s.seen) && ChildOk(y, e, below, After(y, s, es).seen)
    ensures After(y, s, es + ({e} + below)) == After(y, After(y, s, es), {e} + below)
  {
    hide EntryOk, Fold, IdentityOf, FoldsApart;
    FoldsOfUnion({e}, below);
    FoldsOfUnion(es, {e} + below);
    FoldsApartSingle(e);
    assert Folds({e}) == {Fold(e.position)};
    IdentitiesOfUnion(y, es, {e} + below);
  }

  lemma FoldsApartSingle(e: Entry)
    ensures FoldsApart({e})
  {
  }

  lemma IdentitiesOfUnion(y: Policy, a: set<Entry>, b: set<Entry>)
    ensures Identities(y, a + b) == Identities(y, a) + Identities(y, b)
  {
    hide IdentityOf;
  }

  // What one entry leaves, before anything below it.
  lemma AfterEntry(y: Policy, s: Progress, e: Entry, below: set<Entry>)
    ensures After(y, s, {e} + below) == After(y, After(y, s, {e}), below)
    ensures After(y, s, {e}).seen == s.seen + {Fold(e.position)}
    ensures After(y, s, {e}).found ==
            s.found + if e.node.File? then {IdentityOf(y, PathOf(e.position), e.node.data)} else {}
  {
    hide IdentityOf;
    IdentitiesOfUnion(y, {e}, below);
    assert Folds({e} + below) == Folds({e}) + Folds(below);
    assert Folds({e}) == {Fold(e.position)};
    if e.node.File? {
      assert Identities(y, {e}) == {IdentityOf(y, PathOf(e.position), e.node.data)};
    }
  }

  lemma NothingBelow(y: Policy, p: Position, n: Node, seen: set<string>)
    requires !n.Dir?
    ensures Entries(p, n) == {} && WalkOk(y, {}, seen)
  {
  }

  lemma WalkOkSubset(y: Policy, part: set<Entry>, all: set<Entry>, seen: set<string>)
    requires part <= all && WalkOk(y, all, seen)
    ensures WalkOk(y, part, seen)
  {
  }

  lemma EntriesMonotone(prefix: Position, part: Node, all: Node)
    requires part.Dir? && all.Dir? && part.children.Keys <= all.children.Keys
    requires forall k :: k in part.children ==> part.children[k] == all.children[k]
    ensures Entries(prefix, part) <= Entries(prefix, all)
  {
  }

  // ---- the walk -----------------------------------------------------------------------

  // `read_dir`: every name once, in whatever order the file system likes.
  method ReadDir(children: map<Name, Node>) returns (names: seq<Name>)
    ensures Elements(names) == children.Keys
    ensures forall i, j :: 0 <= i < j < |names| ==> names[i] != names[j]
  {
    var rest := children.Keys;
    names := [];
    while rest != {}
      invariant Elements(names) + rest == children.Keys && Elements(names) !! rest
      invariant forall i, j :: 0 <= i < j < |names| ==> names[i] != names[j]
      decreases rest
    {
      var name :| name in rest;
      assert forall i :: 0 <= i < |names| ==> names[i] in Elements(names);
      names := names + [name];
      rest := rest - {name};
    }
  }

  lemma SortedNames(names: seq<Name>, sorted: seq<Name>)
    requires forall i, j :: 0 <= i < j < |names| ==> names[i] != names[j]
    requires sorted == Sort(names, (n: Name) => n)
    ensures Elements(sorted) == Elements(names)
    ensures forall i, j :: 0 <= j < i < |sorted| ==> sorted[j] != sorted[i]
  {
    SortStrict(names, (n: Name) => n);
    SameElements(sorted, names);
    forall i, j | 0 <= j < i < |sorted|
      ensures sorted[j] != sorted[i]
    {
      LessIrreflexive(sorted[i]);
    }
  }

  function RelativePath(p: Position): (r: Option<string>)
    requires p != []
    ensures r == if ValidPosition(p) then Some(PathOf(p)) else None
  {
    JoinedPathLemma(p);
    if !ValidPosition(p) then None
    else if ValidRelativePath(PathOf(p)) then Some(PathOf(p)) else None
  }

  lemma JoinedPathLemma(p: Position)
    requires p != []
    ensures ValidPosition(p) ==> ValidRelativePath(PathOf(p))
  {
    if ValidPosition(p) {
      JoinedPathValid(p);
    }
  }

  class BundleWalk {
    const sha: Sha256
    const targets: set<string>
    const state: BundleState
    var seenEntries: map<string, string>
    var files: seq<BundleFileIdentity>

    ghost function ThePolicy(): Policy {
      Policy(sha, targets, state)
    }

    // No two collected files share a path, and the folded path of each has been seen.
    ghost predicate Valid()
      reads this
    {
      && (forall i, j :: 0 <= i < j < |files| ==> files[i].path != files[j].path)
      && (forall i :: 0 <= i < |files| ==> FoldPath(files[i].path) in seenEntries)
    }

    constructor (sha: Sha256, targets: set<string>, state: BundleState)
      ensures this.sha == sha && this.targets == targets && this.state == state
      ensures Valid() && seenEntries == map[] && files == []
    {
      this.sha, this.targets, this.state := sha, targets, state;
      seenEntries, files := map[], [];
    }

    ghost function Now(): Progress
      reads this
    {
      Progress(seenEntries.Keys, Elements(files))
    }

    /** Visits a directory.  Fails exactly when some entry at any depth breaks the policy or
        collides; the order of enumeration shows in neither outcome. */
    method Visit(prefix: Position, directory: Node) returns (ok: bool)
      requires Valid() && directory.Dir? && ValidPosition(prefix)
      modifies this
      decreases directory, 0
      ensures Valid()
      ensures ok <==> WalkOk(ThePolicy(), Entries(prefix, directory), old(Now().seen))
      ensures ok ==> Now() == After(ThePolicy(), old(Now()), Entries(prefix, directory))
    {
      hide WalkOk, After, ChildOk, Entries, Elements, ThePolicy, Valid, IsPart, Sort;
      var enumerated := ReadDir(directory.children);
      var names := Sort(enumerated, (n: Name) => n);
      SortedNames(enumerated, names);
      ghost var y, start, part := ThePolicy(), Now(), Dir(map[]);
      NoChildren(y, prefix, start);
      NoNames(directory);
      assert names[..0] == [];
      for i := 0 to |names|
        invariant Valid() && ThePolicy() == y
        invariant part.Dir? && IsPart(part, directory, Elements(names[..i]))
        invariant WalkOk(y, Entries(prefix, part), start.seen)
        invariant Now() == After(y, start, Entries(prefix, part))
      {
        NextName(names, i, directory);
        var node := directory.children[names[i]];
        NextChild(y, prefix, directory, part, Elements(names[..i]), names[i], start);
        ok := VisitEntry(prefix + [names[i]], node);
        if !ok {
          return false;
        }
        part := Dir(part.children[names[i] := node]);
      }
      assert names[..|names|] == names;
      WholePart(part, directory);
      return true;
    }

    // One turn of the loop: the entry itself, and all below it when it is a directory.
    method VisitEntry(p: Position, node: Node) returns (ok: bool)
      requires Valid() && p != []
      modifies this
      decreases node, 1
      ensures Valid()
      ensures ok <==> ChildOk(ThePolicy(), Entry(p, node), Entries(p, node), old(Now().seen))
      ensures ok ==> Now() == After(ThePolicy(), old(Now()), {Entry(p, node)} + Entries(p, node))
    {
      hide WalkOk, After, Entries;
      ghost var y, start := ThePolicy(), Now();
      AfterEntry(y, start, Entry(p, node), Entries(p, node));
      var relative := RelativePath(p);
      if relative.None? {
        return false;
      }
      var folded := FoldPath(relative.value);
      var collides := folded in seenEntries;
      seenEntries := seenEntries[folded := relative.value];
      if collides {
        return false;
      }
      match node
      case Special =>
        return false;
      case Dir(_) =>
        assert Now() == After(y, start, {Entry(p, node)});
        ok := Visit(p, node);
      case File(bytes) =>
        NothingBelow(y, p, node, start.seen + {folded});
        assert {Entry(p, node)} + {} == {Entry(p, node)};
        var identity := Identify(relative.value, bytes);
        if identity.None? {
          return false;
        }
        assert forall f :: f in Elements(files) ==> FoldPath(f.path) in start.seen;
        files := files + [identity.value];
        assert Elements(files) == start.found + {identity.value};
        return true;
    }

    // Reads one file's identity; a signing target has to be an image in the walk's state.
    method Identify(relative: string, bytes: Slice) returns (r: Option<BundleFileIdentity>)
      ensures r.Some? <==> (relative in targets ==> Accepts(bytes, state))
      ensures r.Some? ==> r.value == IdentityOf(ThePolicy(), relative, bytes)
    {
      var payload: Option<string> := None;
      if relative in targets {
        var normalized := NormalizedPayload(sha, bytes, state);
        if !normalized.Parsed? {
          return None;
        }
        payload := Some(normalized.value);
      }
      var digest := Sha256Hex(sha, bytes);
      return Some(BundleFileIdentity(relative, |bytes|, digest, payload, [0x4d, 0x5a] <= bytes));
    }
  }

  // `part` is `all` with only the children in `names`.
  ghost predicate IsPart(part: Node, all: Node, names: set<Name>) {
    && part.Dir? && all.Dir? && part.children.Keys == names
    && forall k :: k in part.children ==> k in all.children && part.children[k] == all.children[k]
  }

  lemma NoNames(all: Node)
    requires all.Dir?
    ensures IsPart(Dir(map[]), all, Elements([]))
  {
  }

  lemma NextName(names: seq<Name>, i: nat, all: Node)
    requires i < |names| && all.Dir? && Elements(names) == all.children.Keys
    requires forall j, k :: 0 <= j < k < |names| ==> names[j] != names[k]
    ensures names[i] in all.children && names[i] !in Elements(names[..i])
    ensures Elements(names[..i + 1]) == Elements(names[..i]) + {names[i]}
  {
    assert names[..i + 1] == names[..i] + [names[i]];
    assert names[i] in Elements(names);
  }

  lemma WholePart(part: Node, all: Node)
    requires all.Dir? && IsPart(part, all, all.children.Keys)
    ensures part == all
  {
    assert part.children == all.children;
  }

  lemma NoChildren(y: Policy, prefix: Position, s: Progress)
    ensures WalkOk(y, Entries(prefix, Dir(map[])), s.seen)
    ensures After(y, s, Entries(prefix, Dir(map[]))) == s
  {
    assert Entries(prefix, Dir(map[])) == {};
  }

  // The step of the loop in `Visit`: the next child decides whether the longer walk passes,
  // and its failure fails the whole directory.
  lemma NextChild(y: Policy, prefix: Position, all: Node, part: Node, names: set<Name>, k: Name, s: Progress)
    requires all.Dir? && IsPart(part, all, names) && k in all.children && k !in names
    requires WalkOk(y, Entries(prefix, part), s.seen)
    ensures var child := all.children[k];
            var more := Dir(part.children[k := child]);
            && var ok := ChildOk(y, Entry(prefix + [k], child), Entries(prefix + [k], child),
                After(y, s, Entries(prefix, part)).seen);
            && (WalkOk(y, Entries(prefix, more), s.seen) <==> ok)
            && IsPart(more, all, names + {k})
            && (WalkOk(y, Entries(prefix, all), s.seen) ==> ok)
            && After(y, s, Entries(prefix, more)) ==
               After(y, After(y, s, Entries(prefix, part)), {Entry(prefix + [k], child)} + Entries(prefix + [k], child))
  {
    hide WalkOk, After, ChildOk, Entries;
    var child := all.children[k];
    var more := Dir(part.children[k := child]);
    AddChild(prefix, part, k, child);
    ChildrenApart(prefix, part, k, child);
    AddChildWalk(y, Entries(prefix, part), Entry(prefix + [k], child), Entries(prefix + [k], child), s);
    EntriesMonotone(prefix, more, all);
    if WalkOk(y, Entries(prefix, all), s.seen) {
      WalkOkSubset(y, Entries(prefix, more), Entries(prefix, all), s.seen);
    }
  }
}
