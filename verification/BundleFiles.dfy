/** Collecting a bundle: the sorted identities of exactly the files in the tree. */
module BundleFiles {
  import opened Bytes
  import opened Wrappers
  import opened Text
  import opened Checksum
  import PeLayout
  import opened PeSigning
  import opened BundlePath
  import opened BundleTree
  import opened BundleWalk

  // Bundle path and stage name of every first-party image.
  type PeMap = seq<(string, string)>

  predicate ValidStageName(name: string) {
    name != "" && '/' !in name && '\\' !in name
  }

  ghost predicate ValidPes(pes: PeMap) {
    && pes != []
    && (forall i :: 0 <= i < |pes| ==> ValidRelativePath(pes[i].0) && ValidStageName(pes[i].1))
    && (forall i, j :: 0 <= i < j < |pes| ==> pes[i].0 != pes[j].0 && pes[i].1 != pes[j].1)
  }

  function TargetPaths(pes: PeMap): set<string> {
    set e | e in pes :: e.0
  }

  method SigningTargets(pes: PeMap) returns (r: Option<set<string>>)
    ensures r.Some? <==> ValidPes(pes)
    ensures r.Some? ==> r.value == TargetPaths(pes)
  {
    if pes == [] {
      return None;
    }
    var targets: set<string>, stageNames: set<string> := {}, {};
    for i := 0 to |pes|
      invariant forall j :: 0 <= j < i ==> ValidRelativePath(pes[j].0) && ValidStageName(pes[j].1)
      invariant forall j, k :: 0 <= j < k < i ==> pes[j].0 != pes[k].0 && pes[j].1 != pes[k].1
      invariant targets == (set j | 0 <= j < i :: pes[j].0)
      invariant stageNames == (set j | 0 <= j < i :: pes[j].1)
    {
      var (path, stageName) := pes[i];
      if !ValidRelativePath(path) {
        return None;
      }
      if !(stageName != "" && '/' !in stageName && '\\' !in stageName && stageName !in stageNames) {
        return None;
      }
      stageNames := stageNames + {stageName};
      if path in targets {
        return None;
      }
      targets := targets + {path};
    }
    return Some(targets);
  }

  // ---- bundles ------------------------------------------------------------------------

  // Nothing but files and directories, safe names, and no two entries that differ only in case.
  ghost predicate TreeOk(root: Node) {
    && root.Dir?
    && (forall e :: e in Entries([], root) ==> ValidPosition(e.position) && !e.node.Special?)
    && FoldsApart(Entries([], root))
  }

  // A non-empty bundle whose first-party images are all there, in the asserted state.
  ghost predicate BundleOk(pes: PeMap, root: Node, state: BundleState) {
    && ValidPes(pes) && TreeOk(root) && Files(root) != map[]
    && TargetPaths(pes) <= Files(root).Keys
    && forall t :: t in TargetPaths(pes) ==> Accepts(Files(root)[t], state)
  }

  function ByPath(f: BundleFileIdentity): string {
    f.path
  }

  ghost function FileIdentities(y: Policy, files: map<string, Slice>): set<BundleFileIdentity> {
    set path | path in files :: IdentityOf(y, path, files[path])
  }

  // The identities of exactly these files, strictly by path.
  ghost predicate IsListing(y: Policy, listing: seq<BundleFileIdentity>, files: map<string, Slice>) {
    StrictlySortedBy(listing, ByPath) && Elements(listing) == FileIdentities(y, files)
  }

  /** There is only one listing of a bundle. */
  lemma ListingUnique(y: Policy, a: seq<BundleFileIdentity>, b: seq<BundleFileIdentity>, files: map<string, Slice>)
    requires IsListing(y, a, files) && IsListing(y, b, files)
    ensures a == b
  {
    assert forall x :: x in a <==> x in Elements(a);
    assert forall x :: x in b <==> x in Elements(b);
    StrictlySortedUnique(a, b, ByPath);
  }

  // A manifest entry for `path` with these bytes, field by field.
  ghost predicate Describes(y: Policy, f: BundleFileIdentity, path: string, data: Slice) {
    && f.path == path && f.size == |data| && f.sha256 == Hex(y.sha(data))
    && f.pePayloadSha256 ==
         (if path in y.targets && PeLayout.Accepted(data) then Some(Hex(y.sha(Stream(data)))) else None)
    && (f.isPe <==> 2 <= |data| && data[0] == 0x4d && data[1] == 0x5a)
  }

  /** A listing has one entry for each file, and the entry gives its length, its hash and, for a
      first-party image, the hash of its normalised stream. */
  lemma ListingDescribes(y: Policy, listing: seq<BundleFileIdentity>, files: map<string, Slice>)
    requires IsListing(y, listing, files)
    ensures forall i :: 0 <= i < |listing| ==>
              listing[i].path in files && Describes(y, listing[i], listing[i].path, files[listing[i].path])
    ensures forall path :: path in files ==> exists i :: 0 <= i < |listing| && listing[i].path == path
    ensures forall i, j :: 0 <= i < j < |listing| ==> Less(listing[i].path, listing[j].path)
  {
    hide Stream, PeLayout.Accepted;
    forall i | 0 <= i < |listing|
      ensures listing[i].path in files && Describes(y, listing[i], listing[i].path, files[listing[i].path])
    {
      assert listing[i] in Elements(listing);
    }
    forall path | path in files
      ensures exists i :: 0 <= i < |listing| && listing[i].path == path
    {
      assert IdentityOf(y, path, files[path]) in Elements(listing);
    }
    forall i, j | 0 <= i < j < |listing|
      ensures Less(listing[i].path, listing[j].path)
    {
      assert Less(ByPath(listing[i]), ByPath(listing[j]));
    }
  }

  lemma WalkedFiles(y: Policy, root: Node)
    ensures Identities(y, Entries([], root)) == FileIdentities(y, Files(root))
  {
    hide IdentityOf;
    forall e | e in Entries([], root) && e.node.File?
      ensures PathOf(e.position) in Files(root) && Files(root)[PathOf(e.position)] == e.node.data
    {
      FileEntry(root, e);
    }
    forall path | path in Files(root)
      ensures IdentityOf(y, path, Files(root)[path]) in Identities(y, Entries([], root))
    {
      var p := FileHasPosition(root, path);
    }
  }

  lemma FileEntry(root: Node, e: Entry)
    requires e in Entries([], root) && e.node.File?
    ensures e.position != []
    ensures PathOf(e.position) in Files(root) && Files(root)[PathOf(e.position)] == e.node.data
  {
    EntriesAreLookups([], root, e);
    assert e.position[0..] == e.position;
    FilesAt(root, e.position);
  }

  // The walk's verdict on the whole tree, in terms of the tree's files.
  lemma WalkedTree(y: Policy, root: Node)
    requires root.Dir?
    ensures WalkOk(y, Entries([], root), {}) <==>
            TreeOk(root) && forall t :: t in y.targets && t in Files(root) ==> Accepts(Files(root)[t], y.state)
  {
    forall e | e in Entries([], root) && e.node.File?
      ensures PathOf(e.position) in Files(root) && Files(root)[PathOf(e.position)] == e.node.data
    {
      FileEntry(root, e);
    }
    if WalkOk(y, Entries([], root), {}) {
      forall t | t in y.targets && t in Files(root)
        ensures Accepts(Files(root)[t], y.state)
      {
        var p := FileHasPosition(root, t);
        assert EntryOk(y, Entry(p, File(Files(root)[t])));
      }
    }
  }

  /** Collects exactly the bundles that are in order, with their one listing: whatever order
      directories enumerate in, and though depth-first order is not path order. */
  method CollectBundleFiles(sha: Sha256, pes: PeMap, root: Node, state: BundleState)
    returns (r: Option<seq<BundleFileIdentity>>)
    ensures r.Some? <==> BundleOk(pes, root, state)
    ensures r.Some? ==> IsListing(Policy(sha, TargetPaths(pes), state), r.value, Files(root))
  {
    hide Entries, WalkOk, IsListing, Sort, FileIdentities, TreeOk, ValidPes, Files;
    TreeOkIsDir(root);
    if !root.Dir? {
      return None;
    }
    var targets := SigningTargets(pes);
    if targets.None? {
      return None;
    }
    ghost var y := Policy(sha, targets.value, state);
    var walk := new BundleWalk(sha, targets.value, state);
    WalkedTree(y, root);
    WalkedFiles(y, root);
    assert walk.Now() == Progress({}, {});
    assert After(y, Progress({}, {}), Entries([], root)).found == FileIdentities(y, Files(root));
    var ok := walk.Visit([], root);
    if !ok {
      return None;
    }
    var files := Sort(walk.files, ByPath);
    SortedListing(y, walk.files, files, Files(root));
    if files == [] {
      return None;
    }
    var observed := set f | f in files && f.pePayloadSha256.Some? :: f.path;
    ObservedTargets(y, root, files);
    if observed != targets.value {
      return None;
    }
    return Some(files);
  }

  lemma EmptyListing(y: Policy, listing: seq<BundleFileIdentity>, files: map<string, Slice>)
    requires Elements(listing) == FileIdentities(y, files)
    ensures listing == [] <==> files == map[]
  {
    hide IdentityOf;
    if listing != [] {
      assert listing[0] in Elements(listing);
    }
    if path :| path in files {
      assert IdentityOf(y, path, files[path]) in Elements(listing);
    }
  }

  lemma TreeOkIsDir(root: Node)
    ensures TreeOk(root) ==> root.Dir?
  {
  }

  // Sorting what the walk found gives the listing.
  lemma SortedListing(
    y: Policy, found: seq<BundleFileIdentity>, sorted: seq<BundleFileIdentity>, files: map<string, Slice>)
    requires forall i, j :: 0 <= i < j < |found| ==> found[i].path != found[j].path
    requires Elements(found) == FileIdentities(y, files) && sorted == Sort(found, ByPath)
    ensures IsListing(y, sorted, files)
    ensures sorted == [] <==> files == map[]
  {
    hide IdentityOf, Sort, Elements, FileIdentities;
    SortStrict(found, ByPath);
    SameElements(sorted, found);
    EmptyListing(y, sorted, files);
  }

  lemma ObservedTargets(y: Policy, root: Node, files: seq<BundleFileIdentity>)
    requires IsListing(y, files, Files(root))
    requires forall t :: t in y.targets && t in Files(root) ==> Accepts(Files(root)[t], y.state)
    ensures (set f | f in files && f.pePayloadSha256.Some? :: f.path) == y.targets * Files(root).Keys
  {
    var observed := set f | f in files && f.pePayloadSha256.Some? :: f.path;
    forall f | f in files
      ensures f.path in Files(root) && f == IdentityOf(y, f.path, Files(root)[f.path])
    {
      assert f in Elements(files);
    }
    forall t | t in y.targets && t in Files(root)
      ensures t in observed
    {
      var f := IdentityOf(y, t, Files(root)[t]);
      assert f in FileIdentities(y, Files(root));
      assert f in files && f.pePayloadSha256.Some?;
    }
  }

  // No folded path of a file equals another's or is a component prefix of it.
  lemma FoldedPathsApart(pes: PeMap, root: Node, state: BundleState, p: string, q: string)
    requires BundleOk(pes, root, state) && p in Files(root) && q in Files(root) && p != q
    ensures FoldPath(p) != FoldPath(q)
    ensures !(FoldPath(p) + "/" <= FoldPath(q))
  {
    var m := FileHasPosition(root, p);
    var n := FileHasPosition(root, q);
    var file := Entry(m, File(Files(root)[p]));
    assert file != Entry(n, File(Files(root)[q]));
    if FoldPath(p) + "/" <= FoldPath(q) {
      var k := FoldedPrefixIsAncestor(m, n);
      var ancestor := AncestorIsDirectory(root, Entry(n, File(Files(root)[q])), k);
    }
  }

  /** No two shipped paths collide on a case-insensitive file system: neither as equal names, nor with
      one file where the other needs a directory. */
  lemma CaseSafe(pes: PeMap, root: Node, state: BundleState, p: string, q: string)
    requires BundleOk(pes, root, state) && p in Files(root) && q in Files(root) && p != q
    ensures !SameIgnoringCase(p, q)
    ensures forall n :: 0 <= n < |q| && q[n] == '/' ==> !SameIgnoringCase(p, q[..n])
  {
    hide BundleOk, SameIgnoringCase, ToAsciiLowercase;
    FoldedPathsApart(pes, root, state, p, q);
    CaseFolds(p, q);
    forall n | 0 <= n < |q| && q[n] == '/'
      ensures !SameIgnoringCase(p, q[..n])
    {
      FoldedParts(q, n);
      CaseFolds(p, q[..n]);
    }
  }

  lemma FoldedParts(q: string, n: nat)
    requires n < |q| && q[n] == '/'
    ensures FoldPath(q[..n]) + "/" <= FoldPath(q)
  {
  }

  lemma {:induction false} AncestorLookup(n: Node, p: Position, k: nat)
    requires k < |p| && Lookup(n, p).Some?
    ensures Lookup(n, p[..k]).Some? && Lookup(n, p[..k]).value.Dir?
  {
    if k > 0 {
      AncestorLookup(n.children[p[0]], p[1..], k - 1);
      assert p[..k][1..] == p[1..][..k - 1];
    }
  }

  lemma AncestorIsDirectory(root: Node, e: Entry, k: nat) returns (d: Entry)
    requires e in Entries([], root) && 0 < k < |e.position|
    ensures d in Entries([], root) && d.node.Dir? && d.position == e.position[..k]
  {
    EntriesAreLookups([], root, e);
    assert e.position[0..] == e.position;
    AncestorLookup(root, e.position, k);
    var p := e.position[..k];
    d := Entry(p, Lookup(root, p).value);
    assert p[0..] == p;
    EntriesAreLookups([], root, d);
  }
}
