/** What a seal guarantees about the bytes of a bundle, given that the hashed inputs do not collide. */
module SealTheorems {
  import opened Bytes
  import opened Text
  import opened Checksum
  import PeLayout
  import opened PeSigning
  import opened BundlePath
  import opened BundleTree
  import opened BundleWalk
  import opened BundleFiles
  import opened Manifest
  import opened BundleSeal

  // What the tools hash of one file: its bytes and, for an image, the normalised stream.
  ghost function Inputs(targets: set<string>, path: string, data: Slice): set<seq<byte>> {
    if path in targets && PeLayout.Accepted(data) then {data, Stream(data)} else {data}
  }

  // Everything the tools hash of a bundle.
  ghost function Hashed(pes: PeMap, files: map<string, Slice>): set<seq<byte>> {
    set path, x | path in files && x in Inputs(TargetPaths(pes), path, files[path]) :: x
  }

  lemma HashedFile(pes: PeMap, files: map<string, Slice>, path: string)
    requires path in files
    ensures files[path] in Hashed(pes, files)
    ensures path in TargetPaths(pes) && PeLayout.Accepted(files[path]) ==> Stream(files[path]) in Hashed(pes, files)
  {
    hide PeLayout.Accepted, Stream, TargetPaths;
    var inputs := Inputs(TargetPaths(pes), path, files[path]);
    assert files[path] in inputs;
    assert forall x :: x in inputs ==> x in Hashed(pes, files);
  }

  ghost predicate NoCollisions(sha: Sha256, pes: PeMap, t1: Node, t2: Node) {
    Distinguishes(sha, Hashed(pes, Files(t1)), Hashed(pes, Files(t2)))
  }

  // The record of `path` in a seal of `files` says the same as a file holding `data` would.
  lemma SealRecord(
    sha: Sha256, pes: PeMap, commitOf: CommitParser, root: Node, state: BundleState, m: BundleManifest,
    f: BundleFileIdentity)
    requires IsSeal(sha, pes, commitOf, root, state, m) && f in Decoded(m).files
    ensures f.path in Files(root)
    ensures SameIdentity(f, IdentityOf(Policy(sha, TargetPaths(pes), state), f.path, Files(root)[f.path]))
  {
    hide IdentityOf, BundleOk;
    var i :| 0 <= i < |m.files| && Decoded(m).files[i] == f;
    ListedAt(Policy(sha, TargetPaths(pes), state), m.files, Files(root), i);
  }

  lemma SealPaths(sha: Sha256, pes: PeMap, commitOf: CommitParser, root: Node, state: BundleState, m: BundleManifest)
    requires IsSeal(sha, pes, commitOf, root, state, m)
    ensures ManifestOk(pes, Decoded(m)) && Paths(Decoded(m).files) == Files(root).Keys
  {
    hide IdentityOf, FilesOk, ValidPes;
    ListingPasses(sha, pes, root, state, m.files);
    BundleHasTargets(pes, root, state);
    DecodedKeeps(pes, m);
    DecodedPaths(m);
  }

  lemma DecodedPaths(m: BundleManifest)
    ensures Paths(Decoded(m).files) == Paths(m.files)
  {
    var d := Decoded(m).files;
    forall path
      ensures path in Paths(d) <==> path in Paths(m.files)
    {
      if path in Paths(d) {
        var i :| 0 <= i < |d| && d[i].path == path;
        assert m.files[i] in m.files;
      }
      if path in Paths(m.files) {
        var i :| 0 <= i < |d| && m.files[i].path == path;
        assert d[i] in d;
      }
    }
  }

  // ---- exactness ----------------------------------------------------------------------

  lemma SameBundle(pes: PeMap, t1: Node, t2: Node, state: BundleState)
    requires BundleOk(pes, t1, state) && TreeOk(t2) && Files(t1) == Files(t2)
    ensures BundleOk(pes, t2, state)
  {
  }

  lemma IdentityHash(y: Policy, path: string, data: Slice)
    ensures IdentityOf(y, path, data).sha256 == Identity(y.sha, data)
  {
  }

  lemma MatchMeansSame(
    sha: Sha256, pes: PeMap, commitOf: CommitParser, t1: Node, t2: Node, state: BundleState, m: BundleManifest)
    requires IsSeal(sha, pes, commitOf, t1, state, m) && NoCollisions(sha, pes, t1, t2)
    requires ByPathMatch(SameIdentity, Policy(sha, TargetPaths(pes), state), Decoded(m).files, Files(t2))
    ensures Files(t1) == Files(t2)
  {
    hide BundleOk, Files, IdentityOf, Identity, Distinguishes, FilesOk, ManifestOk;
    SealPaths(sha, pes, commitOf, t1, state, m);
    var y := Policy(sha, TargetPaths(pes), state);
    forall path | path in Files(t1)
      ensures Files(t1)[path] == Files(t2)[path]
    {
      assert path in Paths(Decoded(m).files);
      var f :| f in Decoded(m).files && f.path == path;
      SealRecord(sha, pes, commitOf, t1, state, m, f);
      assert SameIdentity(f, IdentityOf(y, path, Files(t2)[path]));
      IdentityHash(y, path, Files(t1)[path]);
      IdentityHash(y, path, Files(t2)[path]);
      HashedFile(pes, Files(t1), path);
      HashedFile(pes, Files(t2), path);
      EqualIdentities(sha, Hashed(pes, Files(t1)), Hashed(pes, Files(t2)), Files(t1)[path], Files(t2)[path]);
    }
  }

  lemma SameMeansMatch(
    sha: Sha256, pes: PeMap, commitOf: CommitParser, t1: Node, t2: Node, state: BundleState, m: BundleManifest)
    requires IsSeal(sha, pes, commitOf, t1, state, m) && Files(t1) == Files(t2)
    ensures ByPathMatch(SameIdentity, Policy(sha, TargetPaths(pes), state), Decoded(m).files, Files(t2))
  {
    hide BundleOk, Files, IdentityOf;
    SealPaths(sha, pes, commitOf, t1, state, m);
    forall f | f in Decoded(m).files
      ensures f.path in Files(t2)
      ensures SameIdentity(f, IdentityOf(Policy(sha, TargetPaths(pes), state), f.path, Files(t2)[f.path]))
    {
      SealRecord(sha, pes, commitOf, t1, state, m, f);
    }
  }

  /** A tree verifies against the seal of another exactly when both hold the same bytes at the
      same paths, and its own directories are in order. */
  lemma VerifyIsExact(
    sha: Sha256, pes: PeMap, commitOf: CommitParser, t1: Node, t2: Node, state: BundleState, m: BundleManifest)
    requires IsSeal(sha, pes, commitOf, t1, state, m) && NoCollisions(sha, pes, t1, t2)
    ensures VerifyOk(sha, pes, commitOf, t2, Decoded(m), state) <==> TreeOk(t2) && Files(t1) == Files(t2)
  {
    hide Files, TreeOk, ByPathMatch, ManifestOk, IsListing, NoCollisions;
    SealPaths(sha, pes, commitOf, t1, state, m);
    if VerifyOk(sha, pes, commitOf, t2, Decoded(m), state) {
      MatchMeansSame(sha, pes, commitOf, t1, t2, state, m);
    }
    if TreeOk(t2) && Files(t1) == Files(t2) {
      SameBundle(pes, t1, t2, state);
      SameMeansMatch(sha, pes, commitOf, t1, t2, state, m);
    }
  }

  // ---- directories without files ------------------------------------------------------

  // Every entry is a file or a directory with a file somewhere below it.
  ghost predicate OnlyFilesMatter(t: Node) {
    t.Dir? && forall e :: e in Entries([], t) ==> exists f :: FileBelow(t, e, f)
  }

  ghost predicate FileBelow(t: Node, e: Entry, f: Entry) {
    f in Entries([], t) && f.node.File? && e.position <= f.position
  }

  // A tree with the same files has, at that position, an entry too; the same one if it is a file.
  lemma SameEntry(t1: Node, t2: Node, e: Entry) returns (d: Entry)
    requires Files(t1) == Files(t2) && OnlyFilesMatter(t2) && e in Entries([], t2)
    ensures d in Entries([], t1) && d.position == e.position
    ensures d.node.Special? <==> e.node.Special?
  {
    hide Files, Entries;
    var f: Entry :| FileBelow(t2, e, f);
    FileEntry(t2, f);
    FilesAt(t1, f.position);
    EntryIsLookup(t1, f);
    EntryIsLookup(t2, e);
    EntryIsLookup(t2, f);
    if e.position == f.position {
      d := f;
    } else {
      assert f.position[..|e.position|] == e.position;
      d := AncestorIsDirectory(t1, f, |e.position|);
      AncestorLookup(t2, f.position, |e.position|);
    }
  }

  /** Where every directory holds a file, the directories follow from the files: equality of the
      two maps is then all that verification asks. */
  lemma DirectoriesFollow(t1: Node, t2: Node)
    requires TreeOk(t1) && OnlyFilesMatter(t2) && Files(t1) == Files(t2)
    ensures TreeOk(t2)
  {
    hide Files, Entries, Fold, ValidPosition, OnlyFilesMatter;
    assert t2.Dir? by {
      OnlyDirectories(t2);
    }
    forall e | e in Entries([], t2)
      ensures ValidPosition(e.position) && !e.node.Special?
    {
      var d := SameEntry(t1, t2, e);
    }
    forall e, f | e in Entries([], t2) && f in Entries([], t2) && e != f
      ensures Fold(e.position) != Fold(f.position)
    {
      EntryIsLookup(t2, e);
      EntryIsLookup(t2, f);
      var c := SameEntry(t1, t2, e);
      var d := SameEntry(t1, t2, f);
    }
  }

  lemma OnlyDirectories(t: Node)
    requires OnlyFilesMatter(t)
    ensures t.Dir?
  {
  }

  /** Verification compares the two maps from paths to bytes, and nothing else. */
  lemma VerifyIsMapEquality(
    sha: Sha256, pes: PeMap, commitOf: CommitParser, t1: Node, t2: Node, state: BundleState, m: BundleManifest)
    requires IsSeal(sha, pes, commitOf, t1, state, m) && NoCollisions(sha, pes, t1, t2) && OnlyFilesMatter(t2)
    ensures VerifyOk(sha, pes, commitOf, t2, Decoded(m), state) <==> Files(t1) == Files(t2)
  {
    hide Files, Entries, VerifyOk, OnlyFilesMatter, IsListing, NoCollisions;
    VerifyIsExact(sha, pes, commitOf, t1, t2, state, m);
    SealedTree(sha, pes, commitOf, t1, state, m);
    if Files(t1) == Files(t2) {
      DirectoriesFollow(t1, t2);
    }
  }

  lemma SealedTree(sha: Sha256, pes: PeMap, commitOf: CommitParser, root: Node, state: BundleState, m: BundleManifest)
    requires IsSeal(sha, pes, commitOf, root, state, m)
    ensures root.Dir? && TreeOk(root)
  {
  }

  /** An empty directory holds no bytes, yet a reserved name on it fails verification. */
  lemma EmptyDirectoryCanFail(
    sha: Sha256, pes: PeMap, commitOf: CommitParser, t1: Node, state: BundleState,
    m: BundleManifest) returns (t2: Node)
    requires IsSeal(sha, pes, commitOf, t1, state, m)
    ensures Files(t2) == Files(t1) && !VerifyOk(sha, pes, commitOf, t2, Decoded(m), state)
  {
    hide Files, Entries, IsListing, BundleOk, TreeOk;
    SealedTree(sha, pes, commitOf, t1, state, m);
    AuxIsReserved(t1);
    t2 := Dir(t1.children["aux" := Dir(map[])]);
    AuxIsReserved(t2);
    SameFilesWithEmpty(t1, "aux");
    VerifiedTree(sha, pes, commitOf, t2, state, Decoded(m));
  }

  lemma VerifiedTree(
    sha: Sha256, pes: PeMap, commitOf: CommitParser, root: Node, state: BundleState, stored: BundleManifest)
    ensures VerifyOk(sha, pes, commitOf, root, stored, state) ==> TreeOk(root)
  {
  }

  lemma AuxIsReserved(t: Node)
    requires t.Dir?
    ensures TreeOk(t) ==> "aux" !in t.children
  {
    if "aux" in t.children {
      var p: Position := ["aux"];
      SplitWithout("aux", '.');
      assert ToAsciiUppercase("aux") == "AUX";
      assert "aux" in p && !ValidPosition(p);
      EntryIsLookup(t, Entry(p, t.children["aux"]));
    }
  }

  lemma SameFilesWithEmpty(t: Node, name: Name)
    requires t.Dir? && name !in t.children
    ensures Files(Dir(t.children[name := Dir(map[])])) == Files(t)
  {
    var more := Dir(t.children[name := Dir(map[])]);
    forall p: Position | p != []
      ensures Lookup(more, p).Some? && Lookup(more, p).value.File? <==> Lookup(t, p).Some? && Lookup(t, p).value.File?
      ensures Lookup(t, p).Some? && Lookup(t, p).value.File? ==> Lookup(more, p) == Lookup(t, p)
    {
    }
    forall path | path in Files(more)
      ensures path in Files(t)
    {
      var p := FileHasPosition(more, path);
      FilesAt(more, p);
      FilesAt(t, p);
    }
    forall path | path in Files(t)
      ensures path in Files(more) && Files(more)[path] == Files(t)[path]
    {
      var p := FileHasPosition(t, path);
      FilesAt(more, p);
      FilesAt(t, p);
    }
  }
}
