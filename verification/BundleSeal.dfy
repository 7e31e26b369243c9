/** Sealing a bundle, verifying it, and proving a signing-only transition: each command in the
    source's steps, with a contract over the map from paths to bytes. */
module BundleSeal {
  import opened Bytes
  import opened Wrappers
  import opened Text
  import opened Checksum
  import opened PeSigning
  import opened BundlePath
  import opened BundleTree
  import opened BundleWalk
  import opened BundleFiles
  import opened Manifest

  // How a source commit is read from the bytes of BUILDINFO.txt.
  type CommitParser = seq<byte> -> Option<string>

  const BUILDINFO: Name := "BUILDINFO.txt"

  ghost function SourceCommit(commitOf: CommitParser, files: map<string, Slice>): Option<string> {
    if BUILDINFO in files then commitOf(files[BUILDINFO]) else None
  }

  method ReadSourceCommit(commitOf: CommitParser, root: Node) returns (r: Option<string>)
    ensures r == SourceCommit(commitOf, Files(root))
  {
    FilesAt(root, [BUILDINFO]);
    assert PathOf([BUILDINFO]) == BUILDINFO;
    assert Lookup(root, [BUILDINFO]) ==
           if root.Dir? && BUILDINFO in root.children then Some(root.children[BUILDINFO]) else None;
    if root.Dir? && BUILDINFO in root.children && root.children[BUILDINFO].File? {
      return commitOf(root.children[BUILDINFO].data);
    }
    return None;
  }

  // ---- zipped lists and maps ----------------------------------------------------------

  // A comparison of a recorded file with a collected one; it has to compare paths.
  type Comparison = (BundleFileIdentity, BundleFileIdentity) -> bool

  ghost predicate ComparesPaths(c: Comparison) {
    forall a, b :: c(a, b) ==> a.path == b.path
  }

  ghost predicate Zipped(c: Comparison, recorded: seq<BundleFileIdentity>, listing: seq<BundleFileIdentity>) {
    |recorded| == |listing| && forall i :: 0 <= i < |recorded| ==> c(recorded[i], listing[i])
  }

  // The recorded paths are the files, and each record compares with the file of its path.
  ghost predicate ByPathMatch(c: Comparison, y: Policy, recorded: seq<BundleFileIdentity>, files: map<string, Slice>) {
    && Paths(recorded) == files.Keys
    && forall f :: f in recorded ==> c(f, IdentityOf(y, f.path, files[f.path]))
  }

  /** Walking two sorted lists in step compares the maps they stand for. */
  lemma ZipIsByPath(
    c: Comparison, y: Policy, recorded: seq<BundleFileIdentity>, listing: seq<BundleFileIdentity>,
    files: map<string, Slice>)
    requires ComparesPaths(c) && StrictlySortedBy(recorded, ByPath) && IsListing(y, listing, files)
    ensures Zipped(c, recorded, listing) <==> ByPathMatch(c, y, recorded, files)
  {
    if Zipped(c, recorded, listing) {
      ZippedMatches(c, y, recorded, listing, files);
    }
    if ByPathMatch(c, y, recorded, files) {
      var mine := seq(|recorded|, i requires 0 <= i < |recorded| => Recorded(y, recorded, files, i));
      RelistedFiles(y, recorded, files, mine);
      ListingUnique(y, mine, listing, files);
    }
  }

  ghost function Recorded(
    y: Policy, recorded: seq<BundleFileIdentity>, files: map<string, Slice>, i: nat): BundleFileIdentity
    requires i < |recorded| && Paths(recorded) == files.Keys
  {
    assert recorded[i].path in Paths(recorded);
    IdentityOf(y, recorded[i].path, files[recorded[i].path])
  }

  lemma ListedAt(y: Policy, listing: seq<BundleFileIdentity>, files: map<string, Slice>, i: nat)
    requires IsListing(y, listing, files) && i < |listing|
    ensures listing[i].path in files && listing[i] == IdentityOf(y, listing[i].path, files[listing[i].path])
  {
    assert listing[i] in Elements(listing);
  }

  lemma ZippedMatches(
    c: Comparison, y: Policy, recorded: seq<BundleFileIdentity>, listing: seq<BundleFileIdentity>,
    files: map<string, Slice>)
    requires ComparesPaths(c) && IsListing(y, listing, files) && Zipped(c, recorded, listing)
    ensures ByPathMatch(c, y, recorded, files)
  {
    hide IdentityOf;
    forall i | 0 <= i < |listing|
      ensures recorded[i].path in files && listing[i] == IdentityOf(y, recorded[i].path, files[recorded[i].path])
    {
      ListedAt(y, listing, files, i);
      assert c(recorded[i], listing[i]);
    }
    forall path | path in files
      ensures path in Paths(recorded)
    {
      var f := IdentityOf(y, path, files[path]);
      IdentityPath(y, path, files[path]);
      assert f in Elements(listing);
      var i :| 0 <= i < |listing| && listing[i] == f;
      assert c(recorded[i], listing[i]) && recorded[i] in recorded;
    }
  }

  lemma IdentityPath(y: Policy, path: string, data: Slice)
    ensures IdentityOf(y, path, data).path == path
  {
  }

  lemma RelistedFiles(
    y: Policy, recorded: seq<BundleFileIdentity>, files: map<string, Slice>, mine: seq<BundleFileIdentity>)
    requires StrictlySortedBy(recorded, ByPath) && Paths(recorded) == files.Keys
    requires |mine| == |recorded| && forall i :: 0 <= i < |mine| ==> mine[i] == Recorded(y, recorded, files, i)
    ensures IsListing(y, mine, files)
  {
    hide IdentityOf;
    forall i | 0 <= i < |mine|
      ensures ByPath(mine[i]) == ByPath(recorded[i]) && mine[i] in FileIdentities(y, files)
    {
      assert recorded[i].path in Paths(recorded);
      IdentityPath(y, recorded[i].path, files[recorded[i].path]);
    }
    forall path | path in files
      ensures IdentityOf(y, path, files[path]) in Elements(mine)
    {
      assert path in Paths(recorded);
      var i :| 0 <= i < |recorded| && recorded[i].path == path;
      assert mine[i] in mine;
    }
  }

  // ---- sealing ------------------------------------------------------------------------

  // `m` is what sealing the bundle `root` in `state` writes.
  ghost predicate IsSeal(
    sha: Sha256, pes: PeMap, commitOf: CommitParser, root: Node, state: BundleState, m: BundleManifest) {
    && BundleOk(pes, root, state)
    && m.schemaVersion == SCHEMA_VERSION && m.state == state
    && SourceCommit(commitOf, Files(root)) == Some(m.sourceCommit) && ValidSourceCommit(m.sourceCommit)
    && IsListing(Policy(sha, TargetPaths(pes), state), m.files, Files(root))
  }

  /** What the walk collects always passes the one-pass validator. */
  lemma ListingPasses(sha: Sha256, pes: PeMap, root: Node, state: BundleState, files: seq<BundleFileIdentity>)
    requires BundleOk(pes, root, state) && IsListing(Policy(sha, TargetPaths(pes), state), files, Files(root))
    ensures files != [] && FilesOk(TargetPaths(pes), files) && Paths(files) == Files(root).Keys
  {
    var y := Policy(sha, TargetPaths(pes), state);
    EmptyListing(y, files, Files(root));
    forall i | 0 <= i < |files|
      ensures files[i].path in Files(root) && FileOk(TargetPaths(pes), files[i])
    {
      ListedAt(y, files, Files(root), i);
      ShippedPathValid(pes, root, state, files[i].path);
    }
    forall i, j | 0 <= i < j < |files|
      ensures FoldPath(files[i].path) != FoldPath(files[j].path)
    {
      assert Less(ByPath(files[i]), ByPath(files[j]));
      LessIrreflexive(files[i].path);
      FoldedPathsApart(pes, root, state, files[i].path, files[j].path);
    }
    forall path | path in Files(root)
      ensures path in Paths(files)
    {
      assert IdentityOf(y, path, Files(root)[path]) in Elements(files);
    }
  }

  lemma ShippedPathValid(pes: PeMap, root: Node, state: BundleState, path: string)
    requires BundleOk(pes, root, state) && path in Files(root)
    ensures ValidRelativePath(path)
  {
    var p := FileHasPosition(root, path);
    JoinedPathValid(p);
  }

  /** Seals exactly the bundles in order that name a valid commit. */
  method SealTo(sha: Sha256, pes: PeMap, commitOf: CommitParser, root: Node, state: BundleState)
    returns (r: Option<BundleManifest>)
    ensures r.Some? <==>
            && BundleOk(pes, root, state)
            && SourceCommit(commitOf, Files(root)).Some? && ValidSourceCommit(SourceCommit(commitOf, Files(root)).value)
    ensures r.Some? ==> IsSeal(sha, pes, commitOf, root, state, r.value)
  {
    hide BundleOk, IsListing, FilesOk, SourceCommit, ValidSourceCommit, Files;
    var commit := ReadSourceCommit(commitOf, root);
    if commit.None? {
      return None;
    }
    var files := CollectBundleFiles(sha, pes, root, state);
    if files.None? {
      return None;
    }
    var m := BundleManifest(SCHEMA_VERSION, commit.value, state, files.value);
    ListingPasses(sha, pes, root, state, m.files);
    BundleHasTargets(pes, root, state);
    var ok := ValidateManifest(pes, m);
    if !ok {
      return None;
    }
    return Some(m);
  }

  lemma BundleHasTargets(pes: PeMap, root: Node, state: BundleState)
    requires BundleOk(pes, root, state)
    ensures ValidPes(pes) && TargetPaths(pes) <= Files(root).Keys
  {
  }

  // ---- verifying ----------------------------------------------------------------------

  ghost predicate VerifyOk(
    sha: Sha256, pes: PeMap, commitOf: CommitParser, root: Node, stored: BundleManifest, state: BundleState) {
    && ManifestOk(pes, stored) && stored.state == state
    && SourceCommit(commitOf, Files(root)) == Some(stored.sourceCommit)
    && BundleOk(pes, root, state)
    && ByPathMatch(SameIdentity, Policy(sha, TargetPaths(pes), state), stored.files, Files(root))
  }

  method VerifyAt(
    sha: Sha256, pes: PeMap, commitOf: CommitParser, root: Node, stored: BundleManifest, state: BundleState)
    returns (ok: bool)
    ensures ok <==> VerifyOk(sha, pes, commitOf, root, stored, state)
  {
    hide BundleOk, IsListing, SourceCommit, ByPathMatch, StrictlySortedBy, Files;
    ok := ValidateManifest(pes, stored);
    if !ok {
      return false;
    }
    if stored.state != state {
      return false;
    }
    var commit := ReadSourceCommit(commitOf, root);
    if commit != Some(stored.sourceCommit) {
      return false;
    }
    var actual := CollectBundleFiles(sha, pes, root, state);
    if actual.None? {
      return false;
    }
    ZipIsByPath(SameIdentity, Policy(sha, TargetPaths(pes), state), stored.files, actual.value, Files(root));
    ok := CompareExact(stored.files, actual.value);
  }

  // ---- the signed transition ----------------------------------------------------------

  // What may happen to one file between the unsigned manifest and the signed tree.
  predicate TransitionStep(targets: set<string>, before: BundleFileIdentity, after: BundleFileIdentity) {
    && before.path == after.path
    && if before.path in targets then
         before.sha256 != after.sha256 && before.pePayloadSha256 == after.pePayloadSha256
       else
         && before.size == after.size && before.sha256 == after.sha256
         && before.pePayloadSha256.None? && after.pePayloadSha256.None?
  }

  function Transition(targets: set<string>): Comparison {
    (before, after) => TransitionStep(targets, before, after)
  }

  ghost predicate TransitionOk(sha: Sha256, pes: PeMap, commitOf: CommitParser, root: Node, unsigned: BundleManifest) {
    && ManifestOk(pes, unsigned) && unsigned.state == Unsigned
    && SourceCommit(commitOf, Files(root)) == Some(unsigned.sourceCommit)
    && BundleOk(pes, root, Signed)
    && ByPathMatch(Transition(TargetPaths(pes)), Policy(sha, TargetPaths(pes), Signed), unsigned.files, Files(root))
  }

  method VerifySignedTransition(sha: Sha256, pes: PeMap, commitOf: CommitParser, root: Node, unsigned: BundleManifest)
    returns (ok: bool)
    ensures ok <==> TransitionOk(sha, pes, commitOf, root, unsigned)
  {
    hide BundleOk, IsListing, SourceCommit, ByPathMatch, StrictlySortedBy, Files;
    ok := ValidateManifest(pes, unsigned);
    if !ok {
      return false;
    }
    if unsigned.state != Unsigned {
      return false;
    }
    var commit := ReadSourceCommit(commitOf, root);
    if commit != Some(unsigned.sourceCommit) {
      return false;
    }
    var signed := CollectBundleFiles(sha, pes, root, Signed);
    if signed.None? {
      return false;
    }
    var targets := SigningTargets(pes);
    ZipIsByPath(Transition(targets.value), Policy(sha, TargetPaths(pes), Signed), unsigned.files, signed.value,
        Files(root));
    ok := CompareTransition(targets.value, unsigned.files, signed.value);
  }

  method CompareTransition(
    targets: set<string>, unsigned: seq<BundleFileIdentity>, signed: seq<BundleFileIdentity>) returns (ok: bool)
    ensures ok <==> Zipped(Transition(targets), unsigned, signed)
  {
    if |unsigned| != |signed| {
      return false;
    }
    for i := 0 to |unsigned|
      invariant forall j :: 0 <= j < i ==> Transition(targets)(unsigned[j], signed[j])
    {
      var before, after := unsigned[i], signed[i];
      if before.path != after.path {
        return false;
      }
      if before.path in targets {
        if before.sha256 == after.sha256 {
          return false;
        }
        if before.pePayloadSha256 != after.pePayloadSha256 {
          return false;
        }
      } else {
        if before.size != after.size || before.sha256 != after.sha256 {
          return false;
        }
        if before.pePayloadSha256.Some? || after.pePayloadSha256.Some? {
          return false;
        }
      }
    }
    return true;
  }
}
