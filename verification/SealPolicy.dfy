/** What the seal accepts, spelled out: manifests, verification and the signed transition, without the
    code's own predicates. */
module SealPolicy {
  import opened Bytes
  import opened Wrappers
  import opened Text
  import opened Checksum
  import PeLayout
  import opened PeSigning
  import opened BundlePath
  import opened BundleTree
  import opened BundleWalk
  import opened BundleFiles
  import opened Manifest
  import opened BundleSeal
  import opened ShippedNames
  import opened PeFormat
  import opened PeImages

  // ---- manifests ----------------------------------------------------------------------

  ghost predicate IsPath(path: string) {
    exists names :: IsJoined(path, names)
  }

  ghost predicate IsFlatName(name: string) {
    name != "" && forall i :: 0 <= i < |name| ==> name[i] != '/' && name[i] != '\\'
  }

  // At least one image; shippable paths and flat stage names, none twice.
  ghost predicate IsFirstPartyList(pes: PeMap) {
    && 1 <= |pes| && (forall i :: 0 <= i < |pes| ==> IsPath(pes[i].0) && IsFlatName(pes[i].1))
    && (forall i, j :: 0 <= i < j < |pes| ==> pes[i].0 != pes[j].0)
    && (forall i, j :: 0 <= i < j < |pes| ==> pes[i].1 != pes[j].1)
  }

  ghost predicate IsFirstParty(pes: PeMap, path: string) {
    exists i :: 0 <= i < |pes| && pes[i].0 == path
  }

  // A path, the hex form of 32 bytes, and a second one for exactly the first-party images.
  ghost predicate IsRecord(pes: PeMap, f: BundleFileIdentity) {
    && IsPath(f.path) && Encodes(f.sha256, 32)
    && (f.pePayloadSha256.Some? <==> IsFirstParty(pes, f.path))
    && (f.pePayloadSha256.Some? ==> Encodes(f.pePayloadSha256.value, 32))
  }

  ghost predicate Precedes(a: string, b: string) {
    exists n: nat :: DifferAt(a, b, n)
  }

  // Schema 2, the hex form of a 20-byte commit name, and records in the order of their paths, of which
  // no two meet on a case-insensitive file system and none of a first-party image is missing.
  ghost predicate IsManifest(pes: PeMap, m: BundleManifest) {
    && m.schemaVersion == 2 && Encodes(m.sourceCommit, 20) && 1 <= |m.files| && IsFirstPartyList(pes)
    && (forall i :: 0 <= i < |m.files| ==> IsRecord(pes, m.files[i]))
    && InPathOrder(m.files) && NoneMeet(m.files) && forall k :: 0 <= k < |pes| ==> HasRecord(m.files, pes[k].0)
  }

  ghost predicate InPathOrder(files: seq<BundleFileIdentity>) {
    forall i, j :: 0 <= i < j < |files| ==> Precedes(files[i].path, files[j].path)
  }

  ghost predicate NoneMeet(files: seq<BundleFileIdentity>) {
    forall i, j :: 0 <= i < j < |files| ==> !SameIgnoringCase(files[i].path, files[j].path)
  }

  ghost predicate HasRecord(files: seq<BundleFileIdentity>, path: string) {
    exists i :: 0 <= i < |files| && files[i].path == path
  }

  lemma FirstPartyLists(pes: PeMap)
    ensures ValidPes(pes) <==> IsFirstPartyList(pes)
  {
    hide ValidRelativePath, IsPath;
    forall i | 0 <= i < |pes|
      ensures ValidRelativePath(pes[i].0) && ValidStageName(pes[i].1) <==> IsPath(pes[i].0) && IsFlatName(pes[i].1)
    {
      PathsInWords(pes[i].0);
      FlatNames(pes[i].1);
    }
  }

  lemma PathsInWords(path: string)
    ensures ValidRelativePath(path) <==> IsPath(path)
  {
    ShippablePaths(path);
  }

  lemma FlatNames(name: string)
    ensures ValidStageName(name) <==> IsFlatName(name)
  {
    assert forall i :: 0 <= i < |name| ==> name[i] in name;
  }

  lemma FirstPartyPaths(pes: PeMap, path: string)
    ensures path in TargetPaths(pes) <==> IsFirstParty(pes, path)
  {
    if i :| 0 <= i < |pes| && pes[i].0 == path {
      assert pes[i] in pes;
    }
  }

  lemma Records(pes: PeMap, f: BundleFileIdentity)
    ensures FileOk(TargetPaths(pes), f) <==> IsRecord(pes, f)
  {
    hide ValidRelativePath, IsPath, IsSha256, Encodes, TargetPaths, IsFirstParty;
    PathsInWords(f.path);
    HashTexts(f.sha256);
    FirstPartyPaths(pes, f.path);
    if f.pePayloadSha256.Some? {
      HashTexts(f.pePayloadSha256.value);
    }
  }

  lemma RecordsInOrder(files: seq<BundleFileIdentity>)
    ensures StrictlySortedBy(files, ByPath) <==> InPathOrder(files)
    ensures FoldedApart(files) <==> NoneMeet(files)
  {
    hide Less, Precedes, SameIgnoringCase, ToAsciiLowercase;
    forall i, j | 0 <= i < j < |files|
      ensures Less(ByPath(files[i]), ByPath(files[j])) <==> Precedes(files[i].path, files[j].path)
      ensures FoldPath(files[i].path) == FoldPath(files[j].path) <==> SameIgnoringCase(files[i].path, files[j].path)
    {
      OrderInWords(files[i].path, files[j].path);
      CaseFolds(files[i].path, files[j].path);
    }
  }

  lemma OrderInWords(a: string, b: string)
    ensures Less(a, b) <==> Precedes(a, b)
  {
    LessAtFirstDifference(a, b);
  }

  lemma CommitNames(commit: string)
    ensures ValidSourceCommit(commit) <==> Encodes(commit, 20)
  {
    HexTexts(commit, 20);
  }

  lemma AllNamed(pes: PeMap, files: seq<BundleFileIdentity>)
    ensures TargetPaths(pes) <= Paths(files) <==> forall k :: 0 <= k < |pes| ==> HasRecord(files, pes[k].0)
  {
    forall k | 0 <= k < |pes|
      ensures pes[k].0 in Paths(files) <==> HasRecord(files, pes[k].0)
    {
      PathNamed(files, pes[k].0);
    }
    if TargetPaths(pes) <= Paths(files) {
      assert forall k :: 0 <= k < |pes| ==> pes[k] in pes && pes[k].0 in TargetPaths(pes);
    }
  }

  lemma PathNamed(files: seq<BundleFileIdentity>, path: string)
    ensures path in Paths(files) <==> HasRecord(files, path)
  {
    if i :| 0 <= i < |files| && files[i].path == path {
      assert files[i] in files;
    }
  }

  /** The manifest validator accepts exactly these manifests. */
  lemma ManifestsInWords(pes: PeMap, m: BundleManifest)
    ensures ManifestOk(pes, m) <==> IsManifest(pes, m)
  {
    hide FileOk, IsRecord, ValidPes, IsFirstPartyList, ValidSourceCommit, Encodes, InPathOrder, NoneMeet, HasRecord,
      StrictlySortedBy, FoldedApart, TargetPaths, Paths;
    FirstPartyLists(pes);
    CommitNames(m.sourceCommit);
    RecordsInOrder(m.files);
    AllNamed(pes, m.files);
    forall i | 0 <= i < |m.files|
      ensures FileOk(TargetPaths(pes), m.files[i]) <==> IsRecord(pes, m.files[i])
    {
      Records(pes, m.files[i]);
    }
  }

  // ---- bundles ------------------------------------------------------------------------

  // A sound image whose security directory is in use exactly if it has to be.
  ghost predicate IsImageIn(b: seq<byte>, state: BundleState) {
    exists f :: IsSoundImage(b, f) && (Security(f).address != 0 <==> state == Signed)
  }

  ghost predicate IsBundle(pes: PeMap, root: Node, state: BundleState) {
    && IsFirstPartyList(pes) && IsShippable(root)
    && forall k :: 0 <= k < |pes| ==> pes[k].0 in Files(root) && IsImageIn(Files(root)[pes[k].0], state)
  }

  lemma ImagesInWords(b: seq<byte>, state: BundleState)
    ensures Accepts(b, state) <==> IsImageIn(b, state)
  {
    hide U16, U32, IsImage, PeLayout.Accepted, RawDataWithin, SoundCertificate, PeLayout.HasCertificate;
    AcceptedImages(b);
    forall f | IsSoundImage(b, f)
      ensures PeLayout.Accepted(b) && (PeLayout.HasCertificate(b) <==> Security(f).address != 0)
    {
      AcceptedByFields(b, f);
    }
  }

  /** Collection accepts exactly these bundles. */
  lemma BundlesInWords(pes: PeMap, root: Node, state: BundleState)
    ensures BundleOk(pes, root, state) <==> IsBundle(pes, root, state)
  {
    hide Files, TreeOk, IsShippable, ValidPes, IsFirstPartyList, Accepts, IsImageIn, TargetPaths;
    FirstPartyLists(pes);
    TreesInOrder(root);
    forall k | 0 <= k < |pes|
      ensures pes[k].0 in TargetPaths(pes)
      ensures pes[k].0 in Files(root) ==>
                (Accepts(Files(root)[pes[k].0], state) <==> IsImageIn(Files(root)[pes[k].0], state))
    {
      FirstPartyPaths(pes, pes[k].0);
      if pes[k].0 in Files(root) {
        ImagesInWords(Files(root)[pes[k].0], state);
      }
    }
    forall t | t in TargetPaths(pes)
      ensures exists k :: 0 <= k < |pes| && pes[k].0 == t
    {
      FirstPartyPaths(pes, t);
    }
    if IsBundle(pes, root, state) {
      ListNotEmpty(pes);
      assert pes[0].0 in Files(root);
    }
  }

  lemma ListNotEmpty(pes: PeMap)
    requires IsFirstPartyList(pes)
    ensures 1 <= |pes|
  {
  }

  // ---- verification -------------------------------------------------------------------

  // The commit is the one in the root's BUILDINFO.txt.
  ghost predicate HasCommit(commitOf: CommitParser, root: Node, commit: string) {
    "BUILDINFO.txt" in Files(root) && commitOf(Files(root)["BUILDINFO.txt"]) == Some(commit)
  }

  ghost predicate SamePaths(files: seq<BundleFileIdentity>, root: Node) {
    && (forall i :: 0 <= i < |files| ==> files[i].path in Files(root))
    && forall path :: path in Files(root) ==> HasRecord(files, path)
  }

  // The record has the file's length and hash, and an image's record the hash of its stream.
  ghost predicate RecordMatches(sha: Sha256, f: BundleFileIdentity, data: Slice) {
    && f.size == |data| && f.sha256 == Hex(sha(data))
    && (f.pePayloadSha256.Some? ==> PeLayout.Accepted(data) && f.pePayloadSha256.value == Hex(sha(Stream(data))))
  }

  // A signed image has another hash and the same stream; any other file is unchanged.
  ghost predicate RecordSteps(sha: Sha256, f: BundleFileIdentity, data: Slice) {
    if f.pePayloadSha256.Some? then
      f.sha256 != Hex(sha(data)) && PeLayout.Accepted(data) && f.pePayloadSha256.value == Hex(sha(Stream(data)))
    else
      f.size == |data| && f.sha256 == Hex(sha(data))
  }

  ghost predicate Verifies(
    sha: Sha256, pes: PeMap, commitOf: CommitParser, root: Node, stored: BundleManifest, state: BundleState) {
    && IsManifest(pes, stored) && stored.state == state && HasCommit(commitOf, root, stored.sourceCommit)
    && IsBundle(pes, root, state) && SamePaths(stored.files, root)
    && forall i :: 0 <= i < |stored.files| ==> RecordMatches(sha, stored.files[i], Files(root)[stored.files[i].path])
  }

  ghost predicate Transitions(sha: Sha256, pes: PeMap, commitOf: CommitParser, root: Node, unsigned: BundleManifest) {
    && IsManifest(pes, unsigned) && unsigned.state == Unsigned && HasCommit(commitOf, root, unsigned.sourceCommit)
    && IsBundle(pes, root, Signed) && SamePaths(unsigned.files, root)
    && forall i :: 0 <= i < |unsigned.files| ==>
         RecordSteps(sha, unsigned.files[i], Files(root)[unsigned.files[i].path])
  }

  lemma SamePathSets(files: seq<BundleFileIdentity>, root: Node)
    ensures Paths(files) == Files(root).Keys <==> SamePaths(files, root)
  {
    hide Files, Paths, HasRecord;
    forall path
      ensures path in Paths(files) <==> HasRecord(files, path)
    {
      PathNamed(files, path);
    }
    forall i | 0 <= i < |files|
      ensures files[i].path in Paths(files)
    {
      RecordThere(files, i);
    }
    if SamePaths(files, root) {
      forall path | path in Paths(files)
        ensures path in Files(root)
      {
        var i := RecordOf(files, path);
      }
    }
  }

  lemma RecordThere(files: seq<BundleFileIdentity>, i: nat)
    requires i < |files|
    ensures files[i].path in Paths(files)
  {
    assert files[i] in files;
  }

  lemma RecordOf(files: seq<BundleFileIdentity>, path: string) returns (i: nat)
    requires path in Paths(files)
    ensures i < |files| && files[i].path == path
  {
    i :| i < |files| && files[i].path == path;
  }

  lemma MatchInWords(sha: Sha256, pes: PeMap, f: BundleFileIdentity, data: Slice, state: BundleState)
    requires IsRecord(pes, f) && (IsFirstParty(pes, f.path) ==> Accepts(data, state))
    ensures var now := IdentityOf(Policy(sha, TargetPaths(pes), state), f.path, data);
      && (SameIdentity(f, now) <==> RecordMatches(sha, f, data))
      && (Transition(TargetPaths(pes))(f, now) <==> RecordSteps(sha, f, data))
  {
    hide Stream, PeLayout.Accepted, TargetPaths, IsPath, Encodes, IsFirstParty, Hex;
    FirstPartyPaths(pes, f.path);
    if IsFirstParty(pes, f.path) {
      assert Accepts(data, state);
    }
  }

  // The comparison by path, record by record.
  lemma MatchesInWords(sha: Sha256, pes: PeMap, files: seq<BundleFileIdentity>, root: Node, state: BundleState)
    requires SamePaths(files, root) && forall i :: 0 <= i < |files| ==> IsRecord(pes, files[i])
    requires forall path :: path in Files(root) && IsFirstParty(pes, path) ==> Accepts(Files(root)[path], state)
    ensures var y := Policy(sha, TargetPaths(pes), state);
      && (ByPathMatch(SameIdentity, y, files, Files(root)) <==>
          forall i :: 0 <= i < |files| ==> RecordMatches(sha, files[i], Files(root)[files[i].path]))
      && (ByPathMatch(Transition(TargetPaths(pes)), y, files, Files(root)) <==>
          forall i :: 0 <= i < |files| ==> RecordSteps(sha, files[i], Files(root)[files[i].path]))
  {
    hide Files, IdentityOf, Accepts, IsRecord, IsFirstParty, RecordMatches, RecordSteps, SameIdentity, Transition,
      TargetPaths;
    var y := Policy(sha, TargetPaths(pes), state);
    SamePathSets(files, root);
    forall i | 0 <= i < |files|
      ensures var now := IdentityOf(y, files[i].path, Files(root)[files[i].path]);
        && (SameIdentity(files[i], now) <==> RecordMatches(sha, files[i], Files(root)[files[i].path]))
        && (Transition(TargetPaths(pes))(files[i], now) <==> RecordSteps(sha, files[i], Files(root)[files[i].path]))
    {
      MatchInWords(sha, pes, files[i], Files(root)[files[i].path], state);
    }
    assert forall i :: 0 <= i < |files| ==> files[i] in files;
    assert forall f :: f in files ==> exists i :: 0 <= i < |files| && files[i] == f;
  }

  lemma BundleImagesAccepted(pes: PeMap, root: Node, state: BundleState)
    requires BundleOk(pes, root, state)
    ensures forall path :: path in Files(root) && IsFirstParty(pes, path) ==> Accepts(Files(root)[path], state)
  {
    hide Files, TreeOk, ValidPes, Accepts, TargetPaths, IsFirstParty;
    forall path | path in Files(root) && IsFirstParty(pes, path)
      ensures Accepts(Files(root)[path], state)
    {
      FirstPartyPaths(pes, path);
    }
  }

  lemma CommitInWords(commitOf: CommitParser, root: Node, commit: string)
    ensures SourceCommit(commitOf, Files(root)) == Some(commit) <==> HasCommit(commitOf, root, commit)
  {
    hide Files;
  }

  lemma ManifestRecords(pes: PeMap, m: BundleManifest)
    requires IsManifest(pes, m)
    ensures forall i :: 0 <= i < |m.files| ==> IsRecord(pes, m.files[i])
  {
  }

  /** Verification accepts exactly the trees that this says, against any manifest whatever. */
  lemma VerificationInWords(
    sha: Sha256, pes: PeMap, commitOf: CommitParser, root: Node, stored: BundleManifest, state: BundleState)
    ensures VerifyOk(sha, pes, commitOf, root, stored, state) <==> Verifies(sha, pes, commitOf, root, stored, state)
  {
    hide Files, ManifestOk, IsManifest, BundleOk, IsBundle, SamePaths, RecordMatches, SourceCommit, HasCommit, IsRecord,
      IsFirstParty, Accepts, ByPathMatch;
    ManifestsInWords(pes, stored);
    BundlesInWords(pes, root, state);
    CommitInWords(commitOf, root, stored.sourceCommit);
    MatchHasPaths(SameIdentity, Policy(sha, TargetPaths(pes), state), stored.files, root);
    if BundleOk(pes, root, state) && IsManifest(pes, stored) && SamePaths(stored.files, root) {
      ManifestRecords(pes, stored);
      BundleImagesAccepted(pes, root, state);
      MatchesInWords(sha, pes, stored.files, root, state);
    }
  }

  lemma MatchHasPaths(c: Comparison, y: Policy, files: seq<BundleFileIdentity>, root: Node)
    ensures ByPathMatch(c, y, files, Files(root)) ==> SamePaths(files, root)
  {
    hide Files, SamePaths;
    SamePathSets(files, root);
  }

  /** The signed transition accepts exactly the trees that this says, against any manifest whatever. */
  lemma TransitionsInWords(
    sha: Sha256, pes: PeMap, commitOf: CommitParser, root: Node, unsigned: BundleManifest)
    ensures TransitionOk(sha, pes, commitOf, root, unsigned) <==> Transitions(sha, pes, commitOf, root, unsigned)
  {
    hide Files, ManifestOk, IsManifest, BundleOk, IsBundle, SamePaths, RecordSteps, SourceCommit, HasCommit, IsRecord,
      IsFirstParty, Accepts, ByPathMatch, Transition;
    ManifestsInWords(pes, unsigned);
    BundlesInWords(pes, root, Signed);
    CommitInWords(commitOf, root, unsigned.sourceCommit);
    MatchHasPaths(Transition(TargetPaths(pes)), Policy(sha, TargetPaths(pes), Signed), unsigned.files, root);
    if BundleOk(pes, root, Signed) && IsManifest(pes, unsigned) && SamePaths(unsigned.files, root) {
      ManifestRecords(pes, unsigned);
      BundleImagesAccepted(pes, root, Signed);
      MatchesInWords(sha, pes, unsigned.files, root, Signed);
    }
  }

  // ---- seals --------------------------------------------------------------------------

  // The record says of the file whether it begins like an executable.
  ghost predicate MarksExecutable(f: BundleFileIdentity, data: Slice) {
    f.isPe <==> 2 <= |data| && data[0] == 0x4d && data[1] == 0x5a
  }

  ghost predicate IsFreshSeal(
    sha: Sha256, pes: PeMap, commitOf: CommitParser, root: Node, state: BundleState, m: BundleManifest) {
    && Verifies(sha, pes, commitOf, root, m, state)
    && forall i :: 0 <= i < |m.files| ==> MarksExecutable(m.files[i], Files(root)[m.files[i].path])
  }

  lemma RecordIsIdentity(y: Policy, f: BundleFileIdentity, data: Slice)
    ensures f == IdentityOf(y, f.path, data) <==>
            SameIdentity(f, IdentityOf(y, f.path, data)) && MarksExecutable(f, data)
  {
    hide Stream, PeLayout.Accepted;
  }

  lemma ListingsMatch(y: Policy, listing: seq<BundleFileIdentity>, root: Node)
    requires StrictlySortedBy(listing, ByPath)
    ensures IsListing(y, listing, Files(root)) <==>
            && ByPathMatch(SameIdentity, y, listing, Files(root))
            && forall i :: 0 <= i < |listing| ==> MarksExecutable(listing[i], Files(root)[listing[i].path])
  {
    hide Files, IdentityOf, SameIdentity, MarksExecutable, StrictlySortedBy;
    SamePathSets(listing, root);
    assert forall i :: 0 <= i < |listing| ==> listing[i] in listing && listing[i].path in Paths(listing);
    forall i | 0 <= i < |listing| && listing[i].path in Files(root)
      ensures listing[i] == IdentityOf(y, listing[i].path, Files(root)[listing[i].path]) <==>
              && SameIdentity(listing[i], IdentityOf(y, listing[i].path, Files(root)[listing[i].path]))
              && MarksExecutable(listing[i], Files(root)[listing[i].path])
    {
      RecordIsIdentity(y, listing[i], Files(root)[listing[i].path]);
    }
    if IsListing(y, listing, Files(root)) {
      ListingRecords(y, listing, root);
    }
    if && ByPathMatch(SameIdentity, y, listing, Files(root))
       && forall i :: 0 <= i < |listing| ==> MarksExecutable(listing[i], Files(root)[listing[i].path])
    {
      RecordsAreListing(y, listing, root);
    }
  }

  // The identity that collection gives the file of this path.
  ghost predicate IsIdentity(y: Policy, f: BundleFileIdentity, root: Node) {
    f.path in Files(root) && f == IdentityOf(y, f.path, Files(root)[f.path])
  }

  lemma ListingRecords(y: Policy, listing: seq<BundleFileIdentity>, root: Node)
    requires IsListing(y, listing, Files(root))
    ensures Paths(listing) == Files(root).Keys
    ensures forall i :: 0 <= i < |listing| ==>
              IsIdentity(y, listing[i], root)
  {
    hide Files;
    forall i | 0 <= i < |listing|
      ensures IsIdentity(y, listing[i], root)
    {
      ListedAt(y, listing, Files(root), i);
    }
    forall path | path in Files(root)
      ensures path in Paths(listing)
    {
      assert IdentityOf(y, path, Files(root)[path]) in Elements(listing);
    }
  }

  lemma RecordsAreListing(y: Policy, listing: seq<BundleFileIdentity>, root: Node)
    requires StrictlySortedBy(listing, ByPath) && Paths(listing) == Files(root).Keys
    requires forall i :: 0 <= i < |listing| ==>
               IsIdentity(y, listing[i], root)
    ensures IsListing(y, listing, Files(root))
  {
    hide Files, IdentityOf, StrictlySortedBy;
    forall f | f in FileIdentities(y, Files(root))
      ensures f in listing
    {
      var path :| path in Files(root) && f == IdentityOf(y, path, Files(root)[path]);
      var i := RecordOf(listing, path);
    }
  }

  /** A manifest is what sealing a bundle writes exactly when the bundle verifies against it and its
      marks of executables are right: sealing leaves no choice. */
  lemma SealsInWords(
    sha: Sha256, pes: PeMap, commitOf: CommitParser, root: Node, state: BundleState, m: BundleManifest)
    ensures IsSeal(sha, pes, commitOf, root, state, m) <==> IsFreshSeal(sha, pes, commitOf, root, state, m)
  {
    hide Files, BundleOk, IsListing, ByPathMatch, SourceCommit, ValidSourceCommit, Verifies, FilesOk, MarksExecutable,
      Paths;
    var y := Policy(sha, TargetPaths(pes), state);
    VerificationInWords(sha, pes, commitOf, root, m, state);
    if IsSeal(sha, pes, commitOf, root, state, m) {
      ListingPasses(sha, pes, root, state, m.files);
      BundleHasTargets(pes, root, state);
      ManifestSorted(pes, m);
      ListingsMatch(y, m.files, root);
    }
    if IsFreshSeal(sha, pes, commitOf, root, state, m) {
      ManifestSorted(pes, m);
      ListingsMatch(y, m.files, root);
    }
  }

  lemma ManifestSorted(pes: PeMap, m: BundleManifest)
    ensures FilesOk(TargetPaths(pes), m.files) ==> StrictlySortedBy(m.files, ByPath)
  {
  }
}
