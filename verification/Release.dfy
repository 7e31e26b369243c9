/** The release run as a whole: seal, sign, check the transition, archive.  The mutable file system
    meets the trees that the seal is about. */
module Release {
  import opened Bytes
  import opened Wrappers
  import opened Text
  import opened Checksum
  import PeLayout
  import opened PeSigning
  import opened BundlePath
  import opened BundleTree
  import opened BundleWalk
  import opened BundleFiles
  import opened Manifest
  import opened BundleSeal
  import opened SealTheorems
  import opened SignedTransition
  import opened SignedPolicy
  import opened FileSystem
  import opened ShownTree
  import Signing
  import opened SigningRun
  import opened Package
  import BuildInfo
  import SealFiles

  // ---- the signed tree ----------------------------------------------------------------

  // `after` is `before` with every target signed.
  ghost predicate SignedFiles(
    pes: PeMap, before: map<string, Slice>, after: map<string, Slice>, sign: seq<byte> -> seq<byte>) {
    && after.Keys == before.Keys
    && forall path :: path in before ==> after[path] == SignedForm(pes, before, path, sign)
  }

  ghost function SignedForm(
    pes: PeMap, before: map<string, Slice>, path: string, sign: seq<byte> -> seq<byte>): seq<byte>
    requires path in before
  {
    if path in TargetPaths(pes) then sign(before[path]) else before[path]
  }

  // Below `dist` the images hold their signed forms, and nothing else has changed.
  ghost predicate OnlySignedBelow(before: State, now: State, pes: PeMap, dist: Path, sign: seq<byte> -> seq<byte>) {
    && SignedInPlace(before.files, now.files, pes, dist, sign)
    && (forall q :: dist <= q && Signing.NotAmong(Signing.Sources(pes, dist), |pes|, q) ==>
          Signing.SameAt(before.files, now.files, q))
    && (forall q :: dist <= q ==> (q in now.dirs <==> q in before.dirs))
  }

  lemma SignedPaths(before: State, now: State, pes: PeMap, dist: Path, sign: seq<byte> -> seq<byte>)
    requires OnlySignedBelow(before, now, pes, dist, sign)
    ensures SamePaths(before, now, dist)
  {
    hide Split;
    var sources := Signing.Sources(pes, dist);
    forall q | dist <= q
      ensures q in now.files <==> q in before.files
    {
      if !Signing.NotAmong(sources, |pes|, q) {
        var i :| 0 <= i < |pes| && sources[i] == q;
        assert SignedAt(before.files, now.files, sources[i], sources[i], sign);
      } else {
        assert Signing.SameAt(before.files, now.files, q);
      }
    }
  }

  lemma SignedTree(
    before: State, now: State, pes: PeMap, dist: Path, sign: seq<byte> -> seq<byte>, u: Node, g: Node)
    requires Shows(before, dist, u) && Shows(now, dist, g) && TreeOk(u)
    requires OnlySignedBelow(before, now, pes, dist, sign)
    ensures TreeOk(g) && SignedFiles(pes, Files(u), Files(g), sign)
  {
    hide Files, Shows, SameShape, TreeOk, OnlySignedBelow, SamePaths;
    SignedPaths(before, now, pes, dist, sign);
    ShownShape(before, now, dist, u, g);
    SameShapeBack(u, g);
    ShapeKeepsOrder(u, g);
    ShapeKeepsPaths(u, g);
    ShapeKeepsPaths(g, u);
    forall path | path in Files(u)
      ensures Files(g)[path] == SignedForm(pes, Files(u), path, sign)
    {
      ShownFile(before, dist, u, path);
      ShownFile(now, dist, g, path);
      SignedAtPath(before, now, pes, dist, sign, path);
    }
  }

  lemma SignedAtPath(before: State, now: State, pes: PeMap, dist: Path, sign: seq<byte> -> seq<byte>, path: string)
    requires OnlySignedBelow(before, now, pes, dist, sign)
    requires Under(dist, path) in before.files && Under(dist, path) in now.files
    ensures now.files[Under(dist, path)] ==
            if path in TargetPaths(pes) then sign(before.files[Under(dist, path)]) else before.files[Under(dist, path)]
  {
    hide Split;
    var sources, q := Signing.Sources(pes, dist), Under(dist, path);
    if path in TargetPaths(pes) {
      var i :| 0 <= i < |pes| && pes[i].0 == path;
      assert SignedAt(before.files, now.files, sources[i], sources[i], sign);
    } else {
      forall i | 0 <= i < |pes|
        ensures sources[i] != q
      {
        assert pes[i] in pes;
        if sources[i] == q {
          UnderInjective(dist, pes[i].0, path);
        }
      }
      assert Signing.NotAmong(sources, |pes|, q);
    }
  }

  // ---- the signer ---------------------------------------------------------------------

  // Signs, with any checksum and any certificate, every unsigned image that can be signed, and
  // returns everything else as it is.
  ghost predicate Signs(sign: seq<byte> -> seq<byte>) {
    forall b :: SignsOrReturns(b, sign(b))
  }

  ghost predicate SignsOrReturns(b: seq<byte>, s: seq<byte>) {
    if Accepts(b, Unsigned) && CanBeSigned(b) then IsSigned(b, s) else s == b
  }

  // The identity of an image: the hash of its normalised stream.
  ghost function PayloadIdentity(sha: Sha256, b: seq<byte>): Option<string> {
    if PeLayout.Accepted(b) then Some(Identity(sha, Stream(b))) else None
  }

  lemma SignerKeepsIdentity(sha: Sha256, b: seq<byte>, s: seq<byte>)
    requires SignsOrReturns(b, s)
    ensures PayloadIdentity(sha, s) == PayloadIdentity(sha, b)
  {
    hide U16, U32, PeLayout.Accepted, Stream, IsSigningOf, Identity;
    if Accepts(b, Unsigned) && CanBeSigned(b) {
      SignedImagesAreSignings(b, s);
      AcceptsMeansAccepted(b, Unsigned);
      AcceptsMeansAccepted(s, Signed);
    }
  }

  // Only an aligned image below 4 GiB has a signed form.
  lemma SignedMeansCanBe(b: seq<byte>, s: seq<byte>)
    requires Accepts(b, Unsigned) && SignsOrReturns(b, s)
    ensures IsSigned(b, s) <==> CanBeSigned(b)
  {
    hide U16, U32, PeLayout.Accepted, Sign;
  }

  lemma SignedFormsOfTargets(
    pes: PeMap, u: map<string, Slice>, g: map<string, Slice>, sign: seq<byte> -> seq<byte>)
    requires Signs(sign) && SignedFiles(pes, u, g, sign) && TargetPaths(pes) <= u.Keys
    requires forall t :: t in TargetPaths(pes) && t in u ==> Accepts(u[t], Unsigned)
    ensures IsSignedForm(pes, u, g) <==> forall t :: t in TargetPaths(pes) && t in u ==> CanBeSigned(u[t])
  {
    hide IsSigned, Accepts, CanBeSigned, TargetPaths, SignsOrReturns;
    forall t | t in TargetPaths(pes) && t in u
      ensures IsSigned(u[t], g[t]) <==> CanBeSigned(u[t])
    {
      assert g[t] == SignedForm(pes, u, t, sign);
      assert SignsOrReturns(u[t], sign(u[t]));
      SignedMeansCanBe(u[t], g[t]);
    }
    forall path | path in u && path !in TargetPaths(pes)
      ensures u[path] == g[path]
    {
      assert g[path] == SignedForm(pes, u, path, sign);
    }
  }

  // ---- the run ------------------------------------------------------------------------

  // Every image is aligned and small enough to carry a certificate.
  ghost predicate AllCanBeSigned(pes: PeMap, files: map<string, Slice>) {
    forall t :: t in TargetPaths(pes) && t in files ==> CanBeSigned(files[t])
  }

  lemma SignedTreePasses(
    sha: Sha256, pes: PeMap, commitOf: CommitParser, m: BundleManifest,
    before: State, now: State, dist: Path, sign: seq<byte> -> seq<byte>, u: Node, g: Node)
    requires IsSeal(sha, pes, commitOf, u, Unsigned, m) && NoCollisions(sha, pes, u, g)
    requires BUILDINFO !in TargetPaths(pes) && Signs(sign)
    requires Shows(before, dist, u) && Shows(now, dist, g) && OnlySignedBelow(before, now, pes, dist, sign)
    ensures TransitionOk(sha, pes, commitOf, g, Decoded(m)) <==> AllCanBeSigned(pes, Files(u))
  {
    hide Files, NoCollisions, IsListing, TransitionOk, Shows, OnlySignedBelow, IsSignedForm, Signs, SignedFiles,
      Accepts, TreeOk;
    SealedTree(sha, pes, commitOf, u, Unsigned, m);
    BundleHasTargets(pes, u, Unsigned);
    BundleImages(pes, u, Unsigned);
    SignedTree(before, now, pes, dist, sign, u, g);
    SignedFormsOfTargets(pes, Files(u), Files(g), sign);
    TransitionAcceptsSignedForms(sha, pes, commitOf, u, g, m);
  }

  // No signed file outgrows a slice, so the file system shows a tree again.
  lemma SignedTreeShown(
    before: State, now: State, pes: PeMap, dist: Path, sign: seq<byte> -> seq<byte>, u: Node) returns (g: Node)
    requires Shows(before, dist, u) && OnlySignedBelow(before, now, pes, dist, sign) && Signs(sign)
    ensures Shows(now, dist, g)
  {
    hide Lookup, Split, OnlySignedBelow, Signs, Shows, SamePaths;
    SignedPaths(before, now, pes, dist, sign);
    forall p: Position | dist + p in now.files
      ensures FitsSlice(now.files[dist + p])
    {
      SignedFileFits(before, now, pes, dist, sign, u, p);
    }
    g := ShownAgain(before, now, dist, u);
  }

  lemma SignedFileFits(
    before: State, now: State, pes: PeMap, dist: Path, sign: seq<byte> -> seq<byte>, u: Node, p: Position)
    requires Shows(before, dist, u) && OnlySignedBelow(before, now, pes, dist, sign) && Signs(sign)
    requires dist + p in now.files
    ensures FitsSlice(now.files[dist + p])
  {
    hide Lookup, Split, IsSigned, CanBeSigned, Accepts;
    var sources, q := Signing.Sources(pes, dist), dist + p;
    SignedPaths(before, now, pes, dist, sign);
    assert ShowsAt(before, dist, u, p) && dist <= q;
    if Signing.NotAmong(sources, |pes|, q) {
      assert Signing.SameAt(before.files, now.files, q);
    } else {
      var i :| 0 <= i < |pes| && sources[i] == q;
      assert SignedAt(before.files, now.files, sources[i], sources[i], sign);
      assert SignsOrReturns(before.files[q], sign(before.files[q]));
      SignedFits(before.files[q], sign(before.files[q]));
    }
  }

  lemma SignedFits(b: seq<byte>, s: seq<byte>)
    requires SignsOrReturns(b, s) && FitsSlice(b)
    ensures FitsSlice(s)
  {
    hide U16, U32, Accepts, PeLayout.HeadersOk;
  }

  /** From the seal to the transition check, over the mutable file system: after staging, any signer
      and collecting, the tree is the sealed one with every image signed, and the check against the
      seal accepts it exactly when every image could be signed. */
  method SignRelease(
    fs: FileSystem, pes: PeMap, dist: Path, stageDir: Path, signedDir: Path,
    sign: seq<byte> -> seq<byte>, digest: Signing.ImageDigest,
    ghost sha: Sha256, ghost commitOf: CommitParser, ghost u: Node, ghost m: BundleManifest) returns (ok: bool)
    requires fs.Valid() && Apart(dist, stageDir) && Apart(dist, signedDir) && Apart(stageDir, signedDir)
    requires Shows(fs.Now(), dist, u) && IsSeal(sha, pes, commitOf, u, Unsigned, m)
    requires BUILDINFO !in TargetPaths(pes)
    requires Signs(sign) && forall b :: digest(b) == PayloadIdentity(sha, b)
    modifies fs
    ensures fs.Valid()
    // whatever others did after the copies
    ensures ok ==> Signing.Kept(digest, old(fs.files), fs.files, Signing.Sources(pes, dist))
    ensures fs.quiet && ok ==> OnlySignedBelow(old(fs.Now()), fs.Now(), pes, dist, sign)
    ensures fs.quiet && ok ==> exists g :: Shows(fs.Now(), dist, g)
    ensures fs.quiet && ok ==> forall g :: Shows(fs.Now(), dist, g) ==> SignedFiles(pes, Files(u), Files(g), sign)
    ensures fs.quiet && ok ==> forall g :: Shows(fs.Now(), dist, g) && NoCollisions(sha, pes, u, g) ==>
              (TransitionOk(sha, pes, commitOf, g, Decoded(m)) <==> AllCanBeSigned(pes, Files(u)))
    ensures !fs.faulty && fs.quiet && StageReady(old(fs.Now()), pes, dist, stageDir, signedDir) ==> ok
  {
    hide Files, NoCollisions, IsListing, TransitionOk, IsSeal, Shows, StageReady, AllCanBeSigned, SignedFiles;
    ghost var before := fs.Now();
    forall b
      ensures digest(sign(b)) == digest(b)
    {
      assert SignsOrReturns(b, sign(b));
      SignerKeepsIdentity(sha, b, sign(b));
    }
    if StageReady(before, pes, dist, stageDir, signedDir) {
      SealedImagesReadable(sha, pes, commitOf, m, before, dist, u, digest);
    }
    ok := StageSignCollect(fs, pes, dist, stageDir, signedDir, sign, digest);
    if !ok {
      return false;
    }
    if !fs.quiet {
      return true;
    }
    BelowBundle(before, fs.Now(), pes, dist, stageDir, signedDir, sign);
    SealedTree(sha, pes, commitOf, u, Unsigned, m);
    ghost var shown := SignedTreeShown(before, fs.Now(), pes, dist, sign, u);
    forall g | Shows(fs.Now(), dist, g)
      ensures SignedFiles(pes, Files(u), Files(g), sign)
      ensures NoCollisions(sha, pes, u, g) ==>
                (TransitionOk(sha, pes, commitOf, g, Decoded(m)) <==> AllCanBeSigned(pes, Files(u)))
    {
      SignedTree(before, fs.Now(), pes, dist, sign, u, g);
      if NoCollisions(sha, pes, u, g) {
        SignedTreePasses(sha, pes, commitOf, m, before, fs.Now(), dist, sign, u, g);
      }
    }
    return true;
  }

  lemma SealedImagesReadable(
    sha: Sha256, pes: PeMap, commitOf: CommitParser, m: BundleManifest,
    s: State, dist: Path, u: Node, digest: Signing.ImageDigest)
    requires IsSeal(sha, pes, commitOf, u, Unsigned, m) && Shows(s, dist, u)
    requires forall b :: digest(b) == PayloadIdentity(sha, b)
    ensures forall i :: 0 <= i < |pes| ==> Signing.DigestAt(digest, s.files, Signing.Sources(pes, dist)[i]).Some?
  {
    hide Files, IsListing, Shows, Split, PeLayout.Accepted;
    BundleHasTargets(pes, u, Unsigned);
    BundleImages(pes, u, Unsigned);
    forall i | 0 <= i < |pes|
      ensures Signing.DigestAt(digest, s.files, Signing.Sources(pes, dist)[i]).Some?
    {
      var path := pes[i].0;
      assert pes[i] in pes && path in TargetPaths(pes);
      ShownFile(s, dist, u, path);
      AcceptsMeansAccepted(Files(u)[path], Unsigned);
    }
  }

  lemma BelowBundle(
    before: State, now: State, pes: PeMap, dist: Path, stageDir: Path, signedDir: Path, sign: seq<byte> -> seq<byte>)
    requires Apart(dist, stageDir) && Apart(dist, signedDir)
    requires SignedInPlace(before.files, now.files, pes, dist, sign)
    requires forall q ::
               !(stageDir <= q) && !(signedDir <= q) && Signing.NotAmong(Signing.Sources(pes, dist), |pes|, q) ==>
                 Signing.SameAt(before.files, now.files, q)
    requires forall q :: dist <= q ==> (q in now.dirs <==> q in before.dirs)
    ensures OnlySignedBelow(before, now, pes, dist, sign)
  {
    hide Split;
    forall q | dist <= q && Signing.NotAmong(Signing.Sources(pes, dist), |pes|, q)
      ensures Signing.SameAt(before.files, now.files, q)
    {
      OutsideOther(dist, stageDir, q);
      OutsideOther(dist, signedDir, q);
    }
  }

  /** A bundle whose BUILDINFO.txt publishing stamped with a full object name can be sealed, and the
      seal carries that name. */
  lemma StampedCommitSealed(
    sha: Sha256, pes: PeMap, commitOf: CommitParser, root: Node, state: BundleState,
    version: string, channel: string, commit: string, date: Option<string>)
    requires BundleOk(pes, root, state) && "BUILDINFO.txt" in Files(root)
    requires BuildInfo.Stampable(version, channel, Some(commit), date) && Encodes(commit, 20)
    // reading the file and decoding it gives the text that was written
    requires commitOf(Files(root)["BUILDINFO.txt"]) == BuildInfo.ParseSourceCommit(
                 BuildInfo.FileText(BuildInfo.BodyLines(version, channel, Some(commit), date)))
    ensures SealFiles.CanBeSealed(pes, commitOf, root, state)
    ensures forall m :: IsSeal(sha, pes, commitOf, root, state, m) ==> m.sourceCommit == commit
  {
    hide Files, BundleOk, IsListing, BuildInfo.FileText, BuildInfo.BodyLines, BuildInfo.ParseSourceCommit, Encodes;
    BuildInfo.CommitRoundTrip(version, channel, Some(commit), date);
    HexTexts(commit, 20);
  }

  // ---- packaging ----------------------------------------------------------------------

  // A tag asks for a signed bundle.
  function PackagedState(tag: Option<string>): BundleState {
    if tag.Some? then Signed else Unsigned
  }

  function ZipName(name: string): string {
    "find-my-files-" + name + "-win-x64.zip"
  }

  /** `package`: collects the bundle in the state that the tag implies, labels it by its own version, and
      archives what was collected; whatever happens to the tree after collecting. */
  method PackageBundle(
    sha: Sha256, pes: PeMap, root: Node, buildinfo: string, tag: Option<string>, observed: Observed)
    returns (ok: bool, zipName: string, zw: ZipWriter)
    ensures fresh(zw)
    ensures ok <==>
            && BundleOk(pes, root, if tag == None then Unsigned else Signed)
            && BuildInfo.ParseVersion(buildinfo).Some?
            && PackageLabel(tag, BuildInfo.ParseVersion(buildinfo).value).Some?
            && forall listing :: IsListing(Policy(sha, TargetPaths(pes), PackagedState(tag)), listing, Files(root)) ==>
                 AllUnchanged(sha, listing, observed)
    ensures ok ==>
              zipName == ZipName(PackageLabel(tag, BuildInfo.ParseVersion(buildinfo).value).value)
    ensures ok ==> exists listing ::
              && IsListing(Policy(sha, TargetPaths(pes), PackagedState(tag)), listing, Files(root))
              && Archives(zw.entries, listing, observed, |listing|)
  {
    hide Files, BundleOk, IsListing, AllUnchanged, Archives, PackageLabel, BuildInfo.ParseVersion;
    zw := new ZipWriter();
    var state := PackagedState(tag);
    ghost var y := Policy(sha, TargetPaths(pes), state);
    var listing := CollectBundleFiles(sha, pes, root, state);
    if listing.None? {
      return false, "", zw;
    }
    forall other | IsListing(y, other, Files(root))
      ensures other == listing.value
    {
      ListingUnique(y, other, listing.value, Files(root));
    }
    var version := BuildInfo.ParseVersion(buildinfo);
    if version.None? {
      return false, "", zw;
    }
    var named := PackageLabel(tag, version.value);
    if named.None? {
      return false, "", zw;
    }
    ok, zw := WriteZip(sha, listing.value, observed);
    zipName := ZipName(named.value);
  }

  /** The archive of a signed release is made exactly when every file is, at the moment it is read, as
      the signer left it, and then holds exactly the sealed paths, with each image in its signed form
      and all else as it was sealed. */
  lemma ArchiveHoldsSignedForms(
    sha: Sha256, pes: PeMap, u: map<string, Slice>, g: Node, sign: seq<byte> -> seq<byte>,
    listing: seq<BundleFileIdentity>, observed: Observed, read: set<seq<byte>>, zw: seq<ZipEntry>)
    requires SignedFiles(pes, u, Files(g), sign)
    requires IsListing(Policy(sha, TargetPaths(pes), Signed), listing, Files(g))
    requires Distinguishes(sha, Files(g).Values, read) && AllRead(listing, observed, read)
    ensures AllUnchanged(sha, listing, observed) <==>
            forall i :: 0 <= i < |listing| ==> FindsSigned(pes, u, sign, listing[i].path, observed(i))
    ensures AllUnchanged(sha, listing, observed) && Archives(zw, listing, observed, |listing|) ==>
              && (forall i :: 0 <= i < |zw| ==> zw[i].name in u && zw[i].data == SignedForm(pes, u, zw[i].name, sign))
              && (forall path :: path in u ==> ZipEntry(path, SignedForm(pes, u, path, sign)) in zw)
              && (forall i, j :: 0 <= i < j < |zw| ==> Less(zw[i].name, zw[j].name))
  {
    hide Files, IdentityOf, SignedForm, IsListing, Distinguishes;
    var y := Policy(sha, TargetPaths(pes), Signed);
    ArchiveSucceedsExactly(y, Files(g), listing, observed, read);
    ListingDescribes(y, listing, Files(g));
    forall i | 0 <= i < |listing|
      ensures Undisturbed(observed(i), Files(g), listing[i].path) <==>
              FindsSigned(pes, u, sign, listing[i].path, observed(i))
    {
      assert Files(g)[listing[i].path] == SignedForm(pes, u, listing[i].path, sign);
    }
    if AllUnchanged(sha, listing, observed) && Archives(zw, listing, observed, |listing|) {
      ZipIsSealed(sha, y, g, listing, observed, read, zw);
      forall path | path in u
        ensures ZipEntry(path, SignedForm(pes, u, path, sign)) in zw
      {
        assert Files(g)[path] == SignedForm(pes, u, path, sign);
        assert path in Files(g);
      }
    }
  }

  // A read finds the signed form of the sealed file.
  ghost predicate FindsSigned(
    pes: PeMap, u: map<string, Slice>, sign: seq<byte> -> seq<byte>, path: string, tree: map<string, Slice>) {
    path in u && path in tree && tree[path] == SignedForm(pes, u, path, sign)
  }
}
