/** The sealing commands with their manifest files: what a manifest on disk stands for. */
module SealFiles {
  import opened Bytes
  import opened Wrappers
  import opened Checksum
  import opened PeSigning
  import opened BundleTree
  import opened BundleFiles
  import opened Manifest
  import opened BundleSeal
  import opened SealTheorems
  import opened SignedTransition
  import opened FileSystem
  import opened AtomicWrite
  import opened ShownTree

  // The JSON form of a manifest, and its reader.
  type Encoder = BundleManifest -> seq<byte>
  type Decoder = seq<byte> -> Option<BundleManifest>

  // Everything but `is_pe` comes back.
  ghost predicate Lossless(encode: Encoder, decode: Decoder) {
    forall m :: decode(encode(m)) == Some(Decoded(m))
  }

  // A manifest must not be part of the tree it describes.
  predicate OutsideBundle(dist: Path, manifest: Path) {
    !(dist <= manifest)
  }

  ghost function Stored(files: map<Path, seq<byte>>, decode: Decoder, manifest: Path): Option<BundleManifest> {
    if manifest in files then decode(files[manifest]) else None
  }

  // ---- the tree is not disturbed ------------------------------------------------------

  // Writing next to a bundle, interrupted or not, leaves the bundle as it was.
  lemma WritingBeside(before: State, now: State, dist: Path, root: Node, manifest: Path, bytes: seq<byte>, pid: nat)
    requires IsTree(before) && IsTree(now) && Shows(before, dist, root) && OutsideBundle(dist, manifest)
          && manifest != []
    requires Complete(before, now, manifest, bytes, pid) && now.dirs <= before.dirs + Prefixes(Parent(manifest))
    ensures Shows(now, dist, root)
  {
    hide Lookup, Prefixes, TemporaryName;
    SameDirectories(before.dirs, now.dirs, dist, manifest);
    assert dist in before.files || dist in before.dirs by {
      ShownRoot(before, dist, root);
    }
    forall q | dist <= q
      ensures q in now.files <==> q in before.files
      ensures q in now.files && q in before.files ==> now.files[q] == before.files[q]
    {
      if q in now.files && q !in before.files {
        TemporaryBeside(dist, manifest, pid, q);
      }
    }
    SameBelowShows(before, now, dist, root);
  }

  lemma ShownRoot(s: State, dist: Path, root: Node)
    requires Shows(s, dist, root)
    ensures dist in s.files || dist in s.dirs
  {
    assert ShowsAt(s, dist, root, []) && dist + [] == dist;
  }

  lemma SameDirectories(before: set<Path>, now: set<Path>, dist: Path, manifest: Path)
    requires manifest != [] && OutsideBundle(dist, manifest)
    requires before <= now <= before + Prefixes(Parent(manifest))
    ensures forall q :: dist <= q ==> (q in now <==> q in before)
  {
    PrefixOf(Parent(manifest));
    NotBelowParent(dist, manifest);
    forall q | q in Prefixes(Parent(manifest))
      ensures !(dist <= q)
    {
      if dist <= q {
        PrefixTransitive(dist, q, Parent(manifest));
      }
    }
  }

  // A temporary file is a sibling of the manifest; at most it could take the bundle's own place.
  lemma TemporaryBeside(dist: Path, manifest: Path, pid: nat, q: Path)
    requires manifest != [] && OutsideBundle(dist, manifest) && IsTemporary(manifest, pid, q) && dist <= q
    ensures q == dist
  {
    var suffix: nat :| IsTemporaryNumber(manifest, pid, suffix, q);
    TemporaryNumber(manifest, pid, suffix, q);
    TemporaryDiffers(manifest, pid, suffix);
    NotBelowParent(dist, manifest);
    assert dist == q[..|dist|];
  }

  lemma SameBelowShows(before: State, now: State, dist: Path, root: Node)
    requires Shows(before, dist, root)
    requires forall q :: dist <= q ==> (q in now.files <==> q in before.files)
    requires forall q :: dist <= q && q in now.files && q in before.files ==> now.files[q] == before.files[q]
    requires forall q :: dist <= q ==> (q in now.dirs <==> q in before.dirs)
    ensures Shows(now, dist, root)
  {
    hide Lookup;
    forall p
      ensures ShowsAt(now, dist, root, p)
    {
      assert ShowsAt(before, dist, root, p) && dist <= dist + p;
    }
  }

  // ---- seal ---------------------------------------------------------------------------

  // The tree can be sealed: it is in order and names a commit.
  ghost predicate CanBeSealed(pes: PeMap, commitOf: CommitParser, root: Node, state: BundleState) {
    && BundleOk(pes, root, state)
    && var commit := SourceCommit(commitOf, Files(root));
    commit.Some? && ValidSourceCommit(commit.value)
  }

  // Nothing stands in the way of sealing it into that file.
  ghost predicate SealReady(
    now: State, pes: PeMap, commitOf: CommitParser, dist: Path, root: Node, manifest: Path, state: BundleState,
    pid: nat) {
    OutsideBundle(dist, manifest) && CanBeSealed(pes, commitOf, root, state) && Writable(now, manifest, pid)
  }

  // The manifest file holds a seal of the tree, and no other file differs.
  ghost predicate Sealed(
    before: map<Path, seq<byte>>, now: map<Path, seq<byte>>, manifest: Path, sha: Sha256, pes: PeMap,
    commitOf: CommitParser, encode: Encoder, root: Node, state: BundleState) {
    exists m :: IsSeal(sha, pes, commitOf, root, state, m) && now == before[manifest := encode(m)]
  }

  /** Seals the tree at `dist` into a file outside it.  The tree is never disturbed, and the manifest
      file holds either a complete seal of it or what it held before. */
  method SealFile(
    fs: FileSystem, sha: Sha256, pes: PeMap, commitOf: CommitParser, encode: Encoder,
    dist: Path, root: Node, manifest: Path, state: BundleState, pid: nat) returns (ok: bool)
    requires fs.Valid() && Shows(fs.Now(), dist, root)
    modifies fs
    ensures fs.Valid() && Shows(fs.Now(), dist, root)
    ensures ok ==> OutsideBundle(dist, manifest) && CanBeSealed(pes, commitOf, root, state)
    ensures ok ==> Sealed(old(fs.files), fs.files, manifest, sha, pes, commitOf, encode, root, state)
    ensures !ok ==> (manifest in fs.files <==> manifest in old(fs.files))
                    && (manifest in fs.files ==> fs.files[manifest] == old(fs.files)[manifest])
    ensures !fs.faulty && SealReady(old(fs.Now()), pes, commitOf, dist, root, manifest, state, pid) ==> ok
  {
    hide Shows, Complete, OnlyAdds, Prefixes, IsSeal, BundleOk, SourceCommit, ValidSourceCommit, Files, Writable;
    ghost var before := fs.Now();
    if dist <= manifest {
      return false;
    }
    var m := SealTo(sha, pes, commitOf, root, state);
    if m.None? {
      return false;
    }
    var bytes := encode(m.value);
    ok := WriteFileAtomic(fs, manifest, bytes, pid);
    if manifest != [] {
      WritingBeside(before, fs.Now(), dist, root, manifest, bytes, pid);
      if !ok {
        UnwrittenKept(before, fs.Now(), manifest, pid);
      }
    } else {
      assert fs.Now() == before;
    }
  }

  lemma UnwrittenKept(before: State, now: State, path: Path, pid: nat)
    requires path != []
    requires
      || now.files == before.files
      || exists n: nat :: n < ATTEMPTS && OnlyAdds(before, now, TemporaryPath(path, pid, n))
    ensures (path in now.files <==> path in before.files)
          && (path in now.files ==> now.files[path] == before.files[path])
  {
    if now.files != before.files {
      var n: nat :| n < ATTEMPTS && OnlyAdds(before, now, TemporaryPath(path, pid, n));
      TemporaryDiffers(path, pid, n);
      assert path in before.files ==> path in now.files - {TemporaryPath(path, pid, n)};
    }
  }

  // ---- verify -------------------------------------------------------------------------

  ghost predicate VerifiesFile(
    files: map<Path, seq<byte>>, sha: Sha256, pes: PeMap, commitOf: CommitParser, decode: Decoder,
    dist: Path, root: Node, manifest: Path, state: BundleState) {
    && OutsideBundle(dist, manifest)
    && var stored := Stored(files, decode, manifest);
    stored.Some? && VerifyOk(sha, pes, commitOf, root, stored.value, state)
  }

  method VerifyFile(
    fs: FileSystem, sha: Sha256, pes: PeMap, commitOf: CommitParser, decode: Decoder,
    dist: Path, root: Node, manifest: Path, state: BundleState) returns (ok: bool)
    ensures ok <==> VerifiesFile(fs.files, sha, pes, commitOf, decode, dist, root, manifest, state)
  {
    hide VerifyOk;
    if dist <= manifest || manifest !in fs.files {
      return false;
    }
    var stored := decode(fs.files[manifest]);
    if stored.None? {
      return false;
    }
    ok := VerifyAt(sha, pes, commitOf, root, stored.value, state);
  }

  ghost predicate TransitionFromFile(
    files: map<Path, seq<byte>>, sha: Sha256, pes: PeMap, commitOf: CommitParser, decode: Decoder,
    dist: Path, root: Node, manifest: Path) {
    && OutsideBundle(dist, manifest)
    && var stored := Stored(files, decode, manifest);
    stored.Some? && TransitionOk(sha, pes, commitOf, root, stored.value)
  }

  method VerifyTransitionFile(
    fs: FileSystem, sha: Sha256, pes: PeMap, commitOf: CommitParser, decode: Decoder,
    dist: Path, root: Node, manifest: Path) returns (ok: bool)
    ensures ok <==> TransitionFromFile(fs.files, sha, pes, commitOf, decode, dist, root, manifest)
  {
    hide TransitionOk;
    if dist <= manifest || manifest !in fs.files {
      return false;
    }
    var stored := decode(fs.files[manifest]);
    if stored.None? {
      return false;
    }
    ok := VerifySignedTransition(sha, pes, commitOf, root, stored.value);
  }

  /** Sealing and then verifying the same tree succeeds, with no assumption about the hash. */
  lemma SealedVerifies(
    sha: Sha256, pes: PeMap, commitOf: CommitParser, encode: Encoder, decode: Decoder,
    before: map<Path, seq<byte>>, now: map<Path, seq<byte>>, dist: Path, root: Node, manifest: Path, state: BundleState)
    requires Lossless(encode, decode) && OutsideBundle(dist, manifest)
    requires Sealed(before, now, manifest, sha, pes, commitOf, encode, root, state)
    ensures VerifiesFile(now, sha, pes, commitOf, decode, dist, root, manifest, state)
  {
    hide Files, BundleOk, IsListing, ManifestOk, ByPathMatch, SourceCommit, ValidSourceCommit;
    var m :| IsSeal(sha, pes, commitOf, root, state, m) && now == before[manifest := encode(m)];
    SealPaths(sha, pes, commitOf, root, state, m);
    SameMeansMatch(sha, pes, commitOf, root, root, state, m);
  }

  // ---- the seal command ---------------------------------------------------------------

  // What the command asks of a signed tree before it seals it.
  ghost predicate TransitionIfSigned(
    files: map<Path, seq<byte>>, sha: Sha256, pes: PeMap, commitOf: CommitParser, decode: Decoder,
    dist: Path, root: Node, unsignedManifest: Path, state: BundleState) {
    state == Signed ==> TransitionFromFile(files, sha, pes, commitOf, decode, dist, root, unsignedManifest)
  }

  /** `bundle-seal`: a signed manifest is only written after the transition check. */
  method RunSeal(
    fs: FileSystem, sha: Sha256, pes: PeMap, commitOf: CommitParser, encode: Encoder, decode: Decoder,
    dist: Path, root: Node, unsignedManifest: Path, manifest: Path, state: BundleState, pid: nat) returns (ok: bool)
    requires fs.Valid() && Shows(fs.Now(), dist, root)
    modifies fs
    ensures fs.Valid() && Shows(fs.Now(), dist, root)
    ensures ok ==> OutsideBundle(dist, manifest)
    ensures ok ==> Sealed(old(fs.files), fs.files, manifest, sha, pes, commitOf, encode, root, state)
    ensures ok && state.Signed? ==>
              TransitionFromFile(old(fs.files), sha, pes, commitOf, decode, dist, root, unsignedManifest)
    ensures !fs.faulty && SealReady(old(fs.Now()), pes, commitOf, dist, root, manifest, state, pid)
            && TransitionIfSigned(old(fs.files), sha, pes, commitOf, decode, dist, root, unsignedManifest, state)
            ==> ok
    ensures !ok ==> (manifest in fs.files <==> manifest in old(fs.files))
                    && (manifest in fs.files ==> fs.files[manifest] == old(fs.files)[manifest])
  {
    hide Shows, Sealed, TransitionFromFile, CanBeSealed, SealReady;
    if state.Signed? {
      ok := VerifyTransitionFile(fs, sha, pes, commitOf, decode, dist, root, unsignedManifest);
      if !ok {
        return false;
      }
    }
    ok := SealFile(fs, sha, pes, commitOf, encode, dist, root, manifest, state, pid);
  }

  /** A signed manifest stands for a signed form of the tree behind the unsigned one. */
  lemma SignedSealStandsFor(
    sha: Sha256, pes: PeMap, commitOf: CommitParser, encode: Encoder, decode: Decoder,
    files: map<Path, seq<byte>>, dist: Path, u: Node, m: BundleManifest, g: Node, unsignedManifest: Path)
    requires Lossless(encode, decode) && BUILDINFO !in TargetPaths(pes)
    requires IsSeal(sha, pes, commitOf, u, Unsigned, m) && NoCollisions(sha, pes, u, g)
    requires unsignedManifest in files && files[unsignedManifest] == encode(m)
    requires OutsideBundle(dist, unsignedManifest)
    ensures TransitionFromFile(files, sha, pes, commitOf, decode, dist, g, unsignedManifest) <==>
            TreeOk(g) && IsSignedForm(pes, Files(u), Files(g))
  {
    hide Files, TransitionOk, TreeOk, IsSignedForm, IsSeal, NoCollisions;
    TransitionAcceptsSignedForms(sha, pes, commitOf, u, g, m);
  }
}
