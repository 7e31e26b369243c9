/** The signed transition: accepted exactly when signing the first-party images is all that happened. */
module SignedTransition {
  import opened Bytes
  import opened Checksum
  import PeLayout
  import opened PeSigning
  import opened BundleTree
  import opened BundleWalk
  import opened BundleFiles
  import opened Manifest
  import opened BundleSeal
  import opened SealTheorems
  import PeLoad
  import SignedPolicy

  // Every image gained a signature and nothing else changed.
  ghost predicate OnlySigned(pes: PeMap, before: map<string, Slice>, after: map<string, Slice>)
    requires forall t :: t in TargetPaths(pes) && t in before ==> Accepts(before[t], Unsigned)
    requires forall t :: t in TargetPaths(pes) && t in after ==> Accepts(after[t], Signed)
  {
    && before.Keys == after.Keys
    && forall path :: path in before ==>
         if path in TargetPaths(pes) then SigningOnly(before[path], after[path]) else before[path] == after[path]
  }

  lemma BundleImages(pes: PeMap, root: Node, state: BundleState)
    requires BundleOk(pes, root, state)
    ensures forall t :: t in TargetPaths(pes) && t in Files(root) ==> Accepts(Files(root)[t], state)
  {
  }

  // One file's step, read as a statement about bytes.
  lemma StepMeansSigning(
    sha: Sha256, xs: set<seq<byte>>, ys: set<seq<byte>>, targets: set<string>, path: string, u: Slice, g: Slice)
    requires Distinguishes(sha, xs, ys) && u in xs && g in ys
    requires path in targets ==> Accepts(u, Unsigned) && Accepts(g, Signed) && Stream(u) in xs && Stream(g) in ys
    ensures TransitionStep(
              targets, IdentityOf(Policy(sha, targets, Unsigned), path, u),
              IdentityOf(Policy(sha, targets, Signed), path, g)) <==>
            if path in targets then SigningOnly(u, g) else u == g
  {
    hide Identity, Distinguishes, Accepts, Stream, SigningOnly, PeLayout.Accepted;
    EqualIdentities(sha, xs, ys, u, g);
    if path in targets {
      AcceptsMeansAccepted(u, Unsigned);
      AcceptsMeansAccepted(g, Signed);
      EqualIdentities(sha, xs, ys, Stream(u), Stream(g));
      SameStreamIsSigningOnly(u, g);
      SignedDiffers(u, g);
    }
  }

  lemma AcceptsMeansAccepted(b: seq<byte>, state: BundleState)
    requires Accepts(b, state)
    ensures PeLayout.Accepted(b)
  {
  }

  // The check that a target did change is implied: the states differ.
  lemma SignedDiffers(u: seq<byte>, g: seq<byte>)
    requires Accepts(u, Unsigned) && Accepts(g, Signed)
    ensures u != g
  {
  }

  // The comparison does not see what the stored manifest dropped.
  lemma StepOfRecord(targets: set<string>, f: BundleFileIdentity, sealed: BundleFileIdentity, after: BundleFileIdentity)
    requires SameIdentity(f, sealed)
    ensures TransitionStep(targets, f, after) <==> TransitionStep(targets, sealed, after)
  {
  }

  // The transition rule for a recorded file and the signed tree's file of that path.
  ghost predicate StepAccepts(sha: Sha256, pes: PeMap, f: BundleFileIdentity, signed: map<string, Slice>)
    requires f.path in signed
  {
    Transition(TargetPaths(pes))(f, IdentityOf(Policy(sha, TargetPaths(pes), Signed), f.path, signed[f.path]))
  }

  lemma RecordedStep(
    sha: Sha256, pes: PeMap, commitOf: CommitParser, u: Node, g: Node, m: BundleManifest, f: BundleFileIdentity)
    requires IsSeal(sha, pes, commitOf, u, Unsigned, m) && BundleOk(pes, g, Signed) && NoCollisions(sha, pes, u, g)
    requires f in Decoded(m).files && f.path in Files(g)
    ensures f.path in Files(u)
    ensures f.path in TargetPaths(pes) ==> Accepts(Files(u)[f.path], Unsigned) && Accepts(Files(g)[f.path], Signed)
    ensures StepAccepts(sha, pes, f, Files(g)) <==>
            if f.path in TargetPaths(pes) then SigningOnly(Files(u)[f.path], Files(g)[f.path])
            else Files(u)[f.path] == Files(g)[f.path]
  {
    hide Files, BundleOk, IdentityOf, SigningOnly, PeLayout.Accepted, Stream, TransitionStep, IsListing, Hashed,
      Distinguishes, SameIdentity;
    var path, targets := f.path, TargetPaths(pes);
    SealRecord(sha, pes, commitOf, u, Unsigned, m, f);
    BundleImages(pes, u, Unsigned);
    BundleImages(pes, g, Signed);
    HashedFile(pes, Files(u), path);
    HashedFile(pes, Files(g), path);
    StepMeansSigning(sha, Hashed(pes, Files(u)), Hashed(pes, Files(g)), targets, path, Files(u)[path], Files(g)[path]);
    StepOfRecord(targets, f, IdentityOf(Policy(sha, targets, Unsigned), path, Files(u)[path]),
                 IdentityOf(Policy(sha, targets, Signed), path, Files(g)[path]));
  }

  lemma RecordsMatch(sha: Sha256, pes: PeMap, commitOf: CommitParser, u: Node, g: Node, m: BundleManifest)
    requires IsSeal(sha, pes, commitOf, u, Unsigned, m) && BundleOk(pes, g, Signed) && NoCollisions(sha, pes, u, g)
    requires forall t :: t in TargetPaths(pes) && t in Files(u) ==> Accepts(Files(u)[t], Unsigned)
    requires forall t :: t in TargetPaths(pes) && t in Files(g) ==> Accepts(Files(g)[t], Signed)
    ensures ByPathMatch(
              Transition(TargetPaths(pes)), Policy(sha, TargetPaths(pes), Signed), Decoded(m).files, Files(g)) <==>
            OnlySigned(pes, Files(u), Files(g))
  {
    hide Files, BundleOk, IdentityOf, SigningOnly, Accepts, TransitionStep, Transition, IsListing, NoCollisions,
      ManifestOk;
    SealPaths(sha, pes, commitOf, u, Unsigned, m);
    var files := Decoded(m).files;
    if Paths(files) == Files(g).Keys {
      forall f | f in files
        ensures f.path in Paths(files)
        ensures StepAccepts(sha, pes, f, Files(g)) <==>
                if f.path in TargetPaths(pes) then SigningOnly(Files(u)[f.path], Files(g)[f.path])
                else Files(u)[f.path] == Files(g)[f.path]
      {
        assert f.path in Paths(files);
        RecordedStep(sha, pes, commitOf, u, g, m, f);
      }
    }
  }

  /** The transition check accepts a tree against the seal of an unsigned bundle exactly when the
      tree is a signed bundle of the same commit in which only signing happened. */
  lemma TransitionIsSigningOnly(sha: Sha256, pes: PeMap, commitOf: CommitParser, u: Node, g: Node, m: BundleManifest)
    requires IsSeal(sha, pes, commitOf, u, Unsigned, m) && NoCollisions(sha, pes, u, g)
    ensures TransitionOk(sha, pes, commitOf, g, Decoded(m)) <==>
            && BundleOk(pes, g, Signed)
            && SourceCommit(commitOf, Files(g)) == SourceCommit(commitOf, Files(u))
            && (BundleImages(pes, u, Unsigned); BundleImages(pes, g, Signed); OnlySigned(pes, Files(u), Files(g)))
  {
    hide Files, BundleOk, OnlySigned, ByPathMatch, ManifestOk, IsListing, NoCollisions, SourceCommit;
    SealPaths(sha, pes, commitOf, u, Unsigned, m);
    BundleImages(pes, u, Unsigned);
    if BundleOk(pes, g, Signed) {
      BundleImages(pes, g, Signed);
      RecordsMatch(sha, pes, commitOf, u, g, m);
    }
  }

  /** BUILDINFO.txt is no signing target, so the commit cannot differ either. */
  lemma CommitFollows(commitOf: CommitParser, pes: PeMap, u: map<string, Slice>, g: map<string, Slice>)
    requires forall t :: t in TargetPaths(pes) && t in u ==> Accepts(u[t], Unsigned)
    requires forall t :: t in TargetPaths(pes) && t in g ==> Accepts(g[t], Signed)
    requires BUILDINFO !in TargetPaths(pes) && OnlySigned(pes, u, g)
    ensures SourceCommit(commitOf, g) == SourceCommit(commitOf, u)
  {
  }

  // `after` is `before` with every target replaced by one of its signings.
  ghost predicate IsSignedForm(pes: PeMap, before: map<string, Slice>, after: map<string, Slice>) {
    && before.Keys == after.Keys
    && forall path :: path in before ==>
         if path in TargetPaths(pes) then IsSigned(before[path], after[path]) else before[path] == after[path]
  }

  ghost predicate IsSigned(u: seq<byte>, g: seq<byte>) {
    PeLayout.HeadersOk(u) && exists checksum, blob :: IsSigningOf(u, checksum, blob, g)
  }

  lemma SigningOnlyIsSigned(u: seq<byte>, g: seq<byte>)
    requires Accepts(u, Unsigned)
    ensures IsSigned(u, g) <==> Accepts(g, Signed) && SigningOnly(u, g)
  {
    hide IsSigningOf, Stream, SigningOnly;
    SignedImagesAreSignings(u, g);
    if Accepts(g, Signed) {
      SameStreamIsSigningOnly(u, g);
    }
  }

  /** Put together: a tree in order passes exactly when it is the sealed tree with each
      first-party image replaced by the result of some signing of it. */
  lemma TransitionAcceptsSignedForms(
    sha: Sha256, pes: PeMap, commitOf: CommitParser, u: Node, g: Node, m: BundleManifest)
    requires IsSeal(sha, pes, commitOf, u, Unsigned, m) && NoCollisions(sha, pes, u, g)
    requires BUILDINFO !in TargetPaths(pes)
    ensures TransitionOk(sha, pes, commitOf, g, Decoded(m)) <==> TreeOk(g) && IsSignedForm(pes, Files(u), Files(g))
  {
    hide Files, Entries, NoCollisions, IsListing, ManifestOk, ByPathMatch, TreeOk, IsSigned, SigningOnly, Accepts,
      SourceCommit, TransitionOk;
    TransitionIsSigningOnly(sha, pes, commitOf, u, g, m);
    BundleImages(pes, u, Unsigned);
    forall path | path in TargetPaths(pes) && path in Files(u) && path in Files(g)
      ensures IsSigned(Files(u)[path], Files(g)[path]) <==>
            Accepts(Files(g)[path], Signed) && SigningOnly(Files(u)[path], Files(g)[path])
    {
      SigningOnlyIsSigned(Files(u)[path], Files(g)[path]);
    }
    if BundleOk(pes, g, Signed) && OnlySigned(pes, Files(u), Files(g)) {
      CommitFollows(commitOf, pes, Files(u), Files(g));
    }
  }

  /** The load policy survives an accepted transition: each first-party image of the signed tree
      loads its dependents exactly as the sealed one did, if signing cannot change that image's policy. */
  lemma TransitionKeepsLoadPolicy(
    sha: Sha256, pes: PeMap, commitOf: CommitParser, u: Node, g: Node, m: BundleManifest, path: string)
    requires IsSeal(sha, pes, commitOf, u, Unsigned, m) && NoCollisions(sha, pes, u, g)
    requires TransitionOk(sha, pes, commitOf, g, Decoded(m)) && path in TargetPaths(pes)
    ensures path in Files(u) && path in Files(g)
    ensures Accepts(Files(u)[path], Unsigned) && SignedPolicy.CanBeSigned(Files(u)[path])
    ensures SignedPolicy.SigningKeepsPolicy(Files(u)[path]) ==>
              forall flags :: PeLoad.LoadsWith(Files(u)[path], flags) <==> PeLoad.LoadsWith(Files(g)[path], flags)
  {
    hide Files, NoCollisions, IsListing, TransitionOk, PeLoad.LoadsWith, SignedPolicy.SigningKeepsPolicy, SigningOnly;
    TransitionIsSigningOnly(sha, pes, commitOf, u, g, m);
    BundleHasTargets(pes, u, Unsigned);
    BundleImages(pes, u, Unsigned);
    BundleImages(pes, g, Signed);
    SigningKeepsPolicies(Files(u)[path], Files(g)[path]);
  }

  lemma SigningKeepsPolicies(u: seq<byte>, g: seq<byte>)
    requires Accepts(u, Unsigned) && Accepts(g, Signed) && SigningOnly(u, g)
    ensures SignedPolicy.CanBeSigned(u)
    ensures SignedPolicy.SigningKeepsPolicy(u) ==>
              forall flags :: PeLoad.LoadsWith(u, flags) <==> PeLoad.LoadsWith(g, flags)
  {
    hide U16, U32, Stream, SigningOnly, PeLoad.LoadsWith, SignedPolicy.SigningKeepsPolicy;
    SameStreamIsSigningOnly(u, g);
    var checksum, blob := RecoverSigning(u, g);
    if SignedPolicy.SigningKeepsPolicy(u) {
      SignedPolicy.KeptEitherWay(u, checksum, blob);
    }
  }
}
