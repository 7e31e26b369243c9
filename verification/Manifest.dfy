/** Bundle manifests: the one-pass validator and the zipped comparison. */
module Manifest {
  import opened Wrappers
  import opened Text
  import opened Checksum
  import opened PeSigning
  import opened BundlePath
  import opened BundleWalk
  import opened BundleFiles

  const SCHEMA_VERSION: nat := 2

  datatype BundleManifest = BundleManifest(
    schemaVersion: nat, sourceCommit: string, state: BundleState, files: seq<BundleFileIdentity>)

  predicate ValidSourceCommit(commit: string) {
    |commit| == 40 && forall c :: c in commit ==> '0' <= c <= '9' || 'a' <= c <= 'f'
  }

  // ---- the validator ------------------------------------------------------------------

  // One file's own fields.
  predicate FileOk(targets: set<string>, f: BundleFileIdentity) {
    && ValidRelativePath(f.path) && IsSha256(f.sha256)
    && (f.pePayloadSha256.Some? ==> IsSha256(f.pePayloadSha256.value))
    && (f.path in targets <==> f.pePayloadSha256.Some?)
  }

  ghost predicate FoldedApart(files: seq<BundleFileIdentity>) {
    forall i, j :: 0 <= i < j < |files| ==> FoldPath(files[i].path) != FoldPath(files[j].path)
  }

  ghost function Paths(files: seq<BundleFileIdentity>): set<string> {
    set f | f in files :: f.path
  }

  ghost function FoldedPaths(files: seq<BundleFileIdentity>): set<string> {
    set f | f in files :: FoldPath(f.path)
  }

  ghost predicate FilesOk(targets: set<string>, files: seq<BundleFileIdentity>) {
    && (forall i :: 0 <= i < |files| ==> FileOk(targets, files[i]))
    && StrictlySortedBy(files, ByPath) && FoldedApart(files)
  }

  ghost predicate ManifestOk(pes: PeMap, m: BundleManifest) {
    && m.schemaVersion == SCHEMA_VERSION && ValidSourceCommit(m.sourceCommit) && m.files != [] && ValidPes(pes)
    && FilesOk(TargetPaths(pes), m.files) && TargetPaths(pes) <= Paths(m.files)
  }

  // A neighbour comparison per file suffices for the whole order.
  lemma SortedStep(files: seq<BundleFileIdentity>, next: BundleFileIdentity)
    requires StrictlySortedBy(files, ByPath)
    requires files != [] ==> Less(files[|files| - 1].path, next.path)
    ensures StrictlySortedBy(files + [next], ByPath)
  {
    forall i | 0 <= i < |files|
      ensures Less(ByPath(files[i]), ByPath(next))
    {
      if i < |files| - 1 {
        LessTransitive(files[i].path, files[|files| - 1].path, next.path);
      }
    }
  }

  lemma FilesOkPrefix(targets: set<string>, files: seq<BundleFileIdentity>, n: nat)
    requires n <= |files| && FilesOk(targets, files)
    ensures FilesOk(targets, files[..n])
  {
    var part := files[..n];
    assert forall i :: 0 <= i < n ==> part[i] == files[i];
    assert forall i, j :: 0 <= i < j < n ==> Less(ByPath(part[i]), ByPath(part[j]));
  }

  /** The single pass, with its last path and folded paths, decides the order of all pairs and
      the absence of any case collision; it returns the targets it met. */
  method ValidateFiles(
    targets: set<string>, files: seq<BundleFileIdentity>) returns (observedTargets: Option<set<string>>)
    ensures observedTargets.Some? <==> FilesOk(targets, files)
    ensures observedTargets.Some? ==> observedTargets.value == targets * Paths(files)
  {
    hide ValidRelativePath, IsSha256, FilesOk, FoldPath, Paths, FoldedPaths, Less;
    NoFiles(targets);
    assert files[..0] == [];
    var previous: Option<string> := None;
    var folded: map<string, string> := map[];
    var observed: set<string> := {};
    for i := 0 to |files|
      invariant FilesOk(targets, files[..i])
      invariant previous == if i == 0 then None else Some(files[i - 1].path)
      invariant folded.Keys == FoldedPaths(files[..i])
      invariant observed == targets * Paths(files[..i])
    {
      var file := files[i];
      NextFile(targets, files, i);
      if !ValidRelativePath(file.path) {
        return None;
      }
      if !IsSha256(file.sha256) {
        return None;
      }
      if file.pePayloadSha256.Some? && !IsSha256(file.pePayloadSha256.value) {
        return None;
      }
      if previous.Some? && !Less(previous.value, file.path) {
        return None;
      }
      previous := Some(file.path);
      var foldedPath := FoldPath(file.path);
      var collides := foldedPath in folded;
      folded := folded[foldedPath := file.path];
      if collides {
        return None;
      }
      if file.path in targets {
        if file.pePayloadSha256.None? {
          return None;
        }
        observed := observed + {file.path};
      } else if file.pePayloadSha256.Some? {
        return None;
      }
    }
    assert files[..|files|] == files;
    return Some(observed);
  }

  /** Accepts exactly the manifests in order that name every signing target. */
  method ValidateManifest(pes: PeMap, m: BundleManifest) returns (ok: bool)
    ensures ok <==> ManifestOk(pes, m)
  {
    hide FilesOk, ValidPes, ValidSourceCommit, Paths;
    if m.schemaVersion != SCHEMA_VERSION {
      return false;
    }
    if !ValidSourceCommit(m.sourceCommit) {
      return false;
    }
    if m.files == [] {
      return false;
    }
    var targets := SigningTargets(pes);
    if targets.None? {
      return false;
    }
    var observedTargets := ValidateFiles(targets.value, m.files);
    return observedTargets.Some? && observedTargets.value == targets.value;
  }

  lemma NoFiles(targets: set<string>)
    ensures FilesOk(targets, []) && FoldedPaths([]) == {} && Paths([]) == {}
  {
  }

  // The step of the pass: its checks decide whether the longer prefix is in order, and a
  // prefix that is not in order fails the whole list.
  lemma NextFile(targets: set<string>, files: seq<BundleFileIdentity>, i: nat)
    requires i < |files| && FilesOk(targets, files[..i])
    ensures FilesOk(targets, files[..i + 1]) <==>
            && FileOk(targets, files[i])
            && (i > 0 ==> Less(files[i - 1].path, files[i].path))
            && FoldPath(files[i].path) !in FoldedPaths(files[..i])
    ensures FilesOk(targets, files) ==> FilesOk(targets, files[..i + 1])
    ensures Paths(files[..i + 1]) == Paths(files[..i]) + {files[i].path}
    ensures FoldedPaths(files[..i + 1]) == FoldedPaths(files[..i]) + {FoldPath(files[i].path)}
  {
    hide FileOk, FoldPath, Less;
    assert files[..i + 1] == files[..i] + [files[i]];
    PassStep(targets, files[..i], files[i]);
    if FilesOk(targets, files) {
      FilesOkPrefix(targets, files, i + 1);
    }
  }

  // What one more file needs, given that the files before it are in order.
  lemma PassStep(targets: set<string>, before: seq<BundleFileIdentity>, next: BundleFileIdentity)
    requires FilesOk(targets, before)
    ensures FilesOk(targets, before + [next]) <==>
            && FileOk(targets, next)
            && (before != [] ==> Less(before[|before| - 1].path, next.path))
            && FoldPath(next.path) !in FoldedPaths(before)
    ensures Paths(before + [next]) == Paths(before) + {next.path}
    ensures FoldedPaths(before + [next]) == FoldedPaths(before) + {FoldPath(next.path)}
  {
    hide ValidRelativePath, IsSha256, FoldPath;
    var all := before + [next];
    assert forall i :: 0 <= i < |before| ==> all[i] == before[i] && before[i] in before;
    assert all[|before|] == next;
    assert forall f :: f in all <==> f in before || f == next;
    if before != [] && Less(before[|before| - 1].path, next.path) {
      SortedStep(before, next);
    }
    if FilesOk(targets, all) {
      assert before != [] ==> Less(ByPath(all[|before| - 1]), ByPath(all[|before|]));
    }
  }

  // ---- the comparison -----------------------------------------------------------------

  // Everything a stored manifest keeps of a file: all but `isPe`.
  predicate SameIdentity(a: BundleFileIdentity, b: BundleFileIdentity) {
    a.path == b.path && a.size == b.size && a.sha256 == b.sha256 && a.pePayloadSha256 == b.pePayloadSha256
  }

  ghost predicate SameIdentities(a: seq<BundleFileIdentity>, b: seq<BundleFileIdentity>) {
    |a| == |b| && forall i :: 0 <= i < |a| ==> SameIdentity(a[i], b[i])
  }

  method CompareExact(expected: seq<BundleFileIdentity>, actual: seq<BundleFileIdentity>) returns (ok: bool)
    ensures ok <==> SameIdentities(expected, actual)
  {
    if |expected| != |actual| {
      return false;
    }
    for i := 0 to |expected|
      invariant forall j :: 0 <= j < i ==> SameIdentity(expected[j], actual[j])
    {
      var wanted, got := expected[i], actual[i];
      if wanted.path != got.path {
        return false;
      }
      if wanted.size != got.size {
        return false;
      }
      if wanted.sha256 != got.sha256 {
        return false;
      }
      if wanted.pePayloadSha256 != got.pePayloadSha256 {
        return false;
      }
    }
    return true;
  }

  // What the JSON codec keeps: `is_pe` is skipped and comes back false.
  function Decoded(m: BundleManifest): BundleManifest {
    m.(files := DecodedFiles(m.files))
  }

  function DecodedFiles(files: seq<BundleFileIdentity>): (r: seq<BundleFileIdentity>)
    ensures |r| == |files|
  {
    seq(|files|, i requires 0 <= i < |files| => files[i].(isPe := false))
  }

  /** Storing a manifest changes neither its validity nor any comparison with it. */
  lemma DecodedKeeps(pes: PeMap, m: BundleManifest)
    ensures ManifestOk(pes, Decoded(m)) <==> ManifestOk(pes, m)
    ensures SameIdentities(Decoded(m).files, m.files)
  {
    hide ValidPes, ValidRelativePath, IsSha256, ValidSourceCommit, FoldPath;
    var d := DecodedFiles(m.files);
    assert forall i :: 0 <= i < |d| ==> FileOk(TargetPaths(pes), d[i]) == FileOk(TargetPaths(pes), m.files[i]);
    assert forall i :: 0 <= i < |d| ==> ByPath(d[i]) == ByPath(m.files[i]);
    forall path
      ensures path in Paths(d) <==> path in Paths(m.files)
    {
      if path in Paths(d) {
        var i :| 0 <= i < |d| && d[i].path == path;
        assert m.files[i] in m.files;
      }
      if path in Paths(m.files) {
        var i :| 0 <= i < |d| && m.files[i].path == path;
        assert d[i] in d;
      }
    }
  }
}
