/** Staging the first-party images for signing and collecting the signed ones. */
module Signing {
  import opened Bytes
  import opened Wrappers
  import opened Text
  import opened FileSystem
  import BundleFiles

  type PeMap = BundleFiles.PeMap

  // The identity of an image: what its bytes digest to, if they are an image at all.
  type ImageDigest = seq<byte> -> Option<string>

  // ---- the path map -------------------------------------------------------------------

  ghost predicate ValidMap(entries: PeMap) {
    && entries != []
    && (forall i :: 0 <= i < |entries| ==> entries[i].0 != "" && entries[i].1 != "")
    && (forall i, j :: 0 <= i < j < |entries| ==> entries[i].0 != entries[j].0 && entries[i].1 != entries[j].1)
  }

  method ValidateFirstPartyPeMap(entries: PeMap) returns (ok: bool)
    ensures ok <==> ValidMap(entries)
  {
    if entries == [] {
      return false;
    }
    var sources: set<string>, stageNames: set<string> := {}, {};
    for i := 0 to |entries|
      invariant forall j :: 0 <= j < i ==> entries[j].0 != "" && entries[j].1 != ""
      invariant forall j, k :: 0 <= j < k < i ==> entries[j].0 != entries[k].0 && entries[j].1 != entries[k].1
      invariant sources == (set j | 0 <= j < i :: entries[j].0)
      invariant stageNames == (set j | 0 <= j < i :: entries[j].1)
    {
      var (source, stageName) := entries[i];
      if source == "" || stageName == "" {
        return false;
      }
      if source in sources {
        return false;
      }
      sources := sources + {source};
      if stageName in stageNames {
        return false;
      }
      stageNames := stageNames + {stageName};
    }
    return true;
  }

  // Where each image is in the bundle, and where each staged copy is.
  function Sources(entries: PeMap, dist: Path): (ps: seq<Path>)
    ensures |ps| == |entries|
  {
    seq(|entries|, i requires 0 <= i < |entries| => Under(dist, entries[i].0))
  }

  function Staged(entries: PeMap, dir: Path): (ps: seq<Path>)
    ensures |ps| == |entries|
  {
    seq(|entries|, i requires 0 <= i < |entries| => Under(dir, entries[i].1))
  }

  ghost predicate Distinct(ps: seq<Path>) {
    forall i, j :: 0 <= i < j < |ps| ==> ps[i] != ps[j]
  }

  ghost predicate Disjoint(ps: seq<Path>, qs: seq<Path>) {
    forall i, j :: 0 <= i < |ps| && 0 <= j < |qs| ==> ps[i] != qs[j]
  }

  lemma MappedPaths(entries: PeMap, dist: Path, dir: Path)
    requires ValidMap(entries)
    ensures Distinct(Sources(entries, dist)) && Distinct(Staged(entries, dir))
    ensures Apart(dist, dir) ==> Disjoint(Sources(entries, dist), Staged(entries, dir))
  {
    hide Split;
    var ps, qs := Sources(entries, dist), Staged(entries, dir);
    forall i, j | 0 <= i < j < |entries|
      ensures ps[i] != ps[j] && qs[i] != qs[j]
    {
      if ps[i] == ps[j] {
        UnderInjective(dist, entries[i].0, entries[j].0);
      }
      if qs[i] == qs[j] {
        UnderInjective(dir, entries[i].1, entries[j].1);
      }
    }
    if Apart(dist, dir) {
      forall i, j | 0 <= i < |ps| && 0 <= j < |qs|
        ensures ps[i] != qs[j]
      {
        UnderApart(dist, dir, ps[i], qs[j]);
      }
    }
  }

  // `q` is not among the first `n` of `ps`.
  ghost predicate NotAmong(ps: seq<Path>, n: nat, q: Path)
    requires n <= |ps|
  {
    forall i :: 0 <= i < n ==> ps[i] != q
  }

  ghost predicate SameAt(before: map<Path, seq<byte>>, now: map<Path, seq<byte>>, q: Path) {
    (q in now <==> q in before) && (q in before && q in now ==> now[q] == before[q])
  }

  ghost predicate Delivered(before: map<Path, seq<byte>>, now: map<Path, seq<byte>>, origin: Path, target: Path) {
    origin in before && target in now && now[target] == before[origin]
  }

  // The first `n` targets hold what the first `n` origins held; no other file has changed.
  ghost predicate Transferred(
    before: map<Path, seq<byte>>, now: map<Path, seq<byte>>, origins: seq<Path>, targets: seq<Path>, n: nat)
    requires n <= |origins| == |targets|
  {
    && (forall i :: 0 <= i < n ==> Delivered(before, now, origins[i], targets[i]))
    && (forall q :: NotAmong(targets, n, q) ==> SameAt(before, now, q))
  }

  lemma TransferNext(
    before: map<Path, seq<byte>>, now: map<Path, seq<byte>>, origins: seq<Path>, targets: seq<Path>, n: nat)
    requires n < |origins| == |targets| && Transferred(before, now, origins, targets, n)
    requires Distinct(targets) && Disjoint(origins, targets) && origins[n] in now
    ensures Transferred(before, now[targets[n] := now[origins[n]]], origins, targets, n + 1)
  {
    var next := now[targets[n] := now[origins[n]]];
    assert NotAmong(targets, n, origins[n]);
    assert SameAt(before, now, origins[n]);
    forall i | 0 <= i < n
      ensures Delivered(before, next, origins[i], targets[i])
    {
      assert Delivered(before, now, origins[i], targets[i]);
    }
    forall q | NotAmong(targets, n + 1, q)
      ensures SameAt(before, next, q)
    {
      assert targets[n] != q;
      assert NotAmong(targets, n, q);
    }
  }

  // ---- staging ------------------------------------------------------------------------

  // Staging can go through: the images are there and nothing is where the copies go.
  ghost predicate Stageable(now: State, entries: PeMap, dist: Path, dir: Path) {
    && ValidMap(entries)
    && (forall i :: 0 <= i < |entries| ==> Under(dist, entries[i].0) in now.files && '/' !in entries[i].1)
    && (forall i :: 0 <= i < |entries| ==> Under(dir, entries[i].1) !in now.dirs)
    && (forall q :: q in Prefixes(dir) ==> q !in now.files)
  }

  lemma StageableTarget(now: State, entries: PeMap, dist: Path, dir: Path, i: nat)
    requires Stageable(now, entries, dist, dir) && i < |entries|
    ensures Under(dir, entries[i].1) == dir + [entries[i].1]
    ensures Under(dir, entries[i].1) !in now.dirs + Prefixes(dir) && Parent(Under(dir, entries[i].1)) == dir
  {
    SplitWithout(entries[i].1, '/');
    PrefixOf(dir);
  }

  method Stage(fs: FileSystem, entries: PeMap, dist: Path, stageDir: Path) returns (ok: bool)
    requires fs.Valid()
    modifies fs
    ensures fs.Valid() && old(fs.dirs) <= fs.dirs <= old(fs.dirs) + Prefixes(stageDir)
    ensures ok ==> ValidMap(entries) && fs.dirs == old(fs.dirs) + Prefixes(stageDir)
    ensures ok && Apart(dist, stageDir) ==>
              Transferred(old(fs.files), fs.files, Sources(entries, dist), Staged(entries, stageDir), |entries|)
    ensures forall q :: !(stageDir <= q) ==> (q in fs.files <==> q in old(fs.files))
    ensures forall q :: !(stageDir <= q) && q in fs.files && q in old(fs.files) ==> fs.files[q] == old(fs.files)[q]
    ensures !fs.faulty && Apart(dist, stageDir) && Stageable(old(fs.Now()), entries, dist, stageDir) ==> ok
  {
    hide Split, Prefixes, Transferred;
    ghost var before := fs.Now();
    ok := ValidateFirstPartyPeMap(entries);
    if !ok {
      return false;
    }
    ok := fs.CreateDirAll(stageDir);
    if !ok {
      return false;
    }
    ghost var origins, targets := Sources(entries, dist), Staged(entries, stageDir);
    MappedPaths(entries, dist, stageDir);
    StartTransfer(before.files, origins, targets);
    PrefixOf(stageDir);
    for i := 0 to |entries|
      invariant fs.Valid() && fs.dirs == before.dirs + Prefixes(stageDir)
      invariant Apart(dist, stageDir) ==> Transferred(before.files, fs.files, origins, targets, i)
      invariant forall q :: !(stageDir <= q) ==> (q in fs.files <==> q in before.files)
      invariant forall q :: !(stageDir <= q) && q in fs.files && q in before.files ==> fs.files[q] == before.files[q]
    {
      var from, to := Under(dist, entries[i].0), Under(stageDir, entries[i].1);
      assert from == origins[i] && to == targets[i];
      if Apart(dist, stageDir) {
        if from in fs.files {
          TransferNext(before.files, fs.files, origins, targets, i);
        }
        if Stageable(before, entries, dist, stageDir) {
          StageableTarget(before, entries, dist, stageDir, i);
          OutsideOther(dist, stageDir, from);
        }
      }
      ok := fs.Copy(from, to);
      if !ok {
        return false;
      }
    }
    return true;
  }

  lemma StartTransfer(before: map<Path, seq<byte>>, origins: seq<Path>, targets: seq<Path>)
    requires |origins| == |targets|
    ensures Transferred(before, before, origins, targets, 0)
  {
  }

  // ---- collecting ---------------------------------------------------------------------

  datatype CollectOutcome = Collected | Refused | CopyFailed | Drifted

  // The image's digest, when there is one.
  ghost function DigestAt(digest: ImageDigest, files: map<Path, seq<byte>>, p: Path): Option<string> {
    if p in files then digest(files[p]) else None
  }

  // The signer returned, for every source, an image of the same identity.
  ghost predicate SameImages(
    digest: ImageDigest, files: map<Path, seq<byte>>, sources: seq<Path>, signed: seq<Path>, n: nat)
    requires n <= |sources| == |signed|
  {
    forall i :: 0 <= i < n ==>
      DigestAt(digest, files, sources[i]).Some?
          && DigestAt(digest, files, signed[i]) == DigestAt(digest, files, sources[i])
  }

  // Every path holds an image of the identity it had.
  ghost predicate Kept(digest: ImageDigest, before: map<Path, seq<byte>>, now: map<Path, seq<byte>>, paths: seq<Path>) {
    forall i :: 0 <= i < |paths| ==>
      DigestAt(digest, before, paths[i]).Some? && DigestAt(digest, now, paths[i]) == DigestAt(digest, before, paths[i])
  }

  // Overwriting a source by a signed image of its identity changes no digest of either kind:
  // whatever the two lists share had one identity to begin with.
  lemma KeptAfterCopy(
    digest: ImageDigest, before: map<Path, seq<byte>>, now: map<Path, seq<byte>>, sources: seq<Path>,
    signed: seq<Path>, i: nat)
    requires i < |sources| == |signed| && SameImages(digest, before, sources, signed, |sources|)
    requires Kept(digest, before, now, sources) && Kept(digest, before, now, signed) && signed[i] in now
    ensures Kept(digest, before, now[sources[i] := now[signed[i]]], sources)
    ensures Kept(digest, before, now[sources[i] := now[signed[i]]], signed)
  {
  }

  lemma KeptAtStart(digest: ImageDigest, before: map<Path, seq<byte>>, sources: seq<Path>, signed: seq<Path>)
    requires |sources| == |signed| && SameImages(digest, before, sources, signed, |sources|)
    ensures Kept(digest, before, before, sources) && Kept(digest, before, before, signed)
  {
  }

  ghost predicate AllKept(
    digest: ImageDigest, before: map<Path, seq<byte>>, history: seq<State>, from: nat, paths: seq<Path>) {
    forall i :: from <= i < |history| ==> Kept(digest, before, history[i].files, paths)
  }

  // The copying part, after the preflight: `origin` is the state the preflight saw.
  method Collect(
    fs: FileSystem, entries: PeMap, dist: Path, signedDir: Path, ghost digest: ImageDigest) returns (ok: bool)
    requires fs.Valid() && ValidMap(entries)
    requires SameImages(digest, fs.files, Sources(entries, dist), Staged(entries, signedDir), |entries|)
    modifies fs
    ensures fs.Valid() && fs.dirs == old(fs.dirs) && old(fs.history) <= fs.history
    ensures Kept(digest, old(fs.files), fs.files, Sources(entries, dist))
    ensures AllKept(digest, old(fs.files), fs.history, |old(fs.history)|, Sources(entries, dist))
    ensures ok && Apart(dist, signedDir) ==>
              Transferred(old(fs.files), fs.files, Staged(entries, signedDir), Sources(entries, dist), |entries|)
    ensures !fs.faulty ==> ok
  {
    hide Split, Transferred, Kept, SameImages;
    ghost var before, start := fs.files, |fs.history|;
    ghost var sources, signed := Sources(entries, dist), Staged(entries, signedDir);
    MappedPaths(entries, dist, signedDir);
    StartTransfer(before, signed, sources);
    KeptAtStart(digest, before, sources, signed);
    for i := 0 to |entries|
      invariant fs.Valid() && fs.dirs == old(fs.dirs) && old(fs.history) <= fs.history
      invariant Kept(digest, before, fs.files, sources) && Kept(digest, before, fs.files, signed)
      invariant AllKept(digest, before, fs.history, start, sources)
      invariant Apart(dist, signedDir) ==> Transferred(before, fs.files, signed, sources, i)
    {
      var from, to := Under(signedDir, entries[i].1), Under(dist, entries[i].0);
      assert from == signed[i] && to == sources[i];
      KeptIsThere(digest, before, fs.files, signed, i);
      KeptIsThere(digest, before, fs.files, sources, i);
      KeptAfterCopy(digest, before, fs.files, sources, signed, i);
      if Apart(dist, signedDir) {
        TransferNext(before, fs.files, signed, sources, i);
      }
      ok := fs.Copy(from, to);
      if !ok {
        return false;
      }
    }
    return true;
  }

  lemma KeptIsThere(
    digest: ImageDigest, before: map<Path, seq<byte>>, now: map<Path, seq<byte>>, paths: seq<Path>, i: nat)
    requires i < |paths| && Kept(digest, before, now, paths)
    ensures paths[i] in now
  {
  }

  method ReadDigest(fs: FileSystem, digest: ImageDigest, p: Path) returns (r: Option<string>)
    ensures r == DigestAt(digest, fs.files, p)
  {
    return if p in fs.files then digest(fs.files[p]) else None;
  }

  // Digests every image, then every signed candidate, before anything is written.
  method Preflight(
    fs: FileSystem, entries: PeMap, dist: Path, signedDir: Path, digest: ImageDigest) returns (r: Option<seq<string>>)
    ensures r.Some? <==> SameImages(digest, fs.files, Sources(entries, dist), Staged(entries, signedDir), |entries|)
    ensures r.Some? ==> Identities(digest, fs.files, Sources(entries, dist), r.value)
  {
    hide Split;
    ghost var sources, signed := Sources(entries, dist), Staged(entries, signedDir);
    var expected: seq<string> := [];
    for i := 0 to |entries|
      invariant |expected| == i && forall j :: 0 <= j < i ==>
            DigestAt(digest, fs.files, sources[j]) == Some(expected[j])
    {
      assert Under(dist, entries[i].0) == sources[i];
      var image := ReadDigest(fs, digest, Under(dist, entries[i].0));
      if image.None? {
        return None;
      }
      expected := expected + [image.value];
    }
    for i := 0 to |entries|
      invariant SameImages(digest, fs.files, sources, signed, i)
    {
      assert Under(signedDir, entries[i].1) == signed[i];
      var actual := ReadDigest(fs, digest, Under(signedDir, entries[i].1));
      if actual.None? || actual.value != expected[i] {
        return None;
      }
    }
    return Some(expected);
  }

  ghost predicate Identities(
    digest: ImageDigest, files: map<Path, seq<byte>>, paths: seq<Path>, expected: seq<string>) {
    |expected| == |paths| && forall i :: 0 <= i < |paths| ==> DigestAt(digest, files, paths[i]) == Some(expected[i])
  }

  // The pass over the copied images.
  method Recheck(
    fs: FileSystem, entries: PeMap, dist: Path, digest: ImageDigest, expected: seq<string>) returns (ok: bool)
    requires |expected| == |entries|
    ensures ok <==> Identities(digest, fs.files, Sources(entries, dist), expected)
  {
    hide Split;
    for i := 0 to |entries|
      invariant forall j :: 0 <= j < i ==> DigestAt(digest, fs.files, Sources(entries, dist)[j]) == Some(expected[j])
    {
      assert Under(dist, entries[i].0) == Sources(entries, dist)[i];
      var actual := ReadDigest(fs, digest, Under(dist, entries[i].0));
      if actual != Some(expected[i]) {
        return false;
      }
    }
    return true;
  }

  /** Refuses without touching the bundle unless every signed image matches; from then on every
      state, interrupted or not, keeps each image's identity; success leaves the signed files. */
  method CollectPreservingImages(fs: FileSystem, entries: PeMap, dist: Path, signedDir: Path, digest: ImageDigest)
    returns (r: CollectOutcome)
    requires fs.Valid()
    modifies fs
    ensures fs.Valid() && fs.dirs == old(fs.dirs) && old(fs.history) <= fs.history
    ensures r.Refused? <==>
            !(ValidMap(entries)
                && SameImages(digest, old(fs.files), Sources(entries, dist), Staged(entries, signedDir), |entries|))
    ensures r.Refused? ==> fs.files == old(fs.files) && fs.history == old(fs.history)
    // whatever others did meanwhile
    ensures r.Collected? || r.CopyFailed? ==> Kept(digest, old(fs.files), fs.files, Sources(entries, dist))
    ensures r.Drifted? ==> !fs.quiet && !Kept(digest, old(fs.files), fs.files, Sources(entries, dist))
    ensures (fs.quiet && r.Collected?) || r.CopyFailed? ==>
              AllKept(digest, old(fs.files), fs.history, |old(fs.history)|, Sources(entries, dist))
    ensures fs.quiet && r.Collected? && Apart(dist, signedDir) ==>
              Transferred(old(fs.files), fs.files, Staged(entries, signedDir), Sources(entries, dist), |entries|)
    ensures r.CopyFailed? ==> fs.faulty
  {
    hide Split, Transferred, SameImages;
    var valid := ValidateFirstPartyPeMap(entries);
    if !valid {
      return Refused;
    }
    var expected := Preflight(fs, entries, dist, signedDir, digest);
    if expected.None? {
      return Refused;
    }
    var copied := Collect(fs, entries, dist, signedDir, digest);
    if !copied {
      return CopyFailed;
    }
    fs.Meanwhile();
    var same := Recheck(fs, entries, dist, digest, expected.value);
    return if same then Collected else Drifted;
  }
}
