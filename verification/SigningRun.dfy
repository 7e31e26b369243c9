/** The two signing commands around an external signer. */
module SigningRun {
  import opened Bytes
  import opened Text
  import opened FileSystem
  import opened TreeOps
  import opened Signing

  // ---- sign-stage ---------------------------------------------------------------------

  // The images are there, and no file is where a working directory has to go.
  ghost predicate StageReady(now: State, entries: PeMap, dist: Path, stageDir: Path, signedDir: Path) {
    && ValidMap(entries)
    && (forall i :: 0 <= i < |entries| ==> Under(dist, entries[i].0) in now.files && '/' !in entries[i].1)
    && stageDir != [] && signedDir != []
    && forall q :: q in Prefixes(Parent(stageDir)) + Prefixes(Parent(signedDir)) ==> q !in now.files
  }

  // Both working directories are gone, and nothing else.
  ghost predicate Cleared(before: State, now: State, stageDir: Path, signedDir: Path) {
    && Gone(now, stageDir) && Gone(now, signedDir)
    && (forall q :: !(stageDir <= q) && !(signedDir <= q) ==> SameAt(before.files, now.files, q))
    && (forall q :: !(stageDir <= q) && !(signedDir <= q) ==> (q in now.dirs <==> q in before.dirs))
  }

  lemma BothCleared(s0: State, s1: State, s2: State, stageDir: Path, signedDir: Path)
    requires OnlyRemoved(s0, s1, stageDir) && Gone(s1, stageDir)
    requires OnlyRemoved(s1, s2, signedDir) && Gone(s2, signedDir)
    ensures Cleared(s0, s2, stageDir, signedDir)
  {
  }

  lemma OnlyCleared(s0: State, s1: State, s2: State, stageDir: Path, signedDir: Path)
    requires OnlyRemoved(s0, s1, stageDir) && OnlyRemoved(s1, s2, signedDir)
    ensures forall q :: !(stageDir <= q) && !(signedDir <= q) ==> SameAt(s0.files, s2.files, q)
    ensures forall q :: !(stageDir <= q) && !(signedDir <= q) ==> (q in s2.dirs <==> q in s0.dirs)
  {
  }

  // Whatever the working directories held, staging finds room once they are cleared.
  lemma ClearedIsStageable(s0: State, s2: State, entries: PeMap, dist: Path, stageDir: Path, signedDir: Path)
    requires StageReady(s0, entries, dist, stageDir, signedDir) && Cleared(s0, s2, stageDir, signedDir)
    requires Apart(dist, stageDir) && Apart(dist, signedDir)
    ensures Stageable(s2, entries, dist, stageDir) && Stageable(s2, entries, dist, signedDir)
  {
    hide Split, Prefixes;
    forall i | 0 <= i < |entries|
      ensures Under(dist, entries[i].0) in s2.files
    {
      OutsideOther(dist, stageDir, Under(dist, entries[i].0));
      OutsideOther(dist, signedDir, Under(dist, entries[i].0));
      assert SameAt(s0.files, s2.files, Under(dist, entries[i].0));
    }
    ClearOfFiles(s0, s2, stageDir, stageDir, signedDir);
    ClearOfFiles(s0, s2, signedDir, stageDir, signedDir);
  }

  lemma ClearOfFiles(s0: State, s2: State, dir: Path, stageDir: Path, signedDir: Path)
    requires Cleared(s0, s2, stageDir, signedDir) && (dir == stageDir || dir == signedDir) && dir != []
    requires forall q :: q in Prefixes(Parent(dir)) ==> q !in s0.files
    ensures forall q :: q in Prefixes(dir) ==> q !in s2.files
  {
    PrefixOf(dir);
    PrefixOf(Parent(dir));
    forall q | q in Prefixes(dir)
      ensures q !in s2.files
    {
      if q != dir {
        assert q == dir[..|q|] == Parent(dir)[..|q|];
        assert q in Prefixes(Parent(dir));
        if !(stageDir <= q) && !(signedDir <= q) {
          assert SameAt(s0.files, s2.files, q);
        }
      }
    }
  }

  /** Clears both working directories and stages every image.  On success the stage directory holds
      the images and nothing else, the other one nothing at all, whatever was in them before. */
  method RunStage(fs: FileSystem, entries: PeMap, dist: Path, stageDir: Path, signedDir: Path) returns (ok: bool)
    requires fs.Valid() && Apart(dist, stageDir) && Apart(dist, signedDir) && Apart(stageDir, signedDir)
    modifies fs
    ensures fs.Valid()
    ensures ok ==> ValidMap(entries) && signedDir in fs.dirs
    ensures ok ==> forall i :: 0 <= i < |entries| ==>
              Delivered(old(fs.files), fs.files, Sources(entries, dist)[i], Staged(entries, stageDir)[i])
    ensures ok ==> forall q :: stageDir <= q && q in fs.files ==> q in Staged(entries, stageDir)
    ensures ok ==> forall q :: signedDir <= q ==> q !in fs.files
    ensures forall q :: !(stageDir <= q) && !(signedDir <= q) ==> SameAt(old(fs.files), fs.files, q)
    ensures forall q :: dist <= q ==> (q in fs.dirs <==> q in old(fs.dirs))
    ensures !fs.faulty && StageReady(old(fs.Now()), entries, dist, stageDir, signedDir) ==>
              && ok
              && forall i :: 0 <= i < |entries| ==> Writeable(fs.dirs, Staged(entries, signedDir)[i])
  {
    hide Split, Prefixes, Transferred, OnlyRemoved, Gone, Stageable, StageReady, Cleared;
    ghost var s0 := fs.Now();
    ok := ForceRemoveDirAll(fs, stageDir);
    ghost var s1 := fs.Now();
    NothingRemoved(s1, signedDir);
    OnlyCleared(s0, s1, s1, stageDir, signedDir);
    SameBundleDirs(s0, s1, dist, stageDir, signedDir);
    if !ok {
      return false;
    }
    ok := ForceRemoveDirAll(fs, signedDir);
    ghost var s2 := fs.Now();
    OnlyCleared(s0, s1, s2, stageDir, signedDir);
    SameBundleDirs(s0, s2, dist, stageDir, signedDir);
    if !ok {
      return false;
    }
    BothCleared(s0, s1, s2, stageDir, signedDir);
    if StageReady(s0, entries, dist, stageDir, signedDir) {
      ClearedIsStageable(s0, s2, entries, dist, stageDir, signedDir);
    }
    ok := Stage(fs, entries, dist, stageDir);
    ghost var s3 := fs.Now();
    StagingKeeps(s0, s2, s3, stageDir, signedDir);
    BundleDirsKept(s2.dirs, s3.dirs, dist, stageDir);
    if !ok {
      return false;
    }
    if StageReady(s0, entries, dist, stageDir, signedDir) {
      RoomForSigned(s2, s3, entries, dist, stageDir, signedDir);
    }
    ok := fs.CreateDirAll(signedDir);
    BundleDirsKept(s3.dirs, fs.dirs, dist, signedDir);
    if !ok {
      return false;
    }
    PrefixOf(signedDir);
    StagedFromBundle(s0, s2, s3, entries, dist, stageDir, signedDir);
    if StageReady(s0, entries, dist, stageDir, signedDir) {
      RoomForEach(s2, fs.dirs, entries, dist, stageDir, signedDir);
    }
    return true;
  }

  lemma SameBundleDirs(s0: State, s2: State, dist: Path, stageDir: Path, signedDir: Path)
    requires Apart(dist, stageDir) && Apart(dist, signedDir)
    requires forall q :: !(stageDir <= q) && !(signedDir <= q) ==> (q in s2.dirs <==> q in s0.dirs)
    ensures forall q :: dist <= q ==> (q in s2.dirs <==> q in s0.dirs)
  {
    forall q | dist <= q
      ensures q in s2.dirs <==> q in s0.dirs
    {
      OutsideOther(dist, stageDir, q);
      OutsideOther(dist, signedDir, q);
    }
  }

  // Creating a directory apart from the bundle adds none below the bundle.
  lemma BundleDirsKept(before: set<Path>, now: set<Path>, dist: Path, dir: Path)
    requires Apart(dist, dir) && before <= now <= before + Prefixes(dir)
    ensures forall q :: dist <= q ==> (q in now <==> q in before)
  {
    PrefixOf(dir);
    forall q | q in Prefixes(dir)
      ensures !(dist <= q)
    {
      if dist <= q {
        PrefixTransitive(dist, q, dir);
      }
    }
  }

  lemma StagingKeeps(s0: State, s2: State, s3: State, stageDir: Path, signedDir: Path)
    requires forall q :: !(stageDir <= q) && !(signedDir <= q) ==> SameAt(s0.files, s2.files, q)
    requires forall q :: !(stageDir <= q) ==> (q in s3.files <==> q in s2.files)
    requires forall q :: !(stageDir <= q) && q in s3.files && q in s2.files ==> s3.files[q] == s2.files[q]
    ensures forall q :: !(stageDir <= q) && !(signedDir <= q) ==> SameAt(s0.files, s3.files, q)
  {
    forall q | !(stageDir <= q) && !(signedDir <= q)
      ensures SameAt(s0.files, s3.files, q)
    {
      assert SameAt(s0.files, s2.files, q);
    }
  }

  // What is staged comes from the bundle as it was before the clearing, and nothing else is left.
  lemma StagedFromBundle(s0: State, s2: State, s3: State, entries: PeMap, dist: Path, stageDir: Path, signedDir: Path)
    requires ValidMap(entries) && Apart(dist, stageDir) && Apart(dist, signedDir) && Apart(stageDir, signedDir)
    requires Cleared(s0, s2, stageDir, signedDir)
    requires Transferred(s2.files, s3.files, Sources(entries, dist), Staged(entries, stageDir), |entries|)
    ensures forall i :: 0 <= i < |entries| ==>
              Delivered(s0.files, s3.files, Sources(entries, dist)[i], Staged(entries, stageDir)[i])
    ensures forall q :: stageDir <= q && q in s3.files ==> q in Staged(entries, stageDir)
    ensures forall q :: signedDir <= q ==> q !in s3.files
  {
    hide Split;
    var sources, staged := Sources(entries, dist), Staged(entries, stageDir);
    forall i | 0 <= i < |entries|
      ensures Delivered(s0.files, s3.files, sources[i], staged[i])
    {
      OutsideOther(dist, stageDir, sources[i]);
      OutsideOther(dist, signedDir, sources[i]);
      assert SameAt(s0.files, s2.files, sources[i]) && Delivered(s2.files, s3.files, sources[i], staged[i]);
    }
    forall q | (stageDir <= q && q !in staged) || signedDir <= q
      ensures q !in s3.files
    {
      if signedDir <= q {
        OutsideOther(signedDir, stageDir, q);
      }
      assert NotAmong(staged, |entries|, q);
      assert SameAt(s2.files, s3.files, q);
    }
  }

  lemma RoomForSigned(before: State, staged: State, entries: PeMap, dist: Path, stageDir: Path, signedDir: Path)
    requires Stageable(before, entries, dist, signedDir) && Apart(stageDir, signedDir)
    requires forall q :: !(stageDir <= q) ==> (q in staged.files <==> q in before.files)
    ensures forall q :: q in Prefixes(signedDir) ==> q !in staged.files
  {
    PrefixOf(signedDir);
    forall q | q in Prefixes(signedDir)
      ensures !(stageDir <= q)
    {
      if stageDir <= q {
        PrefixTransitive(stageDir, q, signedDir);
      }
    }
  }

  lemma RoomForEach(before: State, dirs: set<Path>, entries: PeMap, dist: Path, stageDir: Path, signedDir: Path)
    requires Stageable(before, entries, dist, signedDir) && Apart(stageDir, signedDir)
    requires dirs == before.dirs + Prefixes(stageDir) + Prefixes(signedDir)
    ensures forall i :: 0 <= i < |entries| ==> Writeable(dirs, Staged(entries, signedDir)[i])
  {
    hide Split, Prefixes;
    PrefixOf(stageDir);
    PrefixOf(signedDir);
    forall i | 0 <= i < |entries|
      ensures Writeable(dirs, Staged(entries, signedDir)[i])
    {
      StageableTarget(before, entries, dist, signedDir, i);
      var p := Staged(entries, signedDir)[i];
      if p in Prefixes(stageDir) {
        PrefixTransitive(signedDir, p, stageDir);
      }
    }
  }

  // ---- sign-stage, signer, sign-collect -----------------------------------------------

  ghost predicate SignedAt(
    before: map<Path, seq<byte>>, now: map<Path, seq<byte>>, from: Path, to: Path, sign: seq<byte> -> seq<byte>) {
    from in before && to in now && now[to] == sign(before[from])
  }

  ghost predicate Writeable(dirs: set<Path>, p: Path) {
    p != [] && p !in dirs && Parent(p) in dirs
  }

  // The signer: reads every staged image and leaves its signed form under the same name.
  method SignAll(
    fs: FileSystem, entries: PeMap, stageDir: Path, signedDir: Path, sign: seq<byte> -> seq<byte>) returns (ok: bool)
    requires fs.Valid() && ValidMap(entries) && Apart(stageDir, signedDir)
    modifies fs
    ensures fs.Valid() && fs.dirs == old(fs.dirs)
    ensures ok ==> forall i :: 0 <= i < |entries| ==>
          SignedAt(old(fs.files), fs.files, Staged(entries, stageDir)[i], Staged(entries, signedDir)[i], sign)
    ensures forall q :: !(signedDir <= q) ==> (q in fs.files <==> q in old(fs.files))
    ensures forall q :: !(signedDir <= q) && q in fs.files && q in old(fs.files) ==> fs.files[q] == old(fs.files)[q]
    ensures && !fs.faulty
            && (forall i :: 0 <= i < |entries| ==>
                Staged(entries, stageDir)[i] in old(fs.files) && Writeable(old(fs.dirs), Staged(entries, signedDir)[i]))
            ==> ok
  {
    hide Split;
    ghost var before := fs.files;
    ghost var staged, signed := Staged(entries, stageDir), Staged(entries, signedDir);
    MappedPaths(entries, stageDir, signedDir);
    for i := 0 to |entries|
      invariant fs.Valid() && fs.dirs == old(fs.dirs)
      invariant forall j :: 0 <= j < i ==> SignedAt(before, fs.files, staged[j], signed[j], sign)
      invariant forall q :: !(signedDir <= q) ==> (q in fs.files <==> q in before)
      invariant forall q :: !(signedDir <= q) && q in fs.files && q in before ==> fs.files[q] == before[q]
    {
      var from, to := Under(stageDir, entries[i].1), Under(signedDir, entries[i].1);
      assert from == staged[i] && to == signed[i];
      OutsideOther(stageDir, signedDir, from);
      assert signedDir <= to && forall j :: 0 <= j < i ==> signed[j] != to;
      if from !in fs.files {
        return false;
      }
      ok := fs.Write(to, sign(fs.files[from]));
      if !ok {
        return false;
      }
    }
    return true;
  }

  // What staging and then signing leaves for the collection.
  ghost predicate SignedCopies(
    before: map<Path, seq<byte>>, now: map<Path, seq<byte>>, sources: seq<Path>, signed: seq<Path>,
    sign: seq<byte> -> seq<byte>) {
    && |sources| == |signed|
    && forall i :: 0 <= i < |sources| ==>
        SignedAt(before, now, sources[i], signed[i], sign) && SameAt(before, now, sources[i])
  }

  lemma SignedCopiesMatch(
    before: map<Path, seq<byte>>, now: map<Path, seq<byte>>, sources: seq<Path>, signed: seq<Path>,
    sign: seq<byte> -> seq<byte>, digest: ImageDigest)
    requires SignedCopies(before, now, sources, signed, sign) && forall b :: digest(sign(b)) == digest(b)
    ensures SameImages(digest, now, sources, signed, |sources|) <==>
            forall i :: 0 <= i < |sources| ==> DigestAt(digest, before, sources[i]).Some?
  {
    forall i | 0 <= i < |sources|
      ensures DigestAt(digest, now, sources[i]) == DigestAt(digest, before, sources[i])
      ensures DigestAt(digest, now, signed[i]) == DigestAt(digest, before, sources[i])
    {
      assert SignedAt(before, now, sources[i], signed[i], sign) && SameAt(before, now, sources[i]);
    }
  }

  // Staging, then signing what was staged, signs the sources.
  lemma StagedThenSigned(
    before: map<Path, seq<byte>>, staged: map<Path, seq<byte>>, now: map<Path, seq<byte>>,
    entries: PeMap, dist: Path, stageDir: Path, signedDir: Path, sign: seq<byte> -> seq<byte>)
    requires ValidMap(entries) && Apart(dist, stageDir) && Apart(dist, signedDir)
    requires forall i :: 0 <= i < |entries| ==>
               Delivered(before, staged, Sources(entries, dist)[i], Staged(entries, stageDir)[i])
    requires forall q :: !(stageDir <= q) && !(signedDir <= q) ==> SameAt(before, staged, q)
    requires forall i :: 0 <= i < |entries| ==>
          SignedAt(staged, now, Staged(entries, stageDir)[i], Staged(entries, signedDir)[i], sign)
    requires forall q :: !(signedDir <= q) ==> SameAt(staged, now, q)
    ensures SignedCopies(before, now, Sources(entries, dist), Staged(entries, signedDir), sign)
    ensures forall q :: !(stageDir <= q) && !(signedDir <= q) ==> SameAt(before, now, q)
  {
    hide Split;
    var sources, copies, signed := Sources(entries, dist), Staged(entries, stageDir), Staged(entries, signedDir);
    forall q | !(stageDir <= q) && !(signedDir <= q)
      ensures SameAt(before, now, q)
    {
      assert SameAt(before, staged, q) && SameAt(staged, now, q);
    }
    forall i | 0 <= i < |entries|
      ensures SignedAt(before, now, sources[i], signed[i], sign) && SameAt(before, now, sources[i])
    {
      assert Delivered(before, staged, sources[i], copies[i]) && SignedAt(staged, now, copies[i], signed[i], sign);
      OutsideOther(dist, stageDir, sources[i]);
      OutsideOther(dist, signedDir, sources[i]);
    }
  }

  lemma SignedThenCollected(
    before: map<Path, seq<byte>>, prepared: map<Path, seq<byte>>, now: map<Path, seq<byte>>,
    sources: seq<Path>, signed: seq<Path>, sign: seq<byte> -> seq<byte>)
    requires SignedCopies(before, prepared, sources, signed, sign)
          && Transferred(prepared, now, signed, sources, |sources|)
    ensures forall i :: 0 <= i < |sources| ==> SignedAt(before, now, sources[i], sources[i], sign)
  {
    forall i | 0 <= i < |sources|
      ensures SignedAt(before, now, sources[i], sources[i], sign)
    {
      assert SignedAt(before, prepared, sources[i], signed[i], sign) && Delivered(prepared, now, signed[i], sources[i]);
    }
  }

  // The images were still the staged ones when the collection digested them.
  lemma KeptSinceStaging(
    digest: ImageDigest, before: map<Path, seq<byte>>, prepared: map<Path, seq<byte>>, now: map<Path, seq<byte>>,
    sources: seq<Path>, signed: seq<Path>, sign: seq<byte> -> seq<byte>)
    requires SignedCopies(before, prepared, sources, signed, sign) && Kept(digest, prepared, now, sources)
    ensures Kept(digest, before, now, sources)
  {
    forall i | 0 <= i < |sources|
      ensures DigestAt(digest, prepared, sources[i]) == DigestAt(digest, before, sources[i])
    {
      assert SignedAt(before, prepared, sources[i], signed[i], sign) && SameAt(before, prepared, sources[i]);
    }
  }

  lemma UntouchedThroughout(
    before: map<Path, seq<byte>>, prepared: map<Path, seq<byte>>, now: map<Path, seq<byte>>,
    sources: seq<Path>, signed: seq<Path>, stageDir: Path, signedDir: Path)
    requires |sources| == |signed| && Transferred(prepared, now, signed, sources, |sources|)
    requires forall q :: !(stageDir <= q) && !(signedDir <= q) ==> SameAt(before, prepared, q)
    ensures forall q :: !(stageDir <= q) && !(signedDir <= q) && NotAmong(sources, |sources|, q) ==>
          SameAt(before, now, q)
  {
    forall q | !(stageDir <= q) && !(signedDir <= q) && NotAmong(sources, |sources|, q)
      ensures SameAt(before, now, q)
    {
      assert SameAt(before, prepared, q) && SameAt(prepared, now, q);
    }
  }

  // Everything is in place for a release: readable images, and room for both working directories.
  ghost predicate Ready(now: State, entries: PeMap, dist: Path, stageDir: Path, signedDir: Path, digest: ImageDigest) {
    && StageReady(now, entries, dist, stageDir, signedDir)
    && forall i :: 0 <= i < |entries| ==> DigestAt(digest, now.files, Sources(entries, dist)[i]).Some?
  }

  /** The whole detour over the signer: for any signer that preserves image identities, every source
      ends up signed in place and nothing else outside the working directories changes, whatever
      those held before. */
  method StageSignCollect(
    fs: FileSystem, entries: PeMap, dist: Path, stageDir: Path, signedDir: Path,
    sign: seq<byte> -> seq<byte>, digest: ImageDigest) returns (ok: bool)
    requires fs.Valid() && Apart(dist, stageDir) && Apart(dist, signedDir) && Apart(stageDir, signedDir)
    requires forall b :: digest(sign(b)) == digest(b)
    modifies fs
    ensures fs.Valid()
    ensures fs.quiet && ok ==> SignedInPlace(old(fs.files), fs.files, entries, dist, sign)
    ensures fs.quiet && ok ==>
          forall q :: !(stageDir <= q) && !(signedDir <= q) && NotAmong(Sources(entries, dist), |entries|, q) ==>
              SameAt(old(fs.files), fs.files, q)
    // whatever others did after the copies
    ensures ok ==> Kept(digest, old(fs.files), fs.files, Sources(entries, dist))
    ensures forall q :: dist <= q ==> (q in fs.dirs <==> q in old(fs.dirs))
    ensures !fs.faulty && fs.quiet && Ready(old(fs.Now()), entries, dist, stageDir, signedDir, digest) ==> ok
  {
    hide Split, Transferred, SameImages, SignedCopies, Prefixes, StageReady, Kept;
    ghost var before := fs.Now();
    ok := RunStage(fs, entries, dist, stageDir, signedDir);
    if !ok {
      return false;
    }
    ghost var staged := fs.files;
    ok := SignAll(fs, entries, stageDir, signedDir, sign);
    if !ok {
      return false;
    }
    ghost var prepared := fs.files;
    ghost var sources, signed := Sources(entries, dist), Staged(entries, signedDir);
    StagedThenSigned(before.files, staged, prepared, entries, dist, stageDir, signedDir, sign);
    SignedCopiesMatch(before.files, prepared, sources, signed, sign, digest);
    var outcome := CollectPreservingImages(fs, entries, dist, signedDir, digest);
    if outcome != Collected {
      return false;
    }
    KeptSinceStaging(digest, before.files, prepared, fs.files, sources, signed, sign);
    if fs.quiet {
      SignedThenCollected(before.files, prepared, fs.files, sources, signed, sign);
      UntouchedThroughout(before.files, prepared, fs.files, sources, signed, stageDir, signedDir);
    }
    return true;
  }

  // Every image of the map now holds its signed form.
  ghost predicate SignedInPlace(
    before: map<Path, seq<byte>>, now: map<Path, seq<byte>>, entries: PeMap, dist: Path, sign: seq<byte> -> seq<byte>) {
    ValidMap(entries) && forall i :: 0 <= i < |entries| ==>
      SignedAt(before, now, Sources(entries, dist)[i], Sources(entries, dist)[i], sign)
  }
}
