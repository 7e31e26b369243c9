/** Replacing a file atomically through a temporary file in the same directory. */
module AtomicWrite {
  import opened Bytes
  import opened Text
  import opened FileSystem

  const ATTEMPTS: nat := 64

  function TemporaryName(name: string, pid: nat, suffix: nat): string {
    "." + name + ".tmp-" + Decimal(pid) + "-" + Decimal(suffix)
  }

  function TemporaryPath(path: Path, pid: nat, suffix: nat): Path
    requires path != []
  {
    Parent(path) + [TemporaryName(path[|path| - 1], pid, suffix)]
  }

  // A hidden sibling that names the file, the process and one of 64 numbers.
  ghost predicate IsTemporaryNumber(path: Path, pid: nat, suffix: nat, q: Path)
    requires path != []
  {
    && suffix < 64 && |q| == |path| && q[..|path| - 1] == path[..|path| - 1]
    && q[|path| - 1] == "." + path[|path| - 1] + ".tmp-" + Decimal(pid) + "-" + Decimal(suffix)
  }

  lemma TemporaryNumber(path: Path, pid: nat, suffix: nat, q: Path)
    requires path != []
    ensures suffix < ATTEMPTS && q == TemporaryPath(path, pid, suffix) <==> IsTemporaryNumber(path, pid, suffix, q)
  {
    if IsTemporaryNumber(path, pid, suffix, q) {
      assert q == q[..|path| - 1] + [q[|path| - 1]];
    }
  }

  ghost predicate IsTemporary(path: Path, pid: nat, q: Path)
    requires path != []
  {
    exists suffix: nat :: IsTemporaryNumber(path, pid, suffix, q)
  }

  lemma TemporaryDiffers(path: Path, pid: nat, suffix: nat)
    requires path != []
    ensures TemporaryPath(path, pid, suffix) != path
    ensures Parent(TemporaryPath(path, pid, suffix)) == Parent(path)
  {
    var t := TemporaryPath(path, pid, suffix);
    assert t[|t| - 1] == TemporaryName(path[|path| - 1], pid, suffix);
  }

  // The destination holds all of the old or all of the new, every other file that was there is
  // unchanged, and nothing but temporaries has been added.
  ghost predicate Complete(before: State, now: State, path: Path, bytes: seq<byte>, pid: nat)
    requires path != []
  {
    && (|| (path in now.files && now.files[path] == bytes)
        || ((path in now.files <==> path in before.files)
            && (path in before.files ==> now.files[path] == before.files[path])))
    && (forall q :: q in before.files && q != path ==> q in now.files && now.files[q] == before.files[q])
    && (forall q :: q in now.files && q != path && q !in before.files ==> IsTemporary(path, pid, q))
    && before.dirs <= now.dirs
  }

  // The destination and every other file are as before, but for the temporary file `t`.
  ghost predicate OnlyAdds(before: State, now: State, t: Path) {
    && now.files.Keys == before.files.Keys + {t} && t !in before.files
    && now.files - {t} == before.files && before.dirs <= now.dirs
  }

  lemma AddingIsComplete(before: State, now: State, path: Path, bytes: seq<byte>, pid: nat, suffix: nat)
    requires path != [] && suffix < ATTEMPTS && OnlyAdds(before, now, TemporaryPath(path, pid, suffix))
    ensures Complete(before, now, path, bytes, pid)
  {
    TemporaryDiffers(path, pid, suffix);
    var t := TemporaryPath(path, pid, suffix);
    TemporaryNumber(path, pid, suffix, t);
    assert forall q :: q in before.files ==> q in now.files - {t} && now.files[q] == before.files[q];
  }

  ghost predicate AllComplete(before: State, history: seq<State>, from: nat, path: Path, bytes: seq<byte>, pid: nat)
    requires path != []
  {
    forall i :: from <= i < |history| ==> Complete(before, history[i], path, bytes, pid)
  }

  // Creates the first temporary whose name is not taken.
  method OpenTemporary(fs: FileSystem, path: Path, pid: nat) returns (suffix: nat, ok: bool)
    requires fs.Valid() && path != []
    modifies fs
    ensures fs.Valid() && fs.dirs == old(fs.dirs) && old(fs.history) <= fs.history
    ensures ok ==> suffix < ATTEMPTS && OnlyAdds(old(fs.Now()), fs.Now(), TemporaryPath(path, pid, suffix))
    ensures ok ==> TemporaryPath(path, pid, suffix) in fs.files && fs.files[TemporaryPath(path, pid, suffix)] == []
    ensures ok ==> fs.history == old(fs.history) + [fs.Now()]
    ensures !ok ==> fs.files == old(fs.files) && fs.history == old(fs.history)
    ensures !fs.faulty && Parent(path) in fs.dirs && (exists n: nat :: Free(old(fs.Now()), path, pid, n)) ==> ok
  {
    for n := 0 to ATTEMPTS
      invariant fs.Valid() && fs.Now() == old(fs.Now()) && fs.history == old(fs.history)
      invariant forall m: nat :: m < n ==> !Free(old(fs.Now()), path, pid, m)
    {
      TemporaryDiffers(path, pid, n);
      var created := fs.CreateNew(TemporaryPath(path, pid, n));
      match created
      case Created =>
        assert fs.files - {TemporaryPath(path, pid, n)} == old(fs.files);
        return n, true;
      case AlreadyExists =>
      case Failed =>
        return n, false;
    }
    return ATTEMPTS, false;
  }

  ghost predicate Free(now: State, path: Path, pid: nat, n: nat)
    requires path != []
  {
    n < 64 && TemporaryPath(path, pid, n) !in now.files && TemporaryPath(path, pid, n) !in now.dirs
  }

  // `write_all`: however the system splits it, the temporary grows by prefixes.
  method FillTemporary(
    fs: FileSystem, path: Path, bytes: seq<byte>, pid: nat, suffix: nat, ghost before: State) returns (ok: bool)
    requires fs.Valid() && path != [] && suffix < ATTEMPTS
    requires OnlyAdds(before, fs.Now(), TemporaryPath(path, pid, suffix))
    requires TemporaryPath(path, pid, suffix) in fs.files && fs.files[TemporaryPath(path, pid, suffix)] == []
    modifies fs
    ensures fs.Valid() && fs.dirs == old(fs.dirs) && old(fs.history) <= fs.history
    ensures OnlyAdds(before, fs.Now(), TemporaryPath(path, pid, suffix))
    ensures ok ==> TemporaryPath(path, pid, suffix) in fs.files && fs.files[TemporaryPath(path, pid, suffix)] == bytes
    ensures AllComplete(before, fs.history, |old(fs.history)|, path, bytes, pid)
    ensures !fs.faulty ==> ok
  {
    var t := TemporaryPath(path, pid, suffix);
    var written := 0;
    while written < |bytes|
      invariant fs.Valid() && fs.dirs == old(fs.dirs) && old(fs.history) <= fs.history
      invariant OnlyAdds(before, fs.Now(), t) && written <= |bytes| && fs.files[t] == bytes[..written]
      invariant AllComplete(before, fs.history, |old(fs.history)|, path, bytes, pid)
    {
      ghost var files := fs.files;
      var n := fs.WriteSome(t, bytes[written..]);
      if n == 0 {
        return false;
      }
      assert fs.files - {t} == files - {t};
      AddingIsComplete(before, fs.Now(), path, bytes, pid, suffix);
      assert bytes[..written] + bytes[written..][..n] == bytes[..written + n];
      written := written + n;
    }
    assert bytes[..|bytes|] == bytes;
    return true;
  }

  lemma SameFilesComplete(before: State, now: State, path: Path, bytes: seq<byte>, pid: nat)
    requires path != [] && now.files == before.files && before.dirs <= now.dirs
    ensures Complete(before, now, path, bytes, pid)
  {
  }

  // Creating directories is not yet a change to any file.
  lemma AddsAfterDirs(before: State, prepared: State, now: State, t: Path)
    requires prepared.files == before.files && before.dirs <= prepared.dirs && OnlyAdds(prepared, now, t)
    ensures OnlyAdds(before, now, t)
  {
  }

  lemma PromotedIsComplete(before: State, filled: State, now: State, t: Path, path: Path, bytes: seq<byte>, pid: nat)
    requires path != [] && t != path && OnlyAdds(before, filled, t) && filled.files[t] == bytes
    requires now.files == filled.files[path := bytes] - {t} && now.dirs == filled.dirs
    ensures now.files == before.files[path := bytes]
    ensures Complete(before, now, path, bytes, pid)
  {
    assert forall q :: q in before.files ==> q in filled.files - {t} && filled.files[q] == before.files[q];
  }

  lemma CleanedUp(before: State, now: State, t: Path)
    requires OnlyAdds(before, now, t)
    ensures now.files - {t} == before.files && before.dirs <= now.dirs && t !in before.files
  {
  }

  // From the open temporary on: fill it, flush it, move it into place, or clean up.
  method Promote(
    fs: FileSystem, path: Path, bytes: seq<byte>, pid: nat, suffix: nat, ghost before: State) returns (ok: bool)
    requires fs.Valid() && path != [] && suffix < ATTEMPTS
    requires OnlyAdds(before, fs.Now(), TemporaryPath(path, pid, suffix))
    requires TemporaryPath(path, pid, suffix) in fs.files && fs.files[TemporaryPath(path, pid, suffix)] == []
    modifies fs
    ensures fs.Valid() && fs.dirs == old(fs.dirs) && old(fs.history) <= fs.history
    ensures ok ==> fs.files == before.files[path := bytes]
    ensures !ok ==> fs.files == before.files || OnlyAdds(before, fs.Now(), TemporaryPath(path, pid, suffix))
    ensures !ok && (fs.removable || !fs.faulty) ==> fs.files == before.files
    ensures Complete(before, fs.Now(), path, bytes, pid)
    ensures AllComplete(before, fs.history, |old(fs.history)|, path, bytes, pid)
    ensures !fs.faulty && path !in fs.dirs && Parent(path) in fs.dirs ==> ok
  {
    hide Complete, OnlyAdds, IsTemporary;
    var temporary := TemporaryPath(path, pid, suffix);
    TemporaryDiffers(path, pid, suffix);
    ok := FillTemporary(fs, path, bytes, pid, suffix, before);
    ghost var filled := fs.Now();
    var syncFault: bool := *;
    if ok && !(fs.faulty && syncFault) {
      ok := fs.ReplaceFile(temporary, path);
      if ok {
        PromotedIsComplete(before, filled, fs.Now(), temporary, path, bytes, pid);
        return true;
      }
    }
    CleanedUp(before, filled, temporary);
    AddingIsComplete(before, filled, path, bytes, pid, suffix);
    var removed := fs.RemoveFile(temporary);
    if removed {
      SameFilesComplete(before, fs.Now(), path, bytes, pid);
    }
    return false;
  }

  /** In every state of every run, interrupted or not, the destination is complete and nothing
      else that existed has changed; success leaves exactly the replacement. */
  method WriteFileAtomic(fs: FileSystem, path: Path, bytes: seq<byte>, pid: nat) returns (ok: bool)
    requires fs.Valid()
    modifies fs
    ensures fs.Valid() && old(fs.history) <= fs.history
    ensures path != [] ==> Complete(old(fs.Now()), fs.Now(), path, bytes, pid)
    ensures old(fs.dirs) <= fs.dirs <= if path == [] then old(fs.dirs) else old(fs.dirs) + Prefixes(Parent(path))
    ensures path != [] ==> AllComplete(old(fs.Now()), fs.history, |old(fs.history)|, path, bytes, pid)
    ensures ok ==> path != [] && path[|path| - 1] != ".." && fs.files == old(fs.files)[path := bytes]
    // the temporary goes too, unless removing it is what fails
    ensures !ok && (fs.removable || !fs.faulty) ==> fs.files == old(fs.files)
    ensures !ok ==>
              || fs.files == old(fs.files)
              || exists n: nat ::
                   n < ATTEMPTS && path != [] && OnlyAdds(old(fs.Now()), fs.Now(), TemporaryPath(path, pid, n))
    ensures !fs.faulty && Writable(old(fs.Now()), path, pid) ==> ok
  {
    hide Complete, OnlyAdds, IsTemporary, Free, Prefixes;
    ghost var before := fs.Now();
    if path == [] {
      return false;
    }
    ok := fs.CreateDirAll(Parent(path));
    forall i | |old(fs.history)| <= i < |fs.history|
      ensures Complete(before, fs.history[i], path, bytes, pid)
    {
      SameFilesComplete(before, fs.history[i], path, bytes, pid);
    }
    SameFilesComplete(before, fs.Now(), path, bytes, pid);
    if !ok {
      return false;
    }
    if path[|path| - 1] == ".." {
      return false;
    }
    PrefixOf(Parent(path));
    ghost var prepared := fs.Now();
    ghost var created := |fs.history|;
    var suffix;
    suffix, ok := OpenTemporary(fs, path, pid);
    if !ok {
      return false;
    }
    AddsAfterDirs(before, prepared, fs.Now(), TemporaryPath(path, pid, suffix));
    AddingIsComplete(before, fs.Now(), path, bytes, pid, suffix);
    ok := Promote(fs, path, bytes, pid, suffix, before);
  }

  // Nothing stands in the way: no file among the parents, no directory at the destination, and
  // one of the temporary names is free.
  ghost predicate Writable(now: State, path: Path, pid: nat) {
    && path != [] && path[|path| - 1] != ".."
    && (forall q :: q in Prefixes(Parent(path)) ==> q !in now.files)
    && path !in now.dirs + Prefixes(Parent(path))
    && exists n: nat :: Free(State(now.files, now.dirs + Prefixes(Parent(path))), path, pid, n)
  }
}
