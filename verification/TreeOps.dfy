/** Copying and removing directory trees. */
module TreeOps {
  import opened Bytes
  import opened FileSystem

  // ---- copying ------------------------------------------------------------------------

  // Where the copy at `q` comes from.
  function Origin(src: Path, dst: Path, q: Path): Path
    requires dst <= q
  {
    src + q[|dst|..]
  }

  // `q` is a copy made below `dst`, through one of the children in `names`.
  ghost predicate Copies(names: set<string>, dst: Path, q: Path) {
    dst < q && q[|dst|] in names
  }

  // What the overlay puts at `q`.
  ghost function Overlay(files: map<Path, seq<byte>>, src: Path, dst: Path, names: set<string>, q: Path): seq<byte> {
    if Copies(names, dst, q) && Origin(src, dst, q) in files then files[Origin(src, dst, q)]
    else if q in files then files[q] else []
  }

  // `now` is `before` overlaid, below `dst`, with those children of `src`.
  ghost predicate Overlaid(before: State, now: State, src: Path, dst: Path, names: set<string>) {
    && (forall q :: q in now.files <==>
        q in before.files || (Copies(names, dst, q) && Origin(src, dst, q) in before.files))
    && (forall q :: q in now.files ==> now.files[q] == Overlay(before.files, src, dst, names, q))
    && (forall q :: q in now.dirs <==>
        q in before.dirs || (Copies(names, dst, q) && Origin(src, dst, q) in before.dirs))
  }

  ghost function Children(s: State, p: Path): set<string> {
    set q | q in s.files.Keys + s.dirs && |q| == |p| + 1 && p <= q :: q[|p|]
  }

  // `read_dir`: every child once, in any order.
  method ListDir(fs: FileSystem, p: Path) returns (names: seq<string>)
    ensures forall n :: n in names <==> n in Children(fs.Now(), p)
    ensures forall i, j :: 0 <= i < j < |names| ==> names[i] != names[j]
  {
    var rest := set q | q in fs.files.Keys + fs.dirs && |q| == |p| + 1 && p <= q :: q[|p|];
    names := [];
    while rest != {}
      invariant forall n :: n in Children(fs.Now(), p) <==> n in names || n in rest
      invariant forall n :: n in names ==> n !in rest
      invariant forall i, j :: 0 <= i < j < |names| ==> names[i] != names[j]
      decreases rest
    {
      var name :| name in rest;
      names := names + [name];
      rest := rest - {name};
    }
  }

  lemma ChildPath(s: State, p: Path, n: string)
    ensures n in Children(s, p) <==> p + [n] in s.files || p + [n] in s.dirs
  {
    if n in Children(s, p) {
      var q :| q in s.files.Keys + s.dirs && |q| == |p| + 1 && p <= q && q[|p|] == n;
      assert q == p + [n];
    }
  }

  // Everything below a directory lies below one of its children.
  lemma {:induction false} BelowChild(s: State, p: Path, q: Path)
    requires IsTree(s) && p < q && (q in s.files || q in s.dirs)
    ensures q[|p|] in Children(s, p)
    decreases |q|
  {
    if |q| == |p| + 1 {
      assert q == p + [q[|p|]];
      ChildPath(s, p, q[|p|]);
    } else {
      BelowChild(s, p, Parent(q));
    }
  }

  // The directories `src` and below: what the recursion consumes.
  ghost function DirsBelow(dirs: set<Path>, p: Path): set<Path> {
    set d | d in dirs && p <= d
  }

  // No file of the source meets a directory of the destination, nor the other way round.
  ghost predicate NoConflict(s: State, src: Path, dst: Path) {
    && src in s.dirs
    && (forall q :: q in Prefixes(dst) ==> q !in s.files)
    && (forall q :: dst <= q && Origin(src, dst, q) in s.files ==> q !in s.dirs)
    && (forall q :: dst <= q && Origin(src, dst, q) in s.dirs ==> q !in s.files)
  }

  // Nothing outside `dst` has changed but for the directories on the way to it.
  ghost predicate OnlyBelow(before: State, now: State, dst: Path) {
    && (forall q :: !(dst <= q) ==> (q in now.files <==> q in before.files))
    && (forall q :: !(dst <= q) && q in now.files && q in before.files ==> now.files[q] == before.files[q])
    && (forall q :: !(dst <= q) && q !in Prefixes(dst) ==> (q in now.dirs <==> q in before.dirs))
    && before.dirs <= now.dirs
  }

  // ---- steps of a copy ----------------------------------------------------------------

  lemma ChildSplit(dst: Path, n: string, q: Path)
    ensures dst + [n] <= q <==> dst < q && q[|dst|] == n
  {
    if dst < q && q[|dst|] == n {
      assert q[..|dst| + 1] == dst + [n];
    }
  }

  // A child's copy extends the overlay by that child.
  lemma OverlayFile(before: State, mid: State, now: State, src: Path, dst: Path, names: set<string>, n: string)
    requires Overlaid(before, mid, src, dst, names) && n !in names && Apart(src, dst)
    requires src + [n] in before.files && IsTree(before)
    requires now == State(mid.files[dst + [n] := before.files[src + [n]]], mid.dirs)
    ensures Overlaid(before, now, src, dst, names + {n})
  {
    forall q
      ensures Copies(names + {n}, dst, q) <==> Copies(names, dst, q) || dst + [n] <= q
    {
      ChildSplit(dst, n, q);
    }
    forall q | dst + [n] <= q && (Origin(src, dst, q) in before.files || Origin(src, dst, q) in before.dirs)
      ensures q == dst + [n]
    {
      if q != dst + [n] {
        assert Origin(src, dst, q)[..|src| + 1] == src + [n];
        FileHasNothingBelow(before, src + [n], Origin(src, dst, q));
      }
    }
    assert Origin(src, dst, dst + [n]) == src + [n];
  }

  lemma {:induction false} FileHasNothingBelow(s: State, f: Path, q: Path)
    requires IsTree(s) && f in s.files && f < q
    ensures q !in s.files && q !in s.dirs
    decreases |q|
  {
    if Parent(q) != f {
      FileHasNothingBelow(s, f, Parent(q));
    }
  }

  // `now` is `before` with the whole directory `src` laid over `dst`.
  ghost predicate Copied(before: State, now: State, src: Path, dst: Path) {
    && src in before.dirs
    && (forall q :: q in now.files <==> q in before.files || (dst <= q && Origin(src, dst, q) in before.files))
    && (forall q :: q in now.files ==> now.files[q] == Laid(before.files, src, dst, q))
    && (forall q :: q in now.dirs <==>
        q in before.dirs || q in Prefixes(dst) || (dst <= q && Origin(src, dst, q) in before.dirs))
  }

  ghost function Laid(files: map<Path, seq<byte>>, src: Path, dst: Path, q: Path): seq<byte> {
    if dst <= q && Origin(src, dst, q) in files then files[Origin(src, dst, q)]
    else if q in files then files[q] else []
  }

  lemma ChildOrigin(src: Path, dst: Path, n: string, q: Path)
    requires dst + [n] <= q
    ensures Origin(src + [n], dst + [n], q) == Origin(src, dst, q)
    ensures src <= Origin(src, dst, q)
  {
    assert q[|dst|..] == [n] + q[|dst| + 1..];
  }

  lemma OverlayDir(before: State, mid: State, now: State, src: Path, dst: Path, names: set<string>, n: string)
    requires Overlaid(before, mid, src, dst, names) && n !in names && Apart(src, dst)
    requires Prefixes(dst) <= before.dirs && src + [n] in before.dirs
    requires Copied(mid, now, src + [n], dst + [n])
    ensures Overlaid(before, now, src, dst, names + {n})
  {
    forall q
      ensures Copies(names + {n}, dst, q) <==> Copies(names, dst, q) || dst + [n] <= q
      ensures Copies(names, dst, q) ==> !(dst + [n] <= q)
    {
      ChildSplit(dst, n, q);
    }
    forall q | dst + [n] <= q
      ensures Origin(src + [n], dst + [n], q) == Origin(src, dst, q)
      ensures !Copies(names, dst, Origin(src, dst, q))
    {
      ChildOrigin(src, dst, n, q);
      OutsideOther(src, dst, Origin(src, dst, q));
    }
    ChildPrefixes(dst, n);
    assert Origin(src, dst, dst + [n]) == src + [n];
  }

  lemma ChildPrefixes(dst: Path, n: string)
    ensures Prefixes(dst + [n]) == Prefixes(dst) + {dst + [n]}
  {
    NextPrefix(dst + [n], |dst|);
    assert (dst + [n])[..|dst|] == dst && (dst + [n])[..|dst| + 1] == dst + [n];
  }

  // All children copied means the directory copied.
  lemma OverlaidWhole(before: State, prepared: State, now: State, src: Path, dst: Path)
    requires IsTree(before) && Apart(src, dst) && src in before.dirs
    requires prepared == State(before.files, before.dirs + Prefixes(dst)) && IsTree(prepared)
    requires Overlaid(prepared, now, src, dst, Children(prepared, src))
    ensures Copied(before, now, src, dst)
  {
    PrefixOf(dst);
    forall q | dst <= q
      ensures Origin(src, dst, q) !in Prefixes(dst)
      ensures dst < q && (Origin(src, dst, q) in prepared.files || Origin(src, dst, q) in prepared.dirs) ==>
            Copies(Children(prepared, src), dst, q)
    {
      if Origin(src, dst, q) <= dst {
        PrefixTransitive(src, Origin(src, dst, q), dst);
      }
      if dst < q && (Origin(src, dst, q) in prepared.files || Origin(src, dst, q) in prepared.dirs) {
        BelowChild(prepared, src, Origin(src, dst, q));
        assert Origin(src, dst, q)[|src|] == q[|dst|];
      }
    }
    assert Origin(src, dst, dst) == src;
  }

  // ---- room for a copy ----------------------------------------------------------------

  // What lies at a copy's place is what lay there, and so is its origin.
  lemma CopyRoomAt(
    before: State, prepared: State, mid: State, src: Path, dst: Path, names: set<string>, n: string, q: Path)
    requires NoConflict(before, src, dst) && Apart(src, dst) && dst + [n] <= q
    requires prepared == State(before.files, before.dirs + Prefixes(dst))
    requires Overlaid(prepared, mid, src, dst, names) && n !in names
    ensures Origin(src + [n], dst + [n], q) in mid.files ==> q !in mid.dirs
    ensures Origin(src + [n], dst + [n], q) in mid.dirs ==> q !in mid.files
  {
    PrefixOf(dst);
    PrefixTransitive(dst, dst + [n], q);
    ChildSplit(dst, n, q);
    ChildOrigin(src, dst, n, q);
    var origin := Origin(src, dst, q);
    OutsideOther(src, dst, origin);
    if origin <= dst {
      PrefixTransitive(src, origin, dst);
    }
    assert !Copies(names, dst, q) && !Copies(names, dst, origin);
  }

  lemma CopyRoomKept(before: State, prepared: State, mid: State, src: Path, dst: Path, names: set<string>, n: string)
    requires NoConflict(before, src, dst) && Apart(src, dst) && IsTree(mid)
    requires prepared == State(before.files, before.dirs + Prefixes(dst))
    requires Overlaid(prepared, mid, src, dst, names) && n !in names
    ensures src + [n] in mid.files ==> dst + [n] !in mid.dirs && dst in mid.dirs
    ensures src + [n] in mid.dirs ==> NoConflict(mid, src + [n], dst + [n])
  {
    PrefixOf(dst);
    ChildPrefixes(dst, n);
    assert Origin(src + [n], dst + [n], dst + [n]) == src + [n];
    CopyRoomAt(before, prepared, mid, src, dst, names, n, dst + [n]);
    forall q | dst + [n] <= q && Origin(src + [n], dst + [n], q) in mid.files
      ensures q !in mid.dirs
    {
      CopyRoomAt(before, prepared, mid, src, dst, names, n, q);
    }
    forall q | dst + [n] <= q && Origin(src + [n], dst + [n], q) in mid.dirs
      ensures q !in mid.files
    {
      CopyRoomAt(before, prepared, mid, src, dst, names, n, q);
    }
    assert forall q :: q in Prefixes(dst) ==> q in mid.dirs;
  }

  // ---- the copy -----------------------------------------------------------------------

  lemma OnlyBelowChild(before: State, mid: State, now: State, dst: Path, n: string)
    requires OnlyBelow(before, mid, dst) && OnlyBelow(mid, now, dst + [n])
    ensures OnlyBelow(before, now, dst)
  {
    ChildPrefixes(dst, n);
    forall q | !(dst <= q)
      ensures q in now.files <==> q in before.files
      ensures q in now.files && q in before.files ==> now.files[q] == before.files[q]
      ensures q !in Prefixes(dst) ==> (q in now.dirs <==> q in before.dirs)
    {
      if dst + [n] <= q {
        PrefixTransitive(dst, dst + [n], q);
      }
    }
  }

  lemma SmallerBelow(before: State, mid: State, src: Path, dst: Path, n: string)
    requires OnlyBelow(before, mid, dst) && Apart(src, dst) && src in before.dirs
    ensures DirsBelow(mid.dirs, src + [n]) < DirsBelow(before.dirs, src)
  {
    PrefixOf(dst);
    forall d | d in mid.dirs && src + [n] <= d
      ensures d in before.dirs && src <= d
    {
      PrefixTransitive(src, src + [n], d);
      OutsideOther(src, dst, d);
      if d <= dst {
        PrefixTransitive(src, d, dst);
      }
    }
    assert src in DirsBelow(before.dirs, src) && src !in DirsBelow(mid.dirs, src + [n]);
  }

  lemma NothingCopied(s: State, src: Path, dst: Path)
    ensures Overlaid(s, s, src, dst, {})
  {
  }

  lemma SourceUntouched(before: State, mid: State, src: Path, dst: Path, n: string)
    requires OnlyBelow(before, mid, dst) && Apart(src, dst)
    ensures src + [n] in mid.files <==> src + [n] in before.files
    ensures src + [n] in mid.files ==> mid.files[src + [n]] == before.files[src + [n]]
    ensures src + [n] in mid.dirs <==> src + [n] in before.dirs
    ensures Apart(src + [n], dst + [n])
  {
    PrefixOf(dst);
    OutsideOther(src, dst, src + [n]);
    if src + [n] <= dst {
      PrefixTransitive(src, src + [n], dst);
    }
    if src + [n] <= dst + [n] || dst + [n] <= src + [n] {
      PrefixesNest(src, dst, if |src| <= |dst| then dst + [n] else src + [n]);
    }
  }

  lemma OverlaidNames(before: State, now: State, src: Path, dst: Path, a: set<string>, b: set<string>)
    requires a == b && Overlaid(before, now, src, dst, a)
    ensures Overlaid(before, now, src, dst, b)
  {
  }

  lemma PreparedOnlyBelow(before: State, now: State, dst: Path)
    requires now.files == before.files && before.dirs <= now.dirs <= before.dirs + Prefixes(dst)
    ensures OnlyBelow(before, now, dst)
  {
  }

  lemma RoomForPrefixes(before: State, src: Path, dst: Path)
    ensures NoConflict(before, src, dst) ==> forall q :: q in Prefixes(dst) ==> q !in before.files
  {
  }

  lemma NoSource(before: State, src: Path, dst: Path)
    ensures NoConflict(before, src, dst) ==> src in before.dirs
  {
  }

  lemma SourceIsOld(before: State, src: Path, dst: Path)
    requires Apart(src, dst)
    ensures src in before.dirs + Prefixes(dst) <==> src in before.dirs
  {
    PrefixOf(dst);
  }

  // What the next turn of the copy loop may rely on.
  lemma NextCopy(before: State, prepared: State, mid: State, src: Path, dst: Path, names: set<string>, n: string)
    requires IsTree(mid) && Apart(src, dst) && src in before.dirs
    requires prepared == State(before.files, before.dirs + Prefixes(dst))
    requires n in Children(prepared, src) && n !in names
    requires OnlyBelow(before, mid, dst) && Overlaid(prepared, mid, src, dst, names)
    ensures Apart(src + [n], dst + [n])
    ensures src + [n] in mid.dirs ==>
          src + [n] in prepared.dirs && DirsBelow(mid.dirs, src + [n]) < DirsBelow(before.dirs, src)
    ensures src + [n] !in mid.dirs ==>
          src + [n] in mid.files && src + [n] in prepared.files && mid.files[src + [n]] == prepared.files[src + [n]]
    ensures NoConflict(before, src, dst) && src + [n] in mid.dirs ==> NoConflict(mid, src + [n], dst + [n])
    ensures NoConflict(before, src, dst) && src + [n] !in mid.dirs ==> dst + [n] !in mid.dirs && dst in mid.dirs
  {
    hide OnlyBelow, Overlaid, NoConflict, IsTree, Prefixes, Children, DirsBelow;
    ChildPath(prepared, src, n);
    SourceUntouched(before, mid, src, dst, n);
    ChildApart(src, dst, n);
    SourceIsOld(before, src + [n], dst);
    SmallerBelow(before, mid, src, dst, n);
    if NoConflict(before, src, dst) {
      CopyRoomKept(before, prepared, mid, src, dst, names, n);
    }
  }

  lemma ChildApart(src: Path, dst: Path, n: string)
    requires Apart(src, dst)
    ensures Apart(src + [n], dst)
  {
    if src + [n] <= dst {
      PrefixTransitive(src, src + [n], dst);
    }
    OutsideOther(src, dst, src + [n]);
  }

  lemma FileOnlyBelow(before: State, mid: State, now: State, dst: Path, n: string, data: seq<byte>)
    requires OnlyBelow(before, mid, dst) && now.dirs == mid.dirs
    requires now.files == mid.files || now.files == mid.files[dst + [n] := data]
    ensures OnlyBelow(before, now, dst)
  {
    assert dst <= dst + [n];
  }

  /** Lays the whole tree at `src` over `dst`, at any depth and whatever `dst` held; nothing
      outside `dst` changes, succeed or fail. */
  method CopyDirAll(fs: FileSystem, src: Path, dst: Path) returns (ok: bool)
    requires fs.Valid() && Apart(src, dst)
    modifies fs
    decreases DirsBelow(fs.dirs, src)
    ensures fs.Valid() && OnlyBelow(old(fs.Now()), fs.Now(), dst)
    ensures ok ==> Copied(old(fs.Now()), fs.Now(), src, dst)
    ensures !fs.faulty && NoConflict(old(fs.Now()), src, dst) ==> ok
  {
    hide Prefixes, Overlaid, OnlyBelow, Copied, NoConflict, DirsBelow, IsTree, Children;
    ghost var before := fs.Now();
    RoomForPrefixes(before, src, dst);
    NoSource(before, src, dst);
    SourceIsOld(before, src, dst);
    ok := fs.CreateDirAll(dst);
    PreparedOnlyBelow(before, fs.Now(), dst);
    if !ok {
      return false;
    }
    ghost var prepared := fs.Now();
    if src !in fs.dirs {
      return false;
    }
    var names := ListDir(fs, src);
    NothingCopied(prepared, src, dst);
    ghost var done: set<string> := {};
    for i := 0 to |names|
      invariant fs.Valid()
      invariant done == (set j | 0 <= j < i :: names[j])
      invariant OnlyBelow(before, fs.Now(), dst)
      invariant Overlaid(prepared, fs.Now(), src, dst, done)
    {
      var n := names[i];
      ghost var mid := fs.Now();
      NextCopy(before, prepared, mid, src, dst, done, n);
      if src + [n] in fs.dirs {
        ok := CopyDirAll(fs, src + [n], dst + [n]);
        OnlyBelowChild(before, mid, fs.Now(), dst, n);
        if !ok {
          return false;
        }
        OverlayDir(prepared, mid, fs.Now(), src, dst, done, n);
      } else {
        ok := fs.Copy(src + [n], dst + [n]);
        FileOnlyBelow(before, mid, fs.Now(), dst, n, mid.files[src + [n]]);
        if !ok {
          return false;
        }
        OverlayFile(prepared, mid, fs.Now(), src, dst, done, n);
      }
      done := done + {n};
    }
    OverlaidNames(prepared, fs.Now(), src, dst, done, Children(prepared, src));
    OverlaidWhole(before, prepared, fs.Now(), src, dst);
    return true;
  }

  // ---- removing -----------------------------------------------------------------------

  ghost predicate Gone(s: State, path: Path) {
    forall q :: path <= q ==> q !in s.files && q !in s.dirs
  }

  // Paths have only disappeared, and only from `path` down.
  ghost predicate OnlyRemoved(before: State, now: State, path: Path) {
    && (forall q :: q in now.files ==> q in before.files && now.files[q] == before.files[q])
    && now.dirs <= before.dirs
    && (forall q :: !(path <= q) && q in before.files ==> q in now.files)
    && (forall q :: !(path <= q) && q in before.dirs ==> q in now.dirs)
  }

  lemma OnlyRemovedChild(before: State, mid: State, now: State, path: Path, n: string)
    requires OnlyRemoved(before, mid, path) && OnlyRemoved(mid, now, path + [n])
    ensures OnlyRemoved(before, now, path)
    ensures path in mid.dirs ==> path in now.dirs
    ensures forall m :: Gone(mid, path + [m]) ==> Gone(now, path + [m])
  {
    forall q | !(path <= q)
      ensures q in before.files ==> q in now.files
      ensures q in before.dirs ==> q in now.dirs
    {
      if path + [n] <= q {
        PrefixTransitive(path, path + [n], q);
      }
    }
  }

  lemma RemovedShrinks(before: State, now: State, path: Path, n: string)
    requires OnlyRemoved(before, now, path) && path in before.dirs
    ensures DirsBelow(now.dirs, path + [n]) < DirsBelow(before.dirs, path)
  {
    forall d | d in now.dirs && path + [n] <= d
      ensures path <= d
    {
      PrefixTransitive(path, path + [n], d);
    }
    assert path in DirsBelow(before.dirs, path) && path !in DirsBelow(now.dirs, path + [n]);
  }

  lemma AllChildrenGone(before: State, now: State, path: Path)
    requires IsTree(before) && OnlyRemoved(before, now, path)
    requires forall n :: n in Children(before, path) ==> Gone(now, path + [n])
    ensures forall q :: path < q ==> q !in now.files && q !in now.dirs
  {
    forall q | path < q
      ensures q !in now.files && q !in now.dirs
    {
      if q in before.files || q in before.dirs {
        BelowChild(before, path, q);
        ChildSplit(path, q[|path|], q);
      }
    }
  }

  lemma NothingRemoved(s: State, path: Path)
    ensures OnlyRemoved(s, s, path)
  {
  }

  /** Deletes what is at `path`, children first; a missing path is success. */
  method RemoveRecursive(fs: FileSystem, path: Path) returns (ok: bool)
    requires fs.Valid() && path != []
    modifies fs
    decreases DirsBelow(fs.dirs, path)
    ensures fs.Valid() && OnlyRemoved(old(fs.Now()), fs.Now(), path)
    ensures ok ==> Gone(fs.Now(), path)
    ensures !fs.faulty ==> ok
  {
    hide OnlyRemoved, DirsBelow, Gone, IsTree, Children;
    ghost var before := fs.Now();
    NothingRemoved(before, path);
    if path !in fs.files && path !in fs.dirs {
      MissingIsGone(before, path);
      return true;
    }
    if path in fs.files {
      ok := fs.RemoveFile(path);
      if !ok {
        ok := fs.RemoveFile(path);
      }
      FileRemoved(before, fs.Now(), path, ok);
      return;
    }
    var names := ListDir(fs, path);
    for i := 0 to |names|
      invariant fs.Valid() && OnlyRemoved(before, fs.Now(), path) && path in fs.dirs
      invariant forall j :: 0 <= j < i ==> Gone(fs.Now(), path + [names[j]])
    {
      ghost var mid := fs.Now();
      RemovedShrinks(before, mid, path, names[i]);
      ok := RemoveRecursive(fs, path + [names[i]]);
      OnlyRemovedChild(before, mid, fs.Now(), path, names[i]);
      if !ok {
        return false;
      }
    }
    AllChildrenGone(before, fs.Now(), path);
    ghost var emptied := fs.Now();
    ok := fs.RemoveDir(path);
    if !ok {
      ok := fs.RemoveDir(path);
    }
    DirRemoved(before, emptied, fs.Now(), path, ok);
  }

  lemma MissingIsGone(s: State, path: Path)
    requires IsTree(s) && path != [] && path !in s.files && path !in s.dirs
    ensures Gone(s, path)
  {
    forall q | path <= q
      ensures q !in s.files && q !in s.dirs
    {
      NothingBelow(s, path, q);
    }
  }

  lemma FileRemoved(before: State, now: State, path: Path, ok: bool)
    requires IsTree(before) && path in before.files && now.dirs == before.dirs
    requires now.files == if ok then before.files - {path} else before.files
    ensures OnlyRemoved(before, now, path) && (ok ==> Gone(now, path))
  {
    forall q | path <= q
      ensures q in before.files || q in before.dirs ==> q == path
    {
      if |path| < |q| {
        FileHasNothingBelow(before, path, q);
      }
    }
  }

  lemma DirRemoved(before: State, emptied: State, now: State, path: Path, ok: bool)
    requires OnlyRemoved(before, emptied, path) && IsTree(emptied) && path in emptied.dirs
    requires forall q :: path < q ==> q !in emptied.files && q !in emptied.dirs
    requires now.files == emptied.files && now.dirs == if ok then emptied.dirs - {path} else emptied.dirs
    ensures OnlyRemoved(before, now, path) && (ok ==> Gone(now, path))
  {
    forall q | path <= q
      ensures q in emptied.files || q in emptied.dirs ==> q == path
    {
      if |path| == |q| {
        assert q == path;
      }
    }
  }

  // The standard library's recursive removal first, the one above when that fails.
  method ForceRemoveDirAll(fs: FileSystem, path: Path) returns (ok: bool)
    requires fs.Valid() && path != []
    modifies fs
    ensures fs.Valid() && OnlyRemoved(old(fs.Now()), fs.Now(), path)
    ensures ok ==> Gone(fs.Now(), path)
    ensures !fs.faulty ==> ok
  {
    ok := RemoveRecursive(fs, path);
    if !ok {
      ok := RemoveRecursive(fs, path);
    }
  }
}
