/** The file system as the release tools use it: each operation one atomic step, and every
    state it passed through kept for statements about interrupted runs. */
module FileSystem {
  import opened Bytes
  import opened Text

  // Absolute paths, component by component.
  type Path = seq<string>

  datatype State = State(files: map<Path, seq<byte>>, dirs: set<Path>)

  datatype CreateNewOutcome = Created | AlreadyExists | Failed

  function Parent(p: Path): Path
    requires p != []
  {
    p[..|p| - 1]
  }

  // `dir.join(relative)` for a normalised relative path.
  function Under(dir: Path, relative: string): Path {
    dir + Split(relative, '/')
  }

  lemma UnderInjective(dir: Path, a: string, b: string)
    requires Under(dir, a) == Under(dir, b)
    ensures a == b
  {
    assert Split(a, '/') == Under(dir, a)[|dir|..];
    assert Split(b, '/') == Under(dir, b)[|dir|..];
    JoinSplit(a, '/');
    JoinSplit(b, '/');
  }

  // Neither directory contains the other.
  predicate Apart(a: Path, b: Path) {
    !(a <= b) && !(b <= a)
  }

  lemma PrefixTransitive(a: Path, b: Path, c: Path)
    requires a <= b && b <= c
    ensures a <= c
  {
    assert a == b[..|a|] && b == c[..|b|];
  }

  lemma PrefixesNest(a: Path, b: Path, p: Path)
    requires a <= p && b <= p
    ensures a <= b || b <= a
  {
    if |a| <= |b| {
      assert b[..|a|] == p[..|a|];
    } else {
      assert a[..|b|] == p[..|b|];
    }
  }

  lemma UnderApart(a: Path, b: Path, p: Path, q: Path)
    requires Apart(a, b) && a <= p && b <= q
    ensures p != q
  {
    if p == q {
      PrefixesNest(a, b, p);
    }
  }

  // No path is both file and directory, and everything but the root lies in a directory.
  ghost predicate IsTree(s: State) {
    && s.files.Keys !! s.dirs && [] in s.dirs
    && (forall p :: p in s.files ==> p != [] && Parent(p) in s.dirs)
    && (forall p :: p in s.dirs && p != [] ==> Parent(p) in s.dirs)
  }

  lemma OutsideOther(a: Path, b: Path, p: Path)
    requires Apart(a, b) && a <= p
    ensures !(b <= p)
  {
    if b <= p {
      PrefixesNest(a, b, p);
    }
  }

  // A directory, and a free name in an existing one that is not part of it.
  predicate Movable(s: State, source: Path, destination: Path) {
    && source in s.dirs && source != [] && destination != [] && Apart(source, destination)
    && destination !in s.files && destination !in s.dirs && Parent(destination) in s.dirs
  }

  function Rename(s: State, source: Path, destination: Path): State {
    var moved := set p | p in s.files && source <= p :: destination + p[|source|..];
    var kept := set p | p in s.files && !(source <= p);
    State(
      map q | q in kept + moved ::
        if destination <= q && source + q[|destination|..] in s.files then s.files[source + q[|destination|..]]
        else if q in s.files then s.files[q] else [],
      (set p | p in s.dirs && !(source <= p)) + (set p | p in s.dirs && source <= p :: destination + p[|source|..]))
  }

  // What does not exist has nothing below it.
  lemma {:induction false} NothingBelow(s: State, p: Path, q: Path)
    requires IsTree(s) && p != [] && p !in s.files && p !in s.dirs && p <= q
    ensures q !in s.files && q !in s.dirs
    decreases |q|
  {
    if p != q {
      NothingBelow(s, p, Parent(q));
    }
  }

  lemma RenamedTree(s: State, source: Path, destination: Path)
    requires IsTree(s) && Movable(s, source, destination)
    ensures Renamed(s, Rename(s, source, destination), source, destination)
    ensures IsTree(Rename(s, source, destination))
  {
    RenamedPaths(s, source, destination);
    var now := Rename(s, source, destination);
    forall q | q in now.files || (q in now.dirs && q != [])
      ensures q != [] && Parent(q) in now.dirs
    {
      if destination < q {
        assert source + Parent(q)[|destination|..] == Parent(source + q[|destination|..]);
      } else {
        NotBelowParent(source, q);
        if destination != q {
          NotBelowParent(destination, q);
        }
      }
    }
    PrefixOf(source);
  }

  lemma NotBelowParent(a: Path, q: Path)
    requires q != [] && !(a <= q)
    ensures !(a <= Parent(q))
  {
  }

  lemma RenamedPaths(s: State, source: Path, destination: Path)
    requires IsTree(s) && Movable(s, source, destination)
    ensures Renamed(s, Rename(s, source, destination), source, destination)
  {
    forall q | destination <= q
      ensures q !in s.files && q !in s.dirs && !(source <= q)
    {
      NothingBelow(s, destination, q);
      if source <= q {
        PrefixesNest(source, destination, q);
      }
    }
    forall p: Path | source <= p
      ensures (destination + p[|source|..])[|destination|..] == p[|source|..] && source + p[|source|..] == p
    {
    }
    forall q: Path | destination <= q
      ensures destination + (source + q[|destination|..])[|source|..] == q
    {
      assert (source + q[|destination|..])[|source|..] == q[|destination|..];
    }
  }

  // Everything from `source` down is now at `destination`, and only there.
  ghost predicate Renamed(before: State, now: State, source: Path, destination: Path) {
    && (forall q :: q in now.files <==>
        if destination <= q then source + q[|destination|..] in before.files else q in before.files && !(source <= q))
    && (forall q :: q in now.files ==>
        now.files[q] == before.files[if destination <= q then source + q[|destination|..] else q])
    && (forall q :: q in now.dirs <==>
        if destination <= q then source + q[|destination|..] in before.dirs else q in before.dirs && !(source <= q))
  }

  class FileSystem {
    var files: map<Path, seq<byte>>
    var dirs: set<Path>
    // All states so far, in order.
    ghost var history: seq<State>
    // Whether operations may also fail for reasons no path explains: a full disk, a lock, a lost device.
    const faulty: bool
    // Whether existing files can be removed even then.
    const removable: bool
    // Whether no one else writes files.
    const quiet: bool

    ghost function Now(): State
      reads this
    {
      State(files, dirs)
    }

    ghost predicate Valid()
      reads this
    {
      IsTree(Now())
    }

    constructor (faulty: bool, removable: bool, quiet: bool)
      ensures Valid() && files == map[] && dirs == {[]} && history == []
      ensures this.faulty == faulty && this.removable == removable && this.quiet == quiet
    {
      this.faulty, this.removable, this.quiet := faulty, removable, quiet;
      files, dirs, history := map[], {[]}, [];
    }

    // What others do meanwhile.
    method Meanwhile()
      requires Valid()
      modifies this
      ensures Valid() && dirs == old(dirs) && old(history) <= history
      ensures quiet ==> files == old(files) && history == old(history)
    {
      var others: map<Path, seq<byte>> := *;
      if !quiet && forall p :: p in others ==> p != [] && p !in dirs && Parent(p) in dirs {
        files := others;
        history := history + [Now()];
      }
    }

    // `fs::copy`: all or nothing.
    method Copy(from: Path, to: Path) returns (ok: bool)
      requires Valid() && to != []
      modifies this
      ensures Valid() && dirs == old(dirs)
      ensures ok ==>
            from in old(files) && files == old(files)[to := old(files)[from]] && history == old(history) + [Now()]
      ensures !ok ==> files == old(files) && history == old(history)
      ensures !faulty && from in old(files) && to !in old(dirs) && Parent(to) in old(dirs) ==> ok
    {
      var fault: bool := *;
      if (faulty && fault) || from !in files || to in dirs || Parent(to) !in dirs {
        return false;
      }
      files := files[to := files[from]];
      history := history + [Now()];
      return true;
    }

    // `fs::write`, all or nothing: how a signer leaves its output.
    method Write(to: Path, bytes: seq<byte>) returns (ok: bool)
      requires Valid() && to != []
      modifies this
      ensures Valid() && dirs == old(dirs)
      ensures ok ==> files == old(files)[to := bytes] && history == old(history) + [Now()]
      ensures !ok ==> files == old(files) && history == old(history)
      ensures !faulty && to !in old(dirs) && Parent(to) in old(dirs) ==> ok
    {
      var fault: bool := *;
      if (faulty && fault) || to in dirs || Parent(to) !in dirs {
        return false;
      }
      files := files[to := bytes];
      history := history + [Now()];
      return true;
    }

    // `create_new(true)`: never touches what is there.
    method CreateNew(p: Path) returns (r: CreateNewOutcome)
      requires Valid() && p != []
      modifies this
      ensures Valid() && dirs == old(dirs)
      ensures r.Created? ==>
            p !in old(files) && p !in dirs && files == old(files)[p := []] && history == old(history) + [Now()]
      ensures !r.Created? ==> files == old(files) && history == old(history)
      ensures r.AlreadyExists? ==> p in files || p in dirs
      ensures !faulty && Parent(p) in dirs ==> !r.Failed?
    {
      var fault: bool := *;
      if (faulty && fault) || Parent(p) !in dirs {
        return Failed;
      }
      if p in files || p in dirs {
        return AlreadyExists;
      }
      files := files[p := []];
      history := history + [Now()];
      return Created;
    }

    // One system call of `write_all`: appends what it can of `bytes`.
    method WriteSome(p: Path, bytes: seq<byte>) returns (n: nat)
      requires Valid() && p in files && bytes != []
      modifies this
      ensures Valid() && dirs == old(dirs) && n <= |bytes|
      ensures n > 0 ==> files == old(files)[p := old(files)[p] + bytes[..n]] && history == old(history) + [Now()]
      ensures n == 0 ==> files == old(files) && history == old(history)
      ensures !faulty ==> n > 0
    {
      var fault: bool := *;
      if faulty && fault {
        return 0;
      }
      n :| 0 < n <= |bytes|;
      files := files[p := files[p] + bytes[..n]];
      history := history + [Now()];
    }

    // Replaces a file by another in one step.
    method ReplaceFile(source: Path, destination: Path) returns (ok: bool)
      requires Valid() && destination != [] && source != destination
      modifies this
      ensures Valid() && dirs == old(dirs)
      ensures ok ==>
            source in old(files) && files == old(files)[destination := old(files)[source]] - {source}
                && history == old(history) + [Now()]
      ensures !ok ==> files == old(files) && history == old(history)
      ensures !faulty && source in old(files) && destination !in dirs && Parent(destination) in dirs ==> ok
    {
      var fault: bool := *;
      if (faulty && fault) || source !in files || destination in dirs || Parent(destination) !in dirs {
        return false;
      }
      files := files[destination := files[source]] - {source};
      history := history + [Now()];
      return true;
    }

    method RemoveFile(p: Path) returns (ok: bool)
      requires Valid()
      modifies this
      ensures Valid() && dirs == old(dirs)
      ensures ok ==> p in old(files) && files == old(files) - {p} && history == old(history) + [Now()]
      ensures !ok ==> files == old(files) && history == old(history)
      ensures (!faulty || removable) && p in old(files) ==> ok
    {
      var fault: bool := *;
      if (faulty && !removable && fault) || p !in files {
        return false;
      }
      files := files - {p};
      history := history + [Now()];
      return true;
    }

    // Removes an empty directory.
    method RemoveDir(p: Path) returns (ok: bool)
      requires Valid()
      modifies this
      ensures Valid() && files == old(files)
      ensures ok ==> p in old(dirs) && dirs == old(dirs) - {p} && history == old(history) + [Now()]
      ensures !ok ==> dirs == old(dirs) && history == old(history)
      ensures !faulty && p in old(dirs) && p != [] && (forall q :: q in files || q in old(dirs) ==> !(p < q)) ==> ok
    {
      var fault: bool := *;
      if (faulty && fault) || p !in dirs || p == [] || exists q | q in files.Keys + dirs :: p < q {
        return false;
      }
      dirs := dirs - {p};
      history := history + [Now()];
      return true;
    }

    // `fs::rename` of a directory to a name that is free: the whole tree moves in one step.
    method RenameDir(source: Path, destination: Path) returns (ok: bool)
      requires Valid()
      modifies this
      ensures Valid()
      ensures ok ==>
            source in old(dirs) && Renamed(old(Now()), Now(), source, destination) && history == old(history) + [Now()]
      ensures !ok ==> Now() == old(Now()) && history == old(history)
      ensures !faulty && Movable(old(Now()), source, destination) ==> ok
    {
      var fault: bool := *;
      if (faulty && fault) || !Movable(State(files, dirs), source, destination) {
        return false;
      }
      RenamedTree(Now(), source, destination);
      var now := Rename(State(files, dirs), source, destination);
      files, dirs := now.files, now.dirs;
      history := history + [Now()];
      return true;
    }

    // `create_dir_all`: every missing directory on the way, from the top.
    method CreateDirAll(p: Path) returns (ok: bool)
      requires Valid()
      modifies this
      ensures Valid() && files == old(files) && old(history) <= history
      ensures old(dirs) <= dirs <= old(dirs) + Prefixes(p)
      ensures ok ==> dirs == old(dirs) + Prefixes(p)
      ensures forall i :: |old(history)| <= i < |history| ==>
            history[i].files == files && old(dirs) <= history[i].dirs <= dirs
      ensures !faulty && (forall q :: q in Prefixes(p) ==> q !in files) ==> ok
    {
      PrefixOf(p);
      assert p[..0] == [];
      for n := 0 to |p|
        invariant Valid() && files == old(files) && old(history) <= history
        invariant dirs == old(dirs) + Prefixes(p[..n])
        invariant forall i :: |old(history)| <= i < |history| ==>
              history[i].files == files && old(dirs) <= history[i].dirs <= dirs
      {
        NextPrefix(p, n);
        var here := p[..n + 1];
        var fault: bool := *;
        if (faulty && fault) || here in files {
          return false;
        }
        if here !in dirs {
          assert Parent(here) == p[..n];
          dirs := dirs + {here};
          history := history + [Now()];
        }
      }
      assert p[..|p|] == p;
      return true;
    }
  }

  ghost function Prefixes(p: Path): set<Path> {
    set n | 0 <= n <= |p| :: p[..n]
  }

  lemma PrefixOf(p: Path)
    ensures Prefixes([]) == {[]} && p in Prefixes(p)
    ensures forall q :: q in Prefixes(p) <==> q <= p
  {
    assert p[..|p|] == p;
    forall q | q <= p
      ensures q in Prefixes(p)
    {
      assert q == p[..|q|];
    }
    var empty: Path := [];
    assert empty[..0] == [];
  }

  lemma NextPrefix(p: Path, n: nat)
    requires n < |p|
    ensures Prefixes(p[..n + 1]) == Prefixes(p[..n]) + {p[..n + 1]} && p[..n] in Prefixes(p[..n])
    ensures Prefixes(p[..n + 1]) <= Prefixes(p)
  {
    PrefixOf(p);
    PrefixOf(p[..n]);
    PrefixOf(p[..n + 1]);
    forall q | q in Prefixes(p[..n + 1])
      ensures q in Prefixes(p[..n]) + {p[..n + 1]}
      ensures q in Prefixes(p)
    {
      assert q == p[..n + 1][..|q|] == p[..|q|];
      assert |q| <= n ==> q == p[..n][..|q|];
    }
    forall q | q in Prefixes(p[..n])
      ensures q in Prefixes(p[..n + 1])
    {
      assert q == p[..n][..|q|] == p[..n + 1][..|q|];
    }
  }
}
