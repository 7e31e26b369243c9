/** Assembling the documentation site: build a complete candidate, then promote it. */
module Docs {
  import opened Bytes
  import opened FileSystem
  import opened TreeOps

  datatype AssembleOutcome = MissingInput | StaleCandidate | CopyFailed | SiteNotCleared | NotPromoted | Assembled

  function LastDot(s: string): (d: int)
    ensures -1 <= d < |s| && (d >= 0 ==> s[d] == '.') && forall i :: d < i < |s| ==> s[i] != '.'
  {
    if s == "" then -1 else if s[|s| - 1] == '.' then |s| - 1 else LastDot(s[..|s| - 1])
  }

  // `with_extension("candidate")`: replaces the last extension, or adds one.
  function Candidate(site: Path): Path {
    if site == [] || site[|site| - 1] == ".." then site
    else
      var name := site[|site| - 1];
      Parent(site) + [(if LastDot(name) <= 0 then name else name[..LastDot(name)]) + ".candidate"]
  }

  lemma CandidateIsSibling(site: Path)
    requires site != []
    ensures Candidate(site) != [] && Parent(Candidate(site)) == Parent(site)
    ensures Candidate(site) != site ==> Apart(Candidate(site), site)
  {
    var c := Candidate(site);
    assert |c| == |site|;
  }

  /** A site is its own candidate exactly when its name already has that extension, or is no name. */
  lemma OwnCandidate(site: Path)
    requires site != []
    ensures Candidate(site) == site <==>
            var name := site[|site| - 1];
            name == ".." || (0 < LastDot(name) && name[LastDot(name)..] == ".candidate")
  {
    var name, c := site[|site| - 1], Candidate(site);
    assert site == Parent(site) + [name];
    if name != ".." {
      var d := LastDot(name);
      assert c[|c| - 1] == (if d <= 0 then name else name[..d]) + ".candidate";
      assert 0 < d ==> name == name[..d] + name[d..] && c[|c| - 1][d..] == ".candidate";
    }
  }

  // ---- what a site holds --------------------------------------------------------------

  // `r` is a path of the book, seen from the site.
  ghost predicate InBook(r: Path) {
    r != [] && r[0] == "book"
  }

  ghost predicate FileOfSite(s: State, landing: Path, book: Path, r: Path) {
    landing + r in s.files || (InBook(r) && book + r[1..] in s.files)
  }

  // The book wins where both have a file.
  ghost function BytesOfSite(s: State, landing: Path, book: Path, r: Path): seq<byte> {
    if InBook(r) && book + r[1..] in s.files then s.files[book + r[1..]]
    else if landing + r in s.files then s.files[landing + r] else []
  }

  // Below `at`, exactly the landing tree overlaid by the book.
  ghost predicate HoldsSite(before: State, now: State, landing: Path, book: Path, at: Path) {
    && (forall q :: at <= q ==> (q in now.files <==> FileOfSite(before, landing, book, q[|at|..])))
    && (forall q :: at <= q && q in now.files ==> now.files[q] == BytesOfSite(before, landing, book, q[|at|..]))
  }

  ghost predicate SameBelow(before: State, now: State, path: Path) {
    && (forall q :: path <= q ==> (q in now.files <==> q in before.files))
    && (forall q :: path <= q && q in now.files && q in before.files ==> now.files[q] == before.files[q])
    && (forall q :: path <= q ==> (q in now.dirs <==> q in before.dirs))
  }

  // ---- building the candidate ---------------------------------------------------------

  lemma BuiltAt(s0: State, s1: State, s2: State, s3: State, landing: Path, book: Path, c: Path, q: Path)
    requires Apart(landing, c) && Apart(book, c) && c <= q
    requires OnlyRemoved(s0, s1, c) && Gone(s1, c)
    requires Copied(s1, s2, landing, c) && OnlyBelow(s1, s2, c)
    requires Copied(s2, s3, book, c + ["book"])
    ensures q in s3.files <==> FileOfSite(s0, landing, book, q[|c|..])
    ensures q in s3.files ==> s3.files[q] == BytesOfSite(s0, landing, book, q[|c|..])
  {
    var r := q[|c|..];
    OutsideOther(landing, c, landing + r);
    ChildSplit(c, "book", q);
    assert Origin(landing, c, q) == landing + r;
    if InBook(r) {
      OutsideOther(book, c, book + r[1..]);
      assert q[|c + ["book"]|..] == r[1..];
      assert Origin(book, c + ["book"], q) == book + r[1..];
    }
  }

  lemma Built(s0: State, s1: State, s2: State, s3: State, landing: Path, book: Path, c: Path)
    requires Apart(landing, c) && Apart(book, c)
    requires OnlyRemoved(s0, s1, c) && Gone(s1, c)
    requires Copied(s1, s2, landing, c) && OnlyBelow(s1, s2, c)
    requires Copied(s2, s3, book, c + ["book"])
    ensures HoldsSite(s0, s3, landing, book, c)
  {
    hide OnlyRemoved, Gone, Copied, OnlyBelow, FileOfSite, BytesOfSite;
    forall q | c <= q
      ensures q in s3.files <==> FileOfSite(s0, landing, book, q[|c|..])
      ensures q in s3.files ==> s3.files[q] == BytesOfSite(s0, landing, book, q[|c|..])
    {
      BuiltAt(s0, s1, s2, s3, landing, book, c, q);
    }
  }

  // Building never reaches the site.
  lemma RemovingKeepsSite(before: State, now: State, c: Path, site: Path)
    requires OnlyRemoved(before, now, c) && Apart(c, site)
    ensures SameBelow(before, now, site)
  {
    forall q | site <= q
      ensures q in now.files <==> q in before.files
      ensures q in now.files && q in before.files ==> now.files[q] == before.files[q]
      ensures q in now.dirs <==> q in before.dirs
    {
      OutsideOther(site, c, q);
    }
  }

  lemma CopyingKeepsSite(before: State, now: State, dst: Path, c: Path, site: Path)
    requires OnlyBelow(before, now, dst) && Apart(c, site) && c <= dst && Apart(dst, site)
    ensures SameBelow(before, now, site)
  {
    PrefixOf(dst);
    forall q | site <= q
      ensures !(dst <= q) && q !in Prefixes(dst)
    {
      OutsideOther(site, dst, q);
      if q <= dst {
        PrefixTransitive(site, q, dst);
      }
    }
  }

  lemma SameBelowTransitive(a: State, b: State, c: State, path: Path)
    requires SameBelow(a, b, path) && SameBelow(b, c, path)
    ensures SameBelow(a, c, path)
  {
  }

  // ---- promoting it -------------------------------------------------------------------

  lemma SiteMoved(s0: State, s3: State, s4: State, landing: Path, book: Path, c: Path, site: Path)
    requires HoldsSite(s0, s3, landing, book, c) && OnlyRemoved(s3, s4, site) && Apart(c, site)
    ensures HoldsSite(s0, s4, landing, book, c)
  {
    hide FileOfSite, BytesOfSite;
    forall q | c <= q
      ensures q in s4.files <==> q in s3.files
      ensures q in s4.files ==> s4.files[q] == s3.files[q]
    {
      OutsideOther(c, site, q);
    }
  }

  lemma SitePromoted(s0: State, s4: State, s5: State, landing: Path, book: Path, c: Path, site: Path)
    requires HoldsSite(s0, s4, landing, book, c) && Renamed(s4, s5, c, site) && Apart(c, site)
    ensures HoldsSite(s0, s5, landing, book, site) && Gone(s5, c)
  {
    hide FileOfSite, BytesOfSite;
    forall q | site <= q
      ensures c <= c + q[|site|..] && (c + q[|site|..])[|c|..] == q[|site|..]
    {
    }
    forall q | c <= q
      ensures q !in s5.files && q !in s5.dirs
    {
      OutsideOther(c, site, q);
    }
  }

  // Files outside the candidate and the site are as they were.
  ghost predicate SameElsewhere(before: State, now: State, c: Path, site: Path) {
    forall q :: !(c <= q) && !(site <= q) ==>
      && (q in now.files <==> q in before.files)
      && (q in now.files && q in before.files ==> now.files[q] == before.files[q])
  }

  // No step of the command reaches beyond candidate and site.
  lemma RemovedElsewhere(before: State, now: State, path: Path, c: Path, site: Path)
    requires OnlyRemoved(before, now, path) && (path == c || path == site)
    ensures SameElsewhere(before, now, c, site)
  {
  }

  lemma BuiltElsewhere(before: State, now: State, c: Path, site: Path)
    requires OnlyBelow(before, now, c)
    ensures SameElsewhere(before, now, c, site)
  {
  }

  lemma PromotedElsewhere(before: State, now: State, c: Path, site: Path)
    requires Renamed(before, now, c, site)
    ensures SameElsewhere(before, now, c, site)
  {
  }

  lemma ElsewhereTransitive(a: State, b: State, d: State, c: Path, site: Path)
    requires SameElsewhere(a, b, c, site) && SameElsewhere(b, d, c, site)
    ensures SameElsewhere(a, d, c, site)
  {
    forall q | !(c <= q) && !(site <= q)
      ensures (q in d.files <==> q in a.files) && (q in d.files && q in a.files ==> d.files[q] == a.files[q])
    {
      assert q in b.files <==> q in a.files;
    }
  }

  // ---- when nothing stands in the way -------------------------------------------------

  predicate Nonempty(s: State, p: Path) {
    p in s.files && s.files[p] != []
  }

  // The start page in both languages, the style sheet, and the start page of the book.
  ghost predicate HasPages(s: State, landing: Path, book: Path) {
    && Nonempty(s, landing + ["index.html"]) && Nonempty(s, landing + ["en", "index.html"])
    && Nonempty(s, landing + ["style.css"]) && Nonempty(s, book + ["index.html"])
  }

  // No page of the book takes the name of a landing directory, nor the other way round.
  ghost predicate BookFits(s: State, landing: Path, book: Path) {
    forall q :: landing + ["book"] <= q ==>
      && (Origin(book, landing + ["book"], q) in s.files ==> q !in s.dirs)
      && (Origin(book, landing + ["book"], q) in s.dirs ==> q !in s.files)
  }

  ghost predicate Assemblable(s: State, landing: Path, book: Path, site: Path) {
    && site != [] && Candidate(site) != site
    && HasPages(s, landing, book) && BookFits(s, landing, book)
    && forall q :: q in Prefixes(Parent(site)) ==> q !in s.files
  }

  lemma RoomForLanding(s0: State, s1: State, landing: Path, book: Path, site: Path)
    requires IsTree(s0) && site != [] && Assemblable(s0, landing, book, site) && Apart(landing, Candidate(site))
    requires OnlyRemoved(s0, s1, Candidate(site)) && Gone(s1, Candidate(site))
    ensures NoConflict(s1, landing, Candidate(site))
  {
    var c := Candidate(site);
    CandidateIsSibling(site);
    assert Parent(landing + ["index.html"]) == landing;
    OutsideOther(landing, c, landing);
    assert c == Parent(c) + [c[|c| - 1]];
    ChildPrefixes(Parent(c), c[|c| - 1]);
  }

  lemma RoomForBook(s0: State, s1: State, s2: State, landing: Path, book: Path, site: Path)
    requires IsTree(s0) && IsTree(s2) && site != [] && Assemblable(s0, landing, book, site)
    requires Apart(landing, Candidate(site)) && Apart(book, Candidate(site))
    requires OnlyRemoved(s0, s1, Candidate(site)) && Gone(s1, Candidate(site))
    requires Copied(s1, s2, landing, Candidate(site)) && OnlyBelow(s1, s2, Candidate(site))
    ensures NoConflict(s2, book, Candidate(site) + ["book"])
  {
    hide OnlyRemoved, Gone, Copied, OnlyBelow, IsTree, BookFits;
    var c := Candidate(site);
    CandidateDirectories(s0, s1, s2, landing, book, c);
    forall q | c + ["book"] <= q
      ensures Origin(book, c + ["book"], q) in s2.files ==> q !in s2.dirs
      ensures Origin(book, c + ["book"], q) in s2.dirs ==> q !in s2.files
    {
      BookRoomAt(s0, s1, s2, landing, book, c, q);
    }
    assert Origin(book, c + ["book"], c + ["book"]) == book;
    ChildPrefixes(c, "book");
  }

  lemma CandidateDirectories(s0: State, s1: State, s2: State, landing: Path, book: Path, c: Path)
    requires IsTree(s0) && IsTree(s2) && HasPages(s0, landing, book)
    requires Apart(book, c) && OnlyRemoved(s0, s1, c) && Copied(s1, s2, landing, c)
    ensures book in s2.dirs && forall q :: q in Prefixes(c) ==> q !in s2.files
  {
    BookIsDirectory(s0, landing, book);
    OutsideOther(book, c, book);
    assert forall q :: q in Prefixes(c) ==> q in s2.dirs;
  }

  lemma BookIsDirectory(s: State, landing: Path, book: Path)
    requires IsTree(s) && HasPages(s, landing, book)
    ensures book in s.dirs
  {
    assert Parent(book + ["index.html"]) == book;
  }

  lemma BookRoomAt(s0: State, s1: State, s2: State, landing: Path, book: Path, c: Path, q: Path)
    requires Apart(landing, c) && Apart(book, c) && c + ["book"] <= q && BookFits(s0, landing, book)
    requires OnlyRemoved(s0, s1, c) && Gone(s1, c)
    requires Copied(s1, s2, landing, c) && OnlyBelow(s1, s2, c)
    ensures Origin(book, c + ["book"], q) in s2.files ==> q !in s2.dirs
    ensures Origin(book, c + ["book"], q) in s2.dirs ==> q !in s2.files
  {
    var tail := q[|c| + 1..];
    var page := landing + ["book"] + tail;
    assert Origin(book, c + ["book"], q) == book + tail == Origin(book, landing + ["book"], page);
    PrefixTransitive(c, c + ["book"], q);
    assert Origin(landing, c, q) == page by {
      assert q[|c|..] == ["book"] + tail;
    }
    OutsideOther(book, c, book + tail);
    OutsideOther(landing, c, page);
    PrefixOf(c);
    assert !(q <= c);
    if book + tail <= c {
      PrefixTransitive(book, book + tail, c);
    }
  }

  // ---- the command --------------------------------------------------------------------

  method RequireNonempty(fs: FileSystem, p: Path) returns (ok: bool)
    ensures ok <==> Nonempty(fs.Now(), p)
  {
    return p in fs.files && fs.files[p] != [];
  }

  method CheckInputs(fs: FileSystem, landing: Path, book: Path) returns (ok: bool)
    ensures ok <==> HasPages(fs.Now(), landing, book)
  {
    var required :=
      [landing + ["index.html"], landing + ["en", "index.html"], landing + ["style.css"], book + ["index.html"]];
    for i := 0 to |required|
      invariant forall j :: 0 <= j < i ==> Nonempty(fs.Now(), required[j])
    {
      ok := RequireNonempty(fs, required[i]);
      if !ok {
        return false;
      }
    }
    assert Nonempty(fs.Now(), required[0]) && Nonempty(fs.Now(), required[1]);
    assert Nonempty(fs.Now(), required[2]) && Nonempty(fs.Now(), required[3]);
    return true;
  }

  // Lays landing page and book into an empty candidate.
  method BuildCandidate(fs: FileSystem, landing: Path, book: Path, site: Path, ghost s0: State) returns (ok: bool)
    requires fs.Valid() && IsTree(s0) && site != [] && Apart(landing, Candidate(site)) && Apart(book, Candidate(site))
    requires OnlyRemoved(s0, fs.Now(), Candidate(site)) && Gone(fs.Now(), Candidate(site))
    modifies fs
    ensures fs.Valid()
    ensures ok ==> HoldsSite(s0, fs.Now(), landing, book, Candidate(site)) && Candidate(site) in fs.dirs
    ensures Candidate(site) != site ==> SameBelow(old(fs.Now()), fs.Now(), site)
    ensures OnlyBelow(old(fs.Now()), fs.Now(), Candidate(site))
    ensures !fs.faulty && Assemblable(s0, landing, book, site) ==> ok
  {
    hide OnlyRemoved, Gone, Copied, OnlyBelow, HoldsSite, Assemblable, NoConflict, IsTree, SameBelow;
    var c := Candidate(site);
    CandidateIsSibling(site);
    ghost var s1 := fs.Now();
    if Assemblable(s0, landing, book, site) {
      RoomForLanding(s0, s1, landing, book, site);
    }
    ok := CopyDirAll(fs, landing, c);
    ghost var s2 := fs.Now();
    if c != site {
      CopyingKeepsSite(s1, s2, c, c, site);
    }
    if !ok {
      return false;
    }
    if Assemblable(s0, landing, book, site) {
      RoomForBook(s0, s1, s2, landing, book, site);
    }
    ChildApart(c, book, "book");
    ok := CopyDirAll(fs, book, c + ["book"]);
    if c != site {
      ChildApart(c, site, "book");
      CopyingKeepsSite(s2, fs.Now(), c + ["book"], c, site);
      SameBelowTransitive(s1, s2, fs.Now(), site);
    }
    OnlyBelowChild(s1, s2, fs.Now(), c, "book");
    if ok {
      Built(s0, s1, s2, fs.Now(), landing, book, c);
      CandidateThere(s1, s2, fs.Now(), landing, book, c);
    }
  }

  lemma CandidateThere(s1: State, s2: State, s3: State, landing: Path, book: Path, c: Path)
    requires Copied(s1, s2, landing, c) && Copied(s2, s3, book, c + ["book"])
    ensures c in s3.dirs
  {
    PrefixOf(c);
  }

  /** On success the site is exactly the landing tree overlaid by the book, whatever was there
      before; until the old site's removal begins, failure leaves it as it was, and a failed
      promotion leaves the complete candidate. */
  method Assemble(fs: FileSystem, landing: Path, book: Path, site: Path) returns (r: AssembleOutcome)
    requires fs.Valid() && site != [] && Apart(landing, site) && Apart(book, site)
    // copying a directory into itself would not end
    requires Apart(landing, Candidate(site)) && Apart(book, Candidate(site))
    modifies fs
    ensures fs.Valid() && SameElsewhere(old(fs.Now()), fs.Now(), Candidate(site), site)
    ensures r.MissingInput? <==> !HasPages(old(fs.Now()), landing, book)
    ensures r.MissingInput? ==> fs.Now() == old(fs.Now()) && fs.history == old(fs.history)
    ensures r.Assembled? ==> HoldsSite(old(fs.Now()), fs.Now(), landing, book, site)
    ensures r.Assembled? ==> Gone(fs.Now(), Candidate(site))
    ensures Candidate(site) != site && (r.MissingInput? || r.StaleCandidate? || r.CopyFailed?) ==>
          SameBelow(old(fs.Now()), fs.Now(), site)
    ensures Candidate(site) != site && r.NotPromoted? ==>
          HoldsSite(old(fs.Now()), fs.Now(), landing, book, Candidate(site))
    ensures r.Assembled? ==> Candidate(site) != site
    ensures !fs.faulty && r.CopyFailed? ==> Gone(fs.Now(), Candidate(site))
    ensures !fs.faulty ==> r != StaleCandidate && r != SiteNotCleared && (r.NotPromoted? ==> Candidate(site) == site)
    ensures !fs.faulty && Assemblable(old(fs.Now()), landing, book, site) ==> r.Assembled?
  {
    hide OnlyRemoved, Gone, OnlyBelow, HoldsSite, Assemblable, IsTree, SameBelow, Renamed, SameElsewhere;
    ghost var s0 := fs.Now();
    var c := Candidate(site);
    CandidateIsSibling(site);
    Sound(s0, landing, book, site);
    NothingYet(s0, c, site);
    var ok := CheckInputs(fs, landing, book);
    if !ok {
      return MissingInput;
    }
    ok := ForceRemoveDirAll(fs, c);
    ghost var s1 := fs.Now();
    RemovedElsewhere(s0, s1, c, c, site);
    if c != site {
      RemovingKeepsSite(s0, s1, c, site);
    }
    if !ok {
      return StaleCandidate;
    }
    ok := BuildCandidate(fs, landing, book, site, s0);
    ghost var s3 := fs.Now();
    BuiltElsewhere(s1, s3, c, site);
    ElsewhereTransitive(s0, s1, s3, c, site);
    if c != site {
      SameBelowTransitive(s0, s1, s3, site);
    }
    if !ok {
      var _ := ForceRemoveDirAll(fs, c);
      RemovedElsewhere(s3, fs.Now(), c, c, site);
      ElsewhereTransitive(s0, s3, fs.Now(), c, site);
      if c != site {
        RemovingKeepsSite(s3, fs.Now(), c, site);
        SameBelowTransitive(s0, s3, fs.Now(), site);
      }
      return CopyFailed;
    }
    ok := ForceRemoveDirAll(fs, site);
    ghost var s4 := fs.Now();
    RemovedElsewhere(s3, s4, site, c, site);
    ElsewhereTransitive(s0, s3, s4, c, site);
    if !ok {
      return SiteNotCleared;
    }
    if c != site {
      SiteMoved(s0, s3, s4, landing, book, c, site);
      ReadyToPromote(s3, s4, c, site);
    }
    ok := fs.RenameDir(c, site);
    if !ok {
      return NotPromoted;
    }
    Cleared(s4, site);
    SitePromoted(s0, s4, fs.Now(), landing, book, c, site);
    PromotedElsewhere(s4, fs.Now(), c, site);
    ElsewhereTransitive(s0, s4, fs.Now(), c, site);
    return Assembled;
  }

  lemma NothingYet(s: State, c: Path, site: Path)
    ensures SameBelow(s, s, site) && SameElsewhere(s, s, c, site)
  {
  }

  // What `Assemblable` says of the inputs and of the candidate's name.
  lemma Sound(s: State, landing: Path, book: Path, site: Path)
    ensures Assemblable(s, landing, book, site) ==> Candidate(site) != site
    ensures Assemblable(s, landing, book, site) ==> HasPages(s, landing, book)
  {
  }

  lemma Cleared(s: State, site: Path)
    requires Gone(s, site)
    ensures site !in s.dirs
  {
  }

  lemma ReadyToPromote(s3: State, s4: State, c: Path, site: Path)
    requires c != [] && site != [] && Apart(c, site) && Parent(c) == Parent(site)
    requires c in s3.dirs && OnlyRemoved(s3, s4, site) && Gone(s4, site) && IsTree(s4)
    ensures Movable(s4, c, site)
  {
    OutsideOther(c, site, c);
  }
}
