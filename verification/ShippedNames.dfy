/** What may be shipped, said without the code's own predicates: names that Windows keeps as they are,
    and trees in which no two entries meet on a case-insensitive file system. */
module ShippedNames {
  import opened Text
  import opened BundlePath
  import opened BundleTree
  import opened BundleWalk
  import opened BundleFiles

  // Printable ASCII without the nine characters that Windows refuses.
  predicate IsNameCharacter(c: char) {
    ' ' <= c <= '~' && c !in {'<', '>', ':', '"', '/', '\\', '|', '?', '*'}
  }

  predicate IsDevice(d: string) {
    || d in {"CON", "PRN", "AUX", "NUL"}
    || (|d| == 4 && d[..3] in {"COM", "LPT"} && '1' <= d[3] <= '9')
  }

  // The name, or what is in front of one of its dots, is a device in some mixture of cases.
  ghost predicate NamesDevice(name: string) {
    exists n: nat, d: string :: IsStem(name, n) && IsDevice(d) && SameIgnoringCase(name[..n], d)
  }

  ghost predicate IsStem(name: string, n: nat) {
    n == |name| || (n < |name| && name[n] == '.')
  }

  ghost predicate Shippable(name: string) {
    && name != "" && (forall i :: 0 <= i < |name| ==> IsNameCharacter(name[i]))
    && name[|name| - 1] !in {'.', ' '} && !NamesDevice(name)
  }

  // ---- names --------------------------------------------------------------------------

  // The first stem is the one the code looks at.
  lemma FirstStem(name: string) returns (n: nat)
    ensures IsStem(name, n) && '.' !in name[..n] && Split(name, '.')[0] == name[..n]
  {
    n := 0;
    while n < |name| && name[n] != '.'
      invariant n <= |name| && '.' !in name[..n]
    {
      assert name[..n + 1] == name[..n] + [name[n]];
      n := n + 1;
    }
    if n == |name| {
      assert name[..n] == name;
      SplitWithout(name, '.');
    } else {
      assert name == name[..n] + ['.'] + name[n + 1..];
      SplitFirst(name[..n], name[n + 1..], '.');
    }
  }

  // Devices are written in capitals, so the code's comparison with the capitalised stem ignores case.
  lemma DeviceCapitals(stem: string, d: string)
    requires IsDevice(d)
    ensures SameIgnoringCase(stem, d) <==> ToAsciiUppercase(stem) == d
  {
    CaseFolds(stem, d);
    assert ToAsciiUppercase(d) == d;
  }

  lemma DeviceHasNoDot(d: string)
    requires IsDevice(d)
    ensures '.' !in d
  {
    if |d| == 4 {
      assert d == d[..3] + [d[3]];
    }
  }

  lemma ReservedDevices(d: string)
    requires forall c :: c in d ==> c < '\U{80}'
    ensures IsReservedDevice(d) <==> IsDevice(d)
  {
    if 3 < |d| {
      assert d[3] in d && d[3..][0] == d[3];
      assert |d| == 4 ==> d[3..] == [d[3]];
      assert "COM" <= d <==> d[..3] == "COM";
      assert "LPT" <= d <==> d[..3] == "LPT";
    } else {
      assert "COM" <= d ==> d[3..] == "";
      assert "LPT" <= d ==> d[3..] == "";
    }
  }

  lemma StemNamesDevice(name: string, n: nat)
    requires IsStem(name, n) && '.' !in name[..n]
    ensures NamesDevice(name) <==> IsDevice(ToAsciiUppercase(name[..n]))
  {
    hide IsDevice, ToAsciiUppercase;
    var upper := ToAsciiUppercase(name[..n]);
    if IsDevice(upper) {
      DeviceCapitals(name[..n], upper);
    }
    if m: nat, d: string :| IsStem(name, m) && IsDevice(d) && SameIgnoringCase(name[..m], d) {
      DeviceHasNoDot(d);
      NoDotIgnoringCase(name[..m], d);
      OneStem(name, n, m);
      DeviceCapitals(name[..n], d);
    }
  }

  lemma OneStem(name: string, n: nat, m: nat)
    requires IsStem(name, n) && '.' !in name[..n] && IsStem(name, m) && '.' !in name[..m]
    ensures n == m
  {
    assert forall i :: 0 <= i < n ==> name[i] in name[..n];
    assert forall i :: 0 <= i < m ==> name[i] in name[..m];
  }

  lemma NoDotIgnoringCase(a: string, b: string)
    requires SameIgnoringCase(a, b) && '.' !in b
    ensures '.' !in a
  {
    forall i | 0 <= i < |a|
      ensures a[i] != '.'
    {
      assert SameLetter(a[i], b[i]) && b[i] in b;
    }
  }

  /** A component passes the code's check exactly when it is such a name. */
  lemma ShippableNames(name: string)
    ensures ValidComponent(name) <==> Shippable(name)
  {
    hide IsReservedDevice, IsDevice, NamesDevice, ToAsciiUppercase, Split;
    NameCharacters(name);
    if (forall i :: 0 <= i < |name| ==> IsNameCharacter(name[i])) && name != "" {
      var n := FirstStem(name);
      StemNamesDevice(name, n);
      CapitalsAscii(name[..n]);
      ReservedDevices(ToAsciiUppercase(name[..n]));
    }
  }

  lemma CapitalsAscii(s: string)
    requires forall i :: 0 <= i < |s| ==> IsNameCharacter(s[i])
    ensures forall c :: c in ToAsciiUppercase(s) ==> c < '\U{80}'
  {
  }

  lemma NameCharacters(name: string)
    ensures (forall i :: 0 <= i < |name| ==> IsNameCharacter(name[i])) <==>
            && (forall c :: c in name ==> !IsControl(c) && c !in UNSAFE)
            && forall c :: c in name ==> c < '\U{80}'
  {
    forall c: char
      ensures IsNameCharacter(c) <==> !IsControl(c) && c !in UNSAFE && c < '\U{80}'
    {
    }
    assert forall i :: 0 <= i < |name| ==> name[i] in name;
  }

  // ---- paths and trees ----------------------------------------------------------------

  // Shippable names, joined by single slashes.
  ghost predicate IsJoined(path: string, names: seq<string>) {
    names != [] && path == Join(names, '/') && forall i :: 0 <= i < |names| ==> Shippable(names[i])
  }

  lemma NoSlash(name: string)
    requires Shippable(name)
    ensures '/' !in name && '\\' !in name
  {
    hide NamesDevice;
  }

  /** A path passes the whole-path check exactly when it is such a join. */
  lemma ShippablePaths(path: string)
    ensures ValidRelativePath(path) <==> exists names :: IsJoined(path, names)
  {
    hide ValidComponent, Shippable, Split, Join;
    if ValidRelativePath(path) {
      var names := Split(path, '/');
      JoinSplit(path, '/');
      forall i | 0 <= i < |names|
        ensures Shippable(names[i])
      {
        assert names[i] in names;
        ShippableNames(names[i]);
      }
      assert IsJoined(path, names);
    }
    if names :| IsJoined(path, names) {
      JoinedIsValid(path, names);
    }
  }

  lemma JoinedIsValid(path: string, names: seq<string>)
    requires IsJoined(path, names)
    ensures ValidRelativePath(path)
  {
    hide ValidComponent, Shippable, Split, Join, ValidRelativePath;
    forall i | 0 <= i < |names|
      ensures ValidComponent(names[i]) && names[i] != "" && '/' !in names[i]
    {
      ShippableNames(names[i]);
      NoSlash(names[i]);
      ShippableNotEmpty(names[i]);
    }
    var position: Position := names;
    JoinedPathValid(position);
  }

  lemma ShippableNotEmpty(name: string)
    requires Shippable(name)
    ensures name != ""
  {
  }

  // Nothing but files and directories, shippable names, and no two entries whose paths differ in
  // nothing but ASCII case.
  ghost predicate IsShippable(root: Node) {
    && root.Dir?
    && (forall e :: e in Entries([], root) ==>
          (e.node.File? || e.node.Dir?) && forall i :: 0 <= i < |e.position| ==> Shippable(e.position[i]))
    && (forall e, f :: e in Entries([], root) && f in Entries([], root) && e != f ==>
          !SameIgnoringCase(PathOf(e.position), PathOf(f.position)))
  }

  /** The walk's condition on a tree, in these terms. */
  lemma TreesInOrder(root: Node)
    ensures TreeOk(root) <==> IsShippable(root)
  {
    hide Entries, ValidComponent, Shippable, SameIgnoringCase, ToAsciiLowercase;
    forall e | e in Entries([], root)
      ensures ValidPosition(e.position) <==> forall i :: 0 <= i < |e.position| ==> Shippable(e.position[i])
    {
      ShippablePositions(e.position);
    }
    forall e, f | e in Entries([], root) && f in Entries([], root)
      ensures Fold(e.position) == Fold(f.position) <==> SameIgnoringCase(PathOf(e.position), PathOf(f.position))
    {
      CaseFolds(PathOf(e.position), PathOf(f.position));
    }
  }

  lemma ShippablePositions(position: Position)
    ensures ValidPosition(position) <==> forall i :: 0 <= i < |position| ==> Shippable(position[i])
  {
    hide ValidComponent, Shippable;
    forall i | 0 <= i < |position|
      ensures ValidComponent(position[i]) <==> Shippable(position[i])
    {
      ShippableNames(position[i]);
    }
    assert forall i :: 0 <= i < |position| ==> position[i] in position;
  }
}
