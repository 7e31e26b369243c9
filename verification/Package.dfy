/** Packaging: the release label, and the archive that holds exactly what was sealed. */
module Package {
  import opened Bytes
  import opened Wrappers
  import opened Text
  import opened Checksum
  import opened BundleTree
  import opened BundleWalk
  import opened BundleFiles
  import Semver

  // ---- labels -------------------------------------------------------------------------

  predicate IsAsciiAlphanumeric(c: char) {
    '0' <= c <= '9' || 'A' <= c <= 'Z' || 'a' <= c <= 'z'
  }

  predicate ValidArtifactVersion(version: string) {
    && 0 < |version| <= 128
    && Semver.IsDigit(version[0])
    && IsAsciiAlphanumeric(version[|version| - 1])
    && forall c :: c in version ==> IsAsciiAlphanumeric(c) || c in {'.', '-', '+'}
  }

  function PackageLabel(tag: Option<string>, bundleVersion: string): Option<string> {
    if !ValidArtifactVersion(bundleVersion) then None
    else if tag.None? then Some(bundleVersion)
    else
      var tagged := Semver.StripTagV(tag.value);
      if !Semver.Validate(tagged) then None
      else if tagged != bundleVersion then None
      else Some("v" + tagged)
  }

  lemma PrintedIsArtifact(version: string)
    requires Semver.Validate(version) && |version| <= 128
    ensures ValidArtifactVersion(version)
  {
    var (a, b, c) := Semver.Parse(version).value;
    Semver.PrintParse(version);
    var x, y, z := Decimal(a), Decimal(b), Decimal(c);
    assert version == x + "." + y + "." + z;
    assert version[0] == x[0] && x[0] in x;
    assert version[|version| - 1] == z[|z| - 1] && z[|z| - 1] in z;
  }

  /** A release label is `v` and the bundle's version, for exactly the canonical triples of at most 128
      characters that the tag names too, as they are or behind one `v` in either case. */
  lemma ReleaseLabel(tag: string, version: string, l: string)
    ensures PackageLabel(Some(tag), version) == Some(l) <==>
            && (exists a: nat, b: nat, c: nat :: version == Semver.Print(a, b, c)) && |version| <= 128
            && tag in {version, "v" + version, "V" + version} && l == "v" + version
  {
    Semver.ValidateIsPrinted(version);
    if Semver.Validate(version) {
      StrippedTag(tag, version);
      if |version| <= 128 {
        PrintedIsArtifact(version);
      }
    }
  }

  lemma StrippedTag(tag: string, version: string)
    requires Semver.Validate(version)
    ensures Semver.StripTagV(tag) == version <==> tag in {version, "v" + version, "V" + version}
  {
    hide Semver.Print;
    StartsWithDigit(version);
    assert ("v" + version)[1..] == version && ("V" + version)[1..] == version;
    assert "v" <= tag ==> tag == "v" + tag[1..];
    assert "V" <= tag ==> tag == "V" + tag[1..];
  }

  lemma StartsWithDigit(version: string)
    requires Semver.Validate(version)
    ensures version != "" && '0' <= version[0] <= '9'
  {
    var (a, b, c) := Semver.Parse(version).value;
    Semver.PrintParse(version);
    assert version[0] == Decimal(a)[0] && Decimal(a)[0] in Decimal(a);
  }

  // At most 128 ASCII letters, digits, dots, hyphens and plus signs, a digit first and no sign last.
  ghost predicate IsSafeVersion(v: string) {
    && 1 <= |v| <= 128 && '0' <= v[0] <= '9' && v[|v| - 1] !in {'.', '-', '+'}
    && forall i :: 0 <= i < |v| ==>
         '0' <= v[i] <= '9' || 'A' <= v[i] <= 'Z' || 'a' <= v[i] <= 'z' || v[i] in {'.', '-', '+'}
  }

  /** Without a tag the label is the version itself, if it is safe in a file name. */
  lemma UntaggedLabel(version: string, l: string)
    ensures PackageLabel(None, version) == Some(l) <==> IsSafeVersion(version) && l == version
  {
    assert forall i :: 0 <= i < |version| ==> version[i] in version;
  }

  /** An untagged package never takes the label of a release. */
  lemma LabelsDiffer(tag: string, v: string, w: string)
    requires PackageLabel(Some(tag), v).Some? && PackageLabel(None, w).Some?
    ensures PackageLabel(Some(tag), v) != PackageLabel(None, w)
  {
    ReleaseLabel(tag, v, PackageLabel(Some(tag), v).value);
    assert PackageLabel(Some(tag), v).value[0] == 'v';
  }

  // ---- the archive --------------------------------------------------------------------

  datatype ZipEntry = ZipEntry(name: string, data: seq<byte>)

  // The archive under construction, compression aside.
  class ZipWriter {
    var entries: seq<ZipEntry>

    constructor ()
      ensures entries == []
    {
      entries := [];
    }

    method StartFile(name: string)
      modifies this
      ensures entries == old(entries) + [ZipEntry(name, [])]
    {
      entries := entries + [ZipEntry(name, [])];
    }

    method WriteAll(data: seq<byte>)
      requires entries != []
      modifies this
      ensures var last := old(entries)[|old(entries)| - 1];
              entries == old(entries)[..|old(entries)| - 1] + [last.(data := last.data + data)]
    {
      var last := entries[|entries| - 1];
      entries := entries[..|entries| - 1] + [last.(data := last.data + data)];
    }
  }

  // What the tree holds when the `i`-th file is read: anything may have happened before.
  type Observed = nat -> map<string, Slice>

  ghost predicate Unchanged(sha: Sha256, tree: map<string, Slice>, f: BundleFileIdentity) {
    f.path in tree && |tree[f.path]| == f.size && Identity(sha, tree[f.path]) == f.sha256
  }

  // The entries of the first `n` files as they were read.
  ghost predicate Archives(zw: seq<ZipEntry>, sealed: seq<BundleFileIdentity>, observed: Observed, n: nat)
    requires n <= |sealed|
  {
    |zw| == n && forall i :: 0 <= i < n ==>
      sealed[i].path in observed(i) && zw[i] == ZipEntry(sealed[i].path, observed(i)[sealed[i].path])
  }

  method WriteZip(sha: Sha256, sealed: seq<BundleFileIdentity>, observed: Observed) returns (ok: bool, zw: ZipWriter)
    ensures fresh(zw)
    ensures ok <==> AllUnchanged(sha, sealed, observed)
    ensures ok ==> Archives(zw.entries, sealed, observed, |sealed|)
  {
    hide Identity;
    zw := new ZipWriter();
    for i := 0 to |sealed|
      invariant Archives(zw.entries, sealed, observed, i)
      invariant forall j :: 0 <= j < i ==> Unchanged(sha, observed(j), sealed[j])
    {
      var identity := sealed[i];
      var tree := observed(i);
      if identity.path !in tree {
        return false, zw;
      }
      var data: seq<byte> := tree[identity.path];
      var digest := Sha256Hex(sha, data);
      if !(|data| == identity.size && digest == identity.sha256) {
        return false, zw;
      }
      zw.StartFile(identity.path);
      zw.WriteAll(data);
    }
    return true, zw;
  }

  // When it is read, the sealed file is as it was when it was sealed.
  ghost predicate Undisturbed(tree: map<string, Slice>, files: map<string, Slice>, path: string) {
    path in files && path in tree && tree[path] == files[path]
  }

  /** A file left alone passes the check before archiving; without collisions no other does. */
  lemma UndisturbedPasses(
    y: Policy, files: map<string, Slice>, sealed: seq<BundleFileIdentity>, i: nat, tree: map<string, Slice>,
    read: set<seq<byte>>)
    requires IsListing(y, sealed, files) && i < |sealed|
    ensures Undisturbed(tree, files, sealed[i].path) ==> Unchanged(y.sha, tree, sealed[i])
    ensures Distinguishes(y.sha, files.Values, read) && sealed[i].path in tree && tree[sealed[i].path] in read ==>
              (Unchanged(y.sha, tree, sealed[i]) <==> Undisturbed(tree, files, sealed[i].path))
  {
    ListingDescribes(y, sealed, files);
    var path := sealed[i].path;
    assert Describes(y, sealed[i], path, files[path]);
    if Distinguishes(y.sha, files.Values, read) && Unchanged(y.sha, tree, sealed[i]) && tree[path] in read {
      EqualIdentities(y.sha, files.Values, read, files[path], tree[path]);
    }
  }

  // What every read of an archive run finds.
  ghost predicate AllUnchanged(sha: Sha256, sealed: seq<BundleFileIdentity>, observed: Observed) {
    forall i :: 0 <= i < |sealed| ==> Unchanged(sha, observed(i), sealed[i])
  }

  ghost predicate AllUndisturbed(files: map<string, Slice>, sealed: seq<BundleFileIdentity>, observed: Observed) {
    forall i :: 0 <= i < |sealed| ==> Undisturbed(observed(i), files, sealed[i].path)
  }

  ghost predicate AllRead(sealed: seq<BundleFileIdentity>, observed: Observed, read: set<seq<byte>>) {
    forall i :: 0 <= i < |sealed| && sealed[i].path in observed(i) ==> observed(i)[sealed[i].path] in read
  }

  /** An archive of a bundle that is left alone always succeeds; without collisions it succeeds only
      if every file is, at the moment it is read, as it was sealed. */
  lemma ArchiveSucceedsExactly(
    y: Policy, files: map<string, Slice>, sealed: seq<BundleFileIdentity>, observed: Observed, read: set<seq<byte>>)
    requires IsListing(y, sealed, files)
    ensures AllUndisturbed(files, sealed, observed) ==> AllUnchanged(y.sha, sealed, observed)
    ensures Distinguishes(y.sha, files.Values, read) && AllRead(sealed, observed, read) ==>
              (AllUnchanged(y.sha, sealed, observed) <==> AllUndisturbed(files, sealed, observed))
  {
    hide IsListing, Distinguishes;
    forall i | 0 <= i < |sealed|
      ensures Undisturbed(observed(i), files, sealed[i].path) ==> Unchanged(y.sha, observed(i), sealed[i])
      ensures Distinguishes(y.sha, files.Values, read) && AllRead(sealed, observed, read) ==>
                (Unchanged(y.sha, observed(i), sealed[i]) <==> Undisturbed(observed(i), files, sealed[i].path))
    {
      UndisturbedPasses(y, files, sealed, i, observed(i), read);
    }
  }

  /** Whatever happens to the tree between collecting and each read, a finished archive holds
      exactly the sealed files, in path order, with the bytes that were sealed. */
  lemma ZipIsSealed(
    sha: Sha256, y: Policy, root: Node, sealed: seq<BundleFileIdentity>, observed: Observed, read: set<seq<byte>>,
    zw: seq<ZipEntry>)
    requires y.sha == sha && IsListing(y, sealed, Files(root)) && Archives(zw, sealed, observed, |sealed|)
    requires AllUnchanged(sha, sealed, observed)
    requires Distinguishes(sha, Files(root).Values, read)
    requires AllRead(sealed, observed, read)
    ensures forall i :: 0 <= i < |zw| ==> zw[i].name in Files(root) && zw[i].data == Files(root)[zw[i].name]
    ensures forall path :: path in Files(root) ==> ZipEntry(path, Files(root)[path]) in zw
    ensures forall i, j :: 0 <= i < j < |zw| ==> Less(zw[i].name, zw[j].name)
  {
    hide Files, IdentityOf, IsListing, Distinguishes;
    ListingDescribes(y, sealed, Files(root));
    ArchiveSucceedsExactly(y, Files(root), sealed, observed, read);
    forall i | 0 <= i < |zw|
      ensures zw[i].name in Files(root) && zw[i].data == Files(root)[zw[i].name]
    {
      assert Undisturbed(observed(i), Files(root), sealed[i].path);
    }
    forall path | path in Files(root)
      ensures ZipEntry(path, Files(root)[path]) in zw
    {
      var i :| 0 <= i < |sealed| && sealed[i].path == path;
      assert zw[i] == ZipEntry(path, Files(root)[path]);
    }
  }
}
