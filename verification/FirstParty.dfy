/** The shipped list of first-party images: it meets every check the release commands make of it. */
module FirstParty {
  import opened Text
  import opened BundlePath
  import opened BundleFiles
  import BundleSeal
  import Signing

  const FIRST_PARTY_PES: PeMap := [
    ("FindMyFiles.exe", "FindMyFiles.exe"),
    ("app/FindMyFiles.exe", "app-FindMyFiles.exe"),
    ("app/FindMyFiles.dll", "app-FindMyFiles.dll"),
    ("app/fmf-service.exe", "fmf-service.exe"),
    ("app/fmf_engine.dll", "fmf_engine.dll")
  ]

  predicate IsPlain(c: char) {
    'a' <= c <= 'z' || 'A' <= c <= 'Z' || c in {'-', '_'}
  }

  predicate IsPlainName(s: string) {
    s != "" && forall c :: c in s ==> IsPlain(c)
  }

  // A plain name longer than any device name.
  lemma PlainFile(stem: string, extension: string, name: string)
    requires IsPlainName(stem) && IsPlainName(extension) && 4 < |stem| && name == stem + "." + extension
    ensures ValidComponent(name) && '/' !in name && '\\' !in name
  {
    SplitFirst(stem, extension, '.');
    assert name == stem + ['.'] + extension;
    assert name[|name| - 1] == extension[|extension| - 1] && extension[|extension| - 1] in extension;
    assert |ToAsciiUppercase(stem)| == |stem|;
  }

  lemma PlainDirectory(name: string)
    requires IsPlainName(name) && |name| == 3 && name[0] == 'a' && name[1] == 'p'
    ensures ValidComponent(name)
  {
    assert name[2] in name;
    SplitWithout(name, '.');
    var upper := ToAsciiUppercase(name);
    assert upper[0] == 'A' && upper[1] == 'P';
  }

  lemma ShippedFile(stem: string, extension: string, name: string, inApp: string)
    requires IsPlainName(stem) && IsPlainName(extension) && 4 < |stem| && name == stem + "." + extension
    requires inApp == "app/" + name
    ensures ValidRelativePath(name) && ValidRelativePath(inApp) && ValidStageName(name)
  {
    hide ValidComponent;
    PlainFile(stem, extension, name);
    PlainDirectory("app");
    SplitWithout(name, '/');
    SplitFirst("app", name, '/');
    assert inApp == "app" + ['/'] + name && inApp[|inApp| - 1] == name[|name| - 1];
    assert Split(inApp, '/') == ["app", name];
    assert name[0] in name && name[|name| - 1] in name;
  }

  lemma AppNames()
    ensures ValidRelativePath("FindMyFiles.exe") && ValidStageName("FindMyFiles.exe")
    ensures ValidRelativePath("app/FindMyFiles.exe") && ValidRelativePath("app/FindMyFiles.dll")
  {
    hide ValidRelativePath, ValidStageName;
    ShippedFile("FindMyFiles", "exe", "FindMyFiles.exe", "app/FindMyFiles.exe");
    ShippedFile("FindMyFiles", "dll", "FindMyFiles.dll", "app/FindMyFiles.dll");
  }

  lemma EngineNames()
    ensures ValidRelativePath("app/fmf-service.exe") && ValidStageName("fmf-service.exe")
    ensures ValidRelativePath("app/fmf_engine.dll") && ValidStageName("fmf_engine.dll")
  {
    hide ValidRelativePath, ValidStageName;
    ShippedFile("fmf-service", "exe", "fmf-service.exe", "app/fmf-service.exe");
    ShippedFile("fmf_engine", "dll", "fmf_engine.dll", "app/fmf_engine.dll");
  }

  lemma FlatNames()
    ensures ValidStageName("app-FindMyFiles.exe") && ValidStageName("app-FindMyFiles.dll")
  {
  }

  /** The list passes the checks of sealing and of signing, and does not name BUILDINFO.txt. */
  lemma ShippedList()
    ensures ValidPes(FIRST_PARTY_PES) && Signing.ValidMap(FIRST_PARTY_PES)
    ensures BundleSeal.BUILDINFO !in TargetPaths(FIRST_PARTY_PES)
  {
    hide ValidRelativePath, ValidStageName;
    AppNames();
    EngineNames();
    FlatNames();
  }
}
