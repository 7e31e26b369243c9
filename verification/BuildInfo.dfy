/** BUILDINFO.txt: the two fields release tools read back from it, and the round trip from the
    text that publishing writes. */
module BuildInfo {
  import opened Wrappers
  import opened Text
  import Checksum
  import Manifest
  import Package
  import Semver

  const BOM: string := "\U{feff}"
  const VERSION: string := "version:"
  const COMMIT: string := "commit:"
  const SOURCE: string := "https://github.com/P4suta/find-my-files"

  // ---- lines and trimming -------------------------------------------------------------

  // Unicode's White_Space property.
  predicate IsWhitespace(c: char) {
    || '\t' <= c <= '\r' || '\U{2000}' <= c <= '\U{200a}'
    || c in {' ', '\U{85}', '\U{a0}', '\U{1680}', '\U{2028}', '\U{2029}', '\U{202f}', '\U{205f}', '\U{3000}'}
  }

  function TrimStart(s: string): string {
    if s != "" && IsWhitespace(s[0]) then TrimStart(s[1..]) else s
  }

  function TrimEnd(s: string): (t: string)
    ensures t <= s && (s != "" && !IsWhitespace(s[|s| - 1]) ==> t == s)
  {
    if s != "" && IsWhitespace(s[|s| - 1]) then TrimEnd(s[..|s| - 1]) else s
  }

  function Trim(s: string): string {
    TrimEnd(TrimStart(s))
  }

  function TrimBoms(s: string): string {
    if s != "" && s[0] == BOM[0] then TrimBoms(s[1..]) else s
  }

  // `str::lines`: pieces that end in a line feed, without it and one carriage return before it,
  // and whatever follows the last line feed.
  function Lines(s: string): seq<string> {
    WithoutEnds(Split(s, '\n'))
  }

  function WithoutEnds(pieces: seq<string>): seq<string>
    requires pieces != []
  {
    if |pieces| == 1 then (if pieces[0] == "" then [] else pieces)
    else
      var p := pieces[0];
      [if p != "" && p[|p| - 1] == '\r' then p[..|p| - 1] else p] + WithoutEnds(pieces[1..])
  }

  // ---- reading fields -----------------------------------------------------------------

  // The trimmed contents of every line that starts with `field`.
  function Fields(lines: seq<string>, field: string): seq<string> {
    if lines == [] then []
    else (if field <= lines[0] then [Trim(lines[0][|field|..])] else []) + Fields(lines[1..], field)
  }

  function OneField(lines: seq<string>, field: string): Option<string> {
    var found := Fields(lines, field);
    if |found| == 1 then Some(found[0]) else None
  }

  function ParseVersion(text: string): Option<string> {
    var body := if BOM <= text then text[1..] else text;
    var version := OneField(Lines(body), VERSION);
    if version.Some? && Package.ValidArtifactVersion(version.value) then version else None
  }

  // Each line without byte-order marks and outer white space.
  function Cleaned(lines: seq<string>): (cleaned: seq<string>)
    ensures |cleaned| == |lines|
  {
    seq(|lines|, i requires 0 <= i < |lines| => Trim(TrimBoms(lines[i])))
  }

  function ParseSourceCommit(text: string): Option<string> {
    var commit := OneField(Cleaned(Lines(text)), COMMIT);
    if commit.Some? && Manifest.ValidSourceCommit(commit.value) then commit else None
  }

  // Line `i` is the only one that starts with `field`.
  ghost predicate IsOnlyField(lines: seq<string>, field: string, i: nat) {
    && i < |lines| && field <= lines[i]
    && forall j :: 0 <= j < |lines| && field <= lines[j] ==> j == i
  }

  lemma {:induction false} NoFields(lines: seq<string>, field: string)
    ensures Fields(lines, field) == [] <==> forall j :: 0 <= j < |lines| ==> !(field <= lines[j])
  {
    if lines != [] {
      NoFields(lines[1..], field);
      assert forall j :: 0 <= j < |lines| - 1 ==> lines[1..][j] == lines[j + 1];
      assert forall j :: 0 < j < |lines| ==> lines[j] == lines[1..][j - 1];
    }
  }

  /** A field is read exactly when one line carries it, and then it is that line's. */
  lemma {:induction false} FieldIsUnambiguous(lines: seq<string>, field: string, v: string)
    ensures OneField(lines, field) == Some(v) <==>
            exists i: nat :: IsOnlyField(lines, field, i) && Trim(lines[i][|field|..]) == v
  {
    if lines != [] {
      var rest := lines[1..];
      FieldIsUnambiguous(rest, field, v);
      NoFields(rest, field);
      assert forall j :: 0 <= j < |rest| ==> rest[j] == lines[j + 1];
      assert forall j :: 0 < j < |lines| ==> lines[j] == rest[j - 1];
      if field <= lines[0] {
        assert Fields(rest, field) == [] ==> IsOnlyField(lines, field, 0);
      } else {
        assert forall i: nat :: i < |rest| ==> (IsOnlyField(rest, field, i) <==> IsOnlyField(lines, field, i + 1));
        if exists i: nat :: IsOnlyField(lines, field, i) && Trim(lines[i][|field|..]) == v {
          var i: nat :| IsOnlyField(lines, field, i) && Trim(lines[i][|field|..]) == v;
          assert IsOnlyField(rest, field, i - 1);
        }
        if exists i: nat :: IsOnlyField(rest, field, i) && Trim(rest[i][|field|..]) == v {
          var i: nat :| IsOnlyField(rest, field, i) && Trim(rest[i][|field|..]) == v;
          assert IsOnlyField(lines, field, i + 1);
        }
      }
    }
  }

  // ---- what publishing writes ---------------------------------------------------------

  // The body's lines: identity first, then where it comes from.
  function BodyLines(version: string, channel: string, commit: Option<string>, date: Option<string>): seq<string> {
    ["FindMyFiles", "version:  " + version, "channel:  " + channel]
    + (if commit.Some? then ["commit:   " + commit.value] else [])
    + (if date.Some? then ["date:     " + date.value] else [])
    + ["source:   " + SOURCE, "license:  Apache-2.0"]
  }

  function Body(lines: seq<string>): string {
    if lines == [] then "" else lines[0] + "\n" + Body(lines[1..])
  }

  // `replace('\n', "\r\n")`
  function CrLf(s: string): string {
    if s == "" then "" else (if s[0] == '\n' then "\r\n" else [s[0]]) + CrLf(s[1..])
  }

  // The file for Notepad: byte-order mark and Windows line ends.
  function FileText(lines: seq<string>): (text: string)
    ensures text != "" && text[0] == '\U{feff}'
  {
    BOM + CrLf(Body(lines))
  }

  ghost predicate OneLineEach(lines: seq<string>) {
    forall l :: l in lines ==> '\n' !in l
  }

  lemma {:induction false} CrLfFirst(l: string, rest: string)
    requires '\n' !in l
    ensures CrLf(l + "\n" + rest) == l + "\r\n" + CrLf(rest)
  {
    var s := l + "\n" + rest;
    if l == "" {
      assert s[1..] == rest;
    } else {
      CrLfFirst(l[1..], rest);
      assert s[1..] == l[1..] + "\n" + rest;
      assert s[0] == l[0] && l[0] in l;
      assert [l[0]] + (l[1..] + "\r\n" + CrLf(rest)) == l + "\r\n" + CrLf(rest);
    }
  }

  /** Reading lines undoes writing them, whatever carriage returns they hold. */
  lemma {:induction false} LinesOfBody(lines: seq<string>)
    requires OneLineEach(lines)
    ensures Lines(CrLf(Body(lines))) == lines
  {
    if lines != [] {
      var l, rest := lines[0], Body(lines[1..]);
      LinesOfBody(lines[1..]);
      CrLfFirst(l, rest);
      assert l + "\r\n" + CrLf(rest) == (l + "\r") + ['\n'] + CrLf(rest);
      SplitFirst(l + "\r", CrLf(rest), '\n');
      assert (l + "\r")[..|l|] == l;
    }
  }

  // The mark ends up on the first line.
  lemma MarkedBody(lines: seq<string>)
    requires lines != []
    ensures OneLineEach(lines) ==> OneLineEach([BOM + lines[0]] + lines[1..])
    ensures FileText(lines) == CrLf(Body([BOM + lines[0]] + lines[1..]))
  {
    var marked := [BOM + lines[0]] + lines[1..];
    assert marked[1..] == lines[1..];
    assert BOM + lines[0] + "\n" + Body(lines[1..]) == BOM + Body(lines);
    var s := BOM + Body(lines);
    assert s[0] == BOM[0] && s[1..] == Body(lines);
  }

  lemma TrimPadded(v: string)
    requires v != "" && !IsWhitespace(v[0]) && !IsWhitespace(v[|v| - 1])
    ensures Trim(v) == v && Trim("  " + v) == v && Trim("   " + v) == v
  {
    var one, two, three := " " + v, "  " + v, "   " + v;
    assert one[1..] == v && two[1..] == one && three[1..] == two;
    assert TrimStart(v) == v && TrimStart(one) == v && TrimStart(two) == v && TrimStart(three) == v;
  }

  // Cleaning a line that starts with neither mark nor white space only shortens it.
  lemma CleanedStart(l: string)
    requires l != "" && l[0] != BOM[0] && !IsWhitespace(l[0])
    ensures Trim(TrimBoms(l)) <= l
  {
  }

  // `t` is `s` without the white space around it.
  ghost predicate IsTrimmed(s: string, t: string, from: nat, to: nat) {
    && from <= to <= |s| && t == s[from..to]
    && (forall i :: 0 <= i < from || to <= i < |s| ==> IsWhitespace(s[i]))
    && (from < to ==> !IsWhitespace(s[from]) && !IsWhitespace(s[to - 1]))
  }

  lemma {:induction false} StartTrimmed(s: string) returns (from: nat)
    ensures from <= |s| && TrimStart(s) == s[from..] && forall i :: 0 <= i < from ==> IsWhitespace(s[i])
    ensures from < |s| ==> !IsWhitespace(s[from])
  {
    from := 0;
    if s != "" && IsWhitespace(s[0]) {
      var rest := StartTrimmed(s[1..]);
      from := rest + 1;
    }
  }

  lemma {:induction false} EndTrimmed(s: string) returns (to: nat)
    ensures to <= |s| && TrimEnd(s) == s[..to] && forall i :: to <= i < |s| ==> IsWhitespace(s[i])
    ensures 0 < to ==> !IsWhitespace(s[to - 1])
  {
    to := |s|;
    if s != "" && IsWhitespace(s[|s| - 1]) {
      to := EndTrimmed(s[..|s| - 1]);
    }
  }

  /** Trimming takes away all white space at both ends and nothing else. */
  lemma TrimIsTrimmed(s: string)
    ensures exists from, to :: IsTrimmed(s, Trim(s), from, to)
  {
    hide IsWhitespace;
    var from := StartTrimmed(s);
    var to := EndTrimmed(TrimStart(s));
    assert IsTrimmed(s, Trim(s), from, from + to);
  }

  /** Packaging reads a version exactly if one line, behind a byte-order mark at most, carries it and it
      is safe in a file name. */
  lemma VersionInWords(text: string, v: string)
    ensures ParseVersion(text) == Some(v) <==>
            var body := if text != "" && text[0] == '\U{feff}' then text[1..] else text;
            && Package.IsSafeVersion(v)
            && exists i: nat :: IsOnlyField(Lines(body), "version:", i) && Trim(Lines(body)[i][8..]) == v
  {
    hide Lines, Trim;
    var body := if text != "" && text[0] == '\U{feff}' then text[1..] else text;
    FieldIsUnambiguous(Lines(body), VERSION, v);
    Package.UntaggedLabel(v, v);
  }

  /** The seal reads a commit exactly if one cleaned line carries it and it is a full object name. */
  lemma CommitInWords(text: string, c: string)
    ensures ParseSourceCommit(text) == Some(c) <==>
            && Checksum.Encodes(c, 20)
            && exists i: nat ::
                 IsOnlyField(Cleaned(Lines(text)), "commit:", i) && Trim(Cleaned(Lines(text))[i][7..]) == c
  {
    hide Lines, Trim, TrimBoms;
    FieldIsUnambiguous(Cleaned(Lines(text)), COMMIT, c);
    Checksum.HexTexts(c, 20);
  }

  // What may be stamped: every part fits on its line.
  ghost predicate Stampable(version: string, channel: string, commit: Option<string>, date: Option<string>) {
    && '\n' !in version && '\n' !in channel && (date.Some? ==> '\n' !in date.value)
    && (commit.Some? ==> OneWord(commit.value))
  }

  // A full or abbreviated object name, for instance.
  predicate OneWord(s: string) {
    s != "" && forall c :: c in s ==> !IsWhitespace(c)
  }

  /** Publishing and reading back: the packaging step finds exactly the version that was stamped,
      provided it is safe in a file name. */
  lemma VersionRoundTrip(version: string, channel: string, commit: Option<string>, date: Option<string>)
    requires Stampable(version, channel, commit, date)
    ensures ParseVersion(FileText(BodyLines(version, channel, commit, date))) == Some(version) <==>
            Package.IsSafeVersion(version)
  {
    hide Lines, Trim, CrLf, Body, Package.IsAsciiAlphanumeric;
    var lines := BodyLines(version, channel, commit, date);
    Package.UntaggedLabel(version, version);
    StampedLines(version, channel, commit, date);
    LinesOfBody(lines);
    assert FileText(lines)[1..] == CrLf(Body(lines));
    forall j | 0 <= j < |lines| && j != 1
      ensures !(VERSION <= lines[j])
    {
      if Inert(lines[j]) {
        InertStart(lines[j]);
      }
    }
    assert IsOnlyField(lines, VERSION, 1);
    assert lines[1] == VERSION + ("  " + version);
    if Package.ValidArtifactVersion(version) {
      ArtifactEnds(version);
      TrimPadded(version);
      FieldIsUnambiguous(lines, VERSION, version);
    }
  }

  /** A stable build packaged under its own tag, with or without the `v`, is labelled by it. */
  lemma StampedRelease(a: nat, b: nat, c: nat, channel: string, commit: Option<string>, date: Option<string>)
    requires var version := Semver.Print(a, b, c); |version| <= 128 && Stampable(version, channel, commit, date)
    ensures var version := Semver.Print(a, b, c);
            var read := ParseVersion(FileText(BodyLines(version, channel, commit, date)));
            && read == Some(version)
            && Package.PackageLabel(Some("v" + version), version) == Some("v" + version)
            && Package.PackageLabel(Some(version), version) == Some("v" + version)
  {
    hide FileText, BodyLines, ParseVersion;
    var version := Semver.Print(a, b, c);
    Semver.ValidateIsPrinted(version);
    Package.PrintedIsArtifact(version);
    Package.UntaggedLabel(version, version);
    VersionRoundTrip(version, channel, commit, date);
    assert version[0] == Decimal(a)[0] && Decimal(a)[0] in Decimal(a);
    assert Semver.StripTagV("v" + version) == version && Semver.StripTagV(version) == version;
    Package.ReleaseLabel("v" + version, version, "v" + version);
    Package.ReleaseLabel(version, version, "v" + version);
  }

  lemma ArtifactEnds(version: string)
    requires Package.ValidArtifactVersion(version)
    ensures !IsWhitespace(version[0]) && !IsWhitespace(version[|version| - 1])
  {
  }

  // Neither a field that is read back nor a line that cleaning could turn into one.
  predicate Inert(l: string) {
    && 1 < |l| && '\n' !in l && l[0] != BOM[0] && !IsWhitespace(l[0])
    && l[0] != VERSION[0] && !(l[0] == COMMIT[0] && l[1] == COMMIT[1])
  }

  lemma InertLine(head: string, rest: string)
    requires Inert(head) && '\n' !in rest
    ensures Inert(head + rest)
  {
  }

  lemma InertStart(l: string)
    requires Inert(l)
    ensures !(VERSION <= l) && !(COMMIT <= l) && '\n' !in l
  {
  }

  lemma StampedLines(version: string, channel: string, commit: Option<string>, date: Option<string>)
    requires Stampable(version, channel, commit, date)
    ensures var lines := BodyLines(version, channel, commit, date);
      && 3 < |lines| && OneLineEach(lines)
      && lines[0] == "FindMyFiles" && lines[1] == "version:  " + version && Inert(lines[2])
      && (commit.Some? ==> lines[3] == "commit:   " + commit.value)
      && forall i :: (if commit.Some? then 3 else 2) < i < |lines| ==> Inert(lines[i])
  {
    hide Inert, IsWhitespace, OneWord;
    var lines := BodyLines(version, channel, commit, date);
    ShortLines(channel, date);
    SourceLine();
    NamedLines(version, commit);
    forall i | (if commit.Some? then 3 else 2) < i < |lines|
      ensures Inert(lines[i])
    {
    }
    forall i | 0 <= i < |lines|
      ensures '\n' !in lines[i]
    {
      if Inert(lines[i]) {
        InertStart(lines[i]);
      }
    }
  }

  lemma NamedLines(version: string, commit: Option<string>)
    requires '\n' !in version && (commit.Some? ==> OneWord(commit.value))
    ensures '\n' !in "FindMyFiles" && '\n' !in "version:  " + version
    ensures commit.Some? ==> '\n' !in "commit:   " + commit.value
  {
    assert commit.Some? ==> '\n' !in commit.value;
  }

  lemma ShortLines(channel: string, date: Option<string>)
    requires '\n' !in channel && (date.Some? ==> '\n' !in date.value)
    ensures Inert("channel:  " + channel) && (date.Some? ==> Inert("date:     " + date.value))
    ensures Inert("license:  Apache-2.0")
  {
    InertLine("channel:  ", channel);
    if date.Some? {
      InertLine("date:     ", date.value);
    }
    InertLine("license:  Apache-2.0", "");
    assert "license:  Apache-2.0" + "" == "license:  Apache-2.0";
  }

  lemma SourceLine()
    ensures Inert("source:   " + SOURCE)
  {
    InertLine("source:   ", SOURCE);
  }

  // No line but the commit's own reads as a commit.
  lemma OtherLines(lines: seq<string>, i: nat)
    requires i < |lines| && (Inert(lines[i]) || VERSION <= lines[i])
    ensures !(COMMIT <= Cleaned(lines)[i])
  {
    hide TrimBoms, Trim;
    CleanedStart(lines[i]);
    if Inert(lines[i]) {
      InertStart(lines[i]);
    }
  }

  /** The seal reads back exactly the commit that was stamped, if that was a full object name, and
      none where none was: an abbreviation never passes for one. */
  lemma CommitRoundTrip(version: string, channel: string, commit: Option<string>, date: Option<string>)
    requires Stampable(version, channel, commit, date)
    ensures ParseSourceCommit(FileText(BodyLines(version, channel, commit, date))) ==
            if commit.Some? && Checksum.Encodes(commit.value, 20) then commit else None
  {
    hide Lines, Trim, TrimBoms, CrLf, Body, Fields;
    var lines := BodyLines(version, channel, commit, date);
    var marked := [BOM + lines[0]] + lines[1..];
    if commit.Some? {
      Checksum.HexTexts(commit.value, 20);
    }
    StampedLines(version, channel, commit, date);
    MarkedBody(lines);
    LinesOfBody(marked);
    var cleaned := Cleaned(marked);
    MarkedLine();
    forall i: nat | 0 < i < |lines| && !(commit.Some? && i == 3)
      ensures !(COMMIT <= cleaned[i])
    {
      assert marked[i] == lines[i];
      OtherLines(marked, i);
    }
    if commit.Some? {
      CommitLine(commit.value);
      assert IsOnlyField(cleaned, COMMIT, 3);
      FieldIsUnambiguous(cleaned, COMMIT, commit.value);
    } else {
      NoFields(cleaned, COMMIT);
    }
  }

  lemma MarkedLine()
    ensures Trim(TrimBoms(BOM + "FindMyFiles")) == "FindMyFiles" && !(COMMIT <= "FindMyFiles")
  {
    var l := BOM + "FindMyFiles";
    assert l[1..] == "FindMyFiles";
    assert TrimBoms(l[1..]) == l[1..];
  }

  lemma CommitLine(commit: string)
    requires OneWord(commit)
    ensures var cleaned := Trim(TrimBoms("commit:   " + commit));
            COMMIT <= cleaned && Trim(cleaned[|COMMIT|..]) == commit
  {
    var l := "commit:   " + commit;
    assert commit[0] in commit && commit[|commit| - 1] in commit && l[|l| - 1] == commit[|commit| - 1];
    TrimPadded(l);
    assert l[|COMMIT|..] == "   " + commit;
    TrimPadded(commit);
  }
}
