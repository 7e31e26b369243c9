/** Both parsers on images written in the structures of the PE format. */
module PeImages {
  import opened Bytes
  import PeLayout
  import PeLoad
  import opened PeFormat

  // ---- certificates -------------------------------------------------------------------

  function Zeros(n: nat): (s: seq<byte>)
    ensures |s| == n && forall i :: 0 <= i < n ==> s[i] == 0
  {
    seq(n, _ => 0)
  }

  // A WIN_CERTIFICATE as signers write it: length, revision 2.0, PKCS type, the certificate, zeros.
  function CertificateEntry(certificate: seq<byte>): seq<byte>
    requires 8 + |certificate| < 0x1_0000_0000
  {
    Le32(8 + |certificate|) + [0x00, 0x02, 0x02, 0x00] + certificate + Zeros((8 - |certificate| % 8) % 8)
  }

  ghost predicate IsEntry(t: seq<byte>, certificate: seq<byte>) {
    certificate != [] && 8 + |certificate| < 0x1_0000_0000 && t == CertificateEntry(certificate)
  }

  lemma PaddedLength(n: nat)
    ensures RoundUp8(8 + n) == 8 + n + (8 - n % 8) % 8
  {
  }

  lemma EntryIsCertificate(b: seq<byte>, start: nat, end: nat, certificate: seq<byte>)
    requires start <= end <= |b| && IsEntry(b[start..end], certificate)
    ensures PeLayout.OneCertificate(b, start, end)
  {
    hide U16, U32, Le32, RoundUp8;
    var t, length, n := b[start..end], 8 + |certificate|, (8 - |certificate| % 8) % 8;
    PaddedLength(|certificate|);
    assert t[..4] == Le32(length) && t[4..8] == [0x00, 0x02, 0x02, 0x00] && t[length..] == Zeros(n);
    assert b[start + 4..start + 8] == t[4..8] by {
      assert forall i :: 0 <= i < |t| ==> b[start + i] == t[i];
    }
    assert b[start..start + 4] == t[..4];
    HeldU32(b, start, Le32(length), 0);
    forall i | start + length <= i < end
      ensures b[i] == 0
    {
      assert b[i] == t[length..][i - start - length];
    }
  }

  lemma CertificateIsEntry(b: seq<byte>, start: nat, end: nat) returns (certificate: seq<byte>)
    requires start <= end <= |b| && PeLayout.OneCertificate(b, start, end)
    ensures IsEntry(b[start..end], certificate)
  {
    hide U16, U32, Le32, RoundUp8;
    var length := U32(b, start);
    certificate := b[start + 8..start + length];
    Le32Inverse(b, start);
    PaddedLength(|certificate|);
    assert b[start + length..end] == Zeros((8 - |certificate| % 8) % 8);
    Meet(b, start, start + 4, start + 8);
    Meet(b, start, start + 8, start + length);
    Meet(b, start, start + length, end);
  }

  /** The parser's certificate tables are exactly the entries that signers write. */
  lemma CertificatesAreEntries(b: seq<byte>, start: nat, end: nat)
    requires start <= end <= |b|
    ensures PeLayout.OneCertificate(b, start, end) <==> exists certificate :: IsEntry(b[start..end], certificate)
  {
    if PeLayout.OneCertificate(b, start, end) {
      var certificate := CertificateIsEntry(b, start, end);
    }
    if exists certificate :: IsEntry(b[start..end], certificate) {
      var certificate :| IsEntry(b[start..end], certificate);
      EntryIsCertificate(b, start, end, certificate);
    }
  }

  // ---- the sealing parser -------------------------------------------------------------

  // The raw data of a section, if it has any, lies between the headers and `limit`.
  ghost predicate RawWithin(h: SectionHeader, headers: nat, limit: nat) {
    h.sizeOfRawData != 0 ==> headers <= h.pointerToRawData && h.pointerToRawData + h.sizeOfRawData <= limit
  }

  ghost predicate RawDataWithin(f: Image, limit: nat) {
    forall i :: 0 <= i < |f.sections| ==> RawWithin(f.sections[i], f.optional.sizeOfHeaders, limit)
  }

  // Sections, a security directory, and headers that hold the section table and fit the file.
  ghost predicate SoundHeaders(f: Image, fileSize: nat)
    requires SizedFields(f.optional)
  {
    && |f.sections| != 0 && 5 <= |f.optional.directories| && 5 <= f.optional.numberOfRvaAndSizes
    && HeadersEnd(f) <= f.optional.sizeOfHeaders <= fileSize
  }

  function Security(f: Image): Directory
    requires 5 <= |f.optional.directories|
  {
    f.optional.directories[4]
  }

  // No certificate, or one entry behind headers and sections, up to the end of the file.
  ghost predicate SoundCertificate(b: seq<byte>, f: Image)
    requires 5 <= |f.optional.directories|
  {
    var d := Security(f);
    || (d.address == 0 && d.size == 0)
    || (&& d.address != 0 && d.size != 0 && d.address % 8 == 0
        && f.optional.sizeOfHeaders <= d.address && RawDataWithin(f, d.address)
        && d.address + d.size == |b| && exists certificate :: IsEntry(b[d.address..], certificate))
  }

  lemma SameHeaders(b: seq<byte>, f: Image)
    requires IsImage(b, f)
    ensures PeLayout.HeadersOk(b) <==> SoundHeaders(f, |b|)
    ensures PeLayout.HeadersOk(b) ==>
              && PeLayout.SectionCount(b) == |f.sections| && PeLayout.OptionalEnd(b) == SectionsAt(f)
              && PeLayout.SizeOfHeaders(b) == f.optional.sizeOfHeaders
    ensures PeLayout.HeadersOk(b) ==>
              && PeLayout.ChecksumField(b) == OptionalAt(f) + 64
              && PeLayout.SecurityDirectory(b) == OptionalAt(f) + DirectoryAt(f.optional, 4)
              && PeLayout.CertificateOffset(b) == Security(f).address && PeLayout.CertificateSize(b) == Security(f).size
  {
    hide U16, U32, Le32, CoffBytes, OptionalBytes, SectionBytes;
    ImageFields(b, f);
    if 5 <= |f.optional.directories| {
      ImageDirectory(b, f, 4);
    }
  }

  lemma SameExtents(b: seq<byte>, f: Image)
    requires IsImage(b, f) && PeLayout.HeadersOk(b)
    ensures |PeLayout.Extents(b)| == |f.sections|
    ensures forall i :: 0 <= i < |f.sections| ==>
              PeLayout.Extents(b)[i] == PeLayout.Extent(f.sections[i].pointerToRawData, f.sections[i].sizeOfRawData)
  {
    hide U16, U32, Le32, CoffBytes, OptionalBytes, SectionBytes;
    SameHeaders(b, f);
    forall i | 0 <= i < |f.sections|
      ensures PeLayout.Extents(b)[i] == PeLayout.Extent(f.sections[i].pointerToRawData, f.sections[i].sizeOfRawData)
    {
      ImageSection(b, f, i);
    }
  }

  lemma SameSectionsWithin(b: seq<byte>, f: Image, limit: nat)
    requires IsImage(b, f) && PeLayout.HeadersOk(b)
    ensures PeLayout.SectionsWithin(b, limit) <==> RawDataWithin(f, limit)
  {
    hide U16, U32, IsImage, PeLayout.HeadersOk, PeLayout.Extents;
    SameHeaders(b, f);
    SameExtents(b, f);
    if RawDataWithin(f, limit) {
      forall i | 0 <= i < |f.sections|
        ensures PeLayout.Extents(b)[i].Within(f.optional.sizeOfHeaders, limit)
      {
        assert RawWithin(f.sections[i], f.optional.sizeOfHeaders, limit);
      }
    }
    if PeLayout.SectionsWithin(b, limit) {
      forall i | 0 <= i < |f.sections|
        ensures RawWithin(f.sections[i], f.optional.sizeOfHeaders, limit)
      {
        assert PeLayout.Extents(b)[i].Within(f.optional.sizeOfHeaders, limit);
      }
    }
  }

  /** The sealing parser accepts an image by the fields of its structures, and finds the checksum and
      the security directory where the structures have them. */
  lemma AcceptedByFields(b: seq<byte>, f: Image)
    requires IsImage(b, f)
    ensures PeLayout.Accepted(b) <==>
            SoundHeaders(f, |b|) && RawDataWithin(f, |b|) && SoundCertificate(b, f)
    ensures PeLayout.Accepted(b) ==>
              && PeLayout.ChecksumField(b) ==
                 OptionalAt(f) + |OptionalStart(f.optional)| + |Le32(f.optional.sizeOfHeaders)|
              && PeLayout.SecurityDirectory(b) == OptionalAt(f) + DirectoryAt(f.optional, 4)
              && (PeLayout.HasCertificate(b) <==> Security(f).address != 0)
  {
    hide U16, U32, IsImage, PeLayout.HeadersOk, PeLayout.OneCertificate, PeLayout.SectionsWithin, RawDataWithin,
      IsEntry;
    SameHeaders(b, f);
    if PeLayout.HeadersOk(b) {
      SameSectionsWithin(b, f, |b|);
      SameSectionsWithin(b, f, Security(f).address);
      if Security(f).address <= |b| {
        CertificatesAreEntries(b, Security(f).address, |b|);
        assert b[Security(f).address..|b|] == b[Security(f).address..];
      }
    }
  }

  // ---- the load-policy parser ---------------------------------------------------------

  function LoadConfigDirectory(f: Image): Directory
    requires 11 <= |f.optional.directories|
  {
    f.optional.directories[10]
  }

  // How far DependentLoadFlags reaches into the load configuration.
  function NeededSize(f: Image): nat {
    if f.optional.magic == PE32 then 56 else 80
  }

  // The section's part of the address space, which is as long as the longer of its two sizes.
  ghost predicate Covers(h: SectionHeader, rva: nat, len: nat) {
    && h.virtualAddress <= rva
    && (rva + len <= h.virtualAddress + h.virtualSize || rva + len <= h.virtualAddress + h.sizeOfRawData)
  }

  ghost predicate OnlyCover(f: Image, i: nat, rva: nat, len: nat) {
    && i < |f.sections| && Covers(f.sections[i], rva, len)
    && forall j :: 0 <= j < |f.sections| && j != i ==> !Covers(f.sections[j], rva, len)
  }

  // The bytes at these addresses are in the file, from `offset` on.
  ghost predicate InFile(f: Image, fileSize: nat, rva: nat, len: nat, offset: nat) {
    if rva < f.optional.sizeOfHeaders then
      rva + len <= f.optional.sizeOfHeaders && offset == rva && offset + len <= fileSize
    else
      exists i: nat :: OnlyCover(f, i, rva, len) && BackedBy(f.sections[i], fileSize, rva, len, offset)
  }

  ghost predicate BackedBy(h: SectionHeader, fileSize: nat, rva: nat, len: nat, offset: nat) {
    && rva - h.virtualAddress + len <= h.sizeOfRawData
    && offset == h.pointerToRawData + (rva - h.virtualAddress) && offset + len <= fileSize
  }

  // A load configuration long enough for its flags, and these are the flags.
  ghost predicate ConfiguredAt(b: seq<byte>, f: Image, offset: nat, c: LoadConfiguration, flags: u16) {
    && SizedConfiguration(f.optional.magic, c) && Holds(b, offset, ConfigurationBytes(f.optional.magic, c))
    && NeededSize(f) <= c.size && c.dependentLoadFlags == flags
  }

  ghost predicate HasLoadConfig(f: Image) {
    && |f.sections| != 0 && 11 <= |f.optional.directories| && 11 <= f.optional.numberOfRvaAndSizes
    && LoadConfigDirectory(f).address != 0 && NeededSize(f) <= LoadConfigDirectory(f).size
  }

  ghost predicate LoadsAs(b: seq<byte>, f: Image, flags: u16) {
    && HasLoadConfig(f)
    && exists offset: nat, c ::
         && InFile(f, |b|, LoadConfigDirectory(f).address, NeededSize(f), offset)
         && ConfiguredAt(b, f, offset, c, flags)
  }

  lemma SameLoadHeader(b: seq<byte>, f: Image)
    requires IsImage(b, f)
    ensures PeLoad.LoadConfigOk(b) <==> HasLoadConfig(f)
    ensures PeLoad.LoadConfigOk(b) ==> PeLoad.LoadConfigOf(b) == PeLoad.LoadConfig(
                LoadConfigDirectory(f).address, NeededSize(f), NeededSize(f) - 2, f.optional.sizeOfHeaders,
                SectionsAt(f), |f.sections|)
    ensures HeadersEnd(f) <= |b|
  {
    hide U16, U32, Le32, CoffBytes, OptionalBytes, SectionBytes;
    ImageFields(b, f);
    if |f.sections| != 0 {
      ImageSection(b, f, |f.sections| - 1);
    }
    if 11 <= |f.optional.directories| {
      ImageDirectory(b, f, 10);
    }
  }

  lemma SameSectionTable(b: seq<byte>, f: Image)
    requires IsImage(b, f)
    ensures PeLoad.TableInFile(b, SectionsAt(f), |f.sections|)
    ensures forall i :: 0 <= i < |f.sections| ==>
              var h := f.sections[i];
              PeLoad.Sections(b, SectionsAt(f), |f.sections|)[i] ==
              PeLoad.Section(h.virtualSize, h.virtualAddress, h.sizeOfRawData, h.pointerToRawData)
  {
    hide U16, U32, Le32, CoffBytes, OptionalBytes, SectionBytes;
    if |f.sections| != 0 {
      ImageSection(b, f, |f.sections| - 1);
    }
    forall i | 0 <= i < |f.sections|
      ensures var h := f.sections[i];
              PeLoad.Sections(b, SectionsAt(f), |f.sections|)[i] ==
              PeLoad.Section(h.virtualSize, h.virtualAddress, h.sizeOfRawData, h.pointerToRawData)
    {
      ImageSection(b, f, i);
    }
  }

  lemma SameStored(b: seq<byte>, f: Image, rva: nat, len: nat, offset: nat)
    requires IsImage(b, f) && 0 < len
    ensures PeLoad.Stored(b, rva, len, f.optional.sizeOfHeaders, SectionsAt(f), |f.sections|, offset) <==>
            InFile(f, |b|, rva, len, offset)
  {
    hide U16, U32, IsImage, PeLoad.Sections;
    SameSectionTable(b, f);
    var table := PeLoad.Sections(b, SectionsAt(f), |f.sections|);
    forall i: nat | i < |table|
      ensures table[i].Maps(rva, len) <==> Covers(f.sections[i], rva, len)
    {
    }
    if f.optional.sizeOfHeaders <= rva {
      if PeLoad.StoredBySection(table, rva, len, |b|, offset) {
        var i: nat :| PeLoad.SoleMapping(table, i, rva, len, |b|) && offset == table[i].Offset(rva);
        assert OnlyCover(f, i, rva, len) && BackedBy(f.sections[i], |b|, rva, len, offset);
      }
      if InFile(f, |b|, rva, len, offset) {
        var i: nat :| OnlyCover(f, i, rva, len) && BackedBy(f.sections[i], |b|, rva, len, offset);
        assert PeLoad.SoleMapping(table, i, rva, len, |b|) && offset == table[i].Offset(rva);
      }
    }
  }

  lemma ConfigurationRead(b: seq<byte>, f: Image, offset: nat, c: LoadConfiguration, flags: u16)
    requires SizedFields(f.optional) && ConfiguredAt(b, f, offset, c, flags)
    ensures offset + NeededSize(f) <= |b| && U32(b, offset) == c.size && U16(b, offset + NeededSize(f) - 2) == flags
  {
    hide U16, U32, ConfigurationBytes;
    ConfigurationFields(f.optional.magic, c);
    HeldU32(b, offset, ConfigurationBytes(f.optional.magic, c), 0);
    HeldU16(b, offset, ConfigurationBytes(f.optional.magic, c), NeededSize(f) - 2);
  }

  // Any bytes can be read as a configuration.
  lemma ConfigurationThere(b: seq<byte>, f: Image, offset: nat) returns (c: LoadConfiguration)
    requires SizedFields(f.optional) && offset + NeededSize(f) <= |b|
    ensures SizedConfiguration(f.optional.magic, c) && Holds(b, offset, ConfigurationBytes(f.optional.magic, c))
    ensures c.size == U32(b, offset) && c.dependentLoadFlags == U16(b, offset + NeededSize(f) - 2)
  {
    hide U16, U32, Le16, Le32;
    var n, word := NeededSize(f), if f.optional.magic == PE32 then 4 else 8;
    var process := 24 + 5 * word;
    c := LoadConfiguration(
      U32(b, offset), b[offset + 4..offset + 12], b[offset + 12..offset + 24], b[offset + 24..offset + process],
      b[offset + process..offset + n - 4], U16(b, offset + n - 4), U16(b, offset + n - 2));
    Le32Inverse(b, offset);
    Le16Inverse(b, offset + n - 4);
    Le16Inverse(b, offset + n - 2);
    Meet(b, offset, offset + 4, offset + 12);
    Meet(b, offset, offset + 12, offset + 24);
    Meet(b, offset, offset + 24, offset + process);
    Meet(b, offset, offset + process, offset + n - 4);
    Meet(b, offset, offset + n - 4, offset + n - 2);
    Meet(b, offset, offset + n - 2, offset + n);
  }

  /** The load-policy parser reads the flags of an image where its structures put them: through the
      one section that covers the load configuration, or in the headers, and nowhere else. */
  lemma LoadsByFields(b: seq<byte>, f: Image, flags: u16)
    requires IsImage(b, f)
    ensures PeLoad.LoadsWith(b, flags) <==> LoadsAs(b, f, flags)
  {
    hide U16, U32, IsImage, PeLoad.Stored, InFile, PeLoad.LoadConfigOk, PeLoad.LoadConfigOf, HasLoadConfig;
    SameLoadHeader(b, f);
    if HasLoadConfig(f) {
      LoadsThroughConfig(b, f, flags);
    }
  }

  lemma LoadsThroughConfig(b: seq<byte>, f: Image, flags: u16)
    requires IsImage(b, f) && HasLoadConfig(f)
    ensures PeLoad.LoadsWith(b, flags) <==> LoadsAs(b, f, flags)
  {
    hide U16, U32, IsImage, PeLoad.Stored, InFile, PeLoad.LoadConfigOk, PeLoad.LoadConfigOf, ConfigurationBytes;
    SameLoadHeader(b, f);
    var config, rva, n := PeLoad.LoadConfigOf(b), LoadConfigDirectory(f).address, NeededSize(f);
    assert SizedFields(f.optional) by {
      ImageIsSized(b, f);
    }
    if PeLoad.LoadsWith(b, flags) {
      var offset: nat :| PeLoad.LoadConfigAt(b, config, offset) && PeLoad.FlagsAt(b, config, offset, flags);
      SameStored(b, f, rva, n, offset);
      var c := ConfigurationThere(b, f, offset);
      assert ConfiguredAt(b, f, offset, c, flags);
    }
    if LoadsAs(b, f, flags) {
      var offset: nat, c :| InFile(f, |b|, rva, n, offset) && ConfiguredAt(b, f, offset, c, flags);
      SameStored(b, f, rva, n, offset);
      ConfigurationRead(b, f, offset, c, flags);
      assert PeLoad.LoadConfigAt(b, config, offset) && PeLoad.FlagsAt(b, config, offset, flags);
    }
  }

  lemma ImageIsSized(b: seq<byte>, f: Image)
    requires IsImage(b, f)
    ensures SizedFields(f.optional)
  {
  }

  // ---- every accepted file is such an image -------------------------------------------

  // A slice put together from two that meet.
  lemma Meet(b: seq<byte>, from: nat, middle: nat, to: nat)
    requires from <= middle <= to <= |b|
    ensures b[from..middle] + b[middle..to] == b[from..to]
  {
  }

  lemma ReadCoff(b: seq<byte>, at: nat) returns (h: CoffHeader)
    requires at + 20 <= |b|
    ensures Holds(b, at, CoffBytes(h))
    ensures h.numberOfSections == U16(b, at + 2) && h.sizeOfOptionalHeader == U16(b, at + 16)
  {
    hide U16, U32, Le16, Le32;
    h := CoffHeader(
      U16(b, at), U16(b, at + 2), U32(b, at + 4), U32(b, at + 8), U32(b, at + 12), U16(b, at + 16), U16(b, at + 18));
    Le16Inverse(b, at);
    Le16Inverse(b, at + 2);
    Le32Inverse(b, at + 4);
    Le32Inverse(b, at + 8);
    Le32Inverse(b, at + 12);
    Le16Inverse(b, at + 16);
    Le16Inverse(b, at + 18);
    Meet(b, at, at + 2, at + 4);
    Meet(b, at, at + 4, at + 8);
    Meet(b, at, at + 8, at + 12);
    Meet(b, at, at + 12, at + 16);
    Meet(b, at, at + 16, at + 18);
    Meet(b, at, at + 18, at + 20);
  }

  lemma {:induction false} ReadDirectories(b: seq<byte>, at: nat, n: nat) returns (ds: seq<Directory>)
    requires at + 8 * n <= |b|
    ensures |ds| == n && Holds(b, at, DirectoriesBytes(ds))
    decreases n
  {
    hide U32, Le32;
    ds := [];
    if n != 0 {
      var first := Directory(U32(b, at), U32(b, at + 4));
      var rest := ReadDirectories(b, at + 8, n - 1);
      ds := [first] + rest;
      assert ds[1..] == rest;
      Le32Inverse(b, at);
      Le32Inverse(b, at + 4);
      Meet(b, at, at + 4, at + 8);
      Meet(b, at, at + 8, at + 8 * n);
    }
  }

  lemma ReadSection(b: seq<byte>, at: nat) returns (h: SectionHeader)
    requires at + 40 <= |b|
    ensures |h.name| == 8 && Holds(b, at, SectionBytes(h))
  {
    hide U16, U32, Le16, Le32;
    h := SectionHeader(
      b[at..at + 8], U32(b, at + 8), U32(b, at + 12), U32(b, at + 16), U32(b, at + 20), U32(b, at + 24),
      U32(b, at + 28), U16(b, at + 32), U16(b, at + 34), U32(b, at + 36));
    Le32Inverse(b, at + 8);
    Le32Inverse(b, at + 12);
    Le32Inverse(b, at + 16);
    Le32Inverse(b, at + 20);
    Le32Inverse(b, at + 24);
    Le32Inverse(b, at + 28);
    Le16Inverse(b, at + 32);
    Le16Inverse(b, at + 34);
    Le32Inverse(b, at + 36);
    Meet(b, at, at + 8, at + 12);
    Meet(b, at, at + 12, at + 16);
    Meet(b, at, at + 16, at + 20);
    Meet(b, at, at + 20, at + 24);
    Meet(b, at, at + 24, at + 28);
    Meet(b, at, at + 28, at + 32);
    Meet(b, at, at + 32, at + 34);
    Meet(b, at, at + 34, at + 36);
    Meet(b, at, at + 36, at + 40);
  }

  lemma {:induction false} ReadSections(b: seq<byte>, at: nat, n: nat) returns (hs: seq<SectionHeader>)
    requires at + 40 * n <= |b|
    ensures |hs| == n
    ensures forall i :: 0 <= i < n ==> |hs[i].name| == 8 && Holds(b, at + 40 * i, SectionBytes(hs[i]))
    decreases n
  {
    hide Holds, SectionBytes;
    hs := [];
    if n != 0 {
      var first := ReadSections(b, at, n - 1);
      var last := ReadSection(b, at + 40 * (n - 1));
      hs := first + [last];
    }
  }

  lemma ReadOptional(b: seq<byte>, at: nat, size: nat) returns (h: OptionalHeader)
    requires at + 2 <= at + size <= |b| && U16(b, at) in {PE32, PE32_PLUS}
    requires (if U16(b, at) == PE32 then 96 else 112) <= size
    ensures SizedFields(h) && |OptionalBytes(h)| == size && Holds(b, at, OptionalBytes(h))
  {
    hide U16, U32, Le16, Le32, DirectoriesBytes;
    var magic := U16(b, at);
    var fixed := if magic == PE32 then 96 else 112;
    var n := (size - fixed) / 8;
    var ds := ReadDirectories(b, at + fixed, n);
    var rest := b[at + fixed + 8 * n..at + size];
    h := OptionalHeader(
      magic, b[at + 2..at + 24], b[at + 24..at + 32], b[at + 32..at + 40], b[at + 40..at + 56], U32(b, at + 56),
      U32(b, at + 60), U32(b, at + 64), b[at + 68..at + 72], b[at + 72..at + fixed - 8], U32(b, at + fixed - 8),
      U32(b, at + fixed - 4), ds, rest);
    OptionalPieces(b, at, fixed, h);
    Meet(b, at, at + 60, at + fixed);
    Meet(b, at, at + fixed, at + fixed + 8 * n);
    Meet(b, at, at + fixed + 8 * n, at + size);
  }

  lemma OptionalPieces(b: seq<byte>, at: nat, fixed: nat, h: OptionalHeader)
    requires fixed == (if h.magic == PE32 then 96 else 112) && SizedFields(h) && at + fixed <= |b|
    requires h.magic == U16(b, at) && h.standard == b[at + 2..at + 24] && h.bases == b[at + 24..at + 32]
    requires h.alignments == b[at + 32..at + 40] && h.versions == b[at + 40..at + 56]
    requires h.sizeOfImage == U32(b, at + 56) && h.sizeOfHeaders == U32(b, at + 60) && h.checkSum == U32(b, at + 64)
    requires h.subsystem == b[at + 68..at + 72] && h.reserves == b[at + 72..at + fixed - 8]
    requires h.loaderFlags == U32(b, at + fixed - 8) && h.numberOfRvaAndSizes == U32(b, at + fixed - 4)
    ensures OptionalStart(h) == b[at..at + 60] && OptionalMiddle(h) == b[at + 60..at + fixed]
  {
    hide U16, U32, Le16, Le32;
    Le16Inverse(b, at);
    Le32Inverse(b, at + 56);
    Le32Inverse(b, at + 60);
    Le32Inverse(b, at + 64);
    Le32Inverse(b, at + fixed - 8);
    Le32Inverse(b, at + fixed - 4);
    Meet(b, at, at + 2, at + 24);
    Meet(b, at, at + 24, at + 32);
    Meet(b, at, at + 32, at + 40);
    Meet(b, at, at + 40, at + 56);
    Meet(b, at, at + 56, at + 60);
    Meet(b, at + 60, at + 64, at + 68);
    Meet(b, at + 60, at + 68, at + 72);
    Meet(b, at + 60, at + 72, at + fixed - 8);
    Meet(b, at + 60, at + fixed - 8, at + fixed - 4);
    Meet(b, at + 60, at + fixed - 4, at + fixed);
  }

  /** The headers of whatever the sealing parser accepts are headers of the format: reading them as
      structures loses nothing. */
  lemma AcceptedIsImage(b: seq<byte>) returns (f: Image)
    requires PeLayout.HeadersOk(b)
    ensures IsImage(b, f)
  {
    hide U16, U32, Le32, CoffBytes, OptionalBytes, SectionBytes;
    var pe := U32(b, 0x3c);
    var coff := ReadCoff(b, pe + 4);
    var optional := ReadOptional(b, pe + 24, coff.sizeOfOptionalHeader);
    var sections := ReadSections(b, pe + 24 + coff.sizeOfOptionalHeader, coff.numberOfSections);
    f := Image(b[..pe], coff, optional, sections);
    Le32Inverse(b, 0x3c);
    assert f.dos[0x3c..0x40] == b[0x3c..0x40];
    assert f.dos[..2] == [b[0], b[1]];
  }

  ghost predicate IsSoundImage(b: seq<byte>, f: Image) {
    IsImage(b, f) && SoundHeaders(f, |b|) && RawDataWithin(f, |b|) && SoundCertificate(b, f)
  }

  /** Acceptance, with no position in it: the file is an image whose fields are in order. */
  lemma AcceptedImages(b: seq<byte>)
    ensures PeLayout.Accepted(b) <==> exists f :: IsSoundImage(b, f)
  {
    hide U16, U32, IsImage, PeLayout.HeadersOk, PeLayout.SectionsWithin, RawDataWithin, SoundCertificate,
      PeLayout.CertificateOk;
    if PeLayout.Accepted(b) {
      var f := AcceptedIsImage(b);
      AcceptedByFields(b, f);
      assert IsSoundImage(b, f);
    }
    if exists f :: IsSoundImage(b, f) {
      var f :| IsSoundImage(b, f);
      AcceptedByFields(b, f);
    }
  }
}
