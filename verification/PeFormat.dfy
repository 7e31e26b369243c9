/** Images as the PE format lays them out, structure by structure: every position in a header is the
    sum of the sizes of the fields in front of it.  Both parsers are proved against these structures. */
module PeFormat {
  import opened Bytes
  import PeLayout

  // ---- structures ---------------------------------------------------------------------

  datatype CoffHeader = CoffHeader(
    machine: u16, numberOfSections: u16, timeDateStamp: u32, pointerToSymbolTable: u32, numberOfSymbols: u32,
    sizeOfOptionalHeader: u16, characteristics: u16)

  function CoffBytes(h: CoffHeader): (s: seq<byte>)
    ensures |s| == 20
  {
    Le16(h.machine) + Le16(h.numberOfSections) + Le32(h.timeDateStamp) + Le32(h.pointerToSymbolTable)
    + Le32(h.numberOfSymbols) + Le16(h.sizeOfOptionalHeader) + Le16(h.characteristics)
  }

  datatype Directory = Directory(address: u32, size: u32)

  function DirectoryBytes(d: Directory): (s: seq<byte>)
    ensures |s| == 8
  {
    Le32(d.address) + Le32(d.size)
  }

  // The optional header.  Fields that no parser reads stay together as bytes: `standard` is the linker
  // version to BaseOfCode, `bases` is BaseOfData and ImageBase, or the long ImageBase of PE32+;
  // `alignments` are the two alignments and `versions` the four versions behind them; `subsystem` goes
  // with DllCharacteristics; `reserves` are the stack and heap sizes, of machine width.
  datatype OptionalHeader = OptionalHeader(
    magic: u16, standard: seq<byte>, bases: seq<byte>, alignments: seq<byte>, versions: seq<byte>, sizeOfImage: u32,
    sizeOfHeaders: u32, checkSum: u32, subsystem: seq<byte>, reserves: seq<byte>, loaderFlags: u32,
    numberOfRvaAndSizes: u32, directories: seq<Directory>, rest: seq<byte>)

  const PE32: u16 := 0x10b
  const PE32_PLUS: u16 := 0x20b

  predicate SizedFields(h: OptionalHeader) {
    && h.magic in {PE32, PE32_PLUS}
    && |h.standard| == 22 && |h.bases| == 8 && |h.alignments| == 8 && |h.versions| == 16
    && |h.subsystem| == 4 && |h.reserves| == (if h.magic == PE32 then 16 else 32) && |h.rest| < 8
  }

  function DirectoriesBytes(ds: seq<Directory>): (s: seq<byte>)
    ensures |s| == 8 * |ds|
  {
    if ds == [] then [] else DirectoryBytes(ds[0]) + DirectoriesBytes(ds[1..])
  }

  // Up to SizeOfImage, and from the checksum to the directories.
  function OptionalStart(h: OptionalHeader): (s: seq<byte>)
    requires SizedFields(h)
    ensures |s| == 60
  {
    Le16(h.magic) + h.standard + h.bases + h.alignments + h.versions + Le32(h.sizeOfImage)
  }

  function OptionalMiddle(h: OptionalHeader): (s: seq<byte>)
    requires SizedFields(h)
    ensures |s| == if h.magic == PE32 then 36 else 52
  {
    Le32(h.sizeOfHeaders) + Le32(h.checkSum) + h.subsystem + h.reserves + Le32(h.loaderFlags)
    + Le32(h.numberOfRvaAndSizes)
  }

  function OptionalBytes(h: OptionalHeader): (s: seq<byte>)
    requires SizedFields(h)
    ensures |s| == (if h.magic == PE32 then 96 else 112) + 8 * |h.directories| + |h.rest|
  {
    OptionalStart(h) + OptionalMiddle(h) + DirectoriesBytes(h.directories) + h.rest
  }

  datatype SectionHeader = SectionHeader(
    name: seq<byte>, virtualSize: u32, virtualAddress: u32, sizeOfRawData: u32, pointerToRawData: u32,
    pointerToRelocations: u32, pointerToLinenumbers: u32, numberOfRelocations: u16, numberOfLinenumbers: u16,
    characteristics: u32)

  function SectionBytes(h: SectionHeader): (s: seq<byte>)
    requires |h.name| == 8
    ensures |s| == 40
  {
    h.name + Le32(h.virtualSize) + Le32(h.virtualAddress) + Le32(h.sizeOfRawData) + Le32(h.pointerToRawData)
    + Le32(h.pointerToRelocations) + Le32(h.pointerToLinenumbers) + Le16(h.numberOfRelocations)
    + Le16(h.numberOfLinenumbers) + Le32(h.characteristics)
  }

  // IMAGE_LOAD_CONFIG_DIRECTORY up to DependentLoadFlags.  `versions` is the time stamp and two version
  // words, `globals` the two global-flag words and the time-out, `thresholds` five words of machine
  // width, `process` the heap flags and the affinity mask.
  datatype LoadConfiguration = LoadConfiguration(
    size: u32, versions: seq<byte>, globals: seq<byte>, thresholds: seq<byte>, process: seq<byte>, csdVersion: u16,
    dependentLoadFlags: u16)

  predicate SizedConfiguration(magic: u16, c: LoadConfiguration) {
    var word := if magic == PE32 then 4 else 8;
    |c.versions| == 8 && |c.globals| == 12 && |c.thresholds| == 5 * word && |c.process| == 4 + word
  }

  function ConfigurationBytes(magic: u16, c: LoadConfiguration): (s: seq<byte>)
    requires SizedConfiguration(magic, c)
    ensures |s| == if magic == PE32 then 56 else 80
  {
    Le32(c.size) + c.versions + c.globals + c.thresholds + c.process + Le16(c.csdVersion) + Le16(c.dependentLoadFlags)
  }

  // ---- images -------------------------------------------------------------------------

  ghost predicate Holds(b: seq<byte>, at: nat, s: seq<byte>) {
    at + |s| <= |b| && b[at..at + |s|] == s
  }

  // `dos` is everything in front of the PE signature: the DOS header and its stub.
  datatype Image = Image(dos: seq<byte>, coff: CoffHeader, optional: OptionalHeader, sections: seq<SectionHeader>)

  predicate WellFormed(f: Image) {
    && 0x40 <= |f.dos| < 0x1_0000_0000 && f.dos[..2] == [0x4d, 0x5a] && f.dos[0x3c..0x40] == Le32(|f.dos|)
    && SizedFields(f.optional) && |OptionalBytes(f.optional)| == f.coff.sizeOfOptionalHeader
    && |f.sections| == f.coff.numberOfSections && forall i :: 0 <= i < |f.sections| ==> |f.sections[i].name| == 8
  }

  function OptionalAt(f: Image): nat {
    |f.dos| + 4 + 20
  }

  function SectionsAt(f: Image): nat {
    OptionalAt(f) + f.coff.sizeOfOptionalHeader
  }

  function HeadersEnd(f: Image): nat {
    SectionsAt(f) + 40 * |f.sections|
  }

  // `b` begins with the headers of `f`: stub, signature, file header, optional header, section table.
  ghost predicate IsImage(b: seq<byte>, f: Image) {
    && WellFormed(f)
    && Holds(b, 0, f.dos) && Holds(b, |f.dos|, [0x50, 0x45, 0, 0]) && Holds(b, |f.dos| + 4, CoffBytes(f.coff))
    && Holds(b, OptionalAt(f), OptionalBytes(f.optional))
    && forall i :: 0 <= i < |f.sections| ==> Holds(b, SectionsAt(f) + 40 * i, SectionBytes(f.sections[i]))
  }

  // ---- reading fields back ------------------------------------------------------------

  lemma HeldU16(b: seq<byte>, at: nat, s: seq<byte>, k: nat)
    requires Holds(b, at, s) && k + 2 <= |s|
    ensures U16(b, at + k) == U16(s, k)
  {
    assert forall i :: 0 <= i < |s| ==> b[at + i] == s[i];
  }

  lemma HeldU32(b: seq<byte>, at: nat, s: seq<byte>, k: nat)
    requires Holds(b, at, s) && k + 4 <= |s|
    ensures U32(b, at + k) == U32(s, k)
  {
    assert forall i :: 0 <= i < |s| ==> b[at + i] == s[i];
  }

  lemma InnerU16(before: seq<byte>, v: u16, after: seq<byte>)
    ensures U16(before + Le16(v) + after, |before|) == v
  {
    HeldU16(before + Le16(v) + after, |before|, Le16(v), 0);
  }

  lemma InnerU32(before: seq<byte>, v: u32, after: seq<byte>)
    ensures U32(before + Le32(v) + after, |before|) == v
  {
    HeldU32(before + Le32(v) + after, |before|, Le32(v), 0);
  }

  lemma CoffFields(h: CoffHeader)
    ensures U16(CoffBytes(h), 2) == h.numberOfSections && U16(CoffBytes(h), 16) == h.sizeOfOptionalHeader
  {
    hide U16, Le16, Le32;
    var s := CoffBytes(h);
    var symbols := Le32(h.timeDateStamp) + Le32(h.pointerToSymbolTable) + Le32(h.numberOfSymbols);
    var last := Le16(h.characteristics);
    InnerU16(Le16(h.machine), h.numberOfSections, symbols + Le16(h.sizeOfOptionalHeader) + last);
    assert s == Le16(h.machine) + Le16(h.numberOfSections) + (symbols + Le16(h.sizeOfOptionalHeader) + last);
    InnerU16(Le16(h.machine) + Le16(h.numberOfSections) + symbols, h.sizeOfOptionalHeader, last);
    assert s == Le16(h.machine) + Le16(h.numberOfSections) + symbols + Le16(h.sizeOfOptionalHeader) + last;
  }

  lemma SectionFields(h: SectionHeader)
    requires |h.name| == 8
    ensures var s := SectionBytes(h);
      && U32(s, 8) == h.virtualSize && U32(s, 12) == h.virtualAddress
      && U32(s, 16) == h.sizeOfRawData && U32(s, 20) == h.pointerToRawData
  {
    hide U32, Le16, Le32;
    var s := SectionBytes(h);
    var tail := Le32(h.pointerToRelocations) + Le32(h.pointerToLinenumbers) + Le16(h.numberOfRelocations)
      + Le16(h.numberOfLinenumbers) + Le32(h.characteristics);
    var a, b, c, d := Le32(h.virtualSize), Le32(h.virtualAddress), Le32(h.sizeOfRawData), Le32(h.pointerToRawData);
    assert s == h.name + a + (b + c + d + tail) == h.name + a + b + (c + d + tail);
    assert s == (h.name + a + b) + c + (d + tail) == (h.name + a + b + c) + d + tail;
    InnerU32(h.name, h.virtualSize, b + c + d + tail);
    InnerU32(h.name + a, h.virtualAddress, c + d + tail);
    InnerU32(h.name + a + b, h.sizeOfRawData, d + tail);
    InnerU32(h.name + a + b + c, h.pointerToRawData, tail);
  }

  lemma OptionalFields(h: OptionalHeader)
    requires SizedFields(h)
    ensures var s := OptionalBytes(h);
      && U16(s, 0) == h.magic && U32(s, 60) == h.sizeOfHeaders && U32(s, 64) == h.checkSum
      && U32(s, |s| - 8 * |h.directories| - |h.rest| - 4) == h.numberOfRvaAndSizes
  {
    hide U16, U32, Le16, Le32, DirectoriesBytes;
    var s, start, directories := OptionalBytes(h), OptionalStart(h), DirectoriesBytes(h.directories);
    var early := h.standard + h.bases + h.alignments + h.versions + Le32(h.sizeOfImage);
    var late := h.subsystem + h.reserves + Le32(h.loaderFlags);
    var tail := directories + h.rest;
    var headers, checksum, count := Le32(h.sizeOfHeaders), Le32(h.checkSum), Le32(h.numberOfRvaAndSizes);
    assert start == Le16(h.magic) + early;
    assert OptionalMiddle(h) == headers + checksum + late + count;
    assert s == [] + Le16(h.magic) + (early + OptionalMiddle(h) + tail);
    assert s == start + headers + (checksum + late + count + tail);
    assert s == (start + headers) + checksum + (late + count + tail);
    assert s == (start + headers + checksum + late) + count + tail;
    InnerU16([], h.magic, early + OptionalMiddle(h) + tail);
    InnerU32(start, h.sizeOfHeaders, checksum + late + count + tail);
    InnerU32(start + headers, h.checkSum, late + count + tail);
    InnerU32(start + headers + checksum + late, h.numberOfRvaAndSizes, tail);
  }

  lemma {:induction false} DirectoryFields(ds: seq<Directory>, k: nat)
    requires k < |ds|
    ensures U32(DirectoriesBytes(ds), 8 * k) == ds[k].address && U32(DirectoriesBytes(ds), 8 * k + 4) == ds[k].size
  {
    hide U32, Le32;
    var first, rest := DirectoryBytes(ds[0]), DirectoriesBytes(ds[1..]);
    if k == 0 {
      assert DirectoriesBytes(ds) == [] + Le32(ds[0].address) + (Le32(ds[0].size) + rest);
      assert DirectoriesBytes(ds) == Le32(ds[0].address) + Le32(ds[0].size) + rest;
      InnerU32([], ds[0].address, Le32(ds[0].size) + rest);
      InnerU32(Le32(ds[0].address), ds[0].size, rest);
    } else {
      DirectoryFields(ds[1..], k - 1);
      assert Holds(first + rest, 8, rest);
      HeldU32(first + rest, 8, rest, 8 * (k - 1));
      HeldU32(first + rest, 8, rest, 8 * (k - 1) + 4);
    }
  }

  // Where directory `k` is in the optional header, and what it holds.
  function DirectoryAt(h: OptionalHeader, k: nat): nat
    requires SizedFields(h)
  {
    |OptionalBytes(h)| - |h.rest| - 8 * |h.directories| + 8 * k
  }

  lemma OptionalDirectory(h: OptionalHeader, k: nat)
    requires SizedFields(h) && k < |h.directories|
    ensures var s, at := OptionalBytes(h), DirectoryAt(h, k);
      at + 8 <= |s| && U32(s, at) == h.directories[k].address && U32(s, at + 4) == h.directories[k].size
  {
    hide U32, Le32, DirectoriesBytes, OptionalStart, OptionalMiddle;
    var s, before, ds := OptionalBytes(h), OptionalStart(h) + OptionalMiddle(h), DirectoriesBytes(h.directories);
    assert s[|before|..|before| + |ds|] == ds;
    DirectoryFields(h.directories, k);
    HeldU32(s, |before|, ds, 8 * k);
    HeldU32(s, |before|, ds, 8 * k + 4);
  }

  lemma ConfigurationFields(magic: u16, c: LoadConfiguration)
    requires SizedConfiguration(magic, c)
    ensures U32(ConfigurationBytes(magic, c), 0) == c.size
    ensures U16(ConfigurationBytes(magic, c), if magic == PE32 then 54 else 78) == c.dependentLoadFlags
  {
    hide U16, U32, Le16, Le32;
    var s := ConfigurationBytes(magic, c);
    var middle := c.versions + c.globals + c.thresholds + c.process + Le16(c.csdVersion);
    assert s == [] + Le32(c.size) + (middle + Le16(c.dependentLoadFlags));
    assert s == (Le32(c.size) + middle) + Le16(c.dependentLoadFlags) + [];
    InnerU32([], c.size, middle + Le16(c.dependentLoadFlags));
    InnerU16(Le32(c.size) + middle, c.dependentLoadFlags, []);
  }

  // ---- what the parsers see -----------------------------------------------------------

  lemma ImageStart(b: seq<byte>, f: Image)
    requires IsImage(b, f)
    ensures PeLayout.DosOk(b) && U32(b, 0x3c) == |f.dos| && PeLayout.Optional(b) == OptionalAt(f)
    ensures SectionsAt(f) <= |b|
  {
    hide U32, Le32, CoffBytes, OptionalBytes;
    assert f.dos[..2][0] == f.dos[0] && f.dos[..2][1] == f.dos[1];
    assert b[0] == b[0..|f.dos|][0] && b[1] == b[0..|f.dos|][1];
    assert Holds(f.dos, 0x3c, Le32(|f.dos|));
    HeldU32(f.dos, 0x3c, Le32(|f.dos|), 0);
    HeldU32(b, 0, f.dos, 0x3c);
  }

  lemma ImageFields(b: seq<byte>, f: Image)
    requires IsImage(b, f)
    ensures PeLayout.DosOk(b) && U32(b, 0x3c) == |f.dos| && SectionsAt(f) <= |b|
    ensures U16(b, |f.dos| + 6) == |f.sections| && U16(b, |f.dos| + 20) == f.coff.sizeOfOptionalHeader
    ensures U16(b, OptionalAt(f)) == f.optional.magic && U32(b, OptionalAt(f) + 60) == f.optional.sizeOfHeaders
    ensures U32(b, OptionalAt(f) + 64) == f.optional.checkSum
    ensures U32(b, OptionalAt(f) + DirectoryAt(f.optional, 0) - 4) == f.optional.numberOfRvaAndSizes
  {
    hide U16, U32, Le32, CoffBytes, OptionalBytes;
    ImageStart(b, f);
    CoffFields(f.coff);
    OptionalFields(f.optional);
    HeldU16(b, |f.dos| + 4, CoffBytes(f.coff), 2);
    HeldU16(b, |f.dos| + 4, CoffBytes(f.coff), 16);
    HeldU16(b, OptionalAt(f), OptionalBytes(f.optional), 0);
    HeldU32(b, OptionalAt(f), OptionalBytes(f.optional), 60);
    HeldU32(b, OptionalAt(f), OptionalBytes(f.optional), 64);
    HeldU32(b, OptionalAt(f), OptionalBytes(f.optional), DirectoryAt(f.optional, 0) - 4);
  }

  lemma ImageDirectory(b: seq<byte>, f: Image, k: nat)
    requires IsImage(b, f) && k < |f.optional.directories|
    ensures OptionalAt(f) + DirectoryAt(f.optional, k) + 8 <= SectionsAt(f) <= |b|
    ensures U32(b, OptionalAt(f) + DirectoryAt(f.optional, k)) == f.optional.directories[k].address
    ensures U32(b, OptionalAt(f) + DirectoryAt(f.optional, k) + 4) == f.optional.directories[k].size
  {
    hide U16, U32, Le32, CoffBytes, OptionalBytes;
    OptionalDirectory(f.optional, k);
    HeldU32(b, OptionalAt(f), OptionalBytes(f.optional), DirectoryAt(f.optional, k));
    HeldU32(b, OptionalAt(f), OptionalBytes(f.optional), DirectoryAt(f.optional, k) + 4);
  }

  lemma ImageSection(b: seq<byte>, f: Image, i: nat)
    requires IsImage(b, f) && i < |f.sections|
    ensures var at, h := SectionsAt(f) + 40 * i, f.sections[i];
      && at + 40 <= |b| && U32(b, at + 8) == h.virtualSize && U32(b, at + 12) == h.virtualAddress
      && U32(b, at + 16) == h.sizeOfRawData && U32(b, at + 20) == h.pointerToRawData
  {
    hide U16, U32, SectionBytes, CoffBytes, OptionalBytes;
    var at, s := SectionsAt(f) + 40 * i, SectionBytes(f.sections[i]);
    SectionFields(f.sections[i]);
    assert Holds(b, at, s);
    HeldU32(b, at, s, 8);
    HeldU32(b, at, s, 12);
    HeldU32(b, at, s, 16);
    HeldU32(b, at, s, 20);
  }
}
