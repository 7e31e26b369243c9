/** The second PE parser: finds the load-configuration directory through the section table
    and reads DependentLoadFlags from it. */
module PeLoad {
  import opened Bytes
  import opened Wrappers

  const COFF_HEADER_SIZE: usize := 20
  const SECTION_HEADER_SIZE: usize := 40
  const LOAD_CONFIG_DIRECTORY_INDEX: usize := 10
  const DATA_DIRECTORY_SIZE: usize := 8

  // ---- checked readers ----------------------------------------------------------------

  function ReadBytes(b: Slice, offset: usize, len: usize): (r: Parsed<seq<byte>>)
    ensures offset + len <= |b| ==> r == Parsed(b[offset..offset + len])
    ensures offset + len > |b| ==> !r.Parsed?
    ensures r.Overflow? <==> offset + len >= 0x1_0000_0000_0000_0000
  {
    var end :- CheckedAdd(offset, len);
    if end <= |b| then Parsed(b[offset..end]) else Rejected
  }

  function ReadU16(b: Slice, offset: usize): (r: Parsed<u16>)
    ensures offset + 2 <= |b| ==> r == Parsed(U16(b, offset))
    ensures offset + 2 > |b| ==> !r.Parsed?
    ensures r.Overflow? <==> offset + 2 >= 0x1_0000_0000_0000_0000
  {
    var raw :- ReadBytes(b, offset, 2);
    Parsed(U16(raw, 0))
  }

  function ReadU32(b: Slice, offset: usize): (r: Parsed<u32>)
    ensures offset + 4 <= |b| ==> r == Parsed(U32(b, offset))
    ensures offset + 4 > |b| ==> !r.Parsed?
    ensures r.Overflow? <==> offset + 4 >= 0x1_0000_0000_0000_0000
  {
    var raw :- ReadBytes(b, offset, 4);
    Parsed(U32(raw, 0))
  }

  // ---- section table ------------------------------------------------------------------

  datatype Section = Section(virtualSize: u32, virtualAddress: u32, rawSize: u32, rawPointer: u32) {
    ghost function MappedSize(): nat {
      if virtualSize < rawSize then rawSize else virtualSize
    }

    // The mapped range contains all of `[rva, rva + len)`.
    ghost predicate Maps(rva: nat, len: nat) {
      virtualAddress <= rva && rva + len <= virtualAddress + MappedSize()
    }

    // Where byte `rva` of the mapped range is stored.
    ghost function Offset(rva: nat): int {
      rawPointer + rva - virtualAddress
    }

    // The range is stored in the file rather than zero-filled, and the file reaches that far.
    ghost predicate Backs(rva: nat, len: nat, fileSize: nat) {
      rva - virtualAddress + len <= rawSize && Offset(rva) + len <= fileSize
    }
  }

  ghost function SectionAt(b: seq<byte>, header: nat): Section
    requires header + 24 <= |b|
  {
    Section(U32(b, header + 8), U32(b, header + 12), U32(b, header + 16), U32(b, header + 20))
  }

  ghost predicate TableInFile(b: seq<byte>, sections: nat, count: nat) {
    count == 0 || sections + (count - 1) * SECTION_HEADER_SIZE + 24 <= |b|
  }

  ghost function Sections(b: seq<byte>, sections: nat, count: nat): (table: seq<Section>)
    requires TableInFile(b, sections, count)
    ensures |table| == count
  {
    seq(count, i requires 0 <= i < count => SectionAt(b, sections + i * SECTION_HEADER_SIZE))
  }

  // ---- what the mapping means ---------------------------------------------------------

  // Section `i` is the only one that maps the range, and it backs it.
  ghost predicate SoleMapping(table: seq<Section>, i: nat, rva: nat, len: nat, fileSize: nat) {
    && i < |table| && table[i].Maps(rva, len) && table[i].Backs(rva, len, fileSize)
    && forall j :: 0 <= j < |table| && table[j].Maps(rva, len) ==> j == i
  }

  ghost predicate StoredBySection(table: seq<Section>, rva: nat, len: nat, fileSize: nat, offset: int) {
    exists i: nat :: SoleMapping(table, i, rva, len, fileSize) && offset == table[i].Offset(rva)
  }

  // The file stores all of `[rva, rva + len)` from `offset` on: in its headers, or in one section.
  ghost predicate Stored(b: seq<byte>, rva: nat, len: nat, headers: nat, sections: nat, count: nat, offset: int) {
    if rva < headers then
      rva + len <= headers && rva + len <= |b| && offset == rva
    else
      TableInFile(b, sections, count) && StoredBySection(Sections(b, sections, count), rva, len, |b|, offset)
  }

  /** Reordering the section headers changes nothing: not whether the range maps, not where. */
  lemma ReorderedSections(s: seq<Section>, t: seq<Section>, rva: nat, len: nat, fileSize: nat, offset: int)
    requires multiset(s) == multiset(t)
    ensures StoredBySection(s, rva, len, fileSize, offset) <==> StoredBySection(t, rva, len, fileSize, offset)
  {
    if StoredBySection(s, rva, len, fileSize, offset) {
      ReorderedSole(s, t, rva, len, fileSize, offset);
    }
    if StoredBySection(t, rva, len, fileSize, offset) {
      ReorderedSole(t, s, rva, len, fileSize, offset);
    }
  }

  lemma ReorderedSole(s: seq<Section>, t: seq<Section>, rva: nat, len: nat, fileSize: nat, offset: int)
    requires multiset(s) == multiset(t) && StoredBySection(s, rva, len, fileSize, offset)
    ensures StoredBySection(t, rva, len, fileSize, offset)
  {
    var i: nat :| SoleMapping(s, i, rva, len, fileSize) && offset == s[i].Offset(rva);
    var x := s[i];
    Multiplicity(s, i);
    assert x in multiset(t);
    var k: nat :| k < |t| && t[k] == x;
    forall j: nat | j < |t| && t[j].Maps(rva, len)
      ensures j == k
    {
      assert t[j] in multiset(s);
      var m :| 0 <= m < |s| && s[m] == t[j];
      assert m == i;
      if j != k {
        Twice(t, j, k);
      }
    }
    assert SoleMapping(t, k, rva, len, fileSize);
  }

  lemma Multiplicity<T>(s: seq<T>, i: nat)
    requires i < |s| && forall j :: 0 <= j < |s| && s[j] == s[i] ==> j == i
    ensures multiset(s)[s[i]] == 1
  {
    assert s == s[..i] + [s[i]] + s[i + 1..];
    assert s[i] !in s[..i] && s[i] !in s[i + 1..];
  }

  lemma Twice<T>(s: seq<T>, i: nat, j: nat)
    requires i < |s| && j < |s| && i != j && s[i] == s[j]
    ensures multiset(s)[s[i]] >= 2
  {
    var k := if i < j then j else i;
    assert s == s[..k] + s[k..];
    assert s[if i < j then i else j] in s[..k] && s[k] in s[k..];
  }

  // ---- the mapping --------------------------------------------------------------------

  // The four fields of one section header.
  method ReadSection(b: Slice, sections: usize, index: usize) returns (r: Parsed<Section>)
    ensures r.Parsed? <==> sections + index * SECTION_HEADER_SIZE + 24 <= |b|
    ensures r.Parsed? ==> r.value == SectionAt(b, sections + index * SECTION_HEADER_SIZE)
  {
    hide U16, U32;
    var headerOffset :- CheckedMul(index, SECTION_HEADER_SIZE);
    var section :- CheckedAdd(sections, headerOffset);
    var virtualSizeAt :- CheckedAdd(section, 8);
    var virtualSize :- ReadU32(b, virtualSizeAt);
    var virtualAddressAt :- CheckedAdd(section, 12);
    var virtualAddress :- ReadU32(b, virtualAddressAt);
    var rawSizeAt :- CheckedAdd(section, 16);
    var rawSize :- ReadU32(b, rawSizeAt);
    var rawPointerAt :- CheckedAdd(section, 20);
    var rawPointer :- ReadU32(b, rawPointerAt);
    return Parsed(Section(virtualSize, virtualAddress, rawSize, rawPointer));
  }

  // One section's answer: it does not map the range, or it does and backs it at an offset.
  method MapThrough(b: Slice, s: Section, rva: u32, len: usize) returns (r: Parsed<Option<usize>>)
    requires rva + len < 0x1_0000_0000_0000_0000
    ensures r.Parsed? <==> (s.Maps(rva, len) ==> s.Backs(rva, len, |b|))
    ensures r.Parsed? ==> r.value == if s.Maps(rva, len) then Some(s.Offset(rva)) else None
    ensures r != Overflow
  {
    var endRva: usize := rva + len;
    var mappedSize := if s.virtualSize < s.rawSize then s.rawSize else s.virtualSize;
    var sectionEnd :- CheckedAdd(s.virtualAddress, mappedSize);
    if rva < s.virtualAddress || endRva > sectionEnd {
      return Parsed(None);
    }
    var delta: usize := rva - s.virtualAddress;
    var rawEnd :- CheckedAdd(delta, len);
    if rawEnd > s.rawSize {
      return Rejected;
    }
    var offset :- CheckedAdd(s.rawPointer, delta);
    var _ :- ReadBytes(b, offset, len);
    return Parsed(Some(offset));
  }

  // How one more section header changes where the range is stored.
  lemma NextSection(table: seq<Section>, next: Section, rva: nat, len: nat, fileSize: nat, offset: int)
    ensures StoredBySection(table + [next], rva, len, fileSize, offset) <==>
            if next.Maps(rva, len)
            then next.Backs(rva, len, fileSize) && offset == next.Offset(rva) && NoneMaps(table, rva, len)
            else StoredBySection(table, rva, len, fileSize, offset)
  {
    var all := table + [next];
    assert all[|table|] == next && forall j :: 0 <= j < |table| ==> all[j] == table[j];
    if StoredBySection(all, rva, len, fileSize, offset) {
      var i: nat :| SoleMapping(all, i, rva, len, fileSize) && offset == all[i].Offset(rva);
      assert i < |table| ==> SoleMapping(table, i, rva, len, fileSize);
    }
    if !next.Maps(rva, len) && StoredBySection(table, rva, len, fileSize, offset) {
      var i: nat :| SoleMapping(table, i, rva, len, fileSize) && offset == table[i].Offset(rva);
      assert SoleMapping(all, i, rva, len, fileSize);
    }
    if next.Maps(rva, len) && next.Backs(rva, len, fileSize) && NoneMaps(table, rva, len) {
      assert SoleMapping(all, |table|, rva, len, fileSize);
    }
  }

  ghost predicate NoneMaps(table: seq<Section>, rva: nat, len: nat) {
    forall j :: 0 <= j < |table| ==> !table[j].Maps(rva, len)
  }

  // A range that two sections map, or that one maps without backing it, is stored nowhere.
  lemma Ambiguous(table: seq<Section>, i: nat, rva: nat, len: nat, fileSize: nat)
    requires i < |table| && table[i].Maps(rva, len)
    requires !table[i].Backs(rva, len, fileSize) || !NoneMaps(table[..i], rva, len)
    ensures forall offset :: !StoredBySection(table, rva, len, fileSize, offset)
  {
    if !NoneMaps(table[..i], rva, len) {
      var j :| 0 <= j < i && table[..i][j].Maps(rva, len);
      assert table[j].Maps(rva, len);
    }
  }

  /** Succeeds exactly when the file stores the whole range in one place, with that place;
      overflows only on a range beyond 64 bits or a section table that is not in the file. */
  method RvaToFileOffset(b: Slice, rva: u32, len: usize, sizeOfHeaders: u32, sections: usize, sectionCount: usize)
    returns (r: Parsed<usize>)
    ensures r.Parsed? ==> Stored(b, rva, len, sizeOfHeaders, sections, sectionCount, r.value)
    ensures !r.Parsed? ==> forall offset :: !Stored(b, rva, len, sizeOfHeaders, sections, sectionCount, offset)
    ensures r.Overflow? ==> rva + len >= 0x1_0000_0000_0000_0000 || !TableInFile(b, sections, sectionCount)
  {
    hide U16, U32;
    var endRva :- CheckedAdd(rva, len);
    if rva < sizeOfHeaders {
      if endRva > sizeOfHeaders {
        return Rejected;
      }
      var _ :- ReadBytes(b, rva, len);
      return Parsed(rva);
    }

    ghost var table := if TableInFile(b, sections, sectionCount) then Sections(b, sections, sectionCount) else [];
    var matched: Option<usize> := None;
    for index := 0 to sectionCount
      invariant TableInFile(b, sections, index)
      invariant table != [] ==> Sections(b, sections, index) == table[..index]
      invariant matched.None? <==> NoneMaps(Sections(b, sections, index), rva, len)
      invariant forall offset :: StoredBySection(Sections(b, sections, index), rva, len, |b|, offset) <==>
            matched == Some(offset)
    {
      ghost var before := Sections(b, sections, index);
      var section :- ReadSection(b, sections, index);
      assert Sections(b, sections, index + 1) == before + [section];
      assert table != [] ==> table[index] == section && table[..index + 1] == table[..index] + [section];
      var offset :- MapThrough(b, section, rva, len);
      forall o {
        NextSection(before, section, rva, len, |b|, o);
      }
      if offset.None? {
        assert NoneMaps(before + [section], rva, len) <==> NoneMaps(before, rva, len);
        continue;
      }
      assert (before + [section])[index].Maps(rva, len);
      if matched.Some? {
        if table != [] {
          Ambiguous(table, index, rva, len, |b|);
        }
        return Rejected;
      }
      matched := offset;
    }
    return if matched.Some? then Parsed(matched.value) else Rejected;
  }

  // ---- the load policy ----------------------------------------------------------------

  // Where the header says the load configuration is, and how much of it has to be there.
  datatype LoadConfig = LoadConfig(
    rva: u32, requiredSize: usize, flagsOffset: usize, sizeOfHeaders: u32, sections: usize, sectionCount: usize)

  // Distances from the optional header to its directories and from the directory to its flags.
  function DirectoriesOffset(magic: u16): usize {
    if magic == 0x10b then 96 else 112
  }

  function FlagsOffset(magic: u16): usize {
    if magic == 0x10b then 54 else 78
  }

  ghost predicate LoadHeaderOk(b: seq<byte>) {
    && 0x40 <= |b| && b[0] == 0x4d && b[1] == 0x5a
    && var pe := U32(b, 0x3c);
    && pe + 26 <= |b| && b[pe..pe + 4] == [0x50, 0x45, 0, 0]
    && U16(b, pe + 6) != 0
    && pe + 24 + U16(b, pe + 20) <= |b|
    && var magic := U16(b, pe + 24);
    && magic in {0x10b, 0x20b}
    && DirectoriesOffset(magic) + 88 <= U16(b, pe + 20)
  }

  ghost predicate LoadConfigOk(b: seq<byte>) {
    && LoadHeaderOk(b)
    && var pe := U32(b, 0x3c);
    var magic := U16(b, pe + 24);
    var entry := pe + 24 + DirectoriesOffset(magic) + LOAD_CONFIG_DIRECTORY_INDEX * DATA_DIRECTORY_SIZE;
    && LOAD_CONFIG_DIRECTORY_INDEX < U32(b, pe + 24 + DirectoriesOffset(magic) - 4)
    && U32(b, entry) != 0
    && FlagsOffset(magic) + 2 <= U32(b, entry + 4)
    && pe + 24 + U16(b, pe + 20) + U16(b, pe + 6) * SECTION_HEADER_SIZE <= |b|
  }

  ghost function LoadConfigOf(b: seq<byte>): LoadConfig
    requires LoadConfigOk(b)
  {
    var pe := U32(b, 0x3c);
    var magic := U16(b, pe + 24);
    LoadConfig(
      U32(b, pe + 24 + DirectoriesOffset(magic) + 80), FlagsOffset(magic) + 2, FlagsOffset(magic),
      U32(b, pe + 24 + 60), pe + 24 + U16(b, pe + 20), U16(b, pe + 6))
  }

  ghost predicate LoadConfigAt(b: seq<byte>, c: LoadConfig, offset: int) {
    Stored(b, c.rva, c.requiredSize, c.sizeOfHeaders, c.sections, c.sectionCount, offset)
  }

  // The structure at `offset` is long enough to hold the flags, and they are `flags`.
  ghost predicate FlagsAt(b: seq<byte>, c: LoadConfig, offset: nat, flags: u16) {
    && offset + 4 <= |b| && c.requiredSize <= U32(b, offset)
    && offset + c.flagsOffset + 2 <= |b| && U16(b, offset + c.flagsOffset) == flags
  }

  // The image loads its dependents under the policy `flags`.
  ghost predicate LoadsWith(b: seq<byte>, flags: u16) {
    && LoadConfigOk(b)
    && exists offset: nat :: LoadConfigAt(b, LoadConfigOf(b), offset) && FlagsAt(b, LoadConfigOf(b), offset, flags)
  }

  // Header and directory entry, up to the section table.
  method FindLoadConfig(b: Slice) returns (r: Parsed<LoadConfig>)
    ensures r.Parsed? <==> LoadConfigOk(b)
    ensures r.Parsed? ==> r.value == LoadConfigOf(b)
    ensures r != Overflow
  {
    hide U16, U32;
    var signature :- ReadBytes(b, 0, 2);
    if signature != [0x4d, 0x5a] {
      return Rejected;
    }
    assert b[0..2][0] == b[0] && b[0..2][1] == b[1];
    var peOffset: usize :- ReadU32(b, 0x3c);
    var peSignature :- ReadBytes(b, peOffset, 4);
    if peSignature != [0x50, 0x45, 0, 0] {
      return Rejected;
    }
    var coff :- CheckedAdd(peOffset, 4);
    var countAt :- CheckedAdd(coff, 2);
    var sectionCount: usize :- ReadU16(b, countAt);
    if sectionCount == 0 {
      return Rejected;
    }
    var sizeAt :- CheckedAdd(coff, 16);
    var optionalSize: usize :- ReadU16(b, sizeAt);
    var optional :- CheckedAdd(coff, COFF_HEADER_SIZE);
    var _ :- ReadBytes(b, optional, optionalSize);

    var magic :- ReadU16(b, optional);
    if magic != 0x10b && magic != 0x20b {
      return Rejected;
    }
    var directoryCountOffset: usize := if magic == 0x10b then 92 else 108;
    var directories, flags := DirectoriesOffset(magic), FlagsOffset(magic);
    var entriesSize :- CheckedMul(LOAD_CONFIG_DIRECTORY_INDEX + 1, DATA_DIRECTORY_SIZE);
    var loadConfigEnd :- CheckedAdd(directories, entriesSize);
    if optionalSize < loadConfigEnd {
      return Rejected;
    }
    assert LoadHeaderOk(b);

    var directoryCountAt :- CheckedAdd(optional, directoryCountOffset);
    var directoryCount :- ReadU32(b, directoryCountAt);
    if directoryCount <= LOAD_CONFIG_DIRECTORY_INDEX {
      return Rejected;
    }
    var entryOffset :- CheckedMul(LOAD_CONFIG_DIRECTORY_INDEX, DATA_DIRECTORY_SIZE);
    var entryInHeader :- CheckedAdd(directories, entryOffset);
    var loadEntry :- CheckedAdd(optional, entryInHeader);
    var loadRva :- ReadU32(b, loadEntry);
    var entrySizeAt :- CheckedAdd(loadEntry, 4);
    var loadDirectorySize :- ReadU32(b, entrySizeAt);
    var requiredSize :- CheckedAdd(flags, 2);
    if loadRva == 0 {
      return Rejected;
    }
    if loadDirectorySize < requiredSize {
      return Rejected;
    }

    var headersAt :- CheckedAdd(optional, 60);
    var sizeOfHeaders :- ReadU32(b, headersAt);
    var sections :- CheckedAdd(optional, optionalSize);
    var tableSize :- CheckedMul(sectionCount, SECTION_HEADER_SIZE);
    var _ :- ReadBytes(b, sections, tableSize);
    return Parsed(LoadConfig(loadRva, requiredSize, flags, sizeOfHeaders, sections, sectionCount));
  }

  lemma StoredOnce(b: seq<byte>, c: LoadConfig, offset: int)
    requires LoadConfigAt(b, c, offset)
    ensures 0 <= offset && offset + c.requiredSize <= |b|
    ensures forall other :: LoadConfigAt(b, c, other) ==> other == offset
  {
  }

  /** Reads a policy exactly when the image has one, and never overflows. */
  method DependentLoadFlags(b: Slice) returns (r: Parsed<u16>)
    ensures r.Parsed? ==> LoadsWith(b, r.value)
    ensures !r.Parsed? ==> forall flags :: !LoadsWith(b, flags)
    ensures r != Overflow
  {
    hide U16, U32;
    var c :- FindLoadConfig(b);
    var loadOffset :- RvaToFileOffset(b, c.rva, c.requiredSize, c.sizeOfHeaders, c.sections, c.sectionCount);
    StoredOnce(b, c, loadOffset);
    var structureSize :- ReadU32(b, loadOffset);
    if structureSize < c.requiredSize {
      return Rejected;
    }
    var flagsAt :- CheckedAdd(loadOffset, c.flagsOffset);
    r := ReadU16(b, flagsAt);
    assert r.Parsed? ==> FlagsAt(b, c, loadOffset, r.value);
  }
}
