/** The PE parser of the bundle seal: where the checksum field, the security-directory
    entry and the certificate table of an image lie.  The predicates and functions state
    the accepted layouts in closed form, field by field; the methods are the parser. */
module PeLayout {
  import opened Wrappers
  import opened Bytes

  const WIN_CERT_REVISION_2_0: u16 := 0x0200
  const WIN_CERT_TYPE_PKCS_SIGNED_DATA: u16 := 0x0002
  const IMAGE_DIRECTORY_ENTRY_SECURITY: usize := 4

  datatype Layout = Layout(checksum: usize, securityDirectory: usize, certificate: Option<usize>)

  // ---- closed form --------------------------------------------------------------------

  ghost predicate DosOk(b: seq<byte>) {
    && 0x40 <= |b| && b[0] == 0x4d && b[1] == 0x5a
    && 0x40 <= U32(b, 0x3c) && U32(b, 0x3c) + 4 <= |b|
    && b[U32(b, 0x3c)..U32(b, 0x3c) + 4] == [0x50, 0x45, 0, 0]
  }

  ghost function Coff(b: seq<byte>): nat
    requires DosOk(b)
  {
    U32(b, 0x3c) + 4
  }

  ghost function Optional(b: seq<byte>): nat
    requires DosOk(b)
  {
    Coff(b) + 20
  }

  ghost function SectionCount(b: seq<byte>): nat
    requires DosOk(b) && Optional(b) <= |b|
  {
    U16(b, Coff(b) + 2)
  }

  ghost function OptionalEnd(b: seq<byte>): nat
    requires DosOk(b) && Optional(b) <= |b|
  {
    Optional(b) + U16(b, Coff(b) + 16)
  }

  // Distance from the optional header to its data directories: PE32 or PE32+.
  ghost function DirectoriesAt(magic: u16): nat {
    if magic == 0x010b then 96 else 112
  }

  ghost predicate OptionalOk(b: seq<byte>) {
    && DosOk(b) && Optional(b) + 2 <= |b| && SectionCount(b) != 0
    && var optional := Optional(b);
    var magic := U16(b, optional);
    && magic in {0x010b, 0x020b}
    && optional + DirectoriesAt(magic) + 40 <= OptionalEnd(b) <= |b|
    && IMAGE_DIRECTORY_ENTRY_SECURITY < U32(b, optional + DirectoriesAt(magic) - 4)
  }

  ghost function ChecksumField(b: seq<byte>): nat
    requires OptionalOk(b)
  {
    Optional(b) + 64
  }

  ghost function SecurityDirectory(b: seq<byte>): nat
    requires OptionalOk(b)
  {
    Optional(b) + DirectoriesAt(U16(b, Optional(b))) + 32
  }

  ghost function SizeOfHeaders(b: seq<byte>): nat
    requires OptionalOk(b)
  {
    U32(b, Optional(b) + 60)
  }

  ghost predicate HeadersOk(b: seq<byte>) {
    OptionalOk(b) && OptionalEnd(b) + SectionCount(b) * 40 <= SizeOfHeaders(b) <= |b|
  }

  // The raw data a section header declares.
  datatype Extent = Extent(offset: nat, size: nat) {
    // Empty, or behind `headers` bytes of headers and over by `limit`.
    predicate Within(headers: nat, limit: nat) {
      size == 0 || (headers <= offset && offset + size <= limit)
    }
  }

  ghost function ExtentAt(b: seq<byte>, header: nat): Extent
    requires header + 40 <= |b|
  {
    Extent(U32(b, header + 20), U32(b, header + 16))
  }

  ghost function Extents(b: seq<byte>): (es: seq<Extent>)
    requires HeadersOk(b)
    ensures |es| == SectionCount(b)
  {
    seq(SectionCount(b), i requires 0 <= i < SectionCount(b) => ExtentAt(b, OptionalEnd(b) + i * 40))
  }

  ghost predicate AllWithin(es: seq<Extent>, headers: nat, limit: nat) {
    forall i :: 0 <= i < |es| ==> es[i].Within(headers, limit)
  }

  ghost predicate SectionsWithin(b: seq<byte>, limit: nat)
    requires HeadersOk(b)
  {
    AllWithin(Extents(b), SizeOfHeaders(b), limit)
  }

  ghost function CertificateOffset(b: seq<byte>): nat
    requires OptionalOk(b)
  {
    U32(b, SecurityDirectory(b))
  }

  ghost function CertificateSize(b: seq<byte>): nat
    requires OptionalOk(b)
  {
    U32(b, SecurityDirectory(b) + 4)
  }

  // One WIN_CERTIFICATE fills the region: a length, revision 2.0 and PKCS type, the certificate, and
  // zeros up to a multiple of eight.
  ghost predicate OneCertificate(b: seq<byte>, start: nat, end: nat)
    requires start <= end <= |b|
  {
    && start + 8 <= end
    && var length := U32(b, start);
    && 8 < length
    && b[start + 4..start + 8] == [0x00, 0x02, 0x02, 0x00]
    && RoundUp8(length) == end - start
    && forall i :: start + length <= i < end ==> b[i] == 0
  }

  ghost predicate CertificateOk(b: seq<byte>)
    requires HeadersOk(b)
  {
    var offset, size := CertificateOffset(b), CertificateSize(b);
    || (offset == 0 && size == 0)
    || (&& offset != 0 && size != 0 && offset % 8 == 0
        && SizeOfHeaders(b) <= offset && SectionsWithin(b, offset)
        && offset + size == |b|
        && OneCertificate(b, offset, |b|))
  }

  ghost predicate Accepted(b: seq<byte>) {
    HeadersOk(b) && SectionsWithin(b, |b|) && CertificateOk(b)
  }

  ghost predicate HasCertificate(b: seq<byte>)
    requires Accepted(b)
  {
    CertificateOffset(b) != 0
  }

  ghost function LayoutOf(b: seq<byte>): Layout
    requires Accepted(b)
  {
    Layout(ChecksumField(b), SecurityDirectory(b), if HasCertificate(b) then Some(CertificateOffset(b)) else None)
  }

  // ---- the parser ---------------------------------------------------------------------

  function ReadU16(b: Slice, offset: usize): (r: Parsed<u16>)
    ensures r == if offset + 2 <= |b| then Parsed(U16(b, offset)) else Rejected
  {
    if SaturatingAdd(offset, 2) <= |b| then Parsed(U16(b[offset..SaturatingAdd(offset, 2)], 0)) else Rejected
  }

  function ReadU32(b: Slice, offset: usize): (r: Parsed<u32>)
    ensures r == if offset + 4 <= |b| then Parsed(U32(b, offset)) else Rejected
  {
    if SaturatingAdd(offset, 4) <= |b| then Parsed(U32(b[offset..SaturatingAdd(offset, 4)], 0)) else Rejected
  }

  // The two words behind the length, byte for byte.
  lemma CertificateKind(b: seq<byte>, at: nat)
    requires at + 4 <= |b|
    ensures U16(b, at) == WIN_CERT_REVISION_2_0 && U16(b, at + 2) == WIN_CERT_TYPE_PKCS_SIGNED_DATA
            <==> b[at..at + 4] == [0x00, 0x02, 0x02, 0x00]
  {
    assert b[at..at + 4] == [b[at], b[at + 1], b[at + 2], b[at + 3]];
  }

  /** Walks the table entry by entry; accepts exactly the closed form, and never overflows. */
  method ValidateCertificateTable(b: Slice, start: usize, end: usize) returns (r: Parsed<()>)
    requires start <= end <= |b|
    ensures r.Parsed? <==> OneCertificate(b, start, end)
    ensures r != Overflow
  {
    hide U16, U32;
    if end - start < 8 {
      return Rejected;
    }
    var cursor, entries := start, 0;
    ghost var first := RoundUp8(U32(b, start));
    while cursor < end
      invariant start <= cursor <= end
      // every turn consumes at least sixteen bytes
      invariant 0 <= 16 * entries <= cursor - start
      invariant entries == 0 ==> cursor == start
      invariant entries == 1 ==> cursor == start + first
      invariant entries > 1 ==> start + first < cursor
      invariant entries > 0 ==> first <= end - start && OneCertificate(b, start, start + first)
      decreases end - cursor
    {
      if end - cursor < 8 {
        return Rejected;
      }
      var length :- ReadU32(b, cursor);
      if length <= 8 {
        return Rejected;
      }
      var revision :- ReadU16(b, cursor + 4);
      var certificateType :- ReadU16(b, cursor + 6);
      CertificateKind(b, cursor + 4);
      if revision != WIN_CERT_REVISION_2_0 {
        return Rejected;
      }
      if certificateType != WIN_CERT_TYPE_PKCS_SIGNED_DATA {
        return Rejected;
      }
      var unalignedEnd :- CheckedAdd(cursor, length);
      var padded :- CheckedAdd(length, 7);
      var alignedLength: usize := padded / 8 * 8;
      var alignedEnd :- CheckedAdd(cursor, alignedLength);
      if !(unalignedEnd <= alignedEnd && alignedEnd <= end) {
        return Rejected;
      }
      if exists i | unalignedEnd <= i < alignedEnd :: b[i] != 0 {
        return Rejected;
      }
      entries := entries + 1;
      cursor := alignedEnd;
    }
    if cursor != end {
      return Rejected;
    }
    if entries != 1 {
      return Rejected;
    }
    return Parsed(());
  }

  datatype Headers = Headers(
    checksum: usize, securityDirectory: usize, sectionCount: usize, optionalEnd: usize, sizeOfHeaders: usize)

  // The first part of the parser: everything in front of the section headers.
  method ParseHeaders(b: Slice) returns (r: Parsed<Headers>)
    ensures r.Parsed? <==> HeadersOk(b)
    ensures r.Parsed? ==>
          r.value == Headers(ChecksumField(b), SecurityDirectory(b), SectionCount(b), OptionalEnd(b), SizeOfHeaders(b))
    ensures r != Overflow
  {
    hide U16, U32;
    if |b| < 0x40 {
      return Rejected;
    }
    if b[..2] != [0x4d, 0x5a] {
      return Rejected;
    }
    assert b[..2][0] == b[0] && b[..2][1] == b[1];
    var peOffset: usize :- ReadU32(b, 0x3c);
    if peOffset < 0x40 {
      return Rejected;
    }
    if SaturatingAdd(peOffset, 4) > |b| || b[peOffset..SaturatingAdd(peOffset, 4)] != [0x50, 0x45, 0, 0] {
      return Rejected;
    }
    assert DosOk(b);

    var coff :- CheckedAdd(peOffset, 4);
    var optional :- CheckedAdd(coff, 20);
    var sectionCount: usize :- ReadU16(b, coff + 2);
    if sectionCount == 0 {
      return Rejected;
    }
    var optionalSize: usize :- ReadU16(b, coff + 16);
    var optionalEnd :- CheckedAdd(optional, optionalSize);
    if optionalEnd > |b| {
      return Rejected;
    }

    var magic :- ReadU16(b, optional);
    var directoryCountOffset: usize, directoriesOffset: usize;
    if magic == 0x010b {
      directoryCountOffset, directoriesOffset := 92, 96;
    } else if magic == 0x020b {
      directoryCountOffset, directoriesOffset := 108, 112;
    } else {
      return Rejected;
    }
    var checksum :- CheckedAdd(optional, 64);
    var directoryCountPosition :- CheckedAdd(optional, directoryCountOffset);
    var directories :- CheckedAdd(optional, directoriesOffset);
    var entryOffset :- CheckedMul(IMAGE_DIRECTORY_ENTRY_SECURITY, 8);
    var securityDirectory :- CheckedAdd(directories, entryOffset);
    if !(&& checksum + 4 <= optionalEnd
         && directoryCountPosition + 4 <= optionalEnd
         && securityDirectory + 8 <= optionalEnd) {
      return Rejected;
    }
    var directoryCount: usize :- ReadU32(b, directoryCountPosition);
    if directoryCount <= IMAGE_DIRECTORY_ENTRY_SECURITY {
      return Rejected;
    }
    assert OptionalOk(b);

    var sizeOfHeaders: usize :- ReadU32(b, optional + 60);
    var sectionTableSize :- CheckedMul(sectionCount, 40);
    var sectionTableEnd :- CheckedAdd(optionalEnd, sectionTableSize);
    if !(sectionTableEnd <= |b| && sectionTableEnd <= sizeOfHeaders) {
      return Rejected;
    }
    if sizeOfHeaders > |b| {
      return Rejected;
    }
    return Parsed(Headers(checksum, securityDirectory, sectionCount, optionalEnd, sizeOfHeaders));
  }

  // Where the headers and the first `count` non-empty extents end: the least bound that covers them.
  ghost predicate IsImageEnd(es: seq<Extent>, headers: nat, count: nat, end: nat)
    requires count <= |es|
  {
    && headers <= end
    && (forall i :: 0 <= i < count ==> es[i].Within(headers, end))
    && (end == headers || exists i :: 0 <= i < count && es[i].size != 0 && end == es[i].offset + es[i].size)
  }

  lemma ImageEndIsLeast(es: seq<Extent>, headers: nat, end: nat, limit: nat)
    requires IsImageEnd(es, headers, |es|, end)
    ensures AllWithin(es, headers, limit) && headers <= limit <==> end <= limit
  {
    if AllWithin(es, headers, limit) && end != headers {
      var i :| 0 <= i < |es| && es[i].size != 0 && end == es[i].offset + es[i].size;
      assert es[i].Within(headers, limit);
    }
  }

  // The second part: the section headers, with the running maximum of their raw ends.
  method ParseSections(
    b: Slice, sectionCount: usize, optionalEnd: usize, sizeOfHeaders: usize) returns (r: Parsed<usize>)
    requires HeadersOk(b)
    requires sectionCount == SectionCount(b) && optionalEnd == OptionalEnd(b) && sizeOfHeaders == SizeOfHeaders(b)
    ensures r.Parsed? <==> SectionsWithin(b, |b|)
    ensures r.Parsed? ==> r.value <= |b| && IsImageEnd(Extents(b), sizeOfHeaders, sectionCount, r.value)
    ensures r != Overflow
  {
    hide U16, U32;
    ghost var es := Extents(b);
    assert optionalEnd + sectionCount * 40 <= sizeOfHeaders <= |b|;
    var imageEnd: usize := sizeOfHeaders;
    for index := 0 to sectionCount
      invariant imageEnd <= |b| && IsImageEnd(es, sizeOfHeaders, index, imageEnd)
    {
      var section: usize := optionalEnd + index * 40;
      assert es[index] == ExtentAt(b, section);
      var rawSize: usize :- ReadU32(b, section + 16);
      var rawOffset: usize :- ReadU32(b, section + 20);
      if rawSize == 0 {
        continue;
      }
      if rawOffset < sizeOfHeaders {
        assert !es[index].Within(sizeOfHeaders, |b|);
        return Rejected;
      }
      var rawEnd :- CheckedAdd(rawOffset, rawSize);
      if rawEnd > |b| {
        assert !es[index].Within(sizeOfHeaders, |b|);
        return Rejected;
      }
      imageEnd := if imageEnd < rawEnd then rawEnd else imageEnd;
    }
    return Parsed(imageEnd);
  }

  /** Accepts exactly the layouts in closed form.  The typed locals make every unchecked
      addition of the source an obligation, and no checked one ever overflows. */
  method ParsePe(b: Slice) returns (r: Parsed<Layout>)
    ensures r.Parsed? <==> Accepted(b)
    ensures r.Parsed? ==> r.value == LayoutOf(b)
    ensures r != Overflow
  {
    hide U16, U32;
    var headers :- ParseHeaders(b);
    var imageEnd :- ParseSections(b, headers.sectionCount, headers.optionalEnd, headers.sizeOfHeaders);
    var certificateOffset: usize :- ReadU32(b, headers.securityDirectory);
    var certificateSize: usize :- ReadU32(b, headers.securityDirectory + 4);
    ImageEndIsLeast(Extents(b), headers.sizeOfHeaders, imageEnd, certificateOffset);
    var certificate: Option<usize> := None;
    if certificateOffset == 0 && certificateSize == 0 {
    } else if certificateOffset == 0 || certificateSize == 0 {
      return Rejected;
    } else {
      if certificateOffset % 8 != 0 {
        return Rejected;
      }
      if certificateOffset < imageEnd {
        return Rejected;
      }
      var end :- CheckedAdd(certificateOffset, certificateSize);
      if end != |b| {
        return Rejected;
      }
      var _ :- ValidateCertificateTable(b, certificateOffset, end);
      certificate := Some(certificateOffset);
    }
    return Parsed(Layout(headers.checksum, headers.securityDirectory, certificate));
  }
}
