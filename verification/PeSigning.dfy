/** The Authenticode-stable identity of an image and what it pins down: signed images with
    the identity of an unsigned one are exactly the results of signing it. */
module PeSigning {
  import opened Bytes
  import opened Checksum
  import opened PeLayout

  datatype BundleState = Unsigned | Signed

  // The parser's answer fits the state the caller asserts.
  ghost predicate Accepts(b: seq<byte>, state: BundleState) {
    Accepted(b) && (HasCertificate(b) <==> state == Signed)
  }

  // ---- the normalised stream ----------------------------------------------------------

  ghost predicate Masked(b: seq<byte>, i: int)
    requires OptionalOk(b)
  {
    || ChecksumField(b) <= i < ChecksumField(b) + 4
    || SecurityDirectory(b) <= i < SecurityDirectory(b) + 8
  }

  // The image without its certificate table.
  ghost function PayloadEnd(b: seq<byte>): (end: nat)
    requires Accepted(b)
    ensures SizeOfHeaders(b) <= end <= |b|
  {
    if HasCertificate(b) then CertificateOffset(b) else |b|
  }

  ghost function Stream(b: seq<byte>): (s: seq<byte>)
    requires Accepted(b)
    ensures |s| == PayloadEnd(b)
  {
    seq(PayloadEnd(b), i requires 0 <= i < PayloadEnd(b) => if Masked(b, i) then 0 else b[i])
  }

  lemma MaskInsideHeaders(b: seq<byte>)
    requires HeadersOk(b)
    ensures 0x98 <= ChecksumField(b) < ChecksumField(b) + 4 <= ChecksumField(b) + 64 <= SecurityDirectory(b)
    ensures SecurityDirectory(b) + 8 <= OptionalEnd(b) <= SizeOfHeaders(b)
  {
  }

  /** Feeds the hash the slices around the two fields and zeros for the fields.  Succeeds exactly
      on the images of the asserted state, with the identity of the masked stream. */
  method NormalizedPayload(sha: Sha256, b: Slice, state: BundleState) returns (r: Parsed<string>)
    ensures r.Parsed? <==> Accepts(b, state)
    ensures r.Parsed? ==> r.value == Identity(sha, Stream(b))
    ensures r != Overflow
  {
    hide U16, U32, Identity;
    var layout :- ParsePe(b);
    if state.Unsigned? != layout.certificate.None? {
      return Rejected;
    }
    MaskInsideHeaders(b);
    var payloadEnd: nat := if layout.certificate.Some? then layout.certificate.value else |b|;
    if !(layout.checksum + 4 <= layout.securityDirectory && layout.securityDirectory + 8 <= payloadEnd) {
      return Rejected;
    }
    var hashed := b[..layout.checksum];
    hashed := hashed + [0, 0, 0, 0];
    hashed := hashed + b[layout.checksum + 4..layout.securityDirectory];
    hashed := hashed + [0, 0, 0, 0, 0, 0, 0, 0];
    hashed := hashed + b[layout.securityDirectory + 8..payloadEnd];
    assert hashed == Stream(b);
    var encoded := Sha256Hex(sha, hashed);
    return Parsed(encoded);
  }

  // ---- mask stability -----------------------------------------------------------------

  lemma StreamAt(b: seq<byte>, i: nat)
    requires Accepted(b) && i < PayloadEnd(b) && !Masked(b, i)
    ensures Stream(b)[i] == b[i]
  {
  }

  /** The positions of the masked fields can be read off the masked stream. */
  lemma MaskStability(a: seq<byte>, b: seq<byte>)
    requires Accepted(a) && Accepted(b) && Stream(a) == Stream(b)
    ensures ChecksumField(a) == ChecksumField(b) && SecurityDirectory(a) == SecurityDirectory(b)
    ensures PayloadEnd(a) == PayloadEnd(b)
    ensures forall i :: 0 <= i < PayloadEnd(a) && !Masked(a, i) ==> a[i] == b[i]
  {
    hide U16, U32;
    MaskInsideHeaders(a);
    MaskInsideHeaders(b);
    forall i: nat | i < PayloadEnd(a) && !Masked(a, i) && !Masked(b, i)
      ensures a[i] == b[i]
    {
      StreamAt(a, i);
      StreamAt(b, i);
    }
    SameU32(a, b, 0x3c);
    assert Optional(a) == Optional(b);
    SameU16(a, b, Optional(a));
  }

  // `g` is `u` up to the two fields, followed by a certificate table that starts where `u` ended.
  ghost predicate SigningOnly(u: seq<byte>, g: seq<byte>)
    requires Accepts(u, Unsigned) && Accepts(g, Signed)
  {
    && CertificateOffset(g) == |u|
    && forall i :: 0 <= i < |u| && !Masked(u, i) ==> g[i] == u[i]
  }

  /** Equal identities of an unsigned and a signed image mean a signing-only change, and conversely. */
  lemma SameStreamIsSigningOnly(u: seq<byte>, g: seq<byte>)
    requires Accepts(u, Unsigned) && Accepts(g, Signed)
    ensures Stream(u) == Stream(g) <==> SigningOnly(u, g)
    ensures Stream(u) == Stream(g) ==> |u| % 8 == 0 && |u| < |g|
  {
    hide U16, U32;
    if Stream(u) == Stream(g) {
      MaskStability(u, g);
    }
    if SigningOnly(u, g) {
      SigningKeepsFields(u, g);
    }
  }

  // Header fields outside the mask have the same value in any image that agrees there.
  lemma SigningKeepsFields(u: seq<byte>, g: seq<byte>)
    requires HeadersOk(u) && |u| <= |g|
    requires forall i :: 0 <= i < |u| && !Masked(u, i) ==> g[i] == u[i]
    ensures OptionalOk(g) && Optional(g) == Optional(u) && OptionalEnd(g) == OptionalEnd(u)
    ensures ChecksumField(g) == ChecksumField(u) && SecurityDirectory(g) == SecurityDirectory(u)
    ensures HeadersOk(g) && SizeOfHeaders(g) == SizeOfHeaders(u) && SectionCount(g) == SectionCount(u)
    ensures Extents(g) == Extents(u)
  {
    hide U16, U32;
    MaskInsideHeaders(u);
    SameU32(g, u, 0x3c);
    var pe := U32(u, 0x3c);
    assert g[pe..pe + 4] == u[pe..pe + 4];
    SameU16(g, u, pe + 6);
    SameU16(g, u, pe + 20);
    SameU16(g, u, pe + 24);
    SameU32(g, u, pe + 24 + DirectoriesAt(U16(u, pe + 24)) - 4);
    SameU32(g, u, pe + 24 + 60);
    forall i | 0 <= i < SectionCount(u)
      ensures Extents(g)[i] == Extents(u)[i]
    {
      var header := OptionalEnd(u) + i * 40;
      assert header + 40 <= OptionalEnd(u) + SectionCount(u) * 40;
      SameU32(g, u, header + 16);
      SameU32(g, u, header + 20);
    }
  }

  // ---- signing ------------------------------------------------------------------------

  // One PKCS entry of revision 2.0 around `blob`, zero-padded to a multiple of eight.
  function WinCertificate(blob: seq<byte>): (t: seq<byte>)
    requires RoundUp8(8 + |blob|) < 0x1_0000_0000
    ensures |t| == RoundUp8(8 + |blob|) && t[4..8] == [0x00, 0x02, 0x02, 0x00]
  {
    Le32(8 + |blob|) + Le16(WIN_CERT_REVISION_2_0) + Le16(WIN_CERT_TYPE_PKCS_SIGNED_DATA)
    + blob + seq(RoundUp8(8 + |blob|) - 8 - |blob|, _ => 0)
  }

  // What 32-bit directory fields and eight-byte alignment let a signer do.
  predicate Signable(u: seq<byte>, blob: seq<byte>) {
    |u| % 8 == 0 && |u| < 0x1_0000_0000 && blob != [] && RoundUp8(8 + |blob|) < 0x1_0000_0000
  }

  // `u` with four bytes at `c` and eight at `d` replaced, and a table appended.
  function Rewrite(
    u: seq<byte>, c: nat, d: nat, checksum: seq<byte>, entry: seq<byte>, table: seq<byte>): (g: seq<byte>)
    requires c + 4 <= d && d + 8 <= |u| && |checksum| == 4 && |entry| == 8
    ensures |g| == |u| + |table|
  {
    u[..c] + checksum + u[c + 4..d] + entry + u[d + 8..] + table
  }

  lemma Rewritten(u: seq<byte>, c: nat, d: nat, checksum: seq<byte>, entry: seq<byte>, table: seq<byte>, g: seq<byte>)
    requires c + 4 <= d && d + 8 <= |u| && |checksum| == 4 && |entry| == 8
    ensures g == Rewrite(u, c, d, checksum, entry, table) <==>
            && |g| == |u| + |table|
            && (forall i :: 0 <= i < |u| && !(c <= i < c + 4) && !(d <= i < d + 8) ==> g[i] == u[i])
            && g[c..c + 4] == checksum && g[d..d + 8] == entry && g[|u|..] == table
  {
    var r := Rewrite(u, c, d, checksum, entry, table);
    assert r[c..c + 4] == checksum && r[d..d + 8] == entry && r[|u|..] == table;
    if && |g| == |u| + |table|
       && (forall i :: 0 <= i < |u| && !(c <= i < c + 4) && !(d <= i < d + 8) ==> g[i] == u[i])
       && g[c..c + 4] == checksum && g[d..d + 8] == entry && g[|u|..] == table
    {
      assert g[..c] == u[..c] && g[c + 4..d] == u[c + 4..d] && g[d + 8..|u|] == u[d + 8..];
      assert g == g[..c] + g[c..c + 4] + g[c + 4..d] + g[d..d + 8] + g[d + 8..|u|] + g[|u|..];
    }
  }

  function DirectoryEntry(offset: u32, size: u32): (e: seq<byte>)
    ensures |e| == 8
  {
    Le32(offset) + Le32(size)
  }

  lemma EntryFields(b: seq<byte>, d: nat, offset: u32, size: u32)
    requires d + 8 <= |b|
    ensures b[d..d + 8] == DirectoryEntry(offset, size) <==> U32(b, d) == offset && U32(b, d + 4) == size
  {
    var e := b[d..d + 8];
    assert b[d..d + 4] == e[..4] && b[d + 4..d + 8] == e[4..];
    assert e == e[..4] + e[4..];
    Le32Inverse(b, d);
    Le32Inverse(b, d + 4);
    if e == DirectoryEntry(offset, size) {
      assert e[..4] == Le32(offset) && e[4..] == Le32(size);
      Le32Injective(offset, U32(b, d));
      Le32Injective(size, U32(b, d + 4));
    }
  }

  lemma Le32Injective(x: u32, y: u32)
    requires Le32(x) == Le32(y)
    ensures x == y
  {
    assert U32(Le32(x), 0) == x && U32(Le32(y), 0) == y;
  }

  // `u` with a new checksum and a security directory that points at the appended certificate.
  ghost function Sign(u: seq<byte>, checksum: seq<byte>, blob: seq<byte>): (g: seq<byte>)
    requires HeadersOk(u) && |checksum| == 4 && Signable(u, blob)
    ensures |g| == |u| + RoundUp8(8 + |blob|)
  {
    MaskInsideHeaders(u);
    var table := WinCertificate(blob);
    Rewrite(u, ChecksumField(u), SecurityDirectory(u), checksum, DirectoryEntry(|u|, |table|), table)
  }

  lemma SignWrites(u: seq<byte>, checksum: seq<byte>, blob: seq<byte>)
    requires HeadersOk(u) && |checksum| == 4 && Signable(u, blob)
    ensures var g, c, d := Sign(u, checksum, blob), ChecksumField(u), SecurityDirectory(u);
            && (forall i :: 0 <= i < |u| && !Masked(u, i) ==> g[i] == u[i])
            && g[c..c + 4] == checksum && U32(g, d) == |u| && U32(g, d + 4) == |g| - |u|
            && g[|u|..] == WinCertificate(blob)
  {
    hide U16, U32;
    MaskInsideHeaders(u);
    var table := WinCertificate(blob);
    var g, c, d := Sign(u, checksum, blob), ChecksumField(u), SecurityDirectory(u);
    Rewritten(u, c, d, checksum, DirectoryEntry(|u|, |table|), table, g);
    EntryFields(g, d, |u|, |table|);
  }

  lemma CertificateAt(g: seq<byte>, start: nat, blob: seq<byte>)
    requires blob != [] && RoundUp8(8 + |blob|) < 0x1_0000_0000
    requires start <= |g| && g[start..] == WinCertificate(blob)
    ensures OneCertificate(g, start, |g|)
  {
    var t := WinCertificate(blob);
    assert forall i :: 0 <= i < |t| ==> g[start + i] == t[i];
    var length, revision, kind := Le32(8 + |blob|), Le16(WIN_CERT_REVISION_2_0), Le16(WIN_CERT_TYPE_PKCS_SIGNED_DATA);
    assert forall i :: 0 <= i < 4 ==> t[i] == length[i];
    assert t[4] == revision[0] && t[5] == revision[1] && t[6] == kind[0] && t[7] == kind[1];
    assert forall i :: 8 + |blob| <= i < |t| ==> t[i] == 0;
    assert forall i :: start + 8 + |blob| <= i < |g| ==> g[i] == t[i - start];
  }

  // What a signed form of `u` has to look like, in terms of the fields of `u` alone.
  lemma SignedFormAccepted(u: seq<byte>, g: seq<byte>)
    requires Accepts(u, Unsigned) && |u| < |g| && |u| % 8 == 0
    requires forall i :: 0 <= i < |u| && !Masked(u, i) ==> g[i] == u[i]
    requires U32(g, SecurityDirectory(u)) == |u| && U32(g, SecurityDirectory(u) + 4) == |g| - |u|
    requires OneCertificate(g, |u|, |g|)
    ensures Accepts(g, Signed) && Stream(g) == Stream(u)
  {
    hide U16, U32;
    SigningKeepsFields(u, g);
    assert CertificateOffset(g) == |u| && CertificateSize(g) == |g| - |u|;
    assert SectionsWithin(g, |u|);
    assert CertificateOk(g);
    SameStreamIsSigningOnly(u, g);
  }

  /** Signing completeness: whatever checksum and blob a signer chooses, the result is accepted
      as signed and keeps the identity. */
  lemma SignIsAccepted(u: seq<byte>, checksum: seq<byte>, blob: seq<byte>)
    requires Accepts(u, Unsigned) && |checksum| == 4 && Signable(u, blob)
    ensures Accepts(Sign(u, checksum, blob), Signed)
    ensures Stream(Sign(u, checksum, blob)) == Stream(u)
    ensures Sign(u, checksum, blob)[|u| + 4..|u| + 8] == [0x00, 0x02, 0x02, 0x00]
  {
    hide U16, U32;
    var g := Sign(u, checksum, blob);
    SignWrites(u, checksum, blob);
    assert g[|u| + 4..|u| + 8] == g[|u|..][4..8];
    CertificateAt(g, |u|, blob);
    SignedFormAccepted(u, g);
  }

  lemma CertificateIsWinCertificate(g: seq<byte>, start: nat) returns (blob: seq<byte>)
    requires start <= |g| && OneCertificate(g, start, |g|)
    ensures blob != [] && RoundUp8(8 + |blob|) == |g| - start
    ensures |g| - start < 0x1_0000_0000 ==> g[start..] == WinCertificate(blob)
  {
    var length := U32(g, start);
    blob := g[start + 8..start + length];
    if |g| - start < 0x1_0000_0000 {
      var t := WinCertificate(blob);
      Le32Inverse(g, start);
      assert forall i :: 0 <= i < 4 ==> g[start + i] == g[start..start + 4][i] == Le32(length)[i];
      assert Le16(WIN_CERT_REVISION_2_0) == [0, 2] && Le16(WIN_CERT_TYPE_PKCS_SIGNED_DATA) == [2, 0];
      assert U16(g, start + 4) == 0x200 && U16(g, start + 6) == 2;
      assert g[start + 4] == 0 && g[start + 5] == 2 && g[start + 6] == 2 && g[start + 7] == 0;
      assert g[start..] == t;
    }
  }

  ghost predicate IsSigningOf(u: seq<byte>, checksum: seq<byte>, blob: seq<byte>, g: seq<byte>)
    requires HeadersOk(u)
  {
    |checksum| == 4 && Signable(u, blob) && g == Sign(u, checksum, blob)
  }

  // Reads the signer's choices back from a signed image.
  lemma RecoverSigning(u: seq<byte>, g: seq<byte>) returns (checksum: seq<byte>, blob: seq<byte>)
    requires Accepts(u, Unsigned) && Accepts(g, Signed) && Stream(g) == Stream(u)
    ensures IsSigningOf(u, checksum, blob, g)
  {
    hide U16, U32;
    MaskInsideHeaders(u);
    var c, d := ChecksumField(u), SecurityDirectory(u);
    MaskStability(u, g);
    SameStreamIsSigningOnly(u, g);
    assert U32(g, d) == |u| && U32(g, d + 4) == |g| - |u| && OneCertificate(g, |u|, |g|);
    blob := CertificateIsWinCertificate(g, |u|);
    checksum := g[c..c + 4];
    var table := WinCertificate(blob);
    EntryFields(g, d, |u|, |table|);
    Rewritten(u, c, d, checksum, DirectoryEntry(|u|, |table|), table, g);
  }

  /** The signed images with the identity of an unsigned one are exactly its signings:
      nothing else can hide behind an unchanged normalised hash. */
  lemma SignedImagesAreSignings(u: seq<byte>, g: seq<byte>)
    requires Accepts(u, Unsigned)
    ensures Accepts(g, Signed) && Stream(g) == Stream(u) <==> exists checksum, blob :: IsSigningOf(u, checksum, blob, g)
  {
    if exists checksum, blob :: IsSigningOf(u, checksum, blob, g) {
      var checksum, blob :| IsSigningOf(u, checksum, blob, g);
      SignIsAccepted(u, checksum, blob);
    }
    if Accepts(g, Signed) && Stream(g) == Stream(u) {
      var checksum, blob := RecoverSigning(u, g);
    }
  }
}
