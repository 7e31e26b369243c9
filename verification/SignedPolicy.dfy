/** Exactly when signing leaves the load policy of an image alone. */
module SignedPolicy {
  import opened Bytes
  import PeLayout
  import opened PeSigning
  import opened PeLoad
  import opened LoadPolicy

  // ---- what a signer reaches ----------------------------------------------------------

  // Aligned and small enough to carry a certificate table.
  predicate CanBeSigned(u: seq<byte>) {
    |u| % 8 == 0 && |u| < 0x1_0000_0000
  }

  ghost predicate InChecksum(u: seq<byte>, p: int)
    requires PeLayout.OptionalOk(u)
  {
    PeLayout.ChecksumField(u) <= p < PeLayout.ChecksumField(u) + 4
  }

  // The field that will hold the certificate table's offset, which is the image's own length.
  ghost predicate InTableOffset(u: seq<byte>, p: int)
    requires PeLayout.OptionalOk(u)
  {
    PeLayout.SecurityDirectory(u) <= p < PeLayout.SecurityDirectory(u) + 4
  }

  ghost predicate InTableSize(u: seq<byte>, p: int)
    requires PeLayout.OptionalOk(u)
  {
    PeLayout.SecurityDirectory(u) + 4 <= p < PeLayout.SecurityDirectory(u) + 8
  }

  // Byte `p` of a signed form whose checksum and table size consist of these bytes.
  ghost function SignedByte(u: seq<byte>, p: nat, checksumByte: byte, sizeByte: byte): byte
    requires PeLayout.OptionalOk(u) && CanBeSigned(u) && p < |u|
  {
    if InChecksum(u, p) then checksumByte
    else if InTableOffset(u, p) then Le32(|u|)[p - PeLayout.SecurityDirectory(u)]
    else if InTableSize(u, p) then sizeByte
    else u[p]
  }

  ghost function SignedLength(u: seq<byte>, at: nat, checksumByte: byte, sizeByte: byte): nat
    requires PeLayout.OptionalOk(u) && CanBeSigned(u) && at + 4 <= |u|
  {
    SignedByte(u, at, checksumByte, sizeByte) + 0x100 * SignedByte(u, at + 1, checksumByte, sizeByte)
    + 0x1_0000 * (SignedByte(u, at + 2, checksumByte, sizeByte) + 0x100 * SignedByte(u, at + 3, checksumByte, sizeByte))
  }

  // ---- the two conditions -------------------------------------------------------------

  // No signer can give the unsigned image another byte here.
  ghost predicate OutOfReach(u: seq<byte>, p: int)
    requires PeLayout.OptionalOk(u) && CanBeSigned(u)
  {
    && !InChecksum(u, p) && !InTableSize(u, p)
    && (InTableOffset(u, p) ==> Le32(|u|)[p - PeLayout.SecurityDirectory(u)] == 0)
  }

  ghost predicate InHeaders(u: seq<byte>, c: LoadConfig) {
    c.rva + c.requiredSize <= c.sizeOfHeaders <= |u| && c.requiredSize == c.flagsOffset + 2 && c.flagsOffset in {54, 78}
  }

  // The policy is mapped by a section; or no signer reaches the flags, and the structure stays
  // long enough under a checksum of zero.
  ghost predicate PolicyFixed(u: seq<byte>, c: LoadConfig)
    requires PeLayout.OptionalOk(u) && CanBeSigned(u)
  {
    || c.sizeOfHeaders <= c.rva
    || (&& InHeaders(u, c)
        && c.requiredSize <= SignedLength(u, c.rva, 0, 0)
        && OutOfReach(u, c.rva + c.flagsOffset) && OutOfReach(u, c.rva + c.flagsOffset + 1))
  }

  // The policy lies in the headers, and the structure can be made long enough.
  ghost predicate PolicyCanAppear(u: seq<byte>, c: LoadConfig)
    requires PeLayout.OptionalOk(u) && CanBeSigned(u)
  {
    InHeaders(u, c) && c.requiredSize <= SignedLength(u, c.rva, 0xff, 0xf8)
  }

  // Whatever a signer does, the image has the policy it had, or still none.
  ghost predicate SigningKeepsPolicy(u: seq<byte>)
    requires PeLayout.OptionalOk(u) && CanBeSigned(u)
  {
    LoadConfigOk(u) ==>
      if exists flags :: LoadsWith(u, flags) then PolicyFixed(u, LoadConfigOf(u))
      else !PolicyCanAppear(u, LoadConfigOf(u))
  }

  // ---- bytes of a signed form ---------------------------------------------------------

  lemma SignedBytes(u: seq<byte>, checksum: seq<byte>, blob: seq<byte>, p: nat)
    requires PeLayout.HeadersOk(u) && |checksum| == 4 && Signable(u, blob) && p < |u|
    ensures CanBeSigned(u)
    ensures Sign(u, checksum, blob)[p] ==
            if InChecksum(u, p) then checksum[p - PeLayout.ChecksumField(u)]
            else if InTableOffset(u, p) then Le32(|u|)[p - PeLayout.SecurityDirectory(u)]
            else if InTableSize(u, p) then Le32(RoundUp8(8 + |blob|))[p - PeLayout.SecurityDirectory(u) - 4]
            else u[p]
  {
    hide U16, U32, PeLayout.OptionalOk, Sign;
    MaskInsideHeaders(u);
    SignWrites(u, checksum, blob);
    var g, c, d := Sign(u, checksum, blob), PeLayout.ChecksumField(u), PeLayout.SecurityDirectory(u);
    Le32Inverse(g, d);
    Le32Inverse(g, d + 4);
    assert InChecksum(u, p) ==> g[p] == g[c..c + 4][p - c];
    assert InTableOffset(u, p) ==> g[p] == g[d..d + 4][p - d];
    assert InTableSize(u, p) ==> g[p] == g[d + 4..d + 8][p - d - 4];
  }

  // The directory entry of an unsigned image is empty.
  lemma EmptyDirectory(u: seq<byte>, p: nat)
    requires Accepts(u, Unsigned) && (InTableOffset(u, p) || InTableSize(u, p))
    ensures p < |u| && u[p] == 0
  {
    hide PeLayout.OneCertificate, PeLayout.SectionsWithin;
    MaskInsideHeaders(u);
    ZeroField(u, PeLayout.SecurityDirectory(u));
    ZeroField(u, PeLayout.SecurityDirectory(u) + 4);
  }

  lemma ZeroField(b: seq<byte>, at: nat)
    requires at + 4 <= |b| && U32(b, at) == 0
    ensures b[at] == 0 && b[at + 1] == 0 && b[at + 2] == 0 && b[at + 3] == 0
  {
  }

  // No signed form has a shorter length field than under zero bytes, and one with a zero checksum
  // is that short if the field misses the directory entry.
  lemma LengthAtLeast(u: seq<byte>, checksum: seq<byte>, blob: seq<byte>, at: nat)
    requires PeLayout.HeadersOk(u) && |checksum| == 4 && Signable(u, blob) && at + 4 <= |u|
    ensures CanBeSigned(u) && SignedLength(u, at, 0, 0) <= U32(Sign(u, checksum, blob), at)
  {
    hide PeLayout.HeadersOk, PeLayout.OptionalOk, Sign, InChecksum, InTableOffset, InTableSize;
    SignedBytes(u, checksum, blob, at);
    SignedBytes(u, checksum, blob, at + 1);
    SignedBytes(u, checksum, blob, at + 2);
    SignedBytes(u, checksum, blob, at + 3);
  }

  // With these bytes throughout, the length is exactly the one foreseen.
  lemma LengthReached(u: seq<byte>, checksum: seq<byte>, blob: seq<byte>, at: nat, checksumByte: byte, sizeByte: byte)
    requires PeLayout.HeadersOk(u) && Signable(u, blob) && at + 4 <= |u|
    requires checksum == [checksumByte, checksumByte, checksumByte, checksumByte]
    requires || Le32(RoundUp8(8 + |blob|)) == [sizeByte, sizeByte, sizeByte, sizeByte]
             || forall p :: at <= p < at + 4 ==> !InTableSize(u, p)
    ensures CanBeSigned(u) && U32(Sign(u, checksum, blob), at) == SignedLength(u, at, checksumByte, sizeByte)
  {
    hide PeLayout.HeadersOk, PeLayout.OptionalOk, Sign;
    SignedBytes(u, checksum, blob, at);
    SignedBytes(u, checksum, blob, at + 1);
    SignedBytes(u, checksum, blob, at + 2);
    SignedBytes(u, checksum, blob, at + 3);
  }

  // What a policy in the headers means for either image.
  lemma HeaderPolicy(b: seq<byte>, c: LoadConfig, flags: u16)
    requires LoadConfigOk(b) && c == LoadConfigOf(b) && InHeaders(b, c)
    ensures LoadsWith(b, flags) <==> c.requiredSize <= U32(b, c.rva) && U16(b, c.rva + c.flagsOffset) == flags
  {
    hide U16, U32, LoadConfigOk, LoadConfigOf;
    assert LoadConfigAt(b, c, c.rva);
  }

  lemma PolicyInHeaders(b: seq<byte>, flags: u16)
    requires LoadsWith(b, flags) && LoadConfigOf(b).rva < LoadConfigOf(b).sizeOfHeaders <= |b|
    ensures InHeaders(b, LoadConfigOf(b))
  {
    hide U16, U32;
  }

  lemma SignedHeader(u: seq<byte>, checksum: seq<byte>, blob: seq<byte>)
    requires Accepts(u, Unsigned) && |checksum| == 4 && Signable(u, blob)
    ensures CanBeSigned(u) && Extends(u, Sign(u, checksum, blob))
    ensures LoadConfigOk(Sign(u, checksum, blob)) <==> LoadConfigOk(u)
    ensures LoadConfigOk(u) ==> LoadConfigOf(Sign(u, checksum, blob)) == LoadConfigOf(u)
    ensures LoadConfigOk(u) ==> LoadConfigOf(u).sizeOfHeaders <= |u| <= |Sign(u, checksum, blob)|
  {
    hide U16, U32, Sign, LoadConfigOk;
    SignWrites(u, checksum, blob);
    SameLoadConfig(u, Sign(u, checksum, blob));
    if LoadConfigOk(u) {
      SameSections(u, u, LoadConfigOf(u));
    }
  }

  // ---- images that have a policy ------------------------------------------------------

  lemma FixedIsKept(u: seq<byte>, checksum: seq<byte>, blob: seq<byte>, flags: u16)
    requires Accepts(u, Unsigned) && |checksum| == 4 && Signable(u, blob)
    requires LoadsWith(u, flags) && PolicyFixed(u, LoadConfigOf(u))
    ensures LoadsWith(Sign(u, checksum, blob), flags)
  {
    hide U16, U32, Sign, LoadConfigOk, LoadConfigOf, LoadsWith, SignedLength, InChecksum, InTableOffset, InTableSize;
    var g := Sign(u, checksum, blob);
    var c := PolicyConfig(u, flags);
    SignedHeader(u, checksum, blob);
    if c.sizeOfHeaders <= c.rva {
      PolicySurvivesSigning(u, g, flags);
    } else {
      var f := c.rva + c.flagsOffset;
      LengthAtLeast(u, checksum, blob, c.rva);
      KeptByte(u, checksum, blob, f);
      KeptByte(u, checksum, blob, f + 1);
      SameU16(g, u, f);
      HeaderPolicy(u, c, flags);
      HeaderPolicy(g, c, flags);
    }
  }

  lemma PolicyConfig(b: seq<byte>, flags: u16) returns (c: LoadConfig)
    requires LoadsWith(b, flags)
    ensures LoadConfigOk(b) && c == LoadConfigOf(b)
  {
    c := LoadConfigOf(b);
  }

  lemma KeptByte(u: seq<byte>, checksum: seq<byte>, blob: seq<byte>, p: nat)
    requires Accepts(u, Unsigned) && |checksum| == 4 && Signable(u, blob) && p < |u|
    requires CanBeSigned(u) && OutOfReach(u, p)
    ensures Sign(u, checksum, blob)[p] == u[p]
  {
    hide U16, U32, Sign, InChecksum, InTableOffset, InTableSize;
    SignedBytes(u, checksum, blob, p);
    if InTableOffset(u, p) {
      EmptyDirectory(u, p);
    }
  }

  // A certificate that fills every byte of the table size with 0xf8.
  const FULL_BLOB: seq<byte> := seq(0xf8f8_f8f0, _ => 0)

  lemma FullBlob(u: seq<byte>)
    requires CanBeSigned(u)
    ensures Signable(u, FULL_BLOB) && Signable(u, [0])
    ensures Le32(RoundUp8(8 + |FULL_BLOB|)) == [0xf8, 0xf8, 0xf8, 0xf8]
  {
  }

  // Under the zero checksum a structure can only get too short where it meets the checksum field.
  lemma ShortMeetsChecksum(u: seq<byte>, at: nat)
    requires Accepts(u, Unsigned) && CanBeSigned(u) && at + 4 <= |u|
    requires SignedLength(u, at, 0, 0) < U32(u, at)
    ensures forall p :: at <= p < at + 4 ==> !InTableSize(u, p)
  {
    hide PeLayout.HeadersOk, PeLayout.OptionalOk, Accepts, PeLayout.CertificateOk, PeLayout.Accepted;
    FieldsApart(u);
    if !InChecksum(u, at) && !InChecksum(u, at + 1) && !InChecksum(u, at + 2) && !InChecksum(u, at + 3) {
      ByteAtLeast(u, at);
      ByteAtLeast(u, at + 1);
      ByteAtLeast(u, at + 2);
      ByteAtLeast(u, at + 3);
      LengthNotLess(u, at);
    }
  }

  lemma FieldsApart(u: seq<byte>)
    requires Accepts(u, Unsigned)
    ensures PeLayout.OptionalOk(u) && PeLayout.ChecksumField(u) + 64 <= PeLayout.SecurityDirectory(u)
  {
    MaskInsideHeaders(u);
  }

  lemma ByteAtLeast(u: seq<byte>, p: nat)
    requires Accepts(u, Unsigned) && CanBeSigned(u) && p < |u| && !InChecksum(u, p)
    ensures u[p] <= SignedByte(u, p, 0, 0)
  {
    hide U16, U32, PeLayout.CertificateOk, InTableOffset, InTableSize;
    if InTableOffset(u, p) || InTableSize(u, p) {
      EmptyDirectory(u, p);
    }
  }

  lemma LengthNotLess(u: seq<byte>, at: nat)
    requires PeLayout.OptionalOk(u) && CanBeSigned(u) && at + 4 <= |u|
    requires forall p :: at <= p < at + 4 ==> u[p] <= SignedByte(u, p, 0, 0)
    ensures U32(u, at) <= SignedLength(u, at, 0, 0)
  {
    hide SignedByte, PeLayout.OptionalOk;
    assert u[at] <= SignedByte(u, at, 0, 0) && u[at + 1] <= SignedByte(u, at + 1, 0, 0);
    assert u[at + 2] <= SignedByte(u, at + 2, 0, 0) && u[at + 3] <= SignedByte(u, at + 3, 0, 0);
  }

  // Makes a reachable policy differ.
  lemma ReachedIsBroken(u: seq<byte>, flags: u16) returns (checksum: seq<byte>, blob: seq<byte>)
    requires Accepts(u, Unsigned) && CanBeSigned(u) && LoadsWith(u, flags) && !PolicyFixed(u, LoadConfigOf(u))
    ensures |checksum| == 4 && Signable(u, blob) && !LoadsWith(Sign(u, checksum, blob), flags)
  {
    hide U16, U32, Sign, LoadConfigOk, LoadConfigOf, LoadsWith, SignedLength, InChecksum, InTableOffset, InTableSize;
    var c := PolicyConfig(u, flags);
    FullBlob(u);
    SignedHeader(u, [0, 0, 0, 0], [0]);
    PolicyInHeaders(u, flags);
    if SignedLength(u, c.rva, 0, 0) < c.requiredSize {
      checksum, blob := [0, 0, 0, 0], [0];
      TooShort(u, c, flags);
    } else if !OutOfReach(u, c.rva + c.flagsOffset) {
      checksum, blob := ReachedByte(u, c.rva + c.flagsOffset, flags);
    } else {
      checksum, blob := ReachedByte(u, c.rva + c.flagsOffset + 1, flags);
    }
  }

  lemma TooShort(u: seq<byte>, c: LoadConfig, flags: u16)
    requires Accepts(u, Unsigned) && CanBeSigned(u) && LoadsWith(u, flags) && c == LoadConfigOf(u) && InHeaders(u, c)
    requires Signable(u, [0]) && SignedLength(u, c.rva, 0, 0) < c.requiredSize
    ensures !LoadsWith(Sign(u, [0, 0, 0, 0], [0]), flags)
  {
    hide U16, U32, Sign, SignedLength, LoadConfigOf, LoadConfigOk;
    var g := Sign(u, [0, 0, 0, 0], [0]);
    var _ := PolicyConfig(u, flags);
    SignedHeader(u, [0, 0, 0, 0], [0]);
    HeaderPolicy(u, c, flags);
    ShortMeetsChecksum(u, c.rva);
    LengthReached(u, [0, 0, 0, 0], [0], c.rva, 0, 0);
    HeaderPolicy(g, c, flags);
  }

  lemma ReachedByte(u: seq<byte>, p: nat, flags: u16) returns (checksum: seq<byte>, blob: seq<byte>)
    requires Accepts(u, Unsigned) && CanBeSigned(u) && LoadsWith(u, flags) && InHeaders(u, LoadConfigOf(u))
    requires var f := LoadConfigOf(u).rva + LoadConfigOf(u).flagsOffset; f <= p < f + 2
    requires !OutOfReach(u, p)
    ensures |checksum| == 4 && Signable(u, blob) && !LoadsWith(Sign(u, checksum, blob), flags)
  {
    hide U16, U32, Sign, LoadConfigOk, LoadConfigOf, LoadsWith;
    FullBlob(u);
    var c := PolicyConfig(u, flags);
    if InChecksum(u, p) {
      blob := [0];
      checksum := ChecksumCanChangePolicy(u, p, flags, blob);
    } else {
      checksum, blob := [0, 0, 0, 0], FULL_BLOB;
      SignedBytes(u, checksum, blob, p);
      EmptyDirectory(u, p);
      SignedHeader(u, checksum, blob);
      HeaderFlagsDiffer(u, Sign(u, checksum, blob), p, flags);
    }
  }

  // The image is signed with this checksum and blob, and the result has the policy `flags`.
  ghost predicate SignsTo(u: seq<byte>, checksum: seq<byte>, blob: seq<byte>, flags: u16)
    requires PeLayout.HeadersOk(u)
  {
    |checksum| == 4 && Signable(u, blob) && LoadsWith(Sign(u, checksum, blob), flags)
  }

  /** Every signing keeps the policy of an image exactly when the condition on its bytes holds. */
  lemma PolicyKeptExactly(u: seq<byte>, flags: u16)
    requires Accepts(u, Unsigned) && CanBeSigned(u) && LoadsWith(u, flags)
    ensures (forall checksum, blob :: |checksum| == 4 && Signable(u, blob) ==> SignsTo(u, checksum, blob, flags))
            <==> PolicyFixed(u, LoadConfigOf(u))
  {
    hide U16, U32, Sign, LoadConfigOk, LoadConfigOf, LoadsWith, PolicyFixed, Signable;
    var c := PolicyConfig(u, flags);
    if PolicyFixed(u, c) {
      forall checksum, blob | |checksum| == 4 && Signable(u, blob)
        ensures SignsTo(u, checksum, blob, flags)
      {
        FixedIsKept(u, checksum, blob, flags);
      }
    } else {
      var checksum, blob := ReachedIsBroken(u, flags);
      assert !SignsTo(u, checksum, blob, flags);
    }
  }

  // ---- images that have none ----------------------------------------------------------

  // A field the signer does not touch keeps its length, and one that he does can be made long.
  lemma LengthAtMost(u: seq<byte>, checksum: seq<byte>, blob: seq<byte>, at: nat)
    requires PeLayout.HeadersOk(u) && |checksum| == 4 && Signable(u, blob) && at + 4 <= |u|
    ensures CanBeSigned(u)
    ensures U32(Sign(u, checksum, blob), at) == SignedLength(u, at, 0xff, 0xf8)
          || 0xf8 <= SignedLength(u, at, 0xff, 0xf8)
  {
    hide PeLayout.HeadersOk, PeLayout.OptionalOk, Sign, InChecksum, InTableOffset, InTableSize;
    SignedBytes(u, checksum, blob, at);
    SignedBytes(u, checksum, blob, at + 1);
    SignedBytes(u, checksum, blob, at + 2);
    SignedBytes(u, checksum, blob, at + 3);
  }

  lemma NoneAppears(u: seq<byte>, checksum: seq<byte>, blob: seq<byte>, flags: u16)
    requires Accepts(u, Unsigned) && SignsTo(u, checksum, blob, flags) && !LoadsWith(u, flags)
    ensures CanBeSigned(u) && LoadConfigOk(u) && PolicyCanAppear(u, LoadConfigOf(u))
  {
    hide U16, U32, Sign, LoadConfigOk, LoadConfigOf, LoadsWith, SignedLength;
    var g := Sign(u, checksum, blob);
    SignedHeader(u, checksum, blob);
    var c := PolicyConfig(g, flags);
    if c.sizeOfHeaders <= c.rva {
      PolicySurvivesSigning(u, g, flags);
    } else {
      PolicyInHeaders(g, flags);
      HeaderPolicy(g, c, flags);
      LengthAtMost(u, checksum, blob, c.rva);
    }
  }

  lemma OneAppears(u: seq<byte>) returns (checksum: seq<byte>, blob: seq<byte>, flags: u16)
    requires Accepts(u, Unsigned) && CanBeSigned(u) && LoadConfigOk(u) && PolicyCanAppear(u, LoadConfigOf(u))
    ensures SignsTo(u, checksum, blob, flags)
  {
    hide U16, U32, Sign, LoadConfigOk, LoadConfigOf, LoadsWith, SignedLength;
    FullBlob(u);
    checksum, blob := [0xff, 0xff, 0xff, 0xff], FULL_BLOB;
    var g, c := Sign(u, checksum, blob), LoadConfigOf(u);
    SignedHeader(u, checksum, blob);
    LengthReached(u, checksum, blob, c.rva, 0xff, 0xf8);
    flags := U16(g, c.rva + c.flagsOffset);
    HeaderPolicy(g, c, flags);
  }

  /** Signing can give an image without a readable policy one exactly when its structure lies in
      the headers and the signer's bytes can make it long enough. */
  lemma PolicyAppearsExactly(u: seq<byte>)
    requires Accepts(u, Unsigned) && CanBeSigned(u) && forall flags :: !LoadsWith(u, flags)
    ensures (exists checksum, blob, flags :: SignsTo(u, checksum, blob, flags))
            <==> LoadConfigOk(u) && PolicyCanAppear(u, LoadConfigOf(u))
  {
    hide U16, U32, Sign, LoadConfigOk, LoadConfigOf, LoadsWith, PolicyCanAppear, SignsTo;
    if exists checksum, blob, flags :: SignsTo(u, checksum, blob, flags) {
      var checksum, blob, flags :| SignsTo(u, checksum, blob, flags);
      NoneAppears(u, checksum, blob, flags);
    }
    if LoadConfigOk(u) && PolicyCanAppear(u, LoadConfigOf(u)) {
      var checksum, blob, flags := OneAppears(u);
    }
  }

  // ---- both together ------------------------------------------------------------------

  lemma OnePolicy(b: seq<byte>, x: u16, y: u16)
    requires LoadsWith(b, x) && LoadsWith(b, y)
    ensures x == y
  {
    hide U16, U32, LoadConfigOk;
    var c := LoadConfigOf(b);
    var at: nat :| LoadConfigAt(b, c, at) && FlagsAt(b, c, at, x);
    StoredOnce(b, c, at);
  }

  // The signed form has the policies of the image, and no other.
  ghost predicate SamePolicies(u: seq<byte>, checksum: seq<byte>, blob: seq<byte>)
    requires PeLayout.HeadersOk(u) && |checksum| == 4 && Signable(u, blob)
  {
    forall flags :: LoadsWith(u, flags) <==> LoadsWith(Sign(u, checksum, blob), flags)
  }

  lemma KeptEitherWay(u: seq<byte>, checksum: seq<byte>, blob: seq<byte>)
    requires Accepts(u, Unsigned) && |checksum| == 4 && Signable(u, blob)
    requires CanBeSigned(u) && SigningKeepsPolicy(u)
    ensures SamePolicies(u, checksum, blob)
  {
    hide U16, U32, Sign, LoadConfigOk, LoadConfigOf, LoadsWith, PolicyCanAppear, PolicyFixed;
    var g := Sign(u, checksum, blob);
    if flags :| LoadsWith(u, flags) {
      var _ := PolicyConfig(u, flags);
      FixedIsKept(u, checksum, blob, flags);
      forall other | LoadsWith(u, other) || LoadsWith(g, other)
        ensures other == flags
      {
        if LoadsWith(u, other) {
          OnePolicy(u, flags, other);
        } else {
          OnePolicy(g, flags, other);
        }
      }
    } else {
      forall flags
        ensures !LoadsWith(g, flags)
      {
        if LoadsWith(g, flags) {
          assert SignsTo(u, checksum, blob, flags);
          NoneAppears(u, checksum, blob, flags);
        }
      }
    }
  }

  /** No signing changes the load policy of an image, whether it has one or not, exactly when a
      condition on the image's own bytes holds. */
  lemma SigningKeepsPolicyExactly(u: seq<byte>)
    requires Accepts(u, Unsigned) && CanBeSigned(u)
    ensures (forall checksum, blob :: |checksum| == 4 && Signable(u, blob) ==> SamePolicies(u, checksum, blob))
            <==> SigningKeepsPolicy(u)
  {
    hide U16, U32, Sign, LoadConfigOf, LoadsWith, PolicyCanAppear, PolicyFixed, Signable;
    if SigningKeepsPolicy(u) {
      forall checksum, blob | |checksum| == 4 && Signable(u, blob)
        ensures SamePolicies(u, checksum, blob)
      {
        KeptEitherWay(u, checksum, blob);
      }
    } else if flags :| LoadsWith(u, flags) {
      var checksum, blob := ReachedIsBroken(u, flags);
      assert !SamePolicies(u, checksum, blob);
    } else {
      var checksum, blob, flags := OneAppears(u);
      assert !SamePolicies(u, checksum, blob);
    }
  }
}
