/** The two parsers together: signing an image does not change its load policy. */
module LoadPolicy {
  import opened Bytes
  import PeLayout
  import opened PeSigning
  import opened PeLoad

  // Byte `p` belongs to the length or the flags of the structure at `offset`.
  ghost predicate PolicyByte(c: LoadConfig, offset: nat, p: int) {
    offset <= p < offset + 4 || offset + c.flagsOffset <= p < offset + c.flagsOffset + 2
  }

  // Both fields that hold the policy lie outside the bytes signing rewrites.
  ghost predicate PolicyUnmasked(u: seq<byte>, c: LoadConfig)
    requires PeLayout.OptionalOk(u)
  {
    || c.sizeOfHeaders <= c.rva
    || forall p :: PolicyByte(c, c.rva, p) ==> !Masked(u, p)
  }

  // `g` is at least as long as `u` and agrees with it outside the two masked fields.
  ghost predicate Extends(u: seq<byte>, g: seq<byte>)
    requires PeLayout.OptionalOk(u)
  {
    |u| <= |g| && forall i :: 0 <= i < |u| && !Masked(u, i) ==> g[i] == u[i]
  }

  // Every header field the second parser reads is outside the mask.
  lemma SameLoadConfig(u: seq<byte>, g: seq<byte>)
    requires PeLayout.HeadersOk(u) && Extends(u, g)
    ensures LoadConfigOk(g) <==> LoadConfigOk(u)
    ensures LoadConfigOk(u) ==> LoadConfigOf(g) == LoadConfigOf(u)
  {
    hide U16, U32;
    MaskInsideHeaders(u);
    SigningKeepsFields(u, g);
    SameU32(g, u, 0x3c);
    var pe := U32(u, 0x3c);
    assert g[pe..pe + 4] == u[pe..pe + 4];
    SameU16(g, u, pe + 6);
    SameU16(g, u, pe + 20);
    SameU16(g, u, pe + 24);
    var directories := DirectoriesOffset(U16(u, pe + 24));
    assert directories == PeLayout.DirectoriesAt(U16(u, pe + 24));
    SameU32(g, u, pe + 24 + 60);
    SameU32(g, u, pe + 24 + directories - 4);
    if directories + 88 <= U16(u, pe + 20) {
      SameU32(g, u, pe + 24 + directories + 80);
      SameU32(g, u, pe + 24 + directories + 84);
    }
  }

  // Sections store the range at the same place, behind the headers and within the unsigned image.
  lemma SameMapping(u: seq<byte>, g: seq<byte>, c: LoadConfig, offset: int)
    requires PeLayout.HeadersOk(u) && PeLayout.SectionsWithin(u, |u|) && Extends(u, g)
    requires LoadConfigOk(u) && c == LoadConfigOf(u)
    ensures LoadConfigAt(u, c, offset) <==> LoadConfigAt(g, c, offset)
    ensures LoadConfigAt(u, c, offset) && c.sizeOfHeaders <= c.rva ==> c.sizeOfHeaders <= offset
    ensures LoadConfigAt(u, c, offset) ==> offset + c.requiredSize <= |u|
  {
    hide U16, U32;
    if c.sizeOfHeaders <= c.rva {
      var table := Sections(u, c.sections, c.sectionCount);
      SameSections(u, g, c);
      forall i: nat | i < |table| && table[i].rawSize != 0
        ensures c.sizeOfHeaders <= table[i].rawPointer && table[i].rawPointer + table[i].rawSize <= |u|
      {
        assert PeLayout.Extents(u)[i].Within(c.sizeOfHeaders, |u|);
      }
      assert forall i: nat :: SoleMapping(table, i, c.rva, c.requiredSize, |u|) <==>
          SoleMapping(table, i, c.rva, c.requiredSize, |g|);
    }
  }

  lemma SameSections(u: seq<byte>, g: seq<byte>, c: LoadConfig)
    requires PeLayout.HeadersOk(u) && Extends(u, g)
    requires LoadConfigOk(u) && c == LoadConfigOf(u)
    ensures Sections(g, c.sections, c.sectionCount) == Sections(u, c.sections, c.sectionCount)
    ensures c.sections == PeLayout.OptionalEnd(u) && c.sectionCount == PeLayout.SectionCount(u)
    ensures c.sizeOfHeaders == PeLayout.SizeOfHeaders(u)
    ensures forall i :: 0 <= i < c.sectionCount ==>
              var s := Sections(u, c.sections, c.sectionCount)[i];
              PeLayout.Extents(u)[i] == PeLayout.Extent(s.rawPointer, s.rawSize)
  {
    hide U16, U32;
    MaskInsideHeaders(u);
    forall i | 0 <= i < c.sectionCount
      ensures Sections(g, c.sections, c.sectionCount)[i] == Sections(u, c.sections, c.sectionCount)[i]
    {
      var header := c.sections + i * SECTION_HEADER_SIZE;
      assert header + 40 <= PeLayout.OptionalEnd(u) + PeLayout.SectionCount(u) * 40;
      SameU32(g, u, header + 8);
      SameU32(g, u, header + 12);
      SameU32(g, u, header + 16);
      SameU32(g, u, header + 20);
    }
  }

  // The two fields that hold the policy have the same value wherever signing leaves them alone.
  lemma SamePolicyFields(u: seq<byte>, g: seq<byte>, c: LoadConfig, offset: nat, flags: u16)
    requires PeLayout.HeadersOk(u) && PeLayout.SectionsWithin(u, |u|) && Extends(u, g)
    requires LoadConfigOk(u) && c == LoadConfigOf(u) && PolicyUnmasked(u, c)
    requires LoadConfigAt(u, c, offset)
    ensures FlagsAt(u, c, offset, flags) <==> FlagsAt(g, c, offset, flags)
  {
    hide U16, U32;
    MaskInsideHeaders(u);
    SameMapping(u, g, c, offset);
    assert c.sizeOfHeaders == PeLayout.SizeOfHeaders(u);
    assert c.sizeOfHeaders <= c.rva || offset == c.rva;
    assert forall p :: PolicyByte(c, offset, p) ==> !Masked(u, p);
    var f := offset + c.flagsOffset;
    assert PolicyByte(c, offset, offset) && PolicyByte(c, offset, offset + 1) && PolicyByte(c, offset, offset + 2);
    assert PolicyByte(c, offset, offset + 3) && PolicyByte(c, offset, f) && PolicyByte(c, offset, f + 1);
    SameU32(g, u, offset);
    SameU16(g, u, f);
  }

  /** The load policy survives signing: an accepted image and whatever extends it outside the
      masked fields load their dependents under the same flags, or neither has readable flags. */
  lemma PolicySurvivesSigning(u: seq<byte>, g: seq<byte>, flags: u16)
    requires PeLayout.Accepted(u) && Extends(u, g)
    requires LoadConfigOk(u) ==> PolicyUnmasked(u, LoadConfigOf(u))
    ensures LoadsWith(u, flags) <==> LoadsWith(g, flags)
  {
    hide U16, U32;
    SameLoadConfig(u, g);
    if LoadConfigOk(u) {
      var c := LoadConfigOf(u);
      forall offset: nat
        ensures LoadConfigAt(u, c, offset) && FlagsAt(u, c, offset, flags) <==>
              LoadConfigAt(g, c, offset) && FlagsAt(g, c, offset, flags)
      {
        SameMapping(u, g, c, offset);
        if LoadConfigAt(u, c, offset) {
          SamePolicyFields(u, g, c, offset, flags);
        }
      }
    }
  }

  // ---- policies stored in the headers -------------------------------------------------

  lemma U16Determines(a: seq<byte>, b: seq<byte>, at: nat)
    requires at + 2 <= |a| && at + 2 <= |b| && U16(a, at) == U16(b, at)
    ensures a[at] == b[at] && a[at + 1] == b[at + 1]
  {
  }

  // Where the flags share a byte with the checksum field, a signer's checksum changes the policy.
  lemma ChecksumCanChangePolicy(u: seq<byte>, p: nat, flags: u16, blob: seq<byte>) returns (checksum: seq<byte>)
    requires Accepts(u, Unsigned) && Signable(u, blob) && LoadsWith(u, flags)
    requires var c := LoadConfigOf(u);
      && c.rva < c.sizeOfHeaders
      && c.rva + c.flagsOffset <= p < c.rva + c.flagsOffset + 2
      && PeLayout.ChecksumField(u) <= p < PeLayout.ChecksumField(u) + 4
    ensures |checksum| == 4 && !LoadsWith(Sign(u, checksum, blob), flags)
  {
    hide U16, U32;
    var field := PeLayout.ChecksumField(u);
    MaskInsideHeaders(u);
    checksum := u[field..field + 4][p - field := if u[p] == 0 then 1 else 0];
    var g := Sign(u, checksum, blob);
    SignWrites(u, checksum, blob);
    SameLoadConfig(u, g);
    assert g[p] == g[field..field + 4][p - field] != u[p];
    HeaderFlagsDiffer(u, g, p, flags);
  }

  lemma HeaderFlagsDiffer(u: seq<byte>, g: seq<byte>, p: nat, flags: u16)
    requires LoadsWith(u, flags) && LoadConfigOk(g) && LoadConfigOf(g) == LoadConfigOf(u)
    requires var c := LoadConfigOf(u); c.rva < c.sizeOfHeaders && c.rva + c.flagsOffset <= p < c.rva + c.flagsOffset + 2
    requires p < |u| && p < |g| && g[p] != u[p]
    ensures !LoadsWith(g, flags)
  {
    hide U16, U32;
    if LoadsWith(g, flags) {
      U16Determines(u, g, LoadConfigOf(u).rva + LoadConfigOf(u).flagsOffset);
    }
  }

  // A 512-byte PE32+ image whose only section is empty, with a System32-only policy in its
  // headers: the flags are the low half of the checksum.
  const HEADER_POLICY: seq<byte> := seq(0x200, i requires 0 <= i < 0x200 => HeaderPolicyByte(i))

  function HeaderPolicyByte(i: nat): byte {
    match i
    case 0x00 => 0x4d case 0x01 => 0x5a case 0x3c => 0x40
    case 0x40 => 0x50 case 0x41 => 0x45
    case 0x46 => 0x01 case 0x54 => 0xf0
    case 0x4a => 0x50 // the load configuration: its length, 80
    case 0x58 => 0x0b case 0x59 => 0x02
    case 0x95 => 0x02 // SizeOfHeaders
    case 0x99 => 0x08 // the checksum field from 0x98 on
    case 0xc4 => 0x10 // directory count
    case 0x118 => 0x4a case 0x11c => 0x50 // the load-config directory entry
    case _ => 0
  }

  /** An accepted image that meets the gate before signing and fails it after some signing. */
  lemma SigningCanBreakHeaderPolicy() returns (checksum: seq<byte>)
    ensures Accepts(HEADER_POLICY, Unsigned) && LoadsWith(HEADER_POLICY, 0x800) && Signable(HEADER_POLICY, [0])
    ensures |checksum| == 4 && Accepts(Sign(HEADER_POLICY, checksum, [0]), Signed)
    ensures !LoadsWith(Sign(HEADER_POLICY, checksum, [0]), 0x800)
  {
    var u := HEADER_POLICY;
    HeaderPolicyAccepted();
    checksum := ChecksumCanChangePolicy(u, 0x98, 0x800, [0]);
    SignIsAccepted(u, checksum, [0]);
  }

  lemma HeaderPolicyAccepted()
    ensures Accepts(HEADER_POLICY, Unsigned)
    ensures LoadConfigOk(HEADER_POLICY) && LoadConfigOf(HEADER_POLICY) == LoadConfig(0x4a, 80, 78, 0x200, 0x148, 1)
    ensures LoadsWith(HEADER_POLICY, 0x800)
    ensures PeLayout.ChecksumField(HEADER_POLICY) == 0x98
  {
    hide U16, U32;
    HeaderPolicyStarts(HEADER_POLICY);
    HeaderPolicyContinues(HEADER_POLICY);
    HeaderPolicyParses(HEADER_POLICY);
  }

  lemma HeaderPolicyStarts(u: seq<byte>)
    requires u == HEADER_POLICY
    ensures |u| == 0x200 && u[0] == 0x4d && u[1] == 0x5a && u[0x40..0x44] == [0x50, 0x45, 0, 0]
    ensures U32(u, 0x3c) == 0x40 && U16(u, 0x46) == 1 && U16(u, 0x54) == 0xf0 && U16(u, 0x58) == 0x20b
    ensures U32(u, 0x4a) == 80 && U16(u, 0x98) == 0x800
  {
    assert u[0x40..0x44] == [0x50, 0x45, 0, 0];
  }

  lemma HeaderPolicyContinues(u: seq<byte>)
    requires u == HEADER_POLICY
    ensures |u| == 0x200
    ensures U32(u, 0x94) == 0x200 && U32(u, 0xc4) == 16 && U32(u, 0xe8) == 0 && U32(u, 0xec) == 0
    ensures U32(u, 0x118) == 0x4a && U32(u, 0x11c) == 80 && U32(u, 0x158) == 0 && U32(u, 0x15c) == 0
  {
  }

  lemma HeaderPolicyParses(u: seq<byte>)
    requires |u| == 0x200 && u[0] == 0x4d && u[1] == 0x5a && u[0x40..0x44] == [0x50, 0x45, 0, 0]
    requires U32(u, 0x3c) == 0x40 && U16(u, 0x46) == 1 && U16(u, 0x54) == 0xf0 && U16(u, 0x58) == 0x20b
    requires U32(u, 0x94) == 0x200 && U32(u, 0xc4) == 16 && U32(u, 0xe8) == 0 && U32(u, 0xec) == 0
    requires U32(u, 0x118) == 0x4a && U32(u, 0x11c) == 80 && U32(u, 0x158) == 0 && U32(u, 0x15c) == 0
    requires U32(u, 0x4a) == 80 && U16(u, 0x98) == 0x800
    ensures Accepts(u, Unsigned) && LoadsWith(u, 0x800) && PeLayout.ChecksumField(u) == 0x98
    ensures LoadConfigOk(u) && LoadConfigOf(u) == LoadConfig(0x4a, 80, 78, 0x200, 0x148, 1)
  {
    hide U16, U32;
    assert PeLayout.OptionalOk(u);
    assert PeLayout.Extents(u) == [PeLayout.Extent(0, 0)];
    assert LoadConfigAt(u, LoadConfigOf(u), 0x4a) && FlagsAt(u, LoadConfigOf(u), 0x4a, 0x800);
  }
}
