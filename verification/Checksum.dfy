/** Lower-case hex identities.  SHA-256 itself is a parameter: any total function to 32 bytes. */
module Checksum {
  import opened Bytes
  import opened Text

  type Digest = d: seq<byte> | |d| == 32 witness seq(32, _ => 0)

  type Sha256 = seq<byte> -> Digest

  const SHA256_HEX_LEN: nat := 64

  const HEX_DIGITS := "0123456789abcdef"

  predicate IsHexDigit(c: char) {
    '0' <= c <= '9' || 'a' <= c <= 'f'
  }

  function DigitValue(c: char): (v: nat)
    requires IsHexDigit(c)
    ensures v < 16
  {
    if c <= '9' then c as int - '0' as int else 10 + c as int - 'a' as int
  }

  function HexByte(b: byte): (s: string)
    ensures |s| == 2 && IsHexDigit(s[0]) && IsHexDigit(s[1])
  {
    [HEX_DIGITS[b / 16], HEX_DIGITS[b % 16]]
  }

  function Hex(d: seq<byte>): (s: string)
    ensures |s| == 2 * |d|
    ensures forall c :: c in s ==> IsHexDigit(c)
  {
    if d == [] then "" else HexByte(d[0]) + Hex(d[1..])
  }

  // The textual identity of `bytes`.
  function Identity(sha: Sha256, bytes: seq<byte>): (s: string)
    ensures IsSha256(s)
  {
    Hex(sha(bytes))
  }

  predicate IsSha256(value: string) {
    |value| == SHA256_HEX_LEN && forall c :: c in value ==> '0' <= c <= '9' || 'a' <= c <= 'f'
  }

  method Sha256Hex(sha: Sha256, bytes: seq<byte>) returns (s: string)
    ensures s == Identity(sha, bytes)
  {
    var digest: seq<byte> := sha(bytes);
    s := "";
    for i := 0 to |digest|
      invariant s + Hex(digest[i..]) == Hex(digest)
    {
      s := s + HexByte(digest[i]);
    }
  }

  // ---- reading hex --------------------------------------------------------------------

  predicate IsHexText(s: string) {
    |s| % 2 == 0 && forall i :: 0 <= i < |s| ==> IsHexDigit(s[i])
  }

  // Two digits a byte, the high one first.
  function FromHex(s: string): (d: seq<byte>)
    requires IsHexText(s)
    ensures |d| == |s| / 2
  {
    if s == "" then [] else [16 * DigitValue(s[0]) + DigitValue(s[1])] + FromHex(s[2..])
  }

  lemma HexDigits(v: nat)
    requires v < 16
    ensures IsHexDigit(HEX_DIGITS[v]) && DigitValue(HEX_DIGITS[v]) == v
  {
  }

  lemma DigitOfValue(c: char)
    requires IsHexDigit(c)
    ensures HEX_DIGITS[DigitValue(c)] == c
  {
    HexDigits(DigitValue(c));
  }

  lemma ByteDecodes(b: byte)
    ensures 16 * DigitValue(HexByte(b)[0]) + DigitValue(HexByte(b)[1]) == b
  {
    HexDigits(b / 16);
    HexDigits(b % 16);
  }

  lemma HighLow(high: nat, low: nat)
    requires low < 16
    ensures (16 * high + low) / 16 == high && (16 * high + low) % 16 == low
  {
  }

  lemma ByteEncodes(high: char, low: char)
    requires IsHexDigit(high) && IsHexDigit(low)
    ensures HexByte(16 * DigitValue(high) + DigitValue(low)) == [high, low]
  {
    hide DigitValue, IsHexDigit;
    HighLow(DigitValue(high), DigitValue(low));
    DigitOfValue(high);
    DigitOfValue(low);
  }

  /** Decoding undoes encoding. */
  lemma {:induction false} HexDecodes(d: seq<byte>)
    ensures IsHexText(Hex(d)) && FromHex(Hex(d)) == d
  {
    hide DigitValue, IsHexDigit, HexByte;
    if d != [] {
      HexDecodes(d[1..]);
      ByteDecodes(d[0]);
      var s := Hex(d);
      assert s[0] == HexByte(d[0])[0] && s[1] == HexByte(d[0])[1] && s[2..] == Hex(d[1..]);
      assert forall i :: 2 <= i < |s| ==> s[i] == s[2..][i - 2];
      assert d == [d[0]] + d[1..];
    }
  }

  /** Encoding undoes decoding, so every hex text stands for some bytes. */
  lemma {:induction false} HexEncodes(s: string)
    requires IsHexText(s)
    ensures Hex(FromHex(s)) == s
  {
    hide DigitValue, IsHexDigit, HexByte;
    if s != "" {
      HexEncodes(s[2..]);
      ByteEncodes(s[0], s[1]);
      assert FromHex(s)[1..] == FromHex(s[2..]);
      assert s == [s[0], s[1]] + s[2..];
    }
  }

  lemma HexInjective(a: seq<byte>, b: seq<byte>)
    requires Hex(a) == Hex(b)
    ensures a == b
  {
    HexDecodes(a);
    HexDecodes(b);
  }

  /** Decoding an identity gives the digest. */
  lemma IdentityDecodes(sha: Sha256, bytes: seq<byte>)
    ensures IsHexText(Identity(sha, bytes)) && FromHex(Identity(sha, bytes)) == sha(bytes)
  {
    HexDecodes(sha(bytes));
  }

  // `s` is the hex form of `n` bytes.
  ghost predicate Encodes(s: string, n: nat) {
    exists d: seq<byte> :: |d| == n && s == Hex(d)
  }

  lemma HexTexts(s: string, n: nat)
    ensures Encodes(s, n) <==> |s| == 2 * n && forall c :: c in s ==> '0' <= c <= '9' || 'a' <= c <= 'f'
  {
    if Encodes(s, n) {
      var d: seq<byte> :| |d| == n && s == Hex(d);
      HexDecodes(d);
    } else if |s| == 2 * n && forall c :: c in s ==> '0' <= c <= '9' || 'a' <= c <= 'f' {
      assert forall i :: 0 <= i < |s| ==> s[i] in s;
      HexEncodes(s);
    }
  }

  /** What passes for a hash in a manifest is exactly the hex form of 32 bytes. */
  lemma HashTexts(s: string)
    ensures IsSha256(s) <==> Encodes(s, 32)
  {
    HexTexts(s, 32);
  }

  // No input in `xs` shares its digest with a different one in `ys`.
  ghost predicate Distinguishes(sha: Sha256, xs: set<seq<byte>>, ys: set<seq<byte>>) {
    forall x, y :: x in xs && y in ys && sha(x) == sha(y) ==> x == y
  }

  lemma EqualIdentities(sha: Sha256, xs: set<seq<byte>>, ys: set<seq<byte>>, x: seq<byte>, y: seq<byte>)
    requires Distinguishes(sha, xs, ys) && x in xs && y in ys
    ensures Identity(sha, x) == Identity(sha, y) <==> x == y
  {
    if Identity(sha, x) == Identity(sha, y) {
      HexInjective(sha(x), sha(y));
    }
  }

  // ---- SHA256SUMS.txt -----------------------------------------------------------------

  // One line per file: hash, two spaces, name.
  function SumsBody(entries: seq<(string, string)>): string {
    if entries == [] then "" else entries[0].0 + "  " + entries[0].1 + "\n" + SumsBody(entries[1..])
  }

  method Sha256SumsBody(entries: seq<(string, string)>) returns (out: string)
    ensures out == SumsBody(entries)
  {
    out := "";
    for i := 0 to |entries|
      invariant out + SumsBody(entries[i..]) == SumsBody(entries)
    {
      var (hash, name) := entries[i];
      assert SumsBody(entries[i..]) == hash + "  " + name + "\n" + SumsBody(entries[i + 1..]);
      out := out + (hash + "  " + name + "\n");
    }
  }

  /** Read as lines, the body is the list: each hash, two spaces and its name. */
  lemma {:induction false} SumsLines(entries: seq<(string, string)>)
    requires forall i :: 0 <= i < |entries| ==> '\n' !in entries[i].0 && '\n' !in entries[i].1
    ensures var lines := Split(SumsBody(entries), '\n');
      && |lines| == |entries| + 1 && lines[|entries|] == ""
      && forall i :: 0 <= i < |entries| ==> lines[i] == entries[i].0 + [' ', ' '] + entries[i].1
  {
    if entries != [] {
      SumsLines(entries[1..]);
      var line := entries[0].0 + "  " + entries[0].1;
      SplitFirst(line, SumsBody(entries[1..]), '\n');
      assert SumsBody(entries) == line + ['\n'] + SumsBody(entries[1..]);
    }
  }

  ghost predicate ListsFiles(entries: seq<(string, string)>) {
    forall i :: 0 <= i < |entries| ==> IsSha256(entries[i].0) && '\n' !in entries[i].1
  }

  /** The body determines its entries, so checking against it checks every file listed. */
  lemma {:induction false} SumsInjective(a: seq<(string, string)>, b: seq<(string, string)>)
    requires ListsFiles(a) && ListsFiles(b) && SumsBody(a) == SumsBody(b)
    ensures a == b
  {
    if a != [] && b != [] {
      var s, t := SumsBody(a), SumsBody(b);
      assert s[..64] == a[0].0 && t[..64] == b[0].0;
      assert s[66..] == a[0].1 + "\n" + SumsBody(a[1..]) && t[66..] == b[0].1 + "\n" + SumsBody(b[1..]);
      FirstLine(a[0].1, SumsBody(a[1..]), b[0].1, SumsBody(b[1..]));
      SumsInjective(a[1..], b[1..]);
      assert a == [a[0]] + a[1..] && b == [b[0]] + b[1..];
    }
  }

  lemma FirstLine(x: string, restX: string, y: string, restY: string)
    requires '\n' !in x && '\n' !in y && x + "\n" + restX == y + "\n" + restY
    ensures x == y && restX == restY
  {
    var s, t := x + "\n" + restX, y + "\n" + restY;
    assert s[|x|] == '\n' && t[|y|] == '\n';
    assert forall i :: 0 <= i < |x| ==> s[i] == x[i] && x[i] in x;
    assert forall i :: 0 <= i < |y| ==> t[i] == y[i] && y[i] in y;
    assert |x| == |y|;
    assert x == s[..|x|] && y == t[..|y|];
    assert restX == s[|x| + 1..] && restY == t[|y| + 1..];
  }
}
