/** Machine integers, byte strings and the little-endian readers both PE parsers use.
    The integer types are subset types, so every addition the source leaves unchecked
    is a proof obligation here. */
module Bytes {
  type byte = x: int | 0 <= x < 0x100
  type u16 = x: int | 0 <= x < 0x1_0000
  type u32 = x: int | 0 <= x < 0x1_0000_0000
  type usize = x: int | 0 <= x < 0x1_0000_0000_0000_0000

  // A Rust slice never exceeds isize::MAX bytes.
  type Slice = s: seq<byte> | |s| < 0x8000_0000_0000_0000

  /** The result of a parsing step.  `Overflow` is the failure of the checked additions,
      kept apart from all others so that it can be shown never to happen. */
  datatype Parsed<+T> = Parsed(value: T) | Rejected | Overflow {
    predicate IsFailure() {
      !Parsed?
    }

    function PropagateFailure<U>(): Parsed<U> {
      if Overflow? then Overflow else Rejected
    }

    function Extract(): T
      requires Parsed?
    {
      value
    }
  }

  function U16(b: seq<byte>, at: nat): u16
    requires at + 2 <= |b|
  {
    b[at] as int + 0x100 * (b[at + 1] as int)
  }

  function U32(b: seq<byte>, at: nat): u32
    requires at + 4 <= |b|
  {
    U16(b, at) + 0x1_0000 * U16(b, at + 2)
  }

  lemma SameU16(a: seq<byte>, b: seq<byte>, at: nat)
    requires at + 2 <= |a| && at + 2 <= |b| && a[at] == b[at] && a[at + 1] == b[at + 1]
    ensures U16(a, at) == U16(b, at)
  {
  }

  lemma SameU32(a: seq<byte>, b: seq<byte>, at: nat)
    requires at + 4 <= |a| && at + 4 <= |b|
    requires a[at] == b[at] && a[at + 1] == b[at + 1] && a[at + 2] == b[at + 2] && a[at + 3] == b[at + 3]
    ensures U32(a, at) == U32(b, at)
  {
  }

  function Le16(v: u16): (s: seq<byte>)
    ensures |s| == 2 && U16(s, 0) == v
  {
    [v % 0x100, v / 0x100]
  }

  function Le32(v: u32): (s: seq<byte>)
    ensures |s| == 4 && U32(s, 0) == v
  {
    [v % 0x100, v / 0x100 % 0x100, v / 0x100 / 0x100 % 0x100, v / 0x100 / 0x100 / 0x100]
  }

  function CheckedAdd(a: usize, b: usize): Parsed<usize> {
    if a + b < 0x1_0000_0000_0000_0000 then Parsed(a + b) else Overflow
  }

  function CheckedMul(a: usize, b: usize): Parsed<usize> {
    if a * b < 0x1_0000_0000_0000_0000 then Parsed(a * b) else Overflow
  }

  function SaturatingAdd(a: usize, b: usize): usize {
    if a + b < 0x1_0000_0000_0000_0000 then a + b else 0xffff_ffff_ffff_ffff
  }

  /** The four bytes of a 32-bit field are determined by its value. */
  lemma Le32Inverse(b: seq<byte>, at: nat)
    requires at + 4 <= |b|
    ensures Le32(U32(b, at)) == b[at..at + 4]
  {
    var b1: int, b2: int, b3: int := b[at + 1], b[at + 2], b[at + 3];
    LowByte(b[at], b1 + 0x100 * b2 + 0x1_0000 * b3);
    LowByte(b[at + 1], b2 + 0x100 * b3);
    LowByte(b[at + 2], b3);
  }

  lemma Le16Inverse(b: seq<byte>, at: nat)
    requires at + 2 <= |b|
    ensures Le16(U16(b, at)) == b[at..at + 2]
  {
    LowByte(b[at], b[at + 1]);
  }

  lemma LowByte(low: byte, rest: nat)
    ensures (low + 0x100 * rest) % 0x100 == low && (low + 0x100 * rest) / 0x100 == rest
  {
  }

  /** The least multiple of eight that is not below `n`: what `(n + 7) & !7` computes. */
  function RoundUp8(n: nat): (r: nat)
    ensures n <= r < n + 8 && r % 8 == 0
  {
    (n + 7) / 8 * 8
  }
}
