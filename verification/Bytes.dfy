/** Unsigned machine integers, and the little-endian layouts in which they cross
    the link and lie in flash. */
module Bytes {

  type byte = x: int | 0 <= x < 0x100
  type u16 = x: int | 0 <= x < 0x1_0000
  type u32 = x: int | 0 <= x < 0x1_0000_0000

  /** The 16-bit word stored at offset `at`. */
  function Le16(b: seq<byte>, at: nat): u16
    requires at + 2 <= |b|
  {
    b[at] as int + 0x100 * (b[at + 1] as int)
  }

  /** The 32-bit word stored at offset `at`. */
  function Le32(b: seq<byte>, at: nat): u32
    requires at + 4 <= |b|
  {
    Le16(b, at) as int + 0x1_0000 * (Le16(b, at + 2) as int)
  }

  /** Four bytes as a number, least significant first. */
  function FourBytes(b: seq<byte>, at: nat): int
    requires at + 4 <= |b|
  {
    (b[at] as int) + 0x100 * (b[at + 1] as int) + 0x1_0000 * (b[at + 2] as int) + 0x100_0000 * (b[at + 3] as int)
  }

  /** Words are little-endian, both ways. */
  lemma LittleEndian(b: seq<byte>, at: nat, v: u32)
    requires at + 4 <= |b|
    ensures Le32(b, at) == FourBytes(b, at) && FourBytes(Pack32(v), 0) == v
    ensures Le16(b, at) == b[at] as int + 0x100 * (b[at + 1] as int)
  {
  }

  function Pack16(v: u16): (r: seq<byte>)
    ensures |r| == 2
  {
    [v % 0x100, v / 0x100]
  }

  function Pack32(v: u32): (r: seq<byte>)
    ensures |r| == 4
  {
    Pack16(v % 0x1_0000) + Pack16(v / 0x1_0000)
  }

  lemma SliceOfSlice<T>(s: seq<T>, at: nat, n: nat, a: nat, b: nat)
    requires a <= b <= n && at + n <= |s|
    ensures s[at..at + n][a..b] == s[at + a..at + b]
  {
    var w := s[at..at + n];
    forall k | 0 <= k < b - a
      ensures w[a..b][k] == s[at + a..at + b][k]
    {
    }
  }

  lemma Unpack16(b: seq<byte>, at: nat, v: u16)
    requires at + 2 <= |b| && b[at..at + 2] == Pack16(v)
    ensures Le16(b, at) == v
  {
    assert b[at] == b[at..at + 2][0] && b[at + 1] == b[at..at + 2][1];
  }

  lemma Unpack32(b: seq<byte>, at: nat, v: u32)
    requires at + 4 <= |b| && b[at..at + 4] == Pack32(v)
    ensures Le32(b, at) == v
  {
    assert b[at..at + 2] == b[at..at + 4][..2] && b[at + 2..at + 4] == b[at..at + 4][2..];
    Unpack16(b, at, v % 0x1_0000);
    Unpack16(b, at + 2, v / 0x1_0000);
  }

  lemma Repack16(b: seq<byte>, at: nat)
    requires at + 2 <= |b|
    ensures Pack16(Le16(b, at)) == b[at..at + 2]
  {
  }

  lemma Repack32(b: seq<byte>, at: nat)
    requires at + 4 <= |b|
    ensures Pack32(Le32(b, at)) == b[at..at + 4]
  {
    var lo: int, hi: int := Le16(b, at), Le16(b, at + 2);
    assert Le32(b, at) % 0x1_0000 == lo && Le32(b, at) / 0x1_0000 == hi;
    Repack16(b, at);
    Repack16(b, at + 2);
  }
}
