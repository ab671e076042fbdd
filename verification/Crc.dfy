/** The CRC-32 of the STM32L4 peripheral: Ethernet polynomial, initial value all
    ones, input bytes bit-reversed, no output reflection and no final complement.

    The 32-bit register is a row of bits, most significant first. `Crc32` and the
    nested loops of `Crc32Update` follow the software form of the register; the
    burst theorem is proved on the same register fed one bit at a time, in the
    order in which bits travel on the line (least significant first). */
module Crc {
  import opened Bytes

  type Register = s: seq<bool> | |s| == 32 witness BitsOf(0, 32)

  /** The low `n` bits of a number, most significant first. */
  function BitsOf(v: nat, n: nat): (r: seq<bool>)
    ensures |r| == n
  {
    if n == 0 then [] else BitsOf(v / 2, n - 1) + [v % 2 == 1]
  }

  /** The number a row of bits holds. */
  function Value(s: seq<bool>): (v: nat)
    ensures v < Pow2(|s|)
  {
    if s == [] then 0 else 2 * Value(s[..|s| - 1]) + (if s[|s| - 1] then 1 else 0)
  }

  function Pow2(n: nat): (p: nat)
    ensures p > 0
  {
    if n == 0 then 1 else 2 * Pow2(n - 1)
  }

  /** The number in the register. */
  function Word(s: Register): u32 {
    assert Pow2(8) == 0x100 && Pow2(16) == 0x1_0000 && Pow2(24) == 0x100_0000;
    Value(s)
  }

  const POLY: Register := BitsOf(0x04C1_1DB7, 32)
  const INIT: Register := BitsOf(0xFFFF_FFFF, 32)

  function Zeros(n: nat): (r: seq<bool>)
    ensures |r| == n && forall i | 0 <= i < n :: !r[i]
  {
    seq(n, _ => false)
  }

  function Xor(a: seq<bool>, b: seq<bool>): (r: seq<bool>)
    requires |a| == |b|
    ensures |r| == |a| && forall i | 0 <= i < |a| :: r[i] == (a[i] != b[i])
  {
    seq(|a|, i requires 0 <= i < |a| => a[i] != b[i])
  }

  /** One clock of the register. */
  function Shift(s: Register): Register {
    var moved := s[1..] + [false];
    if s[0] then Xor(moved, POLY) else moved
  }

  function Shifts(s: Register, n: nat): Register {
    if n == 0 then s else Shift(Shifts(s, n - 1))
  }

  /** Swaps the nibbles, then the pairs, then the bits. */
  function ReverseByte(b: seq<bool>): (r: seq<bool>)
    requires |b| == 8
    ensures |r| == 8 && forall i | 0 <= i < 8 :: r[i] == b[7 - i]
  {
    var n := b[4..] + b[..4];
    var p := [n[2], n[3], n[0], n[1], n[6], n[7], n[4], n[5]];
    [p[1], p[0], p[3], p[2], p[5], p[4], p[7], p[6]]
  }

  /** The bits of a byte in line order. */
  function LineBits(b: byte): (r: seq<bool>)
    ensures |r| == 8
  {
    ReverseByte(BitsOf(b, 8))
  }

  /** `w` exclusive-ored into the top of the register. */
  function Mix(s: Register, w: seq<bool>): Register
    requires |w| <= 32
  {
    Xor(s, w + Zeros(32 - |w|))
  }

  /** The register after one more byte. */
  function ByteStep(s: Register, b: byte): Register {
    Shifts(Mix(s, LineBits(b)), 8)
  }

  function CrcFrom(s: Register, data: seq<byte>): Register {
    if data == [] then s else ByteStep(CrcFrom(s, data[..|data| - 1]), data[|data| - 1])
  }

  function Crc32(data: seq<byte>): u32 {
    Word(CrcFrom(INIT, data))
  }

  /** Bytes outside, bits inside: the loops of the software register. */
  method Crc32Update(crcReg: Register, data: seq<byte>) returns (r: Register)
    ensures r == CrcFrom(crcReg, data)
  {
    r := crcReg;
    for i := 0 to |data|
      invariant r == CrcFrom(crcReg, data[..i])
    {
      assert data[..i + 1][..i] == data[..i];
      r := Mix(r, LineBits(data[i]));
      ghost var mixed := r;
      for k := 0 to 8
        invariant r == Shifts(mixed, k)
      {
        r := if r[0] then Xor(r[1..] + [false], POLY) else r[1..] + [false];
      }
    }
    assert data[..|data|] == data;
  }

  /** The register may be fed a message in pieces. */
  lemma {:induction false} CrcAppend(s: Register, x: seq<byte>, y: seq<byte>)
    ensures CrcFrom(s, x + y) == CrcFrom(CrcFrom(s, x), y)
    decreases |y|
  {
    hide ByteStep;
    if y == [] {
      assert x + y == x;
    } else {
      var n := |y| - 1;
      assert (x + y)[..|x + y| - 1] == x + y[..n];
      CrcAppend(s, x, y[..n]);
    }
  }

  method Crc32Compute(data: seq<byte>) returns (crc: u32)
    ensures crc == Crc32(data)
  {
    var r := Crc32Update(INIT, data);
    crc := Word(r);
  }

  // ---- The register as a bit-serial machine ----

  function BitStep(s: Register, bit: bool): Register {
    Shift(s[0 := s[0] != bit])
  }

  function FeedBits(s: Register, bits: seq<bool>): Register
    decreases |bits|
  {
    if bits == [] then s else FeedBits(BitStep(s, bits[0]), bits[1..])
  }

  /** The bits of a message in line order. */
  function Bits(data: seq<byte>): (r: seq<bool>)
    ensures |r| == 8 * |data|
  {
    if data == [] then [] else Bits(data[..|data| - 1]) + LineBits(data[|data| - 1])
  }

  /** Mixing a word in commutes with one clock: its first bit enters the feedback,
      the rest only moves up. */
  lemma MixThenShift(s: Register, w: seq<bool>)
    requires 1 <= |w| <= 32
    ensures Shift(Mix(s, w)) == Mix(BitStep(s, w[0]), w[1..])
  {
    var m := w + Zeros(32 - |w|);
    assert w[1..] + Zeros(32 - |w[1..]|) == m[1..] + [false];
    assert Mix(s, w)[1..] + [false] == Xor(s[1..] + [false], m[1..] + [false]);
    assert s[0 := s[0] != w[0]][1..] == s[1..];
    XorSwap(s[1..] + [false], m[1..] + [false], POLY);
  }

  lemma XorSwap(a: seq<bool>, b: seq<bool>, c: seq<bool>)
    requires |a| == |b| == |c|
    ensures Xor(Xor(a, b), c) == Xor(Xor(a, c), b)
  {
  }

  /** A whole word mixed in and clocked out is the word fed bit by bit. */
  lemma {:induction false} MixedIsFed(s: Register, w: seq<bool>)
    requires |w| <= 32
    ensures Shifts(Mix(s, w), |w|) == FeedBits(s, w)
    decreases |w|
  {
    if w == [] {
      assert Mix(s, w) == s;
    } else {
      ShiftsTail(Mix(s, w), |w|);
      MixThenShift(s, w);
      MixedIsFed(BitStep(s, w[0]), w[1..]);
    }
  }

  lemma {:induction false} ShiftsTail(s: Register, n: nat)
    requires n > 0
    ensures Shifts(s, n) == Shifts(Shift(s), n - 1)
  {
    if n > 1 {
      ShiftsTail(s, n - 1);
    }
  }

  lemma {:induction false} FeedAppend(s: Register, x: seq<bool>, y: seq<bool>)
    ensures FeedBits(s, x + y) == FeedBits(FeedBits(s, x), y)
    decreases |x|
  {
    if x == [] {
      assert x + y == y;
    } else {
      assert (x + y)[1..] == x[1..] + y;
      FeedAppend(BitStep(s, x[0]), x[1..], y);
    }
  }

  /** The byte-wise register computes the same value as the bit-serial machine. */
  lemma {:induction false} BytewiseIsSerial(s: Register, data: seq<byte>)
    ensures CrcFrom(s, data) == FeedBits(s, Bits(data))
    decreases |data|
  {
    if data != [] {
      var front := data[..|data| - 1];
      BytewiseIsSerial(s, front);
      MixedIsFed(CrcFrom(s, front), LineBits(data[|data| - 1]));
      FeedAppend(s, Bits(front), LineBits(data[|data| - 1]));
    }
  }

  // ---- Linearity and burst detection ----

  lemma StepDifference(a: Register, b: Register, x: bool, y: bool)
    ensures Xor(BitStep(a, x), BitStep(b, y)) == BitStep(Xor(a, b), x != y)
  {
    var a', b' := a[0 := a[0] != x], b[0 := b[0] != y];
    var d' := Xor(a, b)[0 := Xor(a, b)[0] != (x != y)];
    assert d' == Xor(a', b');
    assert Xor(a', b')[1..] + [false] == Xor(a'[1..] + [false], b'[1..] + [false]);
  }

  /** The difference of two runs is the run of the differences. */
  lemma {:induction false} FeedDifference(a: Register, b: Register, x: seq<bool>, y: seq<bool>)
    requires |x| == |y|
    ensures Xor(FeedBits(a, x), FeedBits(b, y)) == FeedBits(Xor(a, b), Xor(x, y))
    decreases |x|
  {
    if x != [] {
      StepDifference(a, b, x[0], y[0]);
      assert Xor(x, y)[1..] == Xor(x[1..], y[1..]);
      FeedDifference(BitStep(a, x[0]), BitStep(b, y[0]), x[1..], y[1..]);
    }
  }

  lemma PolyIsOdd()
    ensures POLY[31]
  {
    LowestBit(0x04C1_1DB7, 32);
  }

  lemma LowestBit(v: nat, n: nat)
    requires n > 0
    ensures BitsOf(v, n)[n - 1] == (v % 2 == 1)
  {
  }

  lemma ShiftAt(s: Register, i: nat)
    requires i < 32
    ensures Shift(s)[i] == ((i < 31 && s[i + 1]) != (s[0] && POLY[i]))
  {
    assert (s[1..] + [false])[i] == (i < 31 && s[i + 1]);
  }

  /** A clock loses nothing: the top bit survives as the lowest one. */
  lemma ShiftInjective(a: Register, b: Register)
    requires Shift(a) == Shift(b)
    ensures a == b
  {
    PolyIsOdd();
    ShiftAt(a, 31);
    ShiftAt(b, 31);
    forall i | 1 <= i < 32
      ensures a[i] == b[i]
    {
      ShiftAt(a, i - 1);
      ShiftAt(b, i - 1);
    }
  }

  lemma {:induction false} FeedInjective(a: Register, b: Register, bits: seq<bool>)
    requires FeedBits(a, bits) == FeedBits(b, bits)
    ensures a == b
    decreases |bits|
  {
    if bits != [] {
      FeedInjective(BitStep(a, bits[0]), BitStep(b, bits[0]), bits[1..]);
      var a', b' := a[0 := a[0] != bits[0]], b[0 := b[0] != bits[0]];
      ShiftInjective(a', b');
      assert forall i | 1 <= i < 32 :: a[i] == a'[i] && b[i] == b'[i];
      assert a'[0] == b'[0];
    }
  }

  /** A step that leaves the lowest bit clear only moved the register up. */
  lemma ClearedTop(s: Register, bit: bool)
    requires !BitStep(s, bit)[31]
    ensures s[0] == bit && BitStep(s, bit)[..31] == s[1..]
  {
    var s' := s[0 := s[0] != bit];
    PolyIsOdd();
    ShiftAt(s', 31);
    assert s'[1..] == s[1..];
  }

  /** At most 32 bits drive the register to zero only if they were already in it. */
  lemma {:induction false} BitsThatClear(s: Register, d: seq<bool>)
    requires |d| <= 32
    requires FeedBits(s, d) == Zeros(32)
    ensures s == d + Zeros(32 - |d|)
    decreases |d|
  {
    if d != [] {
      var t := BitStep(s, d[0]);
      BitsThatClear(t, d[1..]);
      ClearedTop(s, d[0]);
      assert s == [d[0]] + t[..31];
    }
  }

  lemma {:induction false} ValueInjective(a: seq<bool>, b: seq<bool>)
    requires |a| == |b| && Value(a) == Value(b)
    ensures a == b
    decreases |a|
  {
    if a != [] {
      var n := |a| - 1;
      ValueInjective(a[..n], b[..n]);
      assert a == a[..n] + [a[n]] && b == b[..n] + [b[n]];
    }
  }

  lemma {:induction false} ValueOfBits(v: nat, n: nat)
    requires v < Pow2(n)
    ensures Value(BitsOf(v, n)) == v
  {
    if n > 0 {
      ValueOfBits(v / 2, n - 1);
      assert BitsOf(v, n)[..n - 1] == BitsOf(v / 2, n - 1);
    }
  }

  /** Between a common beginning and a common end, two runs of at most 32 bits that
      leave the register in the same state are the same bits. */
  lemma WindowDetermined(s: Register, p: seq<bool>, x: seq<bool>, y: seq<bool>, q: seq<bool>)
    requires |x| == |y| <= 32
    requires FeedBits(s, p + x + q) == FeedBits(s, p + y + q)
    ensures x == y
  {
    var t := FeedBits(s, p);
    FeedAppend(s, p + x, q);
    FeedAppend(s, p + y, q);
    FeedAppend(s, p, x);
    FeedAppend(s, p, y);
    FeedInjective(FeedBits(t, x), FeedBits(t, y), q);
    FeedDifference(t, t, x, y);
    assert Xor(t, t) == Zeros(32);
    assert Xor(FeedBits(t, x), FeedBits(t, y)) == Zeros(32);
    BitsThatClear(Zeros(32), Xor(x, y));
    NothingDiffers(x, y);
  }

  /** `x` and `y` agree on every bit outside the 32 from `start` on. */
  ghost predicate DifferWithin(x: seq<bool>, y: seq<bool>, start: nat)
    requires |x| == |y|
  {
    forall i | 0 <= i < |x| && !(start <= i < start + 32) :: x[i] == y[i]
  }

  lemma Window(x: seq<bool>, y: seq<bool>, start: nat)
    returns (p: seq<bool>, u: seq<bool>, v: seq<bool>, q: seq<bool>)
    requires |x| == |y| && DifferWithin(x, y, start)
    ensures x == p + u + q && y == p + v + q && |u| == |v| <= 32
  {
    var k := if start <= |x| then start else |x|;
    var e := if start + 32 <= |x| then start + 32 else |x|;
    p, u, v, q := x[..k], x[k..e], y[k..e], x[e..];
    assert y[..k] == x[..k] && y[e..] == x[e..];
  }

  lemma SameRegister(x: seq<byte>, y: seq<byte>)
    requires Crc32(x) == Crc32(y)
    ensures FeedBits(INIT, Bits(x)) == FeedBits(INIT, Bits(y))
  {
    ValueInjective(CrcFrom(INIT, x), CrcFrom(INIT, y));
    BytewiseIsSerial(INIT, x);
    BytewiseIsSerial(INIT, y);
  }

  /** Two messages of one length that differ, but only inside 32 consecutive bits of
      the line, have different CRCs. */
  lemma BurstDetected(x: seq<byte>, y: seq<byte>, start: nat)
    requires |x| == |y| && x != y
    requires DifferWithin(Bits(x), Bits(y), start)
    ensures Crc32(x) != Crc32(y)
  {
    var p, u, v, q := Window(Bits(x), Bits(y), start);
    if Crc32(x) == Crc32(y) {
      SameRegister(x, y);
      WindowDetermined(INIT, p, u, v, q);
      BitsInjective(x, y);
    }
  }

  lemma NothingDiffers(x: seq<bool>, y: seq<bool>)
    requires |x| == |y| <= 32
    requires Zeros(32) == Xor(x, y) + Zeros(32 - |x|)
    ensures x == y
  {
    forall i | 0 <= i < |x|
      ensures x[i] == y[i]
    {
      assert (Xor(x, y) + Zeros(32 - |x|))[i] == Xor(x, y)[i];
    }
  }

  lemma {:induction false} BitsInjective(x: seq<byte>, y: seq<byte>)
    requires |x| == |y|
    ensures Bits(x) == Bits(y) ==> x == y
    decreases |x|
  {
    if x != [] && Bits(x) == Bits(y) {
      var n := |x| - 1;
      var xs, ys := Bits(x[..n]), Bits(y[..n]);
      assert Bits(x)[..8 * n] == xs && Bits(y)[..8 * n] == ys;
      BitsInjective(x[..n], y[..n]);
      assert Bits(x)[8 * n..] == LineBits(x[n]) && Bits(y)[8 * n..] == LineBits(y[n]);
      LineBitsInjective(x[n], y[n]);
      assert x == x[..n] + [x[n]] && y == y[..n] + [y[n]];
    }
  }

  lemma LineBitsInjective(a: byte, b: byte)
    requires LineBits(a) == LineBits(b)
    ensures a == b
  {
    var p, q := BitsOf(a, 8), BitsOf(b, 8);
    forall i | 0 <= i < 8
      ensures p[i] == q[i]
    {
      assert p[i] == LineBits(a)[7 - i] && q[i] == LineBits(b)[7 - i];
    }
    assert p == q;
    assert Pow2(8) == 0x100;
    ValueOfBits(a, 8);
    ValueOfBits(b, 8);
  }

  /** Damage confined to four consecutive bytes is always seen. */
  lemma FourBytesDetected(x: seq<byte>, y: seq<byte>, start: nat)
    requires |x| == |y| && x != y
    requires forall i | 0 <= i < |x| && !(start <= i < start + 4) :: x[i] == y[i]
    ensures Crc32(x) != Crc32(y)
  {
    forall i | 0 <= i < 8 * |x| && !(8 * start <= i < 8 * start + 32)
      ensures Bits(x)[i] == Bits(y)[i]
    {
      BitOfByte(x, i);
      BitOfByte(y, i);
    }
    BurstDetected(x, y, 8 * start);
  }

  lemma {:induction false} BitOfByte(x: seq<byte>, i: nat)
    requires i < 8 * |x|
    ensures Bits(x)[i] == LineBits(x[i / 8])[i % 8]
    decreases |x|
  {
    var n := |x| - 1;
    if i < 8 * n {
      BitOfByte(x[..n], i);
      assert x[..n][i / 8] == x[i / 8];
    } else {
      assert i / 8 == n && i % 8 == i - 8 * n;
    }
  }
}
