/** The values that were measured on the part, computed here on machine words. Words and the
    register of bits are tied bit by bit. */
module CrcVectors {
  import opened Bytes
  import Crc
  import CrcNumbers

  // ---- Words, bit by bit ----

  lemma XorA(a: bv32, b: bv32)
    ensures ((a ^ b) & 0x8000_0000 != 0) == ((a & 0x8000_0000 != 0) != (b & 0x8000_0000 != 0))
    ensures ((a ^ b) & 0x4000_0000 != 0) == ((a & 0x4000_0000 != 0) != (b & 0x4000_0000 != 0))
    ensures ((a ^ b) & 0x2000_0000 != 0) == ((a & 0x2000_0000 != 0) != (b & 0x2000_0000 != 0))
    ensures ((a ^ b) & 0x1000_0000 != 0) == ((a & 0x1000_0000 != 0) != (b & 0x1000_0000 != 0))
    ensures ((a ^ b) & 0x0800_0000 != 0) == ((a & 0x0800_0000 != 0) != (b & 0x0800_0000 != 0))
    ensures ((a ^ b) & 0x0400_0000 != 0) == ((a & 0x0400_0000 != 0) != (b & 0x0400_0000 != 0))
    ensures ((a ^ b) & 0x0200_0000 != 0) == ((a & 0x0200_0000 != 0) != (b & 0x0200_0000 != 0))
    ensures ((a ^ b) & 0x0100_0000 != 0) == ((a & 0x0100_0000 != 0) != (b & 0x0100_0000 != 0))
  {
  }

  lemma XorB(a: bv32, b: bv32)
    ensures ((a ^ b) & 0x0080_0000 != 0) == ((a & 0x0080_0000 != 0) != (b & 0x0080_0000 != 0))
    ensures ((a ^ b) & 0x0040_0000 != 0) == ((a & 0x0040_0000 != 0) != (b & 0x0040_0000 != 0))
    ensures ((a ^ b) & 0x0020_0000 != 0) == ((a & 0x0020_0000 != 0) != (b & 0x0020_0000 != 0))
    ensures ((a ^ b) & 0x0010_0000 != 0) == ((a & 0x0010_0000 != 0) != (b & 0x0010_0000 != 0))
    ensures ((a ^ b) & 0x0008_0000 != 0) == ((a & 0x0008_0000 != 0) != (b & 0x0008_0000 != 0))
    ensures ((a ^ b) & 0x0004_0000 != 0) == ((a & 0x0004_0000 != 0) != (b & 0x0004_0000 != 0))
    ensures ((a ^ b) & 0x0002_0000 != 0) == ((a & 0x0002_0000 != 0) != (b & 0x0002_0000 != 0))
    ensures ((a ^ b) & 0x0001_0000 != 0) == ((a & 0x0001_0000 != 0) != (b & 0x0001_0000 != 0))
  {
  }

  lemma XorC(a: bv32, b: bv32)
    ensures ((a ^ b) & 0x0000_8000 != 0) == ((a & 0x0000_8000 != 0) != (b & 0x0000_8000 != 0))
    ensures ((a ^ b) & 0x0000_4000 != 0) == ((a & 0x0000_4000 != 0) != (b & 0x0000_4000 != 0))
    ensures ((a ^ b) & 0x0000_2000 != 0) == ((a & 0x0000_2000 != 0) != (b & 0x0000_2000 != 0))
    ensures ((a ^ b) & 0x0000_1000 != 0) == ((a & 0x0000_1000 != 0) != (b & 0x0000_1000 != 0))
    ensures ((a ^ b) & 0x0000_0800 != 0) == ((a & 0x0000_0800 != 0) != (b & 0x0000_0800 != 0))
    ensures ((a ^ b) & 0x0000_0400 != 0) == ((a & 0x0000_0400 != 0) != (b & 0x0000_0400 != 0))
    ensures ((a ^ b) & 0x0000_0200 != 0) == ((a & 0x0000_0200 != 0) != (b & 0x0000_0200 != 0))
    ensures ((a ^ b) & 0x0000_0100 != 0) == ((a & 0x0000_0100 != 0) != (b & 0x0000_0100 != 0))
  {
  }

  lemma XorD(a: bv32, b: bv32)
    ensures ((a ^ b) & 0x0000_0080 != 0) == ((a & 0x0000_0080 != 0) != (b & 0x0000_0080 != 0))
    ensures ((a ^ b) & 0x0000_0040 != 0) == ((a & 0x0000_0040 != 0) != (b & 0x0000_0040 != 0))
    ensures ((a ^ b) & 0x0000_0020 != 0) == ((a & 0x0000_0020 != 0) != (b & 0x0000_0020 != 0))
    ensures ((a ^ b) & 0x0000_0010 != 0) == ((a & 0x0000_0010 != 0) != (b & 0x0000_0010 != 0))
    ensures ((a ^ b) & 0x0000_0008 != 0) == ((a & 0x0000_0008 != 0) != (b & 0x0000_0008 != 0))
    ensures ((a ^ b) & 0x0000_0004 != 0) == ((a & 0x0000_0004 != 0) != (b & 0x0000_0004 != 0))
    ensures ((a ^ b) & 0x0000_0002 != 0) == ((a & 0x0000_0002 != 0) != (b & 0x0000_0002 != 0))
    ensures ((a ^ b) & 0x0000_0001 != 0) == ((a & 0x0000_0001 != 0) != (b & 0x0000_0001 != 0))
  {
  }

  lemma MoveBits(v: bv32)
    ensures ((v << 1) & 0x8000_0000 != 0) == (v & 0x4000_0000 != 0)
    ensures ((v << 1) & 0x4000_0000 != 0) == (v & 0x2000_0000 != 0)
    ensures ((v << 1) & 0x2000_0000 != 0) == (v & 0x1000_0000 != 0)
    ensures ((v << 1) & 0x1000_0000 != 0) == (v & 0x0800_0000 != 0)
    ensures ((v << 1) & 0x0800_0000 != 0) == (v & 0x0400_0000 != 0)
    ensures ((v << 1) & 0x0400_0000 != 0) == (v & 0x0200_0000 != 0)
    ensures ((v << 1) & 0x0200_0000 != 0) == (v & 0x0100_0000 != 0)
    ensures ((v << 1) & 0x0100_0000 != 0) == (v & 0x0080_0000 != 0)
    ensures ((v << 1) & 0x0080_0000 != 0) == (v & 0x0040_0000 != 0)
    ensures ((v << 1) & 0x0040_0000 != 0) == (v & 0x0020_0000 != 0)
    ensures ((v << 1) & 0x0020_0000 != 0) == (v & 0x0010_0000 != 0)
    ensures ((v << 1) & 0x0010_0000 != 0) == (v & 0x0008_0000 != 0)
    ensures ((v << 1) & 0x0008_0000 != 0) == (v & 0x0004_0000 != 0)
    ensures ((v << 1) & 0x0004_0000 != 0) == (v & 0x0002_0000 != 0)
    ensures ((v << 1) & 0x0002_0000 != 0) == (v & 0x0001_0000 != 0)
    ensures ((v << 1) & 0x0001_0000 != 0) == (v & 0x0000_8000 != 0)
    ensures ((v << 1) & 0x0000_8000 != 0) == (v & 0x0000_4000 != 0)
    ensures ((v << 1) & 0x0000_4000 != 0) == (v & 0x0000_2000 != 0)
    ensures ((v << 1) & 0x0000_2000 != 0) == (v & 0x0000_1000 != 0)
    ensures ((v << 1) & 0x0000_1000 != 0) == (v & 0x0000_0800 != 0)
    ensures ((v << 1) & 0x0000_0800 != 0) == (v & 0x0000_0400 != 0)
    ensures ((v << 1) & 0x0000_0400 != 0) == (v & 0x0000_0200 != 0)
    ensures ((v << 1) & 0x0000_0200 != 0) == (v & 0x0000_0100 != 0)
    ensures ((v << 1) & 0x0000_0100 != 0) == (v & 0x0000_0080 != 0)
    ensures ((v << 1) & 0x0000_0080 != 0) == (v & 0x0000_0040 != 0)
    ensures ((v << 1) & 0x0000_0040 != 0) == (v & 0x0000_0020 != 0)
    ensures ((v << 1) & 0x0000_0020 != 0) == (v & 0x0000_0010 != 0)
    ensures ((v << 1) & 0x0000_0010 != 0) == (v & 0x0000_0008 != 0)
    ensures ((v << 1) & 0x0000_0008 != 0) == (v & 0x0000_0004 != 0)
    ensures ((v << 1) & 0x0000_0004 != 0) == (v & 0x0000_0002 != 0)
    ensures ((v << 1) & 0x0000_0002 != 0) == (v & 0x0000_0001 != 0)
    ensures ((v << 1) & 0x0000_0001 != 0) == false
  {
  }

  predicate HoldsA(s: seq<bool>, v: bv32)
    requires |s| == 32
  {
    && s[0] == (v & 0x8000_0000 != 0) && s[1] == (v & 0x4000_0000 != 0)
    && s[2] == (v & 0x2000_0000 != 0) && s[3] == (v & 0x1000_0000 != 0)
    && s[4] == (v & 0x0800_0000 != 0) && s[5] == (v & 0x0400_0000 != 0)
    && s[6] == (v & 0x0200_0000 != 0) && s[7] == (v & 0x0100_0000 != 0)
  }

  predicate HoldsB(s: seq<bool>, v: bv32)
    requires |s| == 32
  {
    && s[8] == (v & 0x0080_0000 != 0) && s[9] == (v & 0x0040_0000 != 0)
    && s[10] == (v & 0x0020_0000 != 0) && s[11] == (v & 0x0010_0000 != 0)
    && s[12] == (v & 0x0008_0000 != 0) && s[13] == (v & 0x0004_0000 != 0)
    && s[14] == (v & 0x0002_0000 != 0) && s[15] == (v & 0x0001_0000 != 0)
  }

  predicate HoldsC(s: seq<bool>, v: bv32)
    requires |s| == 32
  {
    && s[16] == (v & 0x0000_8000 != 0) && s[17] == (v & 0x0000_4000 != 0)
    && s[18] == (v & 0x0000_2000 != 0) && s[19] == (v & 0x0000_1000 != 0)
    && s[20] == (v & 0x0000_0800 != 0) && s[21] == (v & 0x0000_0400 != 0)
    && s[22] == (v & 0x0000_0200 != 0) && s[23] == (v & 0x0000_0100 != 0)
  }

  predicate HoldsD(s: seq<bool>, v: bv32)
    requires |s| == 32
  {
    && s[24] == (v & 0x0000_0080 != 0) && s[25] == (v & 0x0000_0040 != 0)
    && s[26] == (v & 0x0000_0020 != 0) && s[27] == (v & 0x0000_0010 != 0)
    && s[28] == (v & 0x0000_0008 != 0) && s[29] == (v & 0x0000_0004 != 0)
    && s[30] == (v & 0x0000_0002 != 0) && s[31] == (v & 0x0000_0001 != 0)
  }

  /** The row of bits is the word, most significant bit first. */
  predicate Holds(s: seq<bool>, v: bv32) {
    |s| == 32 && HoldsA(s, v) && HoldsB(s, v) && HoldsC(s, v) && HoldsD(s, v)
  }

  lemma XorHoldsA(s: Crc.Register, a: bv32, t: Crc.Register, b: bv32)
    requires HoldsA(s, a) && HoldsA(t, b)
    ensures HoldsA(Crc.Xor(s, t), a ^ b)
  {
    XorA(a, b);
  }

  lemma XorHoldsB(s: Crc.Register, a: bv32, t: Crc.Register, b: bv32)
    requires HoldsB(s, a) && HoldsB(t, b)
    ensures HoldsB(Crc.Xor(s, t), a ^ b)
  {
    XorB(a, b);
  }

  lemma XorHoldsC(s: Crc.Register, a: bv32, t: Crc.Register, b: bv32)
    requires HoldsC(s, a) && HoldsC(t, b)
    ensures HoldsC(Crc.Xor(s, t), a ^ b)
  {
    XorC(a, b);
  }

  lemma XorHoldsD(s: Crc.Register, a: bv32, t: Crc.Register, b: bv32)
    requires HoldsD(s, a) && HoldsD(t, b)
    ensures HoldsD(Crc.Xor(s, t), a ^ b)
  {
    XorD(a, b);
  }

  lemma XorHolds(s: Crc.Register, a: bv32, t: Crc.Register, b: bv32)
    requires Holds(s, a) && Holds(t, b)
    ensures Holds(Crc.Xor(s, t), a ^ b)
  {
    hide HoldsA, HoldsB, HoldsC, HoldsD;
    XorHoldsA(s, a, t, b);
    XorHoldsB(s, a, t, b);
    XorHoldsC(s, a, t, b);
    XorHoldsD(s, a, t, b);
  }

  predicate Moved(s: Crc.Register, t: Crc.Register) { !t[31] && forall i | 0 <= i < 31 :: t[i] == s[i + 1] }

  lemma MoveHoldsA(s: Crc.Register, t: Crc.Register, v: bv32)
    requires Moved(s, t) && HoldsA(s, v) && HoldsB(s, v)
    ensures HoldsA(t, v << 1)
  {
    MoveBits(v);
  }

  lemma MoveHoldsB(s: Crc.Register, t: Crc.Register, v: bv32)
    requires Moved(s, t) && HoldsB(s, v) && HoldsC(s, v)
    ensures HoldsB(t, v << 1)
  {
    MoveBits(v);
  }

  lemma MoveHoldsC(s: Crc.Register, t: Crc.Register, v: bv32)
    requires Moved(s, t) && HoldsC(s, v) && HoldsD(s, v)
    ensures HoldsC(t, v << 1)
  {
    MoveBits(v);
  }

  lemma MoveHoldsD(s: Crc.Register, t: Crc.Register, v: bv32)
    requires Moved(s, t) && HoldsD(s, v)
    ensures HoldsD(t, v << 1)
  {
    MoveBits(v);
  }

  lemma MoveHolds(s: Crc.Register, v: bv32)
    requires Holds(s, v)
    ensures Holds(s[1..] + [false], v << 1)
  {
    hide HoldsA, HoldsB, HoldsC, HoldsD;
    var t := s[1..] + [false];
    MoveHoldsA(s, t, v);
    MoveHoldsB(s, t, v);
    MoveHoldsC(s, t, v);
    MoveHoldsD(s, t, v);
  }

  // ---- The register on words ----

  function Clock(v: bv32): bv32 {
    if v & 0x8000_0000 != 0 then (v << 1) ^ 0x04C1_1DB7 else v << 1
  }

  function WordStep(v: bv32, w: bv32): bv32 {
    Clock(Clock(Clock(Clock(Clock(Clock(Clock(Clock(v ^ w))))))))
  }

  lemma ClockHolds(s: Crc.Register, v: bv32)
    requires Holds(s, v)
    ensures Holds(Crc.Shift(s), Clock(v))
  {
    hide Holds, Crc.Xor;
    MoveHolds(s, v);
    PolyHolds();
    XorHolds(s[1..] + [false], v << 1, Crc.POLY, 0x04C1_1DB7);
    TopBit(s, v);
  }

  lemma TopBit(s: Crc.Register, v: bv32)
    requires Holds(s, v)
    ensures s[0] == (v & 0x8000_0000 != 0)
  {
  }

  lemma PolyHolds()
    ensures Holds(Crc.POLY, 0x04C1_1DB7)
  {
    hide Crc.BitsOf;
    CrcNumbers.PolyBits();
  }

  lemma InitHolds()
    ensures Holds(Crc.INIT, 0xFFFF_FFFF)
  {
    hide Crc.BitsOf;
    CrcNumbers.InitBits();
  }

  // ---- Bytes and messages ----

  /** `w` is what the byte exclusive-ors into the register. */
  ghost predicate Enters(b: byte, w: bv32) { Holds(Crc.LineBits(b) + Crc.Zeros(24), w) }

  lemma ByteEnters(a: bool, b: bool, c: bool, d: bool, e: bool, f: bool, g: bool, h: bool)
    ensures Crc.LineBits(CrcNumbers.ByteOf(a, b, c, d, e, f, g, h)) == [h, g, f, e, d, c, b, a]
  {
    hide Crc.BitsOf;
    CrcNumbers.NoBits();
    CrcNumbers.BitsEightMore(0, 0, a, b, c, d, e, f, g, h);
  }

  function Clocks(v: bv32, n: nat): bv32 { if n == 0 then v else Clock(Clocks(v, n - 1)) }

  lemma {:induction false} ClocksHold(s: Crc.Register, v: bv32, n: nat)
    requires Holds(s, v)
    ensures Holds(Crc.Shifts(s, n), Clocks(v, n))
  {
    hide Holds, Clock, Crc.Shift;
    if n > 0 {
      ClocksHold(s, v, n - 1);
      ClockHolds(Crc.Shifts(s, n - 1), Clocks(v, n - 1));
    }
  }

  lemma EightClocks(v: bv32)
    ensures Clocks(v, 8) == Clock(Clock(Clock(Clock(Clock(Clock(Clock(Clock(v))))))))
  {
    hide Clock;
    assert Clocks(v, 0) == v && Clocks(v, 1) == Clock(Clocks(v, 0));
    assert Clocks(v, 2) == Clock(Clocks(v, 1));
    assert Clocks(v, 4) == Clock(Clock(Clocks(v, 2)));
    assert Clocks(v, 6) == Clock(Clock(Clocks(v, 4)));
  }

  lemma StepHolds(s: Crc.Register, v: bv32, b: byte, w: bv32)
    requires Holds(s, v) && Enters(b, w)
    ensures Holds(Crc.ByteStep(s, b), WordStep(v, w))
  {
    hide Holds, Clock, Crc.Shift, Crc.Shifts, Crc.LineBits, Clocks;
    XorHolds(s, v, Crc.LineBits(b) + Crc.Zeros(24), w);
    ClocksHold(Crc.Mix(s, Crc.LineBits(b)), v ^ w, 8);
    EightClocks(v ^ w);
  }

  // ---- The vectors ----

  /** The same byte, exclusive-ored into the top of the word in line order. */
  function LineWord(a: bool, b: bool, c: bool, d: bool, e: bool, f: bool, g: bool, h: bool): bv32 {
    (if a then 0x0100_0000 else 0) | (if b then 0x0200_0000 else 0)
    | (if c then 0x0400_0000 else 0) | (if d then 0x0800_0000 else 0)
    | (if e then 0x1000_0000 else 0) | (if f then 0x2000_0000 else 0)
    | (if g then 0x4000_0000 else 0) | (if h then 0x8000_0000 else 0)
  }

  lemma LineWordBits(a: bool, b: bool, c: bool, d: bool, e: bool, f: bool, g: bool, h: bool)
    ensures var w := LineWord(a, b, c, d, e, f, g, h); var s := [h, g, f, e, d, c, b, a] + Crc.Zeros(24);
            HoldsA(s, w) && w & 0x00FF_FFFF == 0
  {
  }

  lemma LowClear(w: bv32, s: seq<bool>)
    requires |s| == 32 && w & 0x00FF_FFFF == 0 && forall i | 8 <= i < 32 :: !s[i]
    ensures HoldsB(s, w) && HoldsC(s, w) && HoldsD(s, w)
  {
  }

  lemma Entering(a: bool, b: bool, c: bool, d: bool, e: bool, f: bool, g: bool, h: bool)
    ensures Enters(CrcNumbers.ByteOf(a, b, c, d, e, f, g, h), LineWord(a, b, c, d, e, f, g, h))
  {
    hide Crc.LineBits, CrcNumbers.ByteOf, LineWord, HoldsA, HoldsB, HoldsC, HoldsD;
    ByteEnters(a, b, c, d, e, f, g, h);
    LineWordBits(a, b, c, d, e, f, g, h);
    LowClear(LineWord(a, b, c, d, e, f, g, h), [h, g, f, e, d, c, b, a] + Crc.Zeros(24));
  }

  /** One more byte of a message. */
  lemma Fed(data: seq<byte>, v: bv32, a: bool, b: bool, c: bool, d: bool, e: bool, f: bool, g: bool, h: bool)
    requires Holds(Crc.CrcFrom(Crc.INIT, data), v)
    ensures var x := CrcNumbers.ByteOf(a, b, c, d, e, f, g, h);
            Holds(Crc.CrcFrom(Crc.INIT, data + [x]), WordStep(v, LineWord(a, b, c, d, e, f, g, h)))
  {
    hide Holds, Crc.ByteStep, WordStep, LineWord, Enters;
    var x := CrcNumbers.ByteOf(a, b, c, d, e, f, g, h);
    Entering(a, b, c, d, e, f, g, h);
    StepHolds(Crc.CrcFrom(Crc.INIT, data), v, x, LineWord(a, b, c, d, e, f, g, h));
    assert (data + [x])[..|data|] == data;
  }

  lemma NothingFed()
    ensures Holds(Crc.CrcFrom(Crc.INIT, []), 0xFFFF_FFFF)
  {
    hide Holds;
    InitHolds();
  }

  /** Four bytes, most significant first. */
  lemma ValueOfRow(s: seq<bool>)
    requires |s| == 32
    ensures Crc.Value(s) == 0x100 * (0x100 * (0x100 * ByteAt(s, 0) + ByteAt(s, 8)) + ByteAt(s, 16)) + ByteAt(s, 24)
  {
    hide Crc.Value, ByteAt;
    CrcNumbers.EmptyValue(s[..0]);
    ByteMore(s, 0);
    ByteMore(s, 8);
    ByteMore(s, 16);
    ByteMore(s, 24);
    assert s[..32] == s;
  }

  lemma ByteMore(s: seq<bool>, n: nat)
    requires n + 8 <= |s|
    ensures Crc.Value(s[..n + 8]) == 0x100 * Crc.Value(s[..n]) + ByteAt(s, n)
  {
    hide Crc.Value, CrcNumbers.NibbleValue;
    CrcNumbers.FourMore(s, n);
    CrcNumbers.FourMore(s, n + 4);
  }

  function ByteAt(s: seq<bool>, n: nat): nat
    requires n + 8 <= |s|
  {
    CrcNumbers.ByteOf(s[n], s[n + 1], s[n + 2], s[n + 3], s[n + 4], s[n + 5], s[n + 6], s[n + 7])
  }

  lemma OneZero()
    ensures Holds(Crc.CrcFrom(Crc.INIT, [0x00]), 0x4E08_BFB4)
  {
    hide Holds, Crc.CrcFrom;
    NothingFed();
    Fed([], 0xFFFF_FFFF, false, false, false, false, false, false, false, false);
    assert [] + [0x00] == [0x00];
  }

  lemma TwoZeros()
    ensures Holds(Crc.CrcFrom(Crc.INIT, [0x00, 0x00]), 0x00B7_647D)
  {
    hide Holds, Crc.CrcFrom;
    OneZero();
    Fed([0x00], 0x4E08_BFB4, false, false, false, false, false, false, false, false);
    assert [0x00] + [0x00] == [0x00, 0x00];
  }

  lemma ThreeZeros()
    ensures Holds(Crc.CrcFrom(Crc.INIT, [0x00, 0x00, 0x00]), 0xB764_7D00)
  {
    hide Holds, Crc.CrcFrom;
    TwoZeros();
    Fed([0x00, 0x00], 0x00B7_647D, false, false, false, false, false, false, false, false);
    assert [0x00, 0x00] + [0x00] == [0x00, 0x00, 0x00];
  }

  /** Four zero bytes. */
  lemma FourZeros()
    ensures Crc.Crc32([0x00, 0x00, 0x00, 0x00]) == 0xC704_DD7B
  {
    hide Holds, Crc.CrcFrom, Crc.Value;
    ThreeZeros();
    Fed([0x00, 0x00, 0x00], 0xB764_7D00, false, false, false, false, false, false, false, false);
    assert [0x00, 0x00, 0x00] + [0x00] == [0x00, 0x00, 0x00, 0x00];
    FourZerosWord(Crc.CrcFrom(Crc.INIT, [0x00, 0x00, 0x00, 0x00]));
  }

  lemma FourZerosWord(s: Crc.Register)
    requires Holds(s, 0xC704_DD7B)
    ensures Crc.Value(s) == 0xC704_DD7B
  {
    hide Crc.Value;
    ValueOfRow(s);
  }

  /** "STM32". */
  lemma PartName()
    ensures Crc.Crc32([0x53, 0x54, 0x4D, 0x33, 0x32]) == 0xF4F0_FF62
  {
    hide Holds, Crc.CrcFrom, Crc.Value;
    NothingFed();
    Fed([], 0xFFFF_FFFF, false, true, false, true, false, false, true, true);
    assert [] + [0x53] == [0x53];
    Fed([0x53], 0x3C08_F9FB, false, true, false, true, false, true, false, false);
    assert [0x53] + [0x54] == [0x53, 0x54];
    Fed([0x53, 0x54], 0x5E6E_6DC2, false, true, false, false, true, true, false, true);
    assert [0x53, 0x54] + [0x4D] == [0x53, 0x54, 0x4D];
    Fed([0x53, 0x54, 0x4D], 0x9EC8_7F1D, false, false, true, true, false, false, true, true);
    assert [0x53, 0x54, 0x4D] + [0x33] == [0x53, 0x54, 0x4D, 0x33];
    Fed([0x53, 0x54, 0x4D, 0x33], 0xB96A_8D69, false, false, true, true, false, false, true, false);
    assert [0x53, 0x54, 0x4D, 0x33] + [0x32] == [0x53, 0x54, 0x4D, 0x33, 0x32];
    PartNameWord(Crc.CrcFrom(Crc.INIT, [0x53, 0x54, 0x4D, 0x33, 0x32]));
  }

  lemma PartNameWord(s: Crc.Register)
    requires Holds(s, 0xF4F0_FF62)
    ensures Crc.Value(s) == 0xF4F0_FF62
  {
    hide Crc.Value;
    ValueOfRow(s);
  }

  /** "123456789". */
  lemma NineDigits()
    ensures Crc.Crc32([0x31, 0x32, 0x33, 0x34, 0x35, 0x36, 0x37, 0x38, 0x39]) == 0x9B63_D02C
  {
    hide Holds, Crc.CrcFrom, Crc.Value;
    NothingFed();
    Fed([], 0xFFFF_FFFF, false, false, true, true, false, false, false, true);
    assert [] + [0x31] == [0x31];
    Fed([0x31], 0x1208_C43E, false, false, true, true, false, false, true, false);
    assert [0x31] + [0x32] == [0x31, 0x32];
    Fed([0x31, 0x32], 0x4CDD_350D, false, false, true, true, false, false, true, true);
    assert [0x31, 0x32] + [0x33] == [0x31, 0x32, 0x33];
    Fed([0x31, 0x32, 0x33], 0xB439_EDEE, false, false, true, true, false, true, false, false);
    assert [0x31, 0x32, 0x33] + [0x34] == [0x31, 0x32, 0x33, 0x34];
    Fed([0x31, 0x32, 0x33, 0x34], 0x3AF8_3826, false, false, true, true, false, true, false, true);
    assert [0x31, 0x32, 0x33, 0x34] + [0x35] == [0x31, 0x32, 0x33, 0x34, 0x35];
    Fed([0x31, 0x32, 0x33, 0x34, 0x35], 0xC7A3_502C, false, false, true, true, false, true, true, false);
    assert [0x31, 0x32, 0x33, 0x34, 0x35] + [0x36] == [0x31, 0x32, 0x33, 0x34, 0x35, 0x36];
    Fed([0x31, 0x32, 0x33, 0x34, 0x35, 0x36], 0x7934_B16F, false, false, true, true, false, true, true, true);
    assert [0x31, 0x32, 0x33, 0x34, 0x35, 0x36] + [0x37] == [0x31, 0x32, 0x33, 0x34, 0x35, 0x36, 0x37];
    Fed([0x31, 0x32, 0x33, 0x34, 0x35, 0x36, 0x37], 0x0669_3FF5, false, false, true, true, true, false, false, false);
    assert [0x31, 0x32, 0x33, 0x34, 0x35, 0x36, 0x37] + [0x38] == [0x31, 0x32, 0x33, 0x34, 0x35, 0x36, 0x37, 0x38];
    Fed([0x31, 0x32, 0x33, 0x34, 0x35, 0x36, 0x37, 0x38],
        0x0AA4_F8A6, false, false, true, true, true, false, false, true);
    assert [0x31, 0x32, 0x33, 0x34, 0x35, 0x36, 0x37, 0x38] + [0x39]
        == [0x31, 0x32, 0x33, 0x34, 0x35, 0x36, 0x37, 0x38, 0x39];
    NineDigitsWord(Crc.CrcFrom(Crc.INIT, [0x31, 0x32, 0x33, 0x34, 0x35, 0x36, 0x37, 0x38, 0x39]));
  }

  lemma NineDigitsWord(s: Crc.Register)
    requires Holds(s, 0x9B63_D02C)
    ensures Crc.Value(s) == 0x9B63_D02C
  {
    hide Crc.Value;
    ValueOfRow(s);
  }
}
