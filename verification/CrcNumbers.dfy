/** The same CRC computed on numbers, the way the host tool does it: shifts are
    multiplications by two kept to 32 bits, and exclusive-or works on binary digits.
    The register of bits and the numbers agree on every message. */
module CrcNumbers {
  import opened Bytes
  import Crc

  const POLY: nat := 0x04C1_1DB7
  const INIT: nat := 0xFFFF_FFFF

  function XorNum(a: nat, b: nat): nat {
    if a == 0 && b == 0 then 0
    else 2 * XorNum(a / 2, b / 2) + (if a % 2 != b % 2 then 1 else 0)
  }

  function AndNum(a: nat, b: nat): nat {
    if a == 0 || b == 0 then 0
    else 2 * AndNum(a / 2, b / 2) + (if a % 2 == 1 && b % 2 == 1 then 1 else 0)
  }

  function OrNum(a: nat, b: nat): nat {
    if a == 0 && b == 0 then 0
    else 2 * OrNum(a / 2, b / 2) + (if a % 2 == 1 || b % 2 == 1 then 1 else 0)
  }

  function ShiftNum(v: nat): nat {
    if v >= 0x8000_0000 then XorNum(2 * v % 0x1_0000_0000, POLY) else 2 * v
  }

  function ShiftNums(v: nat, n: nat): nat
    decreases n
  {
    if n == 0 then v else ShiftNums(ShiftNum(v), n - 1)
  }

  /** The low `n` bits of a number, in the opposite order. */
  function ReverseNum(v: nat, n: nat): nat
    decreases n
  {
    if n == 0 then 0 else (v % 2) * Crc.Pow2(n - 1) + ReverseNum(v / 2, n - 1)
  }

  function StepNum(v: nat, b: byte): nat {
    ShiftNums(XorNum(v, 0x100_0000 * ReverseNum(b, 8)), 8)
  }

  function CrcNum(v: nat, data: seq<byte>): nat {
    if data == [] then v else StepNum(CrcNum(v, data[..|data| - 1]), data[|data| - 1])
  }

  // ---- Agreement with the register ----

  lemma {:induction false} ValueOfXor(a: seq<bool>, b: seq<bool>)
    requires |a| == |b|
    ensures Crc.Value(Crc.Xor(a, b)) == XorNum(Crc.Value(a), Crc.Value(b))
    decreases |a|
  {
    if a != [] {
      var n := |a| - 1;
      ValueOfXor(a[..n], b[..n]);
      var x := Crc.Xor(a, b);
      assert x[..n] == Crc.Xor(a[..n], b[..n]);
      assert Crc.Value(x) == 2 * Crc.Value(x[..n]) + (if a[n] != b[n] then 1 else 0);
    }
  }

  /** Appending zeros multiplies by a power of two. */
  lemma {:induction false} ValueOfShifted(s: seq<bool>, n: nat)
    ensures Crc.Value(s + Crc.Zeros(n)) == Crc.Value(s) * Crc.Pow2(n)
    decreases n
  {
    var t := s + Crc.Zeros(n);
    if n == 0 {
      assert t == s;
    } else {
      var front := s + Crc.Zeros(n - 1);
      assert t[..|t| - 1] == front && !t[|t| - 1];
      ValueOfShifted(s, n - 1);
      assert Crc.Value(t) == 2 * Crc.Value(front);
      Doubling(Crc.Value(s), Crc.Pow2(n - 1));
    }
  }

  lemma Doubling(v: nat, p: nat)
    ensures 2 * (v * p) == v * (2 * p)
  {
  }

  lemma {:induction false} ValueOfLeading(s: seq<bool>)
    requires s != []
    ensures Crc.Value(s) == (if s[0] then Crc.Pow2(|s| - 1) else 0) + Crc.Value(s[1..])
    decreases |s|
  {
    var n := |s| - 1;
    if n > 0 {
      ValueOfLeading(s[..n]);
      assert s[..n][1..] == s[1..][..n - 1];
    } else {
      assert s[1..] == [] && s[..0] == [];
    }
  }

  lemma Pow2Values()
    ensures Crc.Pow2(8) == 0x100 && Crc.Pow2(24) == 0x100_0000
    ensures Crc.Pow2(31) == 0x8000_0000 && Crc.Pow2(32) == 0x1_0000_0000
  {
    assert Crc.Pow2(8) == 0x100 && Crc.Pow2(16) == 0x1_0000 && Crc.Pow2(24) == 0x100_0000;
  }

  lemma ShiftAgrees(s: Crc.Register)
    ensures Crc.Value(Crc.Shift(s)) == ShiftNum(Crc.Value(s))
  {
    hide XorNum, Crc.Value;
    var rest := s[1..];
    Pow2Values();
    ValueOfLeading(s);
    ValueOfShifted(rest, 1);
    assert rest + Crc.Zeros(1) == rest + [false];
    assert Crc.Value(rest + [false]) == 2 * Crc.Value(rest);
    assert Crc.Value(rest) < 0x8000_0000;
    Crc.ValueOfBits(POLY, 32);
    ValueOfXor(rest + [false], Crc.POLY);
  }

  lemma {:induction false} ShiftsAgree(s: Crc.Register, n: nat)
    ensures Crc.Value(Crc.Shifts(s, n)) == ShiftNums(Crc.Value(s), n)
    decreases n
  {
    hide ShiftNum, Crc.Shift, Crc.Value;
    if n > 0 {
      Crc.ShiftsTail(s, n);
      ShiftAgrees(s);
      ShiftsAgree(Crc.Shift(s), n - 1);
    }
  }

  lemma {:induction false} ValueOfReversed(r: seq<bool>, v: nat, n: nat)
    requires |r| == n && forall i | 0 <= i < n :: r[i] == Crc.BitsOf(v, n)[n - 1 - i]
    ensures Crc.Value(r) == ReverseNum(v, n)
    decreases n
  {
    hide Crc.Value;
    if n == 0 {
      EmptyValue(r);
    } else {
      ValueOfLeading(r);
      assert r[0] == (v % 2 == 1);
      forall i | 0 <= i < n - 1
        ensures r[1..][i] == Crc.BitsOf(v / 2, n - 1)[n - 2 - i]
      {
        assert r[1..][i] == r[i + 1];
        assert Crc.BitsOf(v, n)[n - 2 - i] == Crc.BitsOf(v / 2, n - 1)[n - 2 - i];
      }
      ValueOfReversed(r[1..], v / 2, n - 1);
    }
  }

  lemma EmptyValue(r: seq<bool>)
    requires r == []
    ensures Crc.Value(r) == 0
  {
  }

  // ---- Masks and shifts ----

  function AndBits(a: seq<bool>, b: seq<bool>): (r: seq<bool>)
    requires |a| == |b|
    ensures |r| == |a| && forall i | 0 <= i < |a| :: r[i] == (a[i] && b[i])
  {
    seq(|a|, i requires 0 <= i < |a| => a[i] && b[i])
  }

  function OrBits(a: seq<bool>, b: seq<bool>): (r: seq<bool>)
    requires |a| == |b|
    ensures |r| == |a| && forall i | 0 <= i < |a| :: r[i] == (a[i] || b[i])
  {
    seq(|a|, i requires 0 <= i < |a| => a[i] || b[i])
  }

  lemma AndStep(a: nat, b: nat, x: bool, y: bool)
    ensures AndNum(2 * a + (if x then 1 else 0), 2 * b + (if y then 1 else 0))
            == 2 * AndNum(a, b) + (if x && y then 1 else 0)
  {
    var a', b' := 2 * a + (if x then 1 else 0), 2 * b + (if y then 1 else 0);
    assert a' / 2 == a && b' / 2 == b && (a' % 2 == 1) == x && (b' % 2 == 1) == y;
    assert AndNum(0, b) == 0 && AndNum(a, 0) == 0;
  }

  lemma {:induction false} ValueOfAnd(a: seq<bool>, b: seq<bool>)
    requires |a| == |b|
    ensures Crc.Value(AndBits(a, b)) == AndNum(Crc.Value(a), Crc.Value(b))
    decreases |a|
  {
    hide AndNum;
    if a != [] {
      var n := |a| - 1;
      ValueOfAnd(a[..n], b[..n]);
      AndStep(Crc.Value(a[..n]), Crc.Value(b[..n]), a[n], b[n]);
      assert AndBits(a, b)[..n] == AndBits(a[..n], b[..n]);
    } else {
      AndNothing();
    }
  }

  lemma AndNothing()
    ensures AndNum(0, 0) == 0
  {
  }

  lemma {:induction false} ValueOfOr(a: seq<bool>, b: seq<bool>)
    requires |a| == |b|
    ensures Crc.Value(OrBits(a, b)) == OrNum(Crc.Value(a), Crc.Value(b))
    decreases |a|
  {
    if a != [] {
      var n := |a| - 1;
      ValueOfOr(a[..n], b[..n]);
      var x := OrBits(a, b);
      assert x[..n] == OrBits(a[..n], b[..n]);
      assert Crc.Value(x) == 2 * Crc.Value(x[..n]) + (if a[n] || b[n] then 1 else 0);
    }
  }

  lemma {:induction false} LeadingZeros(k: nat, s: seq<bool>)
    ensures Crc.Value(Crc.Zeros(k) + s) == Crc.Value(s)
    decreases k
  {
    if k == 0 {
      assert Crc.Zeros(k) + s == s;
    } else {
      var t := Crc.Zeros(k) + s;
      ValueOfLeading(t);
      assert t[1..] == Crc.Zeros(k - 1) + s;
      LeadingZeros(k - 1, s);
    }
  }

  function Quotient(v: nat, p: nat): nat
    requires p > 0
  {
    v / p
  }

  function Down(v: nat, k: nat): nat { Quotient(v, Crc.Pow2(k)) }

  function Up(v: nat, k: nat): nat { v * Crc.Pow2(k) }

  /** The bits under one mask moved right, those under the other moved left. */
  function Swapped(v: nat, high: nat, low: nat, k: nat): nat {
    OrNum(Down(AndNum(v, high), k), Up(AndNum(v, low), k))
  }

  lemma TimesOver(a: nat, p: nat)
    requires p == 2 || p == 4 || p == 16
    ensures a * p / p == a
  {
    if p == 2 {
      assert a * 2 / 2 == a;
    } else if p == 4 {
      assert a * 4 / 4 == a;
    } else {
      assert a * 16 / 16 == a;
    }
  }

  lemma SmallPowers()
    ensures Crc.Pow2(1) == 2 && Crc.Pow2(2) == 4 && Crc.Pow2(4) == 16
  {
  }

  lemma ShiftedRight(s: seq<bool>, k: nat)
    requires k <= |s| && (k == 1 || k == 2 || k == 4) && forall i | |s| - k <= i < |s| :: !s[i]
    ensures Down(Crc.Value(s), k) == Crc.Value(Crc.Zeros(k) + s[..|s| - k])
  {
    hide Crc.Value, Crc.Pow2;
    SmallPowers();
    var front := s[..|s| - k];
    assert s == front + Crc.Zeros(k);
    ValueOfShifted(front, k);
    TimesOver(Crc.Value(front), Crc.Pow2(k));
    LeadingZeros(k, front);
  }

  lemma ShiftedLeft(s: seq<bool>, k: nat)
    requires k <= |s| && forall i | 0 <= i < k :: !s[i]
    ensures Up(Crc.Value(s), k) == Crc.Value(s[k..] + Crc.Zeros(k))
  {
    hide Crc.Value;
    assert s == Crc.Zeros(k) + s[k..];
    LeadingZeros(k, s[k..]);
    ValueOfShifted(s[k..], k);
  }

  function SwappedRow(r: seq<bool>, high: seq<bool>, low: seq<bool>, k: nat): (out: seq<bool>)
    requires |r| == |high| == |low| == 8 && k <= 8
    ensures |out| == 8
  {
    OrBits(Crc.Zeros(k) + AndBits(r, high)[..8 - k], AndBits(r, low)[k..] + Crc.Zeros(k))
  }

  lemma SwappedBits(r: seq<bool>, high: seq<bool>, low: seq<bool>, k: nat)
    requires |r| == |high| == |low| == 8 && (k == 1 || k == 2 || k == 4)
    requires forall i | 8 - k <= i < 8 :: !high[i]
    requires forall i | 0 <= i < k :: !low[i]
    ensures Crc.Value(SwappedRow(r, high, low, k)) == Swapped(Crc.Value(r), Crc.Value(high), Crc.Value(low), k)
  {
    hide Crc.Value, AndNum, OrNum, Down, Up;
    var hi, lo := AndBits(r, high), AndBits(r, low);
    ValueOfAnd(r, high);
    ValueOfAnd(r, low);
    ShiftedRight(hi, k);
    ShiftedLeft(lo, k);
    ValueOfOr(Crc.Zeros(k) + hi[..8 - k], lo[k..] + Crc.Zeros(k));
  }

  lemma ValueStep(s: seq<bool>, n: nat)
    requires n < |s|
    ensures Crc.Value(s[..n + 1]) == 2 * Crc.Value(s[..n]) + (if s[n] then 1 else 0)
  {
    assert s[..n + 1][..n] == s[..n];
  }

  lemma FourMore(s: seq<bool>, n: nat)
    requires n + 4 <= |s|
    ensures Crc.Value(s[..n + 4]) == 16 * Crc.Value(s[..n]) + NibbleValue(s[n], s[n + 1], s[n + 2], s[n + 3])
  {
    hide Crc.Value;
    ValueStep(s, n);
    ValueStep(s, n + 1);
    ValueStep(s, n + 2);
    ValueStep(s, n + 3);
  }

  lemma ByteValue(s: seq<bool>)
    requires |s| == 8
    ensures Crc.Value(s) == 16 * NibbleValue(s[0], s[1], s[2], s[3]) + NibbleValue(s[4], s[5], s[6], s[7])
  {
    hide Crc.Value, NibbleValue;
    EmptyValue(s[..0]);
    FourMore(s, 0);
    FourMore(s, 4);
    assert s[..8] == s;
  }

  function NibbleValue(a: bool, b: bool, c: bool, d: bool): nat {
    (if a then 8 else 0) + (if b then 4 else 0) + (if c then 2 else 0) + (if d then 1 else 0)
  }

  lemma BitsSnoc(v: nat, x: bool, n: nat)
    ensures Crc.BitsOf(2 * v + (if x then 1 else 0), n + 1) == Crc.BitsOf(v, n) + [x]
  {
  }

  function ByteOf(a: bool, b: bool, c: bool, d: bool, e: bool, f: bool, g: bool, h: bool): (r: nat)
    ensures r < 0x100
  {
    16 * NibbleValue(a, b, c, d) + NibbleValue(e, f, g, h)
  }

  lemma BitsFourMore(v: nat, n: nat, a: bool, b: bool, c: bool, d: bool)
    ensures Crc.BitsOf(16 * v + NibbleValue(a, b, c, d), n + 4) == Crc.BitsOf(v, n) + [a, b, c, d]
  {
    hide Crc.BitsOf;
    var x := 2 * v + (if a then 1 else 0);
    var y := 2 * x + (if b then 1 else 0);
    var z := 2 * y + (if c then 1 else 0);
    BitsSnoc(v, a, n);
    BitsSnoc(x, b, n + 1);
    BitsSnoc(y, c, n + 2);
    BitsSnoc(z, d, n + 3);
    assert 2 * z + (if d then 1 else 0) == 16 * v + NibbleValue(a, b, c, d);
  }

  lemma BitsEightMore(v: nat, n: nat, a: bool, b: bool, c: bool, d: bool, e: bool, f: bool, g: bool, h: bool)
    ensures Crc.BitsOf(0x100 * v + ByteOf(a, b, c, d, e, f, g, h), n + 8)
            == Crc.BitsOf(v, n) + [a, b, c, d, e, f, g, h]
  {
    hide Crc.BitsOf, NibbleValue;
    BitsFourMore(v, n, a, b, c, d);
    BitsFourMore(16 * v + NibbleValue(a, b, c, d), n + 4, e, f, g, h);
  }

  lemma NoBits()
    ensures Crc.BitsOf(0, 0) == []
  {
  }

  /** The generator's low coefficients, bit by bit. */
  lemma PolyBits()
    ensures Crc.POLY == [false, false, false, false, false, true, false, false,
                         true, true, false, false, false, false, false, true,
                         false, false, false, true, true, true, false, true,
                         true, false, true, true, false, true, true, true]
  {
    hide Crc.BitsOf;
    NoBits();
    BitsEightMore(0, 0, false, false, false, false, false, true, false, false);
    BitsEightMore(0x04, 8, true, true, false, false, false, false, false, true);
    BitsEightMore(0x04C1, 16, false, false, false, true, true, true, false, true);
    BitsEightMore(0x04C1_1D, 24, true, false, true, true, false, true, true, true);
  }

  lemma InitBits()
    ensures forall i | 0 <= i < 32 :: Crc.INIT[i]
  {
    hide Crc.BitsOf;
    NoBits();
    BitsEightMore(0, 0, true, true, true, true, true, true, true, true);
    BitsEightMore(0xFF, 8, true, true, true, true, true, true, true, true);
    BitsEightMore(0xFFFF, 16, true, true, true, true, true, true, true, true);
    BitsEightMore(0xFF_FFFF, 24, true, true, true, true, true, true, true, true);
  }

  const HIGH_NIBBLE := [true, true, true, true, false, false, false, false]
  const LOW_NIBBLE := [false, false, false, false, true, true, true, true]
  const HIGH_PAIRS := [true, true, false, false, true, true, false, false]
  const LOW_PAIRS := [false, false, true, true, false, false, true, true]
  const ODD_BITS := [true, false, true, false, true, false, true, false]
  const EVEN_BITS := [false, true, false, true, false, true, false, true]

  lemma Masks()
    ensures Crc.Value(HIGH_NIBBLE) == 0xF0 && Crc.Value(LOW_NIBBLE) == 0x0F
    ensures Crc.Value(HIGH_PAIRS) == 0xCC && Crc.Value(LOW_PAIRS) == 0x33
    ensures Crc.Value(ODD_BITS) == 0xAA && Crc.Value(EVEN_BITS) == 0x55
  {
    hide Crc.Value;
    ByteValue(HIGH_NIBBLE);
    ByteValue(LOW_NIBBLE);
    ByteValue(HIGH_PAIRS);
    ByteValue(LOW_PAIRS);
    ByteValue(ODD_BITS);
    ByteValue(EVEN_BITS);
  }

  lemma NibblesSwapped(r: seq<bool>)
    requires |r| == 8
    ensures SwappedRow(r, HIGH_NIBBLE, LOW_NIBBLE, 4) == r[4..] + r[..4]
  {
  }

  lemma PairsSwapped(n: seq<bool>)
    requires |n| == 8
    ensures SwappedRow(n, HIGH_PAIRS, LOW_PAIRS, 2) == [n[2], n[3], n[0], n[1], n[6], n[7], n[4], n[5]]
  {
  }

  lemma BitsSwapped(p: seq<bool>)
    requires |p| == 8
    ensures SwappedRow(p, ODD_BITS, EVEN_BITS, 1) == [p[1], p[0], p[3], p[2], p[5], p[4], p[7], p[6]]
  {
  }

  /** Nibbles, pairs, bits: three swaps by mask and shift put the low eight bits of a
      number in the opposite order. */
  lemma SwapsReverse(b: byte)
    ensures var n := Swapped(b, 0xF0, 0x0F, 4); var p := Swapped(n, 0xCC, 0x33, 2);
            Swapped(p, 0xAA, 0x55, 1) == ReverseNum(b, 8)
  {
    hide Swapped, SwappedRow, ReverseNum, Crc.Value, Crc.BitsOf, Crc.Pow2;
    var r := Crc.BitsOf(b, 8);
    var n := r[4..] + r[..4];
    var p := [n[2], n[3], n[0], n[1], n[6], n[7], n[4], n[5]];
    var out := [p[1], p[0], p[3], p[2], p[5], p[4], p[7], p[6]];
    assert out == Crc.ReverseByte(r);
    assert n == SwappedRow(r, HIGH_NIBBLE, LOW_NIBBLE, 4) by { NibblesSwapped(r); }
    assert p == SwappedRow(n, HIGH_PAIRS, LOW_PAIRS, 2) by { PairsSwapped(n); }
    assert out == SwappedRow(p, ODD_BITS, EVEN_BITS, 1) by { BitsSwapped(p); }
    Pow2Values();
    Crc.ValueOfBits(b, 8);
    Masks();
    SwappedBits(r, HIGH_NIBBLE, LOW_NIBBLE, 4);
    SwappedBits(n, HIGH_PAIRS, LOW_PAIRS, 2);
    SwappedBits(p, ODD_BITS, EVEN_BITS, 1);
    LineBitsAgree(b);
  }

  lemma LineBitsAgree(b: byte)
    ensures Crc.Value(Crc.LineBits(b)) == ReverseNum(b, 8)
  {
    ValueOfReversed(Crc.LineBits(b), b, 8);
  }

  lemma StepAgrees(s: Crc.Register, b: byte)
    ensures Crc.Value(Crc.ByteStep(s, b)) == StepNum(Crc.Value(s), b)
  {
    hide XorNum, ShiftNums, Crc.Value, Crc.Shifts, ReverseNum;
    var w := Crc.LineBits(b);
    Pow2Values();
    LineBitsAgree(b);
    ValueOfShifted(w, 24);
    ValueOfXor(s, w + Crc.Zeros(24));
    ShiftsAgree(Crc.Mix(s, w), 8);
  }

  /** On every message the register ends up holding the number computed arithmetically. */
  lemma {:induction false} CrcAgrees(s: Crc.Register, data: seq<byte>)
    ensures Crc.Word(Crc.CrcFrom(s, data)) == CrcNum(Crc.Word(s), data)
    decreases |data|
  {
    hide Crc.Value, StepNum, Crc.ByteStep;
    if data != [] {
      var n := |data| - 1;
      CrcAgrees(s, data[..n]);
      StepAgrees(Crc.CrcFrom(s, data[..n]), data[n]);
    }
  }

  lemma CrcIsNumeric(data: seq<byte>)
    ensures Crc.Crc32(data) == CrcNum(INIT, data)
  {
    hide Crc.Value, Crc.CrcFrom, CrcNum;
    Pow2Values();
    Crc.ValueOfBits(INIT, 32);
    CrcAgrees(Crc.INIT, data);
  }

  /** The host tool's byte reversal, with its argument reassigned three times. */
  method ReverseByte(b: byte) returns (r: nat)
    ensures r == ReverseNum(b, 8)
  {
    hide AndNum, OrNum, ReverseNum, Crc.Pow2;
    SmallPowers();
    SwapsReverse(b);
    r := b;
    r := OrNum(AndNum(r, 0xF0) / 16, AndNum(r, 0x0F) * 16);
    r := OrNum(AndNum(r, 0xCC) / 4, AndNum(r, 0x33) * 4);
    r := OrNum(AndNum(r, 0xAA) / 2, AndNum(r, 0x55) * 2);
  }

  /** The host tool's loops compute what the board's peripheral computes. */
  method Crc32Stm32(data: seq<byte>) returns (crc: nat)
    ensures crc == Crc.Crc32(data)
  {
    hide XorNum, ReverseNum;
    crc := INIT;
    for i := 0 to |data|
      invariant crc == CrcNum(INIT, data[..i])
    {
      assert data[..i + 1][..i] == data[..i];
      var reversed := ReverseByte(data[i]);
      crc := XorNum(crc, 0x100_0000 * reversed);
      ghost var mixed := crc;
      for k := 0 to 8
        invariant ShiftNums(mixed, 8) == ShiftNums(crc, 8 - k)
      {
        crc := if crc >= 0x8000_0000 then XorNum(2 * crc % 0x1_0000_0000, POLY) else 2 * crc;
      }
    }
    assert data[..|data|] == data;
    CrcIsNumeric(data);
  }
}
