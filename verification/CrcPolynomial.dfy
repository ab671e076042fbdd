/** The CRC as polynomial division. A polynomial over the two-element field is the row of its
    coefficients, highest degree first. */
module CrcPolynomial {
  import opened Bytes
  import opened Crc
  import CrcNumbers

  const DEGREE: nat := 32

  /** The exponents of the generator of IEEE 802.3, section 3.2.9. */
  predicate InGenerator(e: int) { e in {32, 26, 23, 22, 16, 12, 11, 10, 8, 7, 5, 4, 2, 1, 0} }

  function Generator(): (g: seq<bool>)
    ensures |g| == DEGREE + 1 && forall i | 0 <= i <= DEGREE :: g[i] == InGenerator(DEGREE - i)
  {
    seq(DEGREE + 1, i requires 0 <= i <= DEGREE => InGenerator(DEGREE - i))
  }

  function Ones(n: nat): (r: seq<bool>)
    ensures |r| == n && forall i | 0 <= i < n :: r[i]
  {
    seq(n, _ => true)
  }

  /** The generator times x^n, or nothing. */
  function Lead(b: bool, n: nat): (r: seq<bool>)
    ensures |r| == n + DEGREE + 1
    ensures forall i | 0 <= i < |r| :: r[i] == (b && i <= DEGREE && InGenerator(DEGREE - i))
  {
    if b then Generator() + Zeros(n) else Zeros(n + DEGREE + 1)
  }

  /** The generator times a polynomial. */
  function Times(q: seq<bool>): (r: seq<bool>)
    ensures |r| == |q| + DEGREE
  {
    if q == [] then Zeros(DEGREE)
    else Xor(Lead(q[0], |q| - 1), [false] + Times(q[1..]))
  }

  /** `r` is what remains of `p` when a multiple of the generator is taken away. */
  ghost predicate IsRemainder(p: seq<bool>, r: seq<bool>) {
    && |p| >= DEGREE == |r|
    && exists q: seq<bool> :: |q| == |p| - DEGREE && p == Xor(Times(q), Zeros(|q|) + r)
  }

  // ---- Division has one remainder ----

  lemma TimesLeads(q: seq<bool>)
    requires q != []
    ensures Times(q)[0] == q[0]
  {
  }

  /** Multiples that agree above the degree of the remainder are the same multiple. */
  lemma {:induction false} OneRemainder(p: seq<bool>, q: seq<bool>, r: seq<bool>, q': seq<bool>, r': seq<bool>)
    requires |r| == |r'| == DEGREE && |q| == |q'| && |p| == |q| + DEGREE
    requires p == Xor(Times(q), Zeros(|q|) + r) && p == Xor(Times(q'), Zeros(|q'|) + r')
    ensures r == r'
    decreases |q|
  {
    if q == [] {
      assert Zeros(0) + r == r && Zeros(0) + r' == r';
      assert forall i | 0 <= i < DEGREE :: p[i] == r[i] && p[i] == r'[i];
    } else {
      TimesLeads(q);
      TimesLeads(q');
      assert q[0] == p[0] == q'[0];
      var lead := Lead(q[0], |q| - 1);
      var rest := Xor(p, lead)[1..];
      Drop(p, lead, Times(q[1..]), r);
      Drop(p, lead, Times(q'[1..]), r');
      OneRemainder(rest, q[1..], r, q'[1..], r');
    }
  }

  lemma Drop(p: seq<bool>, lead: seq<bool>, t: seq<bool>, r: seq<bool>)
    requires |r| == DEGREE && |p| == |lead| == |t| + 1 && |t| >= DEGREE
    requires p == Xor(Xor(lead, [false] + t), Zeros(|p| - DEGREE) + r)
    ensures Xor(p, lead)[1..] == Xor(t, Zeros(|t| - DEGREE) + r)
  {
  }

  // ---- The register divides ----

  lemma PolyIsGenerator()
    ensures forall i | 0 <= i < 32 :: POLY[i] == InGenerator(31 - i)
  {
    hide BitsOf;
    CrcNumbers.PolyBits();
  }

  /** What is divided: the message times x^32, with `s` added to its first 32 coefficients. */
  function Dividend(s: Register, bits: seq<bool>): (p: seq<bool>)
    ensures |p| == |bits| + DEGREE
  {
    Xor(bits + Zeros(DEGREE), s + Zeros(|bits|))
  }

  /** Feeding one bit is one step of long division. */
  lemma DivisionStep(s: Register, bits: seq<bool>)
    requires bits != []
    ensures var p := Dividend(s, bits);
            p == Xor(Lead(p[0], |bits| - 1), [false] + Dividend(BitStep(s, bits[0]), bits[1..]))
  {
    var p, t := Dividend(s, bits), BitStep(s, bits[0]);
    var rest := Dividend(t, bits[1..]);
    var lead := Lead(p[0], |bits| - 1);
    assert p[0] == (bits[0] != s[0]);
    hide Dividend, BitStep;
    forall i | 0 <= i < |p|
      ensures p[i] == (lead[i] != ([false] + rest)[i])
    {
      if i == 0 {
        assert lead[0] == p[0];
      } else {
        Coefficient(s, bits, i - 1);
      }
    }
  }

  lemma Coefficient(s: Register, bits: seq<bool>, i: nat)
    requires bits != [] && i < |bits| + 31
    ensures var lead := s[0] != bits[0];
            Dividend(s, bits)[i + 1]
            == ((lead && i < 32 && InGenerator(31 - i)) != Dividend(BitStep(s, bits[0]), bits[1..])[i])
  {
    if i < 32 {
      PolyIsGenerator();
      ShiftAt(s[0 := s[0] != bits[0]], i);
    }
  }

  /** Feeding a message, from any starting value, divides: the quotient and the register. */
  lemma {:induction false} FeedingDivides(s: Register, bits: seq<bool>) returns (q: seq<bool>)
    ensures |q| == |bits| && Dividend(s, bits) == Xor(Times(q), Zeros(|q|) + FeedBits(s, bits))
    decreases |bits|
  {
    hide Dividend, BitStep, Lead, Xor;
    if bits == [] {
      q := [];
      NothingDivided(s);
    } else {
      DivisionStep(s, bits);
      var t := BitStep(s, bits[0]);
      var rest := FeedingDivides(t, bits[1..]);
      q := [Dividend(s, bits)[0]] + rest;
      assert q[1..] == rest;
      Restore(Lead(q[0], |bits| - 1), Times(rest), FeedBits(t, bits[1..]));
    }
  }

  lemma NothingDivided(s: Register)
    ensures Dividend(s, []) == Xor(Times([]), Zeros(0) + FeedBits(s, []))
  {
  }

  lemma Restore(lead: seq<bool>, t: seq<bool>, r: seq<bool>)
    requires |r| == DEGREE && |lead| == |t| + 1 && |t| >= DEGREE
    ensures Xor(lead, [false] + Xor(t, Zeros(|t| - DEGREE) + r))
            == Xor(Xor(lead, [false] + t), Zeros(|lead| - DEGREE) + r)
  {
  }

  /** The CRC of a message is the number whose bits are the one remainder of the division of
      the message, times x^32, its first 32 bits complemented, by the generator. */
  lemma CrcIsRemainder(data: seq<byte>, r: seq<bool>)
    requires |r| == DEGREE
    ensures IsRemainder(Xor(Bits(data) + Zeros(DEGREE), Ones(DEGREE) + Zeros(|Bits(data)|)), r)
            <==> Crc32(data) == Value(r)
  {
    var bits := Bits(data);
    CrcNumbers.InitBits();
    assert INIT == Ones(DEGREE);
    var quotient := FeedingDivides(INIT, bits);
    BytewiseIsSerial(INIT, data);
    var c := FeedBits(INIT, bits);
    if IsRemainder(Dividend(INIT, bits), r) {
      Unique(Dividend(INIT, bits), r, c);
    }
    if Crc32(data) == Value(r) {
      ValueInjective(r, c);
    }
  }

  lemma Unique(p: seq<bool>, r: seq<bool>, r': seq<bool>)
    requires IsRemainder(p, r) && IsRemainder(p, r')
    ensures r == r'
  {
    var q :| |q| == |p| - DEGREE && p == Xor(Times(q), Zeros(|q|) + r);
    var q' :| |q'| == |p| - DEGREE && p == Xor(Times(q'), Zeros(|q'|) + r');
    OneRemainder(p, q, r, q', r');
  }
}
