/** Comparing two floating point numbers with `==`: on their bit patterns, and on the
    numbers that IEEE 754 gives the patterns. */
module Floats {
  import opened Base
  import opened Wire
  import Arith

  predicate Floating(k: Kind) {
    k == Float || k == Double
  }

  // ----- the patterns -----

  /** The sign bit. */
  function SignBit(k: Kind): nat {
    if k == Float then TWO_31 else TWO_63
  }

  /** How many values the fraction and the exponent of a pattern can have. */
  function Fractions(k: Kind): nat {
    if k == Float then 0x80_0000 else 0x10_0000_0000_0000
  }

  function Exponents(k: Kind): nat {
    if k == Float then 0x100 else 0x800
  }

  /** The biased exponent and the fraction of a pattern without its sign bit: section 3.4
      of IEEE 754. */
  datatype Fields = Fields(exponent: nat, fraction: nat)

  function Unpack(k: Kind, u: nat): Fields {
    Fields(u / Fractions(k), u % Fractions(k))
  }

  function Unsigned(k: Kind, bits: nat): nat {
    bits % SignBit(k)
  }

  predicate NaN(k: Kind, bits: nat) {
    var f := Unpack(k, Unsigned(k, bits));
    Floating(k) && f.exponent == Exponents(k) - 1 && f.fraction != 0
  }

  predicate Infinite(k: Kind, bits: nat) {
    var f := Unpack(k, Unsigned(k, bits));
    Floating(k) && f.exponent == Exponents(k) - 1 && f.fraction == 0
  }

  predicate Zero(k: Kind, bits: nat) {
    Unsigned(k, bits) == 0
  }

  /** `==` of the two numbers in C. */
  predicate NumEqual(k: Kind, a: nat, b: nat) {
    if Floating(k)
    then !NaN(k, a) && !NaN(k, b) && (a == b || (Zero(k, a) && Zero(k, b)))
    else a == b
  }

  /** The patterns of all 32-bit and all 64-bit floating point numbers. */
  predicate Pattern(k: Kind, bits: nat) {
    Floating(k) && bits < 2 * SignBit(k)
  }

  /** The patterns that are no number, by where they lie: behind that of an infinity. */
  lemma NaNPatterns(bits: nat)
    ensures NaN(Float, bits) <==> bits % 0x8000_0000 > 0x7f80_0000
    ensures NaN(Double, bits) <==> bits % 0x8000_0000_0000_0000 > 0x7ff0_0000_0000_0000
  {
  }

  /** Two patterns of each width are zero, and two infinite. */
  lemma ZeroPatterns(bits: nat)
    ensures bits < 0x1_0000_0000 ==>
      (Zero(Float, bits) <==> bits == 0 || bits == 0x8000_0000) &&
      (Infinite(Float, bits) <==> bits == 0x7f80_0000 || bits == 0xff80_0000)
    ensures bits < 0x1_0000_0000_0000_0000 ==>
      (Zero(Double, bits) <==> bits == 0 || bits == 0x8000_0000_0000_0000) &&
      (Infinite(Double, bits) <==> bits == 0x7ff0_0000_0000_0000 || bits == 0xfff0_0000_0000_0000)
  {
  }

  // ----- the numbers -----

  /** In units of the least positive number of the format: the fraction alone if the
      exponent is 0, otherwise with the leading one and scaled by the exponent. */
  function Magnitude(m: nat, exponent: nat, fraction: nat): int {
    if exponent == 0 then fraction else (m + fraction) * Arith.Pow2(exponent - 1)
  }

  function MagnitudeOf(k: Kind, u: nat): int {
    Magnitude(Fractions(k), Unpack(k, u).exponent, Unpack(k, u).fraction)
  }

  /** The number of a pattern that is neither infinite nor a NaN. */
  function Denoted(k: Kind, bits: nat): int {
    var x := MagnitudeOf(k, Unsigned(k, bits));
    if bits >= SignBit(k) then -x else x
  }

  /** The first patterns are the numbers themselves; from there on the next exponent
      doubles the number. */
  lemma NextExponentDoubles(k: Kind, u: nat)
    ensures u < 2 * Fractions(k) ==> MagnitudeOf(k, u) == u
    ensures u >= Fractions(k) ==> MagnitudeOf(k, u + Fractions(k)) == 2 * MagnitudeOf(k, u)
  {
    var m, f := Fractions(k), Unpack(k, u);
    NextExponent(k, u);
    assert Arith.Pow2(0) == 1;
    if u >= m {
      var x, p := m + f.fraction, Arith.Pow2(f.exponent - 1);
      assert Arith.Pow2(f.exponent) == 2 * p;
      assert x * (2 * p) == 2 * (x * p);
    }
  }

  lemma NextExponent(k: Kind, u: nat)
    ensures Unpack(k, u + Fractions(k)) == Unpack(k, u).(exponent := Unpack(k, u).exponent + 1)
    ensures u == Unpack(k, u).exponent * Fractions(k) + Unpack(k, u).fraction
    ensures u < Fractions(k) <==> Unpack(k, u).exponent == 0
    ensures u < 2 * Fractions(k) <==> Unpack(k, u).exponent <= 1
  {
    if k == Float {
      assert Fractions(k) == 0x80_0000;
    } else {
      assert Fractions(k) == 0x10_0000_0000_0000;
    }
  }

  lemma MagnitudeBounds(m: nat, e: nat, f: nat)
    requires f < m
    ensures 0 <= Magnitude(m, e, f) < m * Arith.Pow2(e)
    ensures e > 0 ==> Magnitude(m, e, f) >= m * Arith.Pow2(e - 1)
  {
    if e > 0 {
      Between(m, f, Arith.Pow2(e - 1));
    }
  }

  lemma Between(m: nat, f: nat, p: nat)
    requires f < m && p > 0
    ensures 0 <= m * p <= (m + f) * p < m * (2 * p)
  {
  }

  lemma ProductMonotone(m: nat, p: nat, q: nat)
    requires p <= q
    ensures m * p <= m * q
  {
  }

  lemma StrictlyScaled(m: nat, f: nat, g: nat, p: nat)
    requires f < g && p > 0
    ensures (m + f) * p < (m + g) * p
  {
  }

  /** A greater exponent, or the same and a greater fraction, is a greater number. */
  lemma MagnitudeOrder(m: nat, e: nat, f: nat, d: nat, g: nat)
    requires f < m && g < m
    requires e < d || (e == d && f < g)
    ensures 0 <= Magnitude(m, e, f) < Magnitude(m, d, g)
  {
    MagnitudeBounds(m, e, f);
    MagnitudeBounds(m, d, g);
    if e < d {
      Arith.Pow2Monotone(e, d - 1);
      ProductMonotone(m, Arith.Pow2(e), Arith.Pow2(d - 1));
    } else if e > 0 {
      StrictlyScaled(m, f, g, Arith.Pow2(e - 1));
    }
  }

  /** Unsigned patterns are ordered like their fields. */
  lemma FieldsOrder(k: Kind, u: nat, v: nat)
    requires u < v
    ensures var f, g := Unpack(k, u), Unpack(k, v);
      && f.fraction < Fractions(k) && g.fraction < Fractions(k)
      && (f.exponent < g.exponent || (f.exponent == g.exponent && f.fraction < g.fraction))
  {
    if k == Float {
      assert Fractions(k) == 0x80_0000;
    } else {
      assert Fractions(k) == 0x10_0000_0000_0000;
    }
  }

  /** Unsigned patterns are ordered like the numbers they denote. */
  lemma PatternOrder(k: Kind, u: nat, v: nat)
    requires u < v
    ensures 0 <= MagnitudeOf(k, u) < MagnitudeOf(k, v)
  {
    FieldsOrder(k, u, v);
    var f, g := Unpack(k, u), Unpack(k, v);
    MagnitudeOrder(Fractions(k), f.exponent, f.fraction, g.exponent, g.fraction);
  }

  lemma ZeroMagnitude(k: Kind, u: nat)
    ensures MagnitudeOf(k, u) >= 0 && (MagnitudeOf(k, u) == 0 <==> u == 0)
  {
    if u > 0 {
      PatternOrder(k, 0, u);
    }
    assert MagnitudeOf(k, 0) == 0;
  }

  lemma SignedPattern(k: Kind, bits: nat)
    requires Pattern(k, bits)
    ensures bits == Unsigned(k, bits) + if bits >= SignBit(k) then SignBit(k) else 0
  {
    if k == Float {
      assert SignBit(k) == TWO_31;
    } else {
      assert SignBit(k) == TWO_63;
    }
  }

  /** The sign bit makes a number negative. */
  lemma SignNegates(k: Kind, u: nat)
    requires u < SignBit(k)
    ensures Denoted(k, u) == MagnitudeOf(k, u) >= 0 && Denoted(k, u + SignBit(k)) == -MagnitudeOf(k, u)
  {
    ZeroMagnitude(k, u);
    UnsignedOf(k, u);
  }

  lemma UnsignedOf(k: Kind, u: nat)
    requires u < SignBit(k)
    ensures Unsigned(k, u) == u && Unsigned(k, u + SignBit(k)) == u
  {
    if k == Float {
      SignAside(u, TWO_31);
    } else {
      SignAside(u, TWO_63);
    }
  }

  lemma SignAside(u: nat, s: nat)
    requires u < s
    ensures u % s == u && (u + s) % s == u
  {
    assert u + s == 1 * s + u;
  }

  /** Different patterns denote different numbers, except the two zeros. */
  lemma DenotedUnique(k: Kind, a: nat, b: nat)
    requires Pattern(k, a) && Pattern(k, b)
    ensures Denoted(k, a) == Denoted(k, b) <==> a == b || (Zero(k, a) && Zero(k, b))
  {
    var u, v := Unsigned(k, a), Unsigned(k, b);
    SignedPattern(k, a);
    SignedPattern(k, b);
    ZeroMagnitude(k, u);
    ZeroMagnitude(k, v);
    if u < v {
      PatternOrder(k, u, v);
    } else if v < u {
      PatternOrder(k, v, u);
    }
  }

  /** What `==` finds equal: no NaN, not even with itself; an infinity only with itself;
      any two others if they are the same number. */
  lemma NumEqualExactly(k: Kind, a: nat, b: nat)
    requires Pattern(k, a) && Pattern(k, b)
    ensures NumEqual(k, a, b) <==>
      if NaN(k, a) || NaN(k, b) then false
      else if Infinite(k, a) || Infinite(k, b) then a == b
      else Denoted(k, a) == Denoted(k, b)
  {
    DenotedUnique(k, a, b);
    ZeroIsFinite(k, a);
    ZeroIsFinite(k, b);
  }

  lemma ZeroIsFinite(k: Kind, a: nat)
    ensures Zero(k, a) ==> !NaN(k, a) && !Infinite(k, a)
  {
  }

  /** There is one infinity of each sign. */
  lemma InfinityUnique(k: Kind, a: nat, b: nat)
    requires Pattern(k, a) && Pattern(k, b) && Infinite(k, a) && Infinite(k, b)
    ensures a == b <==> (a >= SignBit(k) <==> b >= SignBit(k))
  {
    SignedPattern(k, a);
    SignedPattern(k, b);
    NextExponent(k, Unsigned(k, a));
    NextExponent(k, Unsigned(k, b));
  }
}
