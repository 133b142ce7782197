/** The multiply-then-divide overflow checks: unsigned in array_reserve
    (src/DynamicArray.c) and signed in the duration constructors (src/Duration.cpp). */
module Arith {
  import opened Base

  /** An int64_t product under two's complement wrap-around. */
  function WrapSigned(x: int): (r: int64)
    ensures (r - x) % TWO_64 == 0
    ensures -TWO_63 <= x < TWO_63 ==> r == x
  {
    var u := x % TWO_64;
    if u < TWO_63 then u else u - TWO_64
  }

  /** C's integer division, which rounds towards zero. */
  function DivTrunc(a: int, b: int): int
    requires b != 0
  {
    if (a < 0) == (b < 0) then Abs(a) / Abs(b) else -(Abs(a) / Abs(b))
  }

  function Abs(x: int): nat {
    if x < 0 then -x else x
  }

  lemma QuotientBound(x: nat, a: nat)
    requires a > 0
    ensures a * (x / a) <= x < a * (x / a) + a
  {
  }

  /** A non-zero multiple is at least as large as its factor. */
  lemma MultipleBound(a: int, d: int)
    ensures d != 0 ==> Abs(a * d) >= Abs(a)
  {
  }

  lemma MultipleOf(a: nat, b: nat)
    requires a > 0
    ensures a * b / a == b
  {
    var q := a * b / a;
    QuotientBound(a * b, a);
    assert a * b - a * q == a * (b - q);
    MultipleBound(a, b - q);
  }

  /** The unsigned test `x / a == b` after `x = a * b` holds exactly when the
      product did not wrap. */
  lemma UnsignedCheckExact(a: size_t, b: size_t)
    requires a != 0
    ensures Wrap(a * b, TWO_64) / a == b <==> a * b < TWO_64
  {
    var x := Wrap(a * b, TWO_64);
    if a * b < TWO_64 {
      MultipleOf(a, b);
    } else {
      QuotientBound(x, a);
    }
  }

  lemma AbsDiv(a: int, b: int)
    requires b != 0
    ensures Abs(a - b * DivTrunc(a, b)) < Abs(b)
    ensures a == b * DivTrunc(a, b) + (a - b * DivTrunc(a, b))
  {
  }

  lemma ProductSign(a: int, d: int)
    ensures Abs(a * d) == Abs(a) * Abs(d)
    ensures d == 0 ==> a * d == 0
    ensures d > 0 ==> (a * d < 0 <==> a < 0)
    ensures d < 0 ==> (a * d > 0 <==> a < 0) && (a * d == 0 <==> a == 0)
  {
    if d < 0 {
      assert a * d == -(a * -d);
    }
    if a < 0 {
      assert a * Abs(d) == -(-a * Abs(d));
    }
  }

  lemma ExactDiv(s: int, f: int)
    requires s != 0
    ensures DivTrunc(s * f, s) == f
  {
    ProductSign(s, f);
    MultipleOf(Abs(s), Abs(f));
  }

  /** The quotient of the absolute values, negative if the signs differ. */
  lemma QuotientParts(a: int, b: int)
    requires b != 0
    ensures Abs(DivTrunc(a, b)) == Abs(a) / Abs(b)
    ensures DivTrunc(-a, b) == -DivTrunc(a, b) && DivTrunc(a, -b) == -DivTrunc(a, b)
  {
    var q := Quotient(Abs(a), Abs(b));
    assert a == 0 ==> q == 0;
  }

  /** The quotient of two natural numbers, by what remains. */
  lemma Quotient(x: nat, a: nat) returns (q: nat)
    requires a > 0
    ensures q == x / a && a * q <= x < a * q + a && (x == 0 ==> q == 0)
  {
    q := x / a;
  }

  /** q divides a by b up to a remainder that is smaller than b and has the sign of a. */
  predicate IsQuotient(a: int, b: int, q: int) {
    IsRemainder(a, b, a - b * q)
  }

  predicate IsRemainder(a: int, b: int, r: int) {
    Abs(r) < Abs(b) && (r == 0 || (r < 0 <==> a < 0))
  }

  /** Two remainders of the same division differ by less than the divisor. */
  lemma RemaindersClose(a: int, b: int, r: int, s: int)
    requires IsRemainder(a, b, r) && IsRemainder(a, b, s)
    ensures Abs(r - s) < Abs(b)
  {
  }

  lemma DivTruncIsQuotient(a: int, b: int)
    requires b != 0
    ensures IsQuotient(a, b, DivTrunc(a, b))
  {
    var q := Quotient(Abs(a), Abs(b));
    var d := DivTrunc(a, b);
    ProductSign(b, d);
    assert Abs(d) == q;
    var m := Abs(b) * q;
    assert b * d == if a < 0 then -m else m;
  }

  /** Division rounds towards zero: what remains is smaller than the divisor and has the
      sign of the dividend, and no other number is such a quotient. */
  lemma RoundsTowardsZero(a: int, b: int, q: int)
    requires b != 0
    ensures q == DivTrunc(a, b) <==> IsQuotient(a, b, q)
  {
    DivTruncIsQuotient(a, b);
    if IsQuotient(a, b, q) {
      QuotientUnique(a, b, q, DivTrunc(a, b));
    }
  }

  lemma QuotientUnique(a: int, b: int, q: int, d: int)
    requires b != 0 && IsQuotient(a, b, q) && IsQuotient(a, b, d)
    ensures q == d
  {
    var r, s := a - b * q, a - b * d;
    RemaindersClose(a, b, r, s);
    var e := d - q;
    assert r - s == b * e;
    MultipleBound(b, e);
  }

  /** The signed test `r / s == f` after `r = s * f` holds exactly when the product
      fits in int64_t. */
  lemma SignedCheckExact(s: int64, f: int64)
    requires s != 0
    ensures DivTrunc(WrapSigned(s * f), s) == f <==> -TWO_63 <= s * f < TWO_63
  {
    var r := WrapSigned(s * f);
    if -TWO_63 <= s * f < TWO_63 {
      ExactDiv(s, f);
    } else if DivTrunc(r, s) == f {
      // the remainder r - s * f is smaller than s, yet a non-zero multiple of 2^64
      AbsDiv(r, s);
    }
  }

  function Pow2(k: nat): (r: nat)
    ensures r > 0
  {
    if k == 0 then 1 else 2 * Pow2(k - 1)
  }

  lemma {:induction false} Pow2Monotone(i: nat, j: nat)
    requires i <= j
    ensures Pow2(i) <= Pow2(j)
  {
    if i < j {
      Pow2Monotone(i, j - 1);
    }
  }
}
