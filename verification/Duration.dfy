/** SeeDuration (src/Duration.cpp): int64_t nanoseconds with checked constructors, and
    arithmetic whose result may be one of its operands. Signed arithmetic wraps around. */
module Durations {
  import opened Base
  import opened Arith

  const NS_PER_S: int64 := 1_000_000_000
  const NS_PER_MS: int64 := 1_000_000
  const NS_PER_US: int64 := 1_000

  predicate FitsInt64(x: int) {
    -TWO_63 <= x < TWO_63
  }

  class Duration {
    var nanos: int64
    var refcount: nat
    var freed: bool

    constructor (ns: int64)
      ensures nanos == ns && refcount == 1 && !freed
    {
      nanos, refcount, freed := ns, 1, false;
    }

    ghost predicate Alive()
      reads this
    {
      refcount > 0 && !freed
    }

    /** Memory that was given back is not read. */
    method Nanos() returns (ns: int64)
      requires !freed
      ensures ns == nanos
    {
      ns := nanos;
    }

    method Decref()
      requires Alive()
      modifies this`refcount, this`freed
      ensures refcount == old(refcount) - 1 && freed == (refcount == 0)
    {
      refcount := refcount - 1;
      if refcount == 0 {
        freed := true;
      }
    }
  }

  /** std::chrono::duration_cast to a coarser unit: see_duration_seconds and the like. */
  function InUnit(nanos: int64, unit: int64): int
    requires unit != 0
  {
    DivTrunc(nanos, unit)
  }

  /** Reading back in the unit it was made in gives the number it was made from. */
  lemma MadeAndReadBack(n: int64, unit: int64)
    requires unit > 0 && FitsInt64(n * unit)
    ensures InUnit(n * unit, unit) == n
  {
    assert n * unit == unit * n;
    ExactDiv(unit, n);
  }

  /** Reading in a coarser unit cuts off what is no whole unit, towards zero. */
  lemma ReadBackTruncates(nanos: int64, unit: int64, n: int)
    requires unit > 0
    ensures n == InUnit(nanos, unit) <==> IsQuotient(nanos, unit, n)
  {
    RoundsTowardsZero(nanos, unit, n);
  }

  /** see_duration_new_ns. `current` is what *out holds, NULL if `out` is; `errorOk` says
      that error_out may be used. */
  method NewNs(outGiven: bool, current: Duration?, ns: int64, errorOk: bool) returns (ret: Ret, out: Duration?)
    requires current != null ==> current.Alive()
    modifies current
    ensures !outGiven || !errorOk ==>
      ret == INVALID_ARGUMENT && out == current &&
      (current != null ==> current.refcount == old(current.refcount) && !current.freed)
    ensures outGiven && errorOk ==>
      ret == SUCCESS && out != null && fresh(out) && out.Alive() && out.refcount == 1 && out.nanos == ns &&
      (current != null ==>
         current.refcount == old(current.refcount) - 1 && current.freed == (current.refcount == 0))
    ensures current != null ==> current.nanos == old(current.nanos)
  {
    if !outGiven || !errorOk {
      return INVALID_ARGUMENT, current;
    }
    var temp := new Duration(ns);
    if current != null {
      current.Decref();
    }
    return SUCCESS, temp;
  }

  /** see_duration_new_s, see_duration_new_ms and see_duration_new_us, which differ in the
      factor: the overflow test succeeds exactly when the number of nanoseconds can be
      represented, and then that is what is stored. */
  method NewScaled(outGiven: bool, current: Duration?, n: int64, factor: int64, errorOk: bool)
    returns (ret: Ret, out: Duration?)
    requires factor in {NS_PER_S, NS_PER_MS, NS_PER_US}
    requires current != null ==> current.Alive()
    modifies current
    ensures ret == SUCCESS <==> outGiven && errorOk && FitsInt64(n * factor)
    ensures ret == ERROR_RUNTIME <==> errorOk && !FitsInt64(n * factor)
    ensures ret != SUCCESS ==>
      ret in {INVALID_ARGUMENT, ERROR_RUNTIME} && out == current &&
      (current != null ==> current.refcount == old(current.refcount) && !current.freed)
    ensures ret == SUCCESS ==>
      out != null && fresh(out) && out.Alive() && out.refcount == 1 && out.nanos == n * factor &&
      InUnit(out.nanos, factor) == n &&
      (current != null ==>
         current.refcount == old(current.refcount) - 1 && current.freed == (current.refcount == 0))
    ensures current != null ==> current.nanos == old(current.nanos)
  {
    var product: int := n * factor;
    var result := WrapSigned(product);
    if !errorOk {
      return INVALID_ARGUMENT, current;
    }
    if n != 0 {
      SignedCheckExact(n, factor);
    }
    if n == 0 || DivTrunc(result, n) == factor {
      MadeAndReadBack(n, factor);
      ret, out := NewNs(outGiven, current, result, errorOk);
    } else {
      return ERROR_RUNTIME, current;
    }
  }

  /** see_duration_new_s */
  method NewS(outGiven: bool, current: Duration?, s: int64, errorOk: bool) returns (ret: Ret, out: Duration?)
    requires current != null ==> current.Alive()
    modifies current
    ensures ret == SUCCESS <==> outGiven && errorOk && FitsInt64(s * 1_000_000_000)
    ensures ret == SUCCESS ==> out != null && fresh(out) && out.Alive() && out.nanos == s * 1_000_000_000
    ensures ret != SUCCESS ==> out == current
  {
    ret, out := NewScaled(outGiven, current, s, NS_PER_S, errorOk);
  }

  /** see_duration_new_ms */
  method NewMs(outGiven: bool, current: Duration?, ms: int64, errorOk: bool) returns (ret: Ret, out: Duration?)
    requires current != null ==> current.Alive()
    modifies current
    ensures ret == SUCCESS <==> outGiven && errorOk && FitsInt64(ms * 1_000_000)
    ensures ret == SUCCESS ==> out != null && fresh(out) && out.Alive() && out.nanos == ms * 1_000_000
    ensures ret != SUCCESS ==> out == current
  {
    ret, out := NewScaled(outGiven, current, ms, NS_PER_MS, errorOk);
  }

  /** see_duration_new_us */
  method NewUs(outGiven: bool, current: Duration?, us: int64, errorOk: bool) returns (ret: Ret, out: Duration?)
    requires current != null ==> current.Alive()
    modifies current
    ensures ret == SUCCESS <==> outGiven && errorOk && FitsInt64(us * 1_000)
    ensures ret == SUCCESS ==> out != null && fresh(out) && out.Alive() && out.nanos == us * 1_000
    ensures ret != SUCCESS ==> out == current
  {
    ret, out := NewScaled(outGiven, current, us, NS_PER_US, errorOk);
  }

  /** see_duration_add and see_duration_sub. The result object may be an operand. */
  method AddOrSub(self: Duration?, other: Duration?, resultGiven: bool, current: Duration?, errorOk: bool, subtract: bool)
    returns (ret: Ret, out: Duration?)
    requires self != null ==> self.Alive()
    requires other != null ==> other.Alive()
    requires current != null ==> current.Alive()
    modifies current
    ensures ret == if self == null || other == null || !errorOk || !resultGiven then INVALID_ARGUMENT else SUCCESS
    ensures ret != SUCCESS ==> out == current && (current != null ==> current.nanos == old(current.nanos))
    ensures current != null ==> current.refcount == old(current.refcount) && current.freed == old(current.freed)
    ensures ret == SUCCESS ==>
      out != null && out.Alive() && (if current == null then fresh(out) else out == current) &&
      out.nanos == WrapSigned(old(self.nanos) + (if subtract then -1 else 1) * old(other.nanos))
  {
    out := current;
    if self == null || other == null {
      return INVALID_ARGUMENT, out;
    }
    if !errorOk {
      return INVALID_ARGUMENT, out;
    }
    if !resultGiven {
      return INVALID_ARGUMENT, out;
    }
    if out == null {
      ret, out := NewNs(true, null, 0, errorOk);
    }
    var a: int, b: int;
    a := self.Nanos();
    b := other.Nanos();
    out.nanos := WrapSigned(if subtract then a - b else a + b);
    ret := SUCCESS;
  }

  /** see_duration_multiply. The operand is read before *result is given back, so that it
      may be the very object whose last reference that was. */
  method Multiply(self: Duration?, scalar: int64, resultGiven: bool, current: Duration?, errorOk: bool)
    returns (ret: Ret, out: Duration?)
    requires self != null ==> self.Alive()
    requires current != null ==> current.Alive()
    modifies current
    ensures ret == if self == null || !resultGiven || !errorOk then INVALID_ARGUMENT else SUCCESS
    ensures ret != SUCCESS ==>
      out == current && (current != null ==> current.refcount == old(current.refcount) && !current.freed)
    ensures ret == SUCCESS ==>
      out != null && fresh(out) && out.Alive() && out.refcount == 1 &&
      out.nanos == WrapSigned(old(self.nanos) * scalar) &&
      (current != null ==>
         current.refcount == old(current.refcount) - 1 && current.freed == (current.refcount == 0))
    ensures current != null ==> current.nanos == old(current.nanos)
  {
    if self == null || !resultGiven || !errorOk {
      return INVALID_ARGUMENT, current;
    }
    ret, out := NewNs(true, null, 0, errorOk);
    var captured := self.Nanos();
    if current != null {
      current.Decref();
    }
    var product: int := captured * scalar;
    out.nanos := WrapSigned(product);
  }

  /** int64_t division that C++ defines */
  predicate CanDivide(n: int64, scalar: int64) {
    scalar != 0 && !(n == -TWO_63 && scalar == -1)
  }

  /** It is undefined exactly if the divisor is zero or the quotient does not fit. */
  lemma CanDivideExactly(n: int64, scalar: int64)
    ensures CanDivide(n, scalar) <==> scalar != 0 && FitsInt64(DivTrunc(n, scalar))
  {
    if scalar != 0 {
      QuotientParts(n, scalar);
      QuotientBound(Abs(n), Abs(scalar));
    }
  }

  /** see_duration_divide */
  method Divide(self: Duration?, scalar: int64, resultGiven: bool, current: Duration?, errorOk: bool)
    returns (ret: Ret, out: Duration?)
    requires self != null ==> self.Alive()
    requires current != null ==> current.Alive()
    modifies current
    ensures self == null || !resultGiven || !errorOk ==>
      ret == INVALID_ARGUMENT && out == current &&
      (current != null ==> current.refcount == old(current.refcount) && !current.freed)
    ensures !(self == null || !resultGiven || !errorOk) ==>
      && ret == (if CanDivide(old(self.nanos), scalar) then SUCCESS else UNDEFINED)
      && out != null && fresh(out) && out.Alive() && out.refcount == 1
      && (ret == SUCCESS <==> scalar != 0 && !(old(self.nanos) == -TWO_63 && scalar == -1))
      && (ret == SUCCESS ==> out.nanos == DivTrunc(old(self.nanos), scalar))
      && (ret == SUCCESS ==> IsQuotient(old(self.nanos), scalar, out.nanos))
      && (current != null ==>
         current.refcount == old(current.refcount) - 1 && current.freed == (current.refcount == 0))
    ensures current != null ==> current.nanos == old(current.nanos)
  {
    if self == null || !resultGiven || !errorOk {
      return INVALID_ARGUMENT, current;
    }
    ret, out := NewNs(true, null, 0, errorOk);
    var captured := self.Nanos();
    if current != null {
      current.Decref();
    }
    if !CanDivide(captured, scalar) {
      return UNDEFINED, out;
    }
    CanDivideExactly(captured, scalar);
    RoundsTowardsZero(captured, scalar, DivTrunc(captured, scalar));
    out.nanos := DivTrunc(captured, scalar);
  }

  /** Dividing by the factor undoes a multiplication exactly if that did not wrap around. */
  lemma DivideUndoesMultiply(n: int64, scalar: int64)
    requires scalar != 0
    ensures DivTrunc(WrapSigned(n * scalar), scalar) == n <==> FitsInt64(n * scalar)
  {
    assert n * scalar == scalar * n;
    SignedCheckExact(scalar, n);
  }
}
