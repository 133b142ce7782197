/** Sequence-level meaning of the array operations. */
module ArraySpec {
  import opened Base
  import Arith

  /** The operations of SeeDynamicArray that a client can run in any order. */
  datatype Op<T> =
    | Reserve(n: size_t)
    | Add(x: T)
    | Insert(pos: size_t, xs: seq<T>)
    | Set(pos: size_t, x: T)
    | Resize(n: size_t)
    | ShrinkToFit

  /** The contents after an operation that succeeded. */
  function After<T>(s: seq<T>, op: Op<T>): seq<T> {
    match op
    case Reserve(_) => s
    case Add(x) => s + [x]
    case Insert(pos, xs) => if pos <= |s| then s[..pos] + xs + s[pos..] else s
    case Set(pos, x) => if pos < |s| then s[pos := x] else s
    case Resize(n) => if n <= |s| then s[..n] else s
    case ShrinkToFit => s
  }

  /** What a successful operation does to the elements, position by position. */
  ghost predicate Carried<T>(s: seq<T>, op: Op<T>, t: seq<T>) {
    match op
    case Reserve(_) => t == s
    case Add(x) => |t| == |s| + 1 && t[|s|] == x && forall i :: 0 <= i < |s| ==> t[i] == s[i]
    case Insert(pos, xs) =>
      && pos <= |s| && |t| == |s| + |xs|
      && (forall i :: 0 <= i < pos ==> t[i] == s[i])
      && (forall i :: 0 <= i < |xs| ==> t[pos + i] == xs[i])
      && (forall i :: pos <= i < |s| ==> t[i + |xs|] == s[i])
    case Set(pos, x) =>
      pos < |s| == |t| && t[pos] == x && forall i :: 0 <= i < |s| && i != pos ==> t[i] == s[i]
    case Resize(n) => |t| == (if n < |s| then n else |s|) && forall i :: 0 <= i < |t| ==> t[i] == s[i]
    case ShrinkToFit => t == s
  }

  /** A failed operation changes nothing, a successful one what it says and no more; with
      that the contents after it are determined. */
  lemma NextIsCarried<T>(v: View<T>, op: Op<T>, t: seq<T>, e: nat, limit: nat)
    ensures Outcome(v, op, e, limit) != SUCCESS ==> Next(v, op, e, limit) == v
    ensures Outcome(v, op, e, limit) == SUCCESS ==> (t == Next(v, op, e, limit).s <==> Carried(v.s, op, t))
  {
    if Outcome(v, op, e, limit) == SUCCESS {
      CarriedAfter(v.s, op, t);
    }
  }

  lemma CarriedAfter<T>(s: seq<T>, op: Op<T>, t: seq<T>)
    requires op.Insert? ==> op.pos <= |s|
    requires op.Set? ==> op.pos < |s|
    ensures t == After(s, op) <==> Carried(s, op, t)
  {
    match op
    case Insert(pos, xs) =>
      if Carried(s, op, t) {
        InsertedAt(s, pos, xs, t);
      }
    case Set(pos, x) => StoredAt(s, pos, x, t);
    case Resize(n) => KeptFront(s, n, t);
    case Add(x) => AppendedAt(s, x, t);
    case _ =>
  }

  lemma InsertedAt<T>(s: seq<T>, pos: nat, xs: seq<T>, t: seq<T>)
    requires pos <= |s| && |t| == |s| + |xs|
    requires forall i :: 0 <= i < pos ==> t[i] == s[i]
    requires forall i :: 0 <= i < |xs| ==> t[pos + i] == xs[i]
    requires forall i :: pos <= i < |s| ==> t[i + |xs|] == s[i]
    ensures t == s[..pos] + xs + s[pos..]
  {
    var k := |xs|;
    forall i | 0 <= i < |t|
      ensures t[i] == (s[..pos] + xs + s[pos..])[i]
    {
      if pos <= i < pos + k {
        assert t[pos + (i - pos)] == xs[i - pos];
      } else if i >= pos + k {
        assert t[(i - k) + k] == s[i - k];
      }
    }
  }

  lemma StoredAt<T>(s: seq<T>, pos: nat, x: T, t: seq<T>)
    requires pos < |s|
    ensures t == s[pos := x] <==>
      |t| == |s| && t[pos] == x && forall i :: 0 <= i < |s| && i != pos ==> t[i] == s[i]
  {
  }

  lemma KeptFront<T>(s: seq<T>, n: nat, t: seq<T>)
    ensures var k := if n < |s| then n else |s|;
      t == s[..k] <==> |t| == k && forall i :: 0 <= i < |t| ==> t[i] == s[i]
  {
  }

  lemma AppendedAt<T>(s: seq<T>, x: T, t: seq<T>)
    ensures t == s + [x] <==> |t| == |s| + 1 && t[|s|] == x && forall i :: 0 <= i < |s| ==> t[i] == s[i]
  {
  }

  /** An array as its clients see it. */
  datatype View<T> = View(s: seq<T>, capacity: nat)

  function Grown(capacity: nat, n: nat): nat {
    if n <= capacity then capacity else n
  }

  function Doubled(capacity: nat): nat {
    if capacity == 0 then 1 else 2 * capacity
  }

  /** Room for n elements of e bytes is there or will be granted. */
  predicate Granted(capacity: nat, n: nat, e: nat, limit: nat) {
    n <= capacity || n * e <= limit
  }

  /** What an operation returns. */
  function Outcome<T>(v: View<T>, op: Op<T>, e: nat, limit: nat): Ret {
    match op
    case Reserve(n) => if Granted(v.capacity, n, e, limit) then SUCCESS else ERROR_RUNTIME
    case Add(_) =>
      if |v.s| < v.capacity || Granted(v.capacity, Doubled(v.capacity), e, limit) then SUCCESS else ERROR_RUNTIME
    case Insert(pos, xs) =>
      if pos > |v.s| then ERROR_INDEX
      else if Granted(v.capacity, |v.s| + |xs|, e, limit) then SUCCESS
      else ERROR_RUNTIME
    case Set(pos, _) => if pos < |v.s| then SUCCESS else ERROR_INDEX
    case Resize(n) => if n <= |v.s| || Granted(v.capacity, n, e, limit) then SUCCESS else ERROR_RUNTIME
    case ShrinkToFit => if |v.s| == v.capacity || |v.s| != 0 then SUCCESS else ERROR_RUNTIME
  }

  /** The capacity after an operation that succeeded. */
  function CapacityAfter<T>(v: View<T>, op: Op<T>): nat {
    match op
    case Reserve(n) => Grown(v.capacity, n)
    case Add(_) => if |v.s| < v.capacity then v.capacity else Doubled(v.capacity)
    case Insert(_, xs) => Grown(v.capacity, |v.s| + |xs|)
    case Set(_, _) => v.capacity
    case Resize(n) => if n <= |v.s| then v.capacity else Grown(v.capacity, n)
    case ShrinkToFit => |v.s|
  }

  /** A failed operation changes nothing. */
  function Next<T>(v: View<T>, op: Op<T>, e: nat, limit: nat): View<T> {
    if Outcome(v, op, e, limit) == SUCCESS then View(After(v.s, op), CapacityAfter(v, op)) else v
  }

  function AfterRun<T>(v: View<T>, ops: seq<Op<T>>, e: nat, limit: nat): View<T> {
    if ops == [] then v
    else Next(AfterRun(v, ops[..|ops| - 1], e, limit), ops[|ops| - 1], e, limit)
  }

  function Outcomes<T>(v: View<T>, ops: seq<Op<T>>, e: nat, limit: nat): (rets: seq<Ret>)
    ensures |rets| == |ops|
  {
    if ops == [] then []
    else
      var front := ops[..|ops| - 1];
      Outcomes(v, front, e, limit) + [Outcome(AfterRun(v, front, e, limit), ops[|ops| - 1], e, limit)]
  }

  lemma RunStep<T>(v: View<T>, ops: seq<Op<T>>, i: nat, e: nat, limit: nat)
    requires i < |ops|
    ensures var w := AfterRun(v, ops[..i], e, limit);
      AfterRun(v, ops[..i + 1], e, limit) == Next(w, ops[i], e, limit) &&
      Outcomes(v, ops[..i + 1], e, limit) == Outcomes(v, ops[..i], e, limit) + [Outcome(w, ops[i], e, limit)]
  {
    assert ops[..i + 1][..i] == ops[..i];
  }

  /** The n elements at src copied to dst, all read before any is written. */
  function Moved<T>(s: seq<T>, dst: nat, src: nat, n: nat): (r: seq<T>)
    requires dst + n <= |s| && src + n <= |s|
    ensures |r| == |s|
  {
    s[..dst] + s[src..src + n] + s[dst + n..]
  }

  lemma MovedAt<T>(s: seq<T>, dst: nat, src: nat, n: nat, i: nat)
    requires dst + n <= |s| && src + n <= |s| && i < |s|
    ensures Moved(s, dst, src, n)[i] == if dst <= i < dst + n then s[i - dst + src] else s[i]
  {
  }

  /** In [lo, hi) are the elements that were `shift` further on, elsewhere those that
      were there. */
  ghost predicate MovedIn<T>(s: seq<T>, t: seq<T>, lo: nat, hi: nat, shift: int) {
    && |t| == |s| && lo <= hi <= |s| && 0 <= lo + shift && hi + shift <= |s|
    && forall x {:trigger t[x]} :: 0 <= x < |s| ==> t[x] == if lo <= x < hi then s[x + shift] else s[x]
  }

  lemma MovedNext<T>(s: seq<T>, t: seq<T>, lo: nat, hi: nat, next: nat, shift: nat)
    requires MovedIn(s, t, lo, hi, shift) && next == hi + 1 && hi + shift < |s|
    ensures MovedIn(s, t[hi := t[hi + shift]], lo, next, shift)
  {
    var u := t[hi := t[hi + shift]];
    assert t[hi + shift] == s[hi + shift];
    forall x | 0 <= x < |s|
      ensures u[x] == if lo <= x < next then s[x + shift] else s[x]
    {
      assert t[x] == if lo <= x < hi then s[x + shift] else s[x];
    }
  }

  lemma MovedBefore<T>(s: seq<T>, t: seq<T>, next: nat, lo: nat, hi: nat, shift: int)
    requires MovedIn(s, t, lo, hi, shift) && lo == next + 1 && shift < 0 <= next + shift
    ensures MovedIn(s, t[next := t[next + shift]], next, hi, shift)
  {
    var u := t[next := t[next + shift]];
    assert t[next + shift] == s[next + shift];
    forall x | 0 <= x < |s|
      ensures u[x] == if next <= x < hi then s[x + shift] else s[x]
    {
      assert t[x] == if lo <= x < hi then s[x + shift] else s[x];
    }
  }

  lemma MovedAll<T>(s: seq<T>, t: seq<T>, dst: nat, src: nat, n: nat, shift: int, end: nat)
    requires end == dst + n && shift == src - dst && MovedIn(s, t, dst, end, shift)
    ensures t == Moved(s, dst, src, n)
  {
    var m := Moved(s, dst, src, n);
    forall x | 0 <= x < |s|
      ensures m[x] == if dst <= x < end then s[x + shift] else s[x]
    {
    }
  }

  /** The least power of two that is at least n, searched upwards from p. */
  function PowerOfTwoFrom(p: nat, n: nat): (r: nat)
    requires p > 0
    ensures r >= n && r >= p
    decreases n - p
  {
    if p >= n then p else PowerOfTwoFrom(2 * p, n)
  }

  function CapacityFor(n: nat): nat {
    if n == 0 then 0 else PowerOfTwoFrom(1, n)
  }

  /** One more element leaves the least power of two as it is, or doubles it. */
  lemma {:induction false} PowerOfTwoStep(p: nat, n: nat)
    requires p > 0
    ensures PowerOfTwoFrom(p, n + 1) ==
      if n + 1 <= PowerOfTwoFrom(p, n) then PowerOfTwoFrom(p, n) else 2 * PowerOfTwoFrom(p, n)
    decreases n - p
  {
    if p < n {
      PowerOfTwoStep(2 * p, n);
    } else if p == n {
      assert PowerOfTwoFrom(2 * p, n + 1) == 2 * p;
    }
  }

  /** What adding one element to n makes of the capacity. */
  lemma CapacityNext(n: nat)
    ensures CapacityFor(n) >= n
    ensures CapacityFor(n + 1) == if n < CapacityFor(n) then CapacityFor(n) else Doubled(CapacityFor(n))
  {
    if n > 0 {
      PowerOfTwoStep(1, n);
    }
  }

  /** CapacityFor(n) is a power of two, and no smaller one is at least n. */
  lemma CapacityIsLeastPower(n: nat)
    requires n > 0
    ensures exists k :: CapacityFor(n) == Arith.Pow2(k)
    ensures forall j :: Arith.Pow2(j) >= n ==> Arith.Pow2(j) >= CapacityFor(n) >= n
  {
    var k := PowerSearch(0, n);
    forall j | Arith.Pow2(j) >= n
      ensures Arith.Pow2(j) >= CapacityFor(n)
    {
      if j < k {
        Arith.Pow2Monotone(j, k - 1);
      } else {
        Arith.Pow2Monotone(k, j);
      }
    }
  }

  lemma {:induction false} PowerSearch(i: nat, n: nat) returns (k: nat)
    ensures k >= i && PowerOfTwoFrom(Arith.Pow2(i), n) == Arith.Pow2(k)
    ensures k > i ==> Arith.Pow2(k - 1) < n
    decreases n - Arith.Pow2(i)
  {
    k := i;
    if Arith.Pow2(i) < n {
      assert Arith.Pow2(i + 1) == 2 * Arith.Pow2(i);
      k := PowerSearch(i + 1, n);
    }
  }

  lemma {:induction false} PowerOfTwoTight(p: nat, n: nat)
    requires 0 < p <= n
    ensures PowerOfTwoFrom(p, n) < 2 * n
    decreases n - p
  {
    if p < n {
      if 2 * p <= n {
        PowerOfTwoTight(2 * p, n);
      }
    }
  }
}

/** SeeDynamicArray (src/DynamicArray.c) with a copy function that copies the
    element's bytes and no free function. */
module DynamicArrays {
  import opened Base
  import opened ArraySpec
  import Arith
  import Shuffling

  class DynamicArray<T(0)> {
    const elementSize: size_t
    /** realloc grants allocations of up to this many bytes and no more. */
    const limit: size_t

    var size: size_t
    var capacity: size_t
    /** The C pointer is NULL exactly when this has length 0. */
    var elements: array<T>

    /** How many elements all reallocations together have moved. */
    ghost var moved: nat
    /** Whether `elements` was given back to the allocator behind the array's back. */
    ghost var dangling: bool

    ghost predicate Valid()
      reads this
    {
      && 0 < elementSize
      && limit <= PTRDIFF_MAX
      && size <= capacity == elements.Length
      && capacity * elementSize <= limit
      && !dangling
    }

    ghost function Contents(): (s: seq<T>)
      reads this, elements
      requires size <= elements.Length
      ensures |s| == size
    {
      elements[..size]
    }

    constructor (elementSize: size_t, limit: size_t)
      requires 0 < elementSize && limit <= PTRDIFF_MAX
      ensures Valid() && Contents() == [] && capacity == 0 && moved == 0
      ensures this.elementSize == elementSize && this.limit == limit
      ensures fresh(elements)
    {
      this.elementSize, this.limit := elementSize, limit;
      size, capacity := 0, 0;
      elements := new T[0];
      moved, dangling := 0, false;
    }

    /** see_dynamic_array_new: an element takes at least one byte. */
    static method New(elementSize: size_t, limit: size_t) returns (ret: Ret, a: DynamicArray?<T>)
      requires limit <= PTRDIFF_MAX
      ensures ret == SUCCESS <==> elementSize != 0
      ensures ret != SUCCESS ==> ret == INVALID_ARGUMENT && a == null
      ensures ret == SUCCESS ==>
        a != null && fresh(a) && fresh(a.elements) && a.Valid() && a.Contents() == []
        && a.capacity == 0 && a.elementSize == elementSize && a.limit == limit && a.moved == 0
    {
      if elementSize == 0 {
        return INVALID_ARGUMENT, null;
      }
      a := new DynamicArray(elementSize, limit);
      ret := SUCCESS;
    }

    /** realloc to room for n elements: what fits is kept, the rest is arbitrary. */
    static method Realloc(mem: array<T>, n: size_t) returns (out: array<T>)
      ensures fresh(out) && out.Length == n
      ensures n >= mem.Length ==> out[..mem.Length] == mem[..]
      ensures n <= mem.Length ==> out[..] == mem[..n]
    {
      out := new T[n];
      var kept := if n <= mem.Length then n else mem.Length;
      for i := 0 to kept
        invariant out[..i] == mem[..i]
      {
        out[i] := mem[i];
      }
      assert n <= mem.Length ==> out[..n] == out[..];
      assert n >= mem.Length ==> mem[..mem.Length] == mem[..];
    }

    method Reserve(n: size_t) returns (ret: Ret)
      requires Valid()
      modifies this
      ensures Valid() && size == old(size) && Contents() == old(Contents())
      ensures ret == SUCCESS <==> n <= old(capacity) || n * elementSize <= limit
      ensures ret != SUCCESS ==> ret == ERROR_RUNTIME && unchanged(this)
      ensures ret == SUCCESS && n > old(capacity) ==>
        capacity == n && fresh(elements) && moved == old(moved) + old(capacity)
      ensures n <= old(capacity) ==> unchanged(this)
    {
      if n <= capacity {
        return SUCCESS;
      }
      var a: int, b: int := n, elementSize;
      var x := Wrap(a * b, TWO_64);
      Arith.UnsignedCheckExact(a, b);
      if a != 0 && x / a != b {
        return ERROR_RUNTIME;
      }
      var numBytes := x;
      if numBytes > limit {
        return ERROR_RUNTIME;
      }
      ghost var was := elements[..];
      var mem := Realloc(elements, n);
      assert mem[..size] == mem[..capacity][..size] == was[..size];
      moved := moved + capacity;
      elements, capacity := mem, n;
      return SUCCESS;
    }

    /** The room for one more element is there, or realloc will grant it. */
    ghost predicate CanAdd()
      reads this
    {
      size < capacity || (if capacity == 0 then 1 else capacity * 2) * elementSize <= limit
    }

    method Add(x: T) returns (ret: Ret)
      requires Valid()
      modifies this, elements
      ensures Valid() && (elements == old(elements) || fresh(elements))
      ensures ret == SUCCESS <==> old(CanAdd())
      ensures ret == SUCCESS ==> Contents() == old(Contents()) + [x]
      ensures ret != SUCCESS ==> ret == ERROR_RUNTIME && Contents() == old(Contents())
      ensures capacity ==
        if ret == SUCCESS && old(size == capacity)
        then (if old(capacity) == 0 then 1 else 2 * old(capacity))
        else old(capacity)
      ensures moved == old(moved) + (if capacity == old(capacity) then 0 else old(capacity))
    {
      if size < capacity {
        elements[size] := x;
        size := size + 1;
        ret := SUCCESS;
      } else {
        assert capacity * elementSize <= limit;
        if capacity == 0 {
          ret := Reserve(1);
        } else {
          DoubledFits(capacity, elementSize, limit);
          ret := Reserve(capacity * 2);
        }
        if ret != SUCCESS {
          return;
        }
        elements[size] := x;
        size := size + 1;
      }
      assert Contents() == old(Contents()) + [x];
    }

    static lemma DoubledFits(c: nat, e: nat, l: size_t)
      requires e > 0 && c * e <= l <= PTRDIFF_MAX
      ensures c <= c * e && c * 2 < TWO_64
    {
    }

    /** memmove within the elements. */
    method MemMove(dst: nat, src: nat, n: nat)
      requires dst + n <= elements.Length && src + n <= elements.Length
      modifies elements
      ensures elements[..] == Moved(old(elements[..]), dst, src, n)
    {
      if dst <= src {
        MoveDown(dst, src, n);
      } else {
        MoveUp(dst, src, n);
      }
    }

    /** Downwards, the first element first. */
    method MoveDown(dst: nat, src: nat, n: nat)
      requires dst <= src && src + n <= elements.Length
      modifies elements
      ensures elements[..] == Moved(old(elements[..]), dst, src, n)
    {
      var shift, at, end := src - dst, dst, dst + n;
      ghost var was := elements[..];
      while at < end
        invariant dst <= at <= end && MovedIn(was, elements[..], dst, at, shift)
      {
        var next := at + 1;
        MovedNext(was, elements[..], dst, at, next, shift);
        MoveOne(at, shift);
        at := next;
      }
      MovedAll(was, elements[..], dst, src, n, shift, end);
    }

    /** Upwards, the last element first. */
    method MoveUp(dst: nat, src: nat, n: nat)
      requires src < dst && dst + n <= elements.Length
      modifies elements
      ensures elements[..] == Moved(old(elements[..]), dst, src, n)
    {
      var shift, at, end := src - dst, dst + n, dst + n;
      ghost var was := elements[..];
      while at > dst
        invariant dst <= at <= end && MovedIn(was, elements[..], at, end, shift)
      {
        var next := at - 1;
        MovedBefore(was, elements[..], next, at, end, shift);
        MoveOne(next, shift);
        at := next;
      }
      MovedAll(was, elements[..], dst, src, n, shift, end);
    }

    method MoveOne(at: nat, shift: int)
      requires at < elements.Length && 0 <= at + shift < elements.Length
      modifies elements
      ensures elements[..] == old(elements[..])[at := old(elements[..])[at + shift]]
    {
      elements[at] := elements[at + shift];
    }

    /** array_insert. The caller's buffer is an object, so it is no larger than PTRDIFF_MAX bytes. */
    method Insert(pos: size_t, xs: seq<T>) returns (ret: Ret)
      requires Valid() && |xs| * elementSize <= PTRDIFF_MAX
      modifies this, elements
      ensures Valid() && (elements == old(elements) || fresh(elements))
      ensures pos > old(size) ==> ret == ERROR_INDEX
      ensures pos <= old(size) ==>
        && ret != ERROR_INDEX
        && (ret == SUCCESS <==>
              old(size) + |xs| <= old(capacity) || (old(size) + |xs|) * elementSize <= limit)
      ensures ret == SUCCESS ==>
        Contents() == old(Contents())[..pos] + xs + old(Contents())[pos..]
      ensures ret != SUCCESS ==> Contents() == old(Contents()) && ret in {ERROR_INDEX, ERROR_RUNTIME}
      ensures capacity == if ret == SUCCESS then Grown(old(capacity), old(size) + |xs|) else old(capacity)
    {
      if pos > size {
        return ERROR_INDEX;
      }
      var n := |xs|;
      var numToCopy := size - pos;
      InsertFits(size, n, elementSize);
      assert size * elementSize <= PTRDIFF_MAX by { SmallerProduct(size, capacity, elementSize); }
      var finalSize: size_t := size + n;
      var dest := finalSize - numToCopy;

      ret := Reserve(finalSize);
      if ret != SUCCESS {
        return;
      }
      ghost var mid := elements[..];
      assert mid[..size] == Contents();
      assert mid[..pos] == Contents()[..pos] && mid[pos..pos + numToCopy] == Contents()[pos..];
      MoveAndFill(dest, pos, numToCopy, xs);
      assert elements[..][..finalSize] == elements[..finalSize];
      size := finalSize;
    }

    method MoveAndFill(dest: nat, pos: nat, numToCopy: nat, xs: seq<T>)
      requires dest == pos + |xs| && dest + numToCopy <= elements.Length
      modifies elements
      ensures elements[..][..dest + numToCopy]
        == old(elements[..])[..pos] + xs + old(elements[..])[pos..pos + numToCopy]
    {
      ghost var was := elements[..];
      MemMove(dest, pos, numToCopy);
      ghost var gap := elements[..];
      CopyInto(pos, xs);
      Opened(was, gap, elements[..], dest, pos, numToCopy, xs);
    }

    /** The n calls of copy_element that fill the gap. */
    method CopyInto(pos: nat, xs: seq<T>)
      requires pos + |xs| <= elements.Length
      modifies elements
      ensures elements[..] == old(elements[..])[..pos] + xs + old(elements[..])[pos + |xs|..]
    {
      for i := 0 to |xs|
        invariant forall k :: 0 <= k < elements.Length ==>
          elements[k] == if pos <= k < pos + i then xs[k - pos] else old(elements[k])
      {
        elements[pos + i] := xs[i];
      }
    }

    /** Moving the n elements at pos up by |xs| and filling the gap inserts xs there. */
    static lemma Opened(was: seq<T>, gap: seq<T>, now: seq<T>, dest: nat, pos: nat, n: nat, xs: seq<T>)
      requires dest == pos + |xs| && dest + n <= |was|
      requires gap == Moved(was, dest, pos, n)
      requires now == gap[..pos] + xs + gap[dest..]
      ensures now[..dest + n] == was[..pos] + xs + was[pos..pos + n]
    {
    }

    static lemma SmallerProduct(a: nat, b: nat, e: nat)
      requires a <= b
      ensures a * e <= b * e
    {
    }

    static lemma InsertFits(s: nat, n: nat, e: nat)
      requires e > 0
      ensures s * e <= PTRDIFF_MAX && n * e <= PTRDIFF_MAX ==> s + n < TWO_64
    {
    }

    /** array_set */
    method Set(pos: size_t, x: T) returns (ret: Ret)
      requires Valid()
      modifies elements
      ensures ret == if pos < size then SUCCESS else ERROR_INDEX
      ensures pos < size ==> Contents()[pos] == x && Contents() == old(Contents())[pos := x]
      ensures pos >= size ==> Contents() == old(Contents())
      ensures forall i :: 0 <= i < size && i != pos ==> Contents()[i] == old(Contents())[i]
    {
      if pos < size {
        elements[pos] := x;
        ret := SUCCESS;
      } else {
        ret := ERROR_INDEX;
      }
    }

    /** see_dynamic_array_set drops what array_set returned. */
    method PublicSet(pos: size_t, x: T) returns (ret: Ret)
      requires Valid()
      modifies elements
      ensures ret == SUCCESS
      ensures pos < size ==> Contents()[pos] == x && Contents() == old(Contents())[pos := x]
      ensures pos >= size ==> Contents() == old(Contents())
      ensures forall i :: 0 <= i < size && i != pos ==> Contents()[i] == old(Contents())[i]
    {
      var _ := Set(pos, x);
      ret := SUCCESS;
    }

    /** array_get; on failure nothing is written to the caller's variable. */
    method Get(pos: size_t) returns (ret: Ret, out: Option<T>)
      requires Valid()
      ensures pos < size ==> ret == SUCCESS && out == Some(Contents()[pos])
      ensures pos >= size ==> ret == ERROR_INDEX && out == None
    {
      if pos >= size {
        return ERROR_INDEX, None;
      }
      return SUCCESS, Some(elements[pos]);
    }

    /** array_resize. Growing reserves and initialises the new slots but leaves the
        size, and with it the contents, as they were. */
    method Resize(n: size_t, fill: T) returns (ret: Ret)
      requires Valid()
      modifies this, elements
      ensures Valid() && (elements == old(elements) || fresh(elements))
      ensures ret == SUCCESS <==> n <= old(capacity) || n * elementSize <= limit
      ensures Contents() == if n <= old(size) then old(Contents())[..n] else old(Contents())
      ensures ret != SUCCESS ==> ret == ERROR_RUNTIME
      ensures n <= old(size) ==> capacity == old(capacity) && elements == old(elements)
      ensures n > old(size) ==> capacity == if ret == SUCCESS then Grown(old(capacity), n) else old(capacity)
    {
      if n == size {
        return SUCCESS;
      } else if n < size {
        size := n;
        return SUCCESS;
      }
      ret := Reserve(n);
      if ret != SUCCESS {
        return;
      }
      for i := size to n
        invariant size == old(size) && elements.Length >= n && Valid()
        invariant elements == old(elements) || fresh(elements)
        invariant Contents() == old(Contents()) && capacity == Grown(old(capacity), n)
      {
        elements[i] := fill;
      }
    }

    /** array_shrink_to_fit. realloc to zero bytes gives the block back and returns
        NULL, which the code takes for a failure: it keeps the old pointer. */
    method ShrinkToFit() returns (ret: Ret)
      requires Valid()
      modifies this
      ensures size == old(size) && size <= elements.Length && Contents() == old(Contents())
      ensures elements == old(elements) || fresh(elements)
      ensures ret == SUCCESS <==> old(size) != 0 || old(capacity) == 0
      ensures ret == SUCCESS ==> Valid() && capacity == size
      ensures ret != SUCCESS ==> ret == ERROR_RUNTIME && dangling && capacity == old(capacity)
    {
      if size == capacity {
        return SUCCESS;
      }
      if size == 0 {
        dangling := true;
        return ERROR_RUNTIME;
      }
      var mem := Realloc(elements, size);
      SmallerProduct(size, capacity, elementSize);
      elements, capacity := mem, size;
      return SUCCESS;
    }

    /** see_dynamic_array_copy: a new array of exactly the needed capacity. */
    method Copy() returns (ret: Ret, out: DynamicArray<T>)
      requires Valid()
      ensures ret == SUCCESS
      ensures fresh(out) && fresh(out.elements) && out.Valid()
      ensures out.Contents() == Contents() && out.capacity == size
      ensures out.elementSize == elementSize && out.limit == limit
    {
      out := new DynamicArray(elementSize, limit);
      SmallerProduct(size, capacity, elementSize);
      ret := out.Reserve(size);
      for i := 0 to size
        invariant fresh(out) && fresh(out.elements) && out.Valid() && out.capacity == size
        invariant out.elementSize == elementSize && out.limit == limit
        invariant out.Contents() == elements[..i]
        invariant ret == SUCCESS
      {
        ret := out.Add(elements[i]);
        assert elements[..i + 1] == elements[..i] + [elements[i]];
      }
    }

    /** see_dynamic_array_shuffle_range with the numbers that the generator draws:
        draws[k] is the index drawn for position start + k. */
    method ShuffleRange(start: size_t, end: size_t, draws: seq<size_t>) returns (ret: Ret)
      requires Valid()
      requires end <= size ==> Shuffling.Drawn(start, end, draws)
      modifies elements
      ensures end > size ==> ret == ERROR_INDEX && Contents() == old(Contents())
      ensures end <= size ==>
        ret == SUCCESS && Contents() == Shuffling.Shuffled(old(Contents()), start, end, draws)
    {
      if end > size {
        return ERROR_INDEX;
      }
      var i, k := start, 0;
      ghost var all := Shuffling.Shuffled(Contents(), start, end, draws);
      while i < end
        invariant start <= i && (i <= end || i == start) && k == i - start <= |draws|
        invariant Shuffling.Drawn(i, end, draws[k..])
        invariant Shuffling.Shuffled(Contents(), i, end, draws[k..]) == all
      {
        var rindex := draws[k];
        Shuffling.ShuffledNext(Contents(), i, end, draws, k, i + 1, k + 1);
        SwapElements(i, rindex);
        i, k := i + 1, k + 1;
      }
      ret := SUCCESS;
    }

    method SwapElements(i: nat, j: nat)
      requires i < size <= elements.Length && j < size
      modifies elements
      ensures Contents() == Shuffling.Swapped(old(Contents()), i, j)
      ensures elements[i] == old(elements[j]) && elements[j] == old(elements[i])
    {
      var temp := elements[j];
      elements[j] := elements[i];
      elements[i] := temp;
    }

    ghost function Seen(): View<T>
      reads this, elements
      requires size <= elements.Length
    {
      View(Contents(), capacity)
    }

    method Apply(op: Op<T>, fill: T) returns (ret: Ret)
      requires Valid()
      requires op.Insert? ==> |op.xs| * elementSize <= PTRDIFF_MAX
      modifies this, elements
      ensures size <= elements.Length && (elements == old(elements) || fresh(elements))
      ensures ret == Outcome(old(Seen()), op, elementSize, limit)
      ensures Seen() == Next(old(Seen()), op, elementSize, limit)
      ensures ret != SUCCESS ==> Contents() == old(Contents()) && capacity == old(capacity)
      ensures ret == SUCCESS ==> Carried(old(Contents()), op, Contents()) && capacity >= size
      ensures if op.ShrinkToFit? && ret != SUCCESS then dangling else Valid()
    {
      match op {
        case Reserve(n) => ret := Reserve(n);
        case Add(x) => ret := Add(x);
        case Insert(pos, xs) => ret := Insert(pos, xs);
        case Set(pos, x) => ret := Set(pos, x);
        case Resize(n) => ret := Resize(n, fill);
        case ShrinkToFit => ret := ShrinkToFit();
      }
      NextIsCarried(old(Seen()), op, Contents(), elementSize, limit);
    }

    /** Whatever the order of operations, the array holds what the same operations
        make of a sequence, with the capacity and the answers that go with it, up to and
        including the first operation that releases the buffer. */
    method Run(ops: seq<Op<T>>, fill: T) returns (rets: seq<Ret>)
      requires Valid()
      requires forall i :: 0 <= i < |ops| && ops[i].Insert? ==> |ops[i].xs| * elementSize <= PTRDIFF_MAX
      modifies this, elements
      ensures |rets| <= |ops| && size <= elements.Length
      ensures rets == Outcomes(old(Seen()), ops[..|rets|], elementSize, limit)
      ensures Seen() == AfterRun(old(Seen()), ops[..|rets|], elementSize, limit)
      ensures if |rets| == |ops| then Valid() || dangling else dangling
      ensures dangling ==> rets != [] && ops[|rets| - 1].ShrinkToFit? && rets[|rets| - 1] != SUCCESS
    {
      rets := [];
      for i := 0 to |ops|
        invariant |rets| == i
        invariant Valid() && (elements == old(elements) || fresh(elements))
        invariant rets == Outcomes(old(Seen()), ops[..i], elementSize, limit)
        invariant Seen() == AfterRun(old(Seen()), ops[..i], elementSize, limit)
      {
        RunStep(old(Seen()), ops, i, elementSize, limit);
        var ret := Apply(ops[i], fill);
        rets := rets + [ret];
        if ops[i].ShrinkToFit? && ret != SUCCESS {
          return;
        }
      }
      assert ops[..|ops|] == ops;
    }
  }

  /** n adds to a new array, as in test/dynamic_array_test.c: the capacity ends at the
      least power of two that holds them and fewer than 2n elements are ever moved. */
  method AddAll<T(0)>(a: DynamicArray<T>, xs: seq<T>) returns (ret: Ret)
    requires a.Valid() && a.Contents() == [] && a.capacity == 0 && a.moved == 0
    modifies a, a.elements
    ensures a.Valid() && a.Contents() <= xs
    ensures ret == SUCCESS <==> CapacityFor(|xs|) * a.elementSize <= a.limit
    ensures ret == SUCCESS ==> a.Contents() == xs && a.capacity == CapacityFor(|xs|)
    ensures ret == SUCCESS && xs != [] ==> a.moved < 2 * |xs| && a.capacity < 2 * |xs|
  {
    ret := SUCCESS;
    for i := 0 to |xs|
      invariant a.Valid() && (a.elements == old(a.elements) || fresh(a.elements))
      invariant a.Contents() == xs[..i]
      invariant ret == SUCCESS
      invariant a.capacity == CapacityFor(i)
      invariant a.moved == if i == 0 then 0 else a.capacity - 1
    {
      ret := a.Add(xs[i]);
      CapacityNext(i);
      if ret != SUCCESS {
        CapacityGrows(i + 1, |xs|, a.elementSize);
        return;
      }
      assert xs[..i + 1] == xs[..i] + [xs[i]];
    }
    assert xs[..|xs|] == xs;
    if xs != [] {
      PowerOfTwoTight(1, |xs|);
    }
  }

  lemma {:induction false} CapacityGrows(i: nat, n: nat, e: nat)
    requires i <= n
    ensures CapacityFor(i) * e <= CapacityFor(n) * e
    decreases n - i
  {
    if i < n {
      CapacityNext(i);
      CapacityGrows(i + 1, n, e);
      assert CapacityFor(i) <= CapacityFor(i + 1);
    }
  }
}
