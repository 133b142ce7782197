/** SeeStack (src/Stack.c): a stack kept in a dynamic array, top last. */
module Stacks {
  import opened Base
  import opened DynamicArrays

  /** n - 1 on size_t */
  function Predecessor(n: int): (r: size_t)
    requires 0 <= n < TWO_64
    ensures n > 0 ==> r == n - 1
  {
    Wrap(n - 1, TWO_64)
  }

  /** `size - 1 > size` is the source's way to ask for an empty stack. */
  lemma UnderflowMeansEmpty(size: size_t)
    ensures Predecessor(size) > size <==> size == 0
  {
  }

  class Stack<T(0)> {
    var items: DynamicArray<T>

    ghost predicate Valid()
      reads this, items
    {
      items.Valid()
    }

    /** The stack as a list, top first. */
    ghost function List(): seq<T>
      reads this, items, items.elements
      requires Valid()
    {
      Backwards(items.Contents())
    }

    ghost function Footprint(): set<object>
      reads this, items
    {
      {this, items, items.elements}
    }

    constructor (elementSize: size_t, limit: size_t)
      requires 0 < elementSize && limit <= PTRDIFF_MAX
      ensures Valid() && fresh(Footprint()) && List() == []
    {
      items := new DynamicArray(elementSize, limit);
    }

    method Top() returns (ret: Ret, out: Option<T>)
      requires Valid()
      ensures List() == [] ==> ret == ERROR_INDEX && out == None
      ensures List() != [] ==> ret == SUCCESS && out == Some(List()[0])
    {
      var size := items.size;
      UnderflowMeansEmpty(size);
      BackwardsFirst(items.Contents());
      if Predecessor(size) > size {
        return ERROR_INDEX, None;
      }
      ret, out := items.Get(Predecessor(size));
    }

    method Pop(fill: T) returns (ret: Ret)
      requires Valid()
      modifies items, items.elements
      ensures Valid() && fresh(Footprint() - old(Footprint()))
      ensures old(List()) == [] ==> ret == ERROR_INDEX && List() == []
      ensures old(List()) != [] ==> ret == SUCCESS && List() == old(List())[1..]
      ensures items.capacity == old(items.capacity)
    {
      var size := items.size;
      UnderflowMeansEmpty(size);
      BackwardsFirst(items.Contents());
      if Predecessor(size) > size {
        return ERROR_INDEX;
      }
      ret := items.Resize(Predecessor(size), fill);
    }

    method Push(x: T) returns (ret: Ret)
      requires Valid()
      modifies items, items.elements
      ensures Valid() && fresh(Footprint() - old(Footprint()))
      ensures ret == SUCCESS <==> old(items.CanAdd())
      ensures List() == if ret == SUCCESS then [x] + old(List()) else old(List())
    {
      ghost var was := items.Contents();
      ret := items.Add(x);
      if ret == SUCCESS {
        BackwardsFirst(was + [x]);
        assert (was + [x])[..|was|] == was;
      }
    }

    /** stack_copy: the new stack shares no memory with this one. */
    method Copy() returns (ret: Ret, out: Stack<T>)
      requires Valid()
      ensures ret == SUCCESS && out.Valid() && fresh(out.Footprint())
      ensures out.List() == List()
    {
      out := new Stack(items.elementSize, items.limit);
      var copy;
      ret, copy := items.Copy();
      out.items := copy;
    }

    method Apply(op: Op<T>, fill: T) returns (ok: bool, top: Option<T>)
      requires Valid()
      modifies items, items.elements
      ensures Valid() && items == old(items) && fresh({items.elements} - {old(items.elements)})
      ensures List() == After(old(List()), op, ok) && top == Head(List())
      ensures Allows(old(List()), op, ok, items.elementSize, items.limit)
      ensures op.Pop? ==> if old(List()) == [] then !ok && List() == [] else ok && List() == old(List())[1..]
      ensures op.Push? ==> List() == (if ok then [op.x] else []) + old(List())
      ensures op.Push? && !ok ==> (if old(List()) == [] then 1 else 2 * |old(List())|) * items.elementSize > items.limit
      ensures if List() == [] then top == None else top == Some(List()[0])
    {
      var ret;
      match op {
        case Push(x) => ret := Push(x);
        case Pop => ret := Pop(fill);
      }
      ok := ret == SUCCESS;
      ret, top := Top();
    }

    /** Over any run of operations the stack answers like a list. */
    method Run(ops: seq<Op<T>>, fill: T) returns (run: seq<Answer<T>>)
      requires Valid()
      modifies items, items.elements
      ensures Valid() && items == old(items) && fresh({items.elements} - {old(items.elements)})
      ensures |run| == |ops| && forall i :: 0 <= i < |ops| ==> run[i].op == ops[i]
      ensures AnswersLikeList(old(List()), run, items.elementSize, items.limit)
      ensures List() == ListAfter(old(List()), run)
    {
      ghost var l := List();
      run := [];
      for i := 0 to |ops|
        invariant Valid() && items == old(items) && fresh({items.elements} - {old(items.elements)})
        invariant |run| == i && forall k :: 0 <= k < i ==> run[k].op == ops[k]
        invariant AnswersLikeList(l, run, items.elementSize, items.limit) && List() == ListAfter(l, run)
      {
        var ok, top := Apply(ops[i], fill);
        AnswersAppend(l, run, Answer(ops[i], ok, top), items.elementSize, items.limit);
        run := run + [Answer(ops[i], ok, top)];
      }
    }

    /** No later operation on the original can be seen in a copy. */
    method RunBesideCopy(ops: seq<Op<T>>, fill: T) returns (out: Stack<T>, run: seq<Answer<T>>)
      requires Valid()
      modifies items, items.elements
      ensures Valid() && out.Valid() && out.Footprint() !! Footprint()
      ensures out.List() == old(List())
      ensures |run| == |ops| && forall i :: 0 <= i < |ops| ==> run[i].op == ops[i]
      ensures AnswersLikeList(old(List()), run, items.elementSize, items.limit)
      ensures List() == ListAfter(old(List()), run)
    {
      var copied;
      copied, out := Copy();
      run := Run(ops, fill);
    }
  }

  datatype Op<T> = Push(x: T) | Pop

  function Backwards<T>(s: seq<T>): (r: seq<T>)
    ensures |r| == |s|
  {
    seq(|s|, i requires 0 <= i < |s| => s[|s| - 1 - i])
  }

  lemma BackwardsFirst<T>(s: seq<T>)
    ensures s != [] ==> Backwards(s) == [s[|s| - 1]] + Backwards(s[..|s| - 1])
  {
  }

  /** A list machine: what an operation, carried out or refused, makes of the list. */
  function After<T>(l: seq<T>, op: Op<T>, done: bool): seq<T> {
    if !done then l
    else
      match op
      case Push(x) => [x] + l
      case Pop => if l == [] then [] else l[1..]
  }

  function Head<T>(l: seq<T>): Option<T> {
    if l == [] then None else Some(l[0])
  }

  /** An operation of a run, whether it succeeded, and what was on top after it. */
  datatype Answer<T> = Answer(op: Op<T>, ok: bool, top: Option<T>)

  function ListAfter<T>(l: seq<T>, run: seq<Answer<T>>): seq<T> {
    if run == [] then l
    else
      var last := run[|run| - 1];
      After(ListAfter(l, run[..|run| - 1]), last.op, last.ok)
  }

  /** A pop fails exactly on an empty list; a push only on one so long that the buffer of
      twice its size would exceed the limit. */
  predicate Allows<T>(l: seq<T>, op: Op<T>, ok: bool, e: nat, limit: nat) {
    match op
    case Pop => ok <==> l != []
    case Push(_) => !ok ==> ArraySpec.Doubled(|l|) * e > limit
  }

  /** Every top is the list's head, and no operation failed without need. */
  ghost predicate AnswersLikeList<T>(l: seq<T>, run: seq<Answer<T>>, e: nat, limit: nat) {
    run == [] ||
    var last := run[|run| - 1];
    && AnswersLikeList(l, run[..|run| - 1], e, limit)
    && last.top == Head(ListAfter(l, run))
    && Allows(ListAfter(l, run[..|run| - 1]), last.op, last.ok, e, limit)
  }

  /** The answers of a run one by one, each by the list as it was at that point. */
  lemma {:induction false} RunAnswers<T>(l: seq<T>, run: seq<Answer<T>>, i: nat, e: nat, limit: nat)
    requires AnswersLikeList(l, run, e, limit) && i < |run|
    ensures var was, now, a := ListAfter(l, run[..i]), ListAfter(l, run[..i + 1]), run[i];
      && (a.op.Pop? ==> (a.ok <==> was != []) && (a.ok ==> was == [was[0]] + now))
      && (a.op.Push? && a.ok ==> now == [a.op.x] + was && a.top == Some(a.op.x))
      && (a.op.Push? && !a.ok ==> (if was == [] then 1 else 2 * |was|) * e > limit)
      && (!a.ok ==> now == was)
      && (if now == [] then a.top == None else a.top == Some(now[0]))
  {
    var last := |run| - 1;
    if i < last {
      RunAnswers(l, run[..last], i, e, limit);
      assert run[..last][..i] == run[..i] && run[..last][..i + 1] == run[..i + 1];
    } else {
      assert run[..i + 1] == run && run[..i + 1][..i] == run[..i];
    }
  }

  lemma {:induction false} RunInTwo<T>(l: seq<T>, first: seq<Answer<T>>, second: seq<Answer<T>>)
    ensures ListAfter(l, first + second) == ListAfter(ListAfter(l, first), second)
  {
    if second == [] {
      assert first + [] == first;
    } else {
      var last := |second| - 1;
      assert (first + second)[..|first + second| - 1] == first + second[..last];
      RunInTwo(l, first, second[..last]);
    }
  }

  /** Pushes and pops that were all carried out, and that pair up like brackets. */
  ghost predicate Balanced<T>(run: seq<Answer<T>>)
    decreases |run|
  {
    run == [] ||
    (exists k {:trigger run[..k]} :: 0 < k < |run| && Balanced(run[..k]) && Balanced(run[k..])) ||
    (|run| >= 2 && run[0].op.Push? && run[0].ok && run[|run| - 1].op.Pop? && run[|run| - 1].ok
     && Balanced(run[1..|run| - 1]))
  }

  /** Such runs are nested and joined from pairs of a push and a pop. */
  lemma BalancedGrows<T>(inner: seq<Answer<T>>, more: seq<Answer<T>>, push: Answer<T>, pop: Answer<T>)
    requires Balanced(inner) && Balanced(more) && push.op.Push? && push.ok && pop.op.Pop? && pop.ok
    ensures Balanced([push] + inner + [pop]) && Balanced(inner + more)
  {
    var run := [push] + inner + [pop];
    assert run[1..|run| - 1] == inner;
    var joined := inner + more;
    if inner == [] || more == [] {
      assert joined == inner || joined == more;
    } else {
      assert joined[..|inner|] == inner && joined[|inner|..] == more;
    }
  }

  /** Last in, first out: whatever was pushed and popped again in between, the list is
      as it was before. */
  lemma {:induction false} BalancedRestores<T>(l: seq<T>, run: seq<Answer<T>>)
    requires Balanced(run)
    ensures ListAfter(l, run) == l
    decreases |run|
  {
    if run != [] {
      if k :| 0 < k < |run| && Balanced(run[..k]) && Balanced(run[k..]) {
        BalancedRestores(l, run[..k]);
        BalancedRestores(l, run[k..]);
        RunInTwo(l, run[..k], run[k..]);
        assert run == run[..k] + run[k..];
      } else {
        BalancedRestores([run[0].op.x] + l, run[1..|run| - 1]);
        Bracketed(l, run, run[1..|run| - 1]);
      }
    }
  }

  /** A push, a run that leaves the list alone, and a pop. */
  lemma Bracketed<T>(l: seq<T>, run: seq<Answer<T>>, inner: seq<Answer<T>>)
    requires |run| >= 2 && inner == run[1..|run| - 1]
    requires run[0].op.Push? && run[0].ok && run[|run| - 1].op.Pop? && run[|run| - 1].ok
    requires ListAfter([run[0].op.x] + l, inner) == [run[0].op.x] + l
    ensures ListAfter(l, run) == l
  {
    RunInTwo(l, [run[0]], inner);
    assert [run[0]] + inner == run[..|run| - 1];
    assert ListAfter(l, [run[0]]) == [run[0].op.x] + l;
  }

  lemma AnswersAppend<T>(l: seq<T>, run: seq<Answer<T>>, a: Answer<T>, e: nat, limit: nat)
    requires AnswersLikeList(l, run, e, limit)
    requires a.top == Head(After(ListAfter(l, run), a.op, a.ok))
    requires Allows(ListAfter(l, run), a.op, a.ok, e, limit)
    ensures ListAfter(l, run + [a]) == After(ListAfter(l, run), a.op, a.ok)
    ensures AnswersLikeList(l, run + [a], e, limit)
  {
    assert (run + [a])[..|run|] == run;
  }
}
