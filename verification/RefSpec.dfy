/** Reference counts: what it means that they are right, what releasing references does
    to a heap of counted objects, and which objects are alive when counts are right. */
module RefSpec {
  import opened Base

  /** NULL or the address of an object. */
  type Pointer = Option<nat>

  /** An object of src/SeeObject.c: its count and the pointers it owns, which are the
      elements of an array by reference or the parts array of a message. A cell is Gone
      from the moment its destroy function runs; addresses are not used again. */
  datatype Cell = Gone | Live(refcount: nat, slots: seq<Pointer>)

  type Mem = seq<Cell>

  /** Pointers outside the heap that own a reference: the handles of the program. */
  type Handles = multiset<Pointer>

  predicate IsLive(mem: Mem, o: nat) {
    o < |mem| && mem[o].Live?
  }

  function Count(mem: Mem, o: nat): nat {
    if IsLive(mem, o) then mem[o].refcount else 0
  }

  function Slots(mem: Mem, o: nat): seq<Pointer> {
    if IsLive(mem, o) then mem[o].slots else []
  }

  function Times(c: Cell, o: nat): nat {
    if c.Live? then multiset(c.slots)[Some(o)] else 0
  }

  /** The number of slots, in all objects, that hold o. */
  function HeldBy(mem: Mem, o: nat): nat {
    if mem == [] then 0 else HeldBy(mem[..|mem| - 1], o) + Times(mem[|mem| - 1], o)
  }

  /** The count of o is the number of slots and handles that hold it, and it is alive
      exactly as long as that is not zero. */
  ghost predicate OkAt(mem: Mem, ext: Handles, o: nat) {
    && Count(mem, o) == HeldBy(mem, o) + ext[Some(o)]
    && (IsLive(mem, o) <==> Count(mem, o) > 0)
  }

  ghost predicate Inv(mem: Mem, ext: Handles) {
    forall o: nat {:trigger OkAt(mem, ext, o)} :: OkAt(mem, ext, o)
  }

  lemma {:induction false} HeldByUpdate(mem: Mem, i: nat, c: Cell, o: nat)
    requires i < |mem|
    ensures HeldBy(mem[i := c], o) + Times(mem[i], o) == HeldBy(mem, o) + Times(c, o)
  {
    var last := |mem| - 1;
    if i == last {
      assert mem[i := c][..last] == mem[..last];
    } else {
      assert mem[i := c][..last] == mem[..last][i := c];
      HeldByUpdate(mem[..last], i, c, o);
    }
  }

  lemma HeldByAppend(mem: Mem, c: Cell, o: nat)
    ensures HeldBy(mem + [c], o) == HeldBy(mem, o) + Times(c, o)
  {
    assert (mem + [c])[..|mem|] == mem;
  }

  lemma {:induction false} HeldByAtLeast(mem: Mem, i: nat, o: nat)
    requires i < |mem|
    ensures HeldBy(mem, o) >= Times(mem[i], o)
  {
    if i < |mem| - 1 {
      HeldByAtLeast(mem[..|mem| - 1], i, o);
    }
  }

  lemma {:induction false} Holder(mem: Mem, o: nat) returns (x: nat)
    requires HeldBy(mem, o) > 0
    ensures IsLive(mem, x) && Some(o) in mem[x].slots
  {
    var last := |mem| - 1;
    if Times(mem[last], o) > 0 {
      x := last;
    } else {
      x := Holder(mem[..last], o);
    }
  }

  // ----- what the operations do to the heap -----

  function WithCount(mem: Mem, o: nat, n: nat): Mem
    requires IsLive(mem, o)
  {
    mem[o := mem[o].(refcount := n)]
  }

  function WithSlots(mem: Mem, a: nat, slots: seq<Pointer>): Mem
    requires IsLive(mem, a)
  {
    mem[a := mem[a].(slots := slots)]
  }

  /** object_ref */
  function Acquired(mem: Mem, o: nat): Mem
    requires IsLive(mem, o)
  {
    WithCount(mem, o, mem[o].refcount + 1)
  }

  /** The slots of a become these, which is where a reference to e was put by see_copy_by_ref. */
  function Stored(mem: Mem, a: nat, slots: seq<Pointer>, e: nat): Mem
    requires IsLive(mem, a) && IsLive(mem, e)
  {
    Acquired(WithSlots(mem, a, slots), e)
  }

  function LiveCount(mem: Mem): nat {
    if mem == [] then 0 else LiveCount(mem[..|mem| - 1]) + (if mem[|mem| - 1].Live? then 1 else 0)
  }

  lemma {:induction false} LiveCountUpdate(mem: Mem, i: nat, c: Cell)
    requires i < |mem|
    ensures LiveCount(mem[i := c]) + (if mem[i].Live? then 1 else 0) == LiveCount(mem) + (if c.Live? then 1 else 0)
  {
    var last := |mem| - 1;
    if i == last {
      assert mem[i := c][..last] == mem[..last];
    } else {
      assert mem[i := c][..last] == mem[..last][i := c];
      LiveCountUpdate(mem[..last], i, c);
    }
  }

  /** The heap after these references have been released one after the other, each with
      all that its release causes: see_object_decref for every one of them. */
  function Release(mem: Mem, pending: seq<Pointer>): Mem
    decreases LiveCount(mem), |pending|
  {
    if pending == [] then mem
    else
      var p, rest := pending[0], pending[1..];
      if p == None || !IsLive(mem, p.value) then Release(mem, rest)
      else
        var c := mem[p.value];
        if c.refcount > 1 then
          LiveCountUpdate(mem, p.value, c.(refcount := c.refcount - 1));
          Release(WithCount(mem, p.value, c.refcount - 1), rest)
        else
          LiveCountUpdate(mem, p.value, Gone);
          Release(mem[p.value := Gone], c.slots + rest)
  }

  /** A new object starts with the one reference that its maker holds. */
  lemma NewInv(mem: Mem, ext: Handles)
    requires Inv(mem, ext)
    ensures Inv(mem + [Live(1, [])], ext + multiset{Some(|mem|)})
  {
    var now := mem + [Live(1, [])];
    forall o: nat
      ensures OkAt(now, ext + multiset{Some(|mem|)}, o)
    {
      assert OkAt(mem, ext, o);
      HeldByAppend(mem, Live(1, []), o);
    }
  }

  lemma AcquireInv(mem: Mem, ext: Handles, o: nat)
    requires Inv(mem, ext) && IsLive(mem, o)
    ensures Inv(Acquired(mem, o), ext + multiset{Some(o)})
  {
    forall x: nat
      ensures OkAt(Acquired(mem, o), ext + multiset{Some(o)}, x)
    {
      assert OkAt(mem, ext, x);
      HeldByUpdate(mem, o, mem[o].(refcount := mem[o].refcount + 1), x);
    }
  }

  /** Pointers may move between handles and slots as long as none is lost or made up. */
  lemma MoveInv(mem: Mem, ext: Handles, a: nat, slots: seq<Pointer>, now: Handles)
    requires Inv(mem, ext) && IsLive(mem, a)
    requires forall p: Pointer :: p.Some? ==> multiset(mem[a].slots)[p] + ext[p] == multiset(slots)[p] + now[p]
    ensures Inv(WithSlots(mem, a, slots), now)
  {
    forall x: nat
      ensures OkAt(WithSlots(mem, a, slots), now, x)
    {
      assert OkAt(mem, ext, x);
      HeldByUpdate(mem, a, mem[a].(slots := slots), x);
    }
  }

  lemma StoredInv(mem: Mem, ext: Handles, a: nat, slots: seq<Pointer>, e: nat)
    requires Inv(mem, ext) && IsLive(mem, a) && IsLive(mem, e)
    requires forall p: Pointer :: p.Some? ==> multiset(slots)[p] == multiset(mem[a].slots)[p] + if p == Some(e) then 1 else 0
    ensures Inv(Stored(mem, a, slots, e), ext)
  {
    var m := WithSlots(mem, a, slots);
    forall x: nat
      ensures OkAt(Stored(mem, a, slots, e), ext, x)
    {
      assert OkAt(mem, ext, x);
      HeldByUpdate(mem, a, mem[a].(slots := slots), x);
      HeldByUpdate(m, e, m[e].(refcount := m[e].refcount + 1), x);
    }
  }

  lemma DropInv(mem: Mem, ext: Handles, o: nat)
    requires Inv(mem, ext + multiset{Some(o)})
    ensures IsLive(mem, o) && mem[o].refcount > 0
    ensures mem[o].refcount > 1 ==> Inv(WithCount(mem, o, mem[o].refcount - 1), ext)
    ensures mem[o].refcount == 1 ==> Inv(mem[o := Gone], ext + multiset(mem[o].slots))
  {
    assert OkAt(mem, ext + multiset{Some(o)}, o);
    if mem[o].refcount > 1 {
      var now := WithCount(mem, o, mem[o].refcount - 1);
      forall x: nat
        ensures OkAt(now, ext, x)
      {
        assert OkAt(mem, ext + multiset{Some(o)}, x);
        HeldByUpdate(mem, o, mem[o].(refcount := mem[o].refcount - 1), x);
      }
    } else {
      var now, handles := mem[o := Gone], ext + multiset(mem[o].slots);
      forall x: nat
        ensures OkAt(now, handles, x)
      {
        assert OkAt(mem, ext + multiset{Some(o)}, x);
        HeldByUpdate(mem, o, Gone, x);
      }
    }
  }

  /** Releasing keeps the counts right, however many objects it destroys; it never meets
      an object that is already gone. */
  lemma {:induction false} ReleaseInv(mem: Mem, pending: seq<Pointer>, ext: Handles)
    requires Inv(mem, ext + multiset(pending))
    ensures Inv(Release(mem, pending), ext)
    ensures pending != [] && pending[0].Some? ==> IsLive(mem, pending[0].value)
    decreases LiveCount(mem), |pending|
  {
    if pending == [] {
      assert ext + multiset(pending) == ext;
    } else {
      var p, rest := pending[0], pending[1..];
      assert pending == [p] + rest;
      if p == None {
        SameHandles(mem, ext + multiset(pending), ext + multiset(rest));
        ReleaseInv(mem, rest, ext);
      } else {
        assert ext + multiset(pending) == ext + multiset(rest) + multiset{p};
        DropInv(mem, ext + multiset(rest), p.value);
        var c := mem[p.value];
        if c.refcount > 1 {
          LiveCountUpdate(mem, p.value, c.(refcount := c.refcount - 1));
          ReleaseInv(WithCount(mem, p.value, c.refcount - 1), rest, ext);
        } else {
          LiveCountUpdate(mem, p.value, Gone);
          assert ext + multiset(rest) + multiset(c.slots) == ext + multiset(c.slots + rest);
          ReleaseInv(mem[p.value := Gone], c.slots + rest, ext);
        }
      }
    }
  }

  /** NULL handles count for nothing. */
  lemma SameHandles(mem: Mem, ext: Handles, now: Handles)
    requires Inv(mem, ext) && forall p: Pointer :: p.Some? ==> ext[p] == now[p]
    ensures Inv(mem, now)
  {
    forall x: nat
      ensures OkAt(mem, now, x)
    {
      assert OkAt(mem, ext, x);
    }
  }

  lemma {:induction false} ReleaseAll(mem: Mem, p: seq<Pointer>, q: seq<Pointer>)
    ensures Release(mem, p + q) == Release(Release(mem, p), q)
    decreases LiveCount(mem), |p|
  {
    if p == [] {
      assert p + q == q;
    } else {
      var o, rest := p[0], p[1..];
      assert (p + q)[1..] == rest + q;
      if o == None || !IsLive(mem, o.value) {
        ReleaseAll(mem, rest, q);
      } else {
        var c := mem[o.value];
        if c.refcount > 1 {
          LiveCountUpdate(mem, o.value, c.(refcount := c.refcount - 1));
          ReleaseAll(WithCount(mem, o.value, c.refcount - 1), rest, q);
        } else {
          LiveCountUpdate(mem, o.value, Gone);
          assert c.slots + (rest + q) == c.slots + rest + q;
          ReleaseAll(mem[o.value := Gone], c.slots + rest, q);
        }
      }
    }
  }

  /** What survives a release has kept its slots; nothing comes back to life. */
  lemma {:induction false} ReleaseKeeps(mem: Mem, pending: seq<Pointer>)
    ensures |Release(mem, pending)| == |mem|
    ensures forall x :: 0 <= x < |mem| && Release(mem, pending)[x].Live? ==>
      mem[x].Live? && Release(mem, pending)[x].slots == mem[x].slots
    ensures LiveCount(Release(mem, pending)) <= LiveCount(mem)
    decreases LiveCount(mem), |pending|
  {
    if pending != [] {
      var p, rest := pending[0], pending[1..];
      if p == None || !IsLive(mem, p.value) {
        ReleaseKeeps(mem, rest);
      } else {
        var c := mem[p.value];
        if c.refcount > 1 {
          LiveCountUpdate(mem, p.value, c.(refcount := c.refcount - 1));
          ReleaseKeeps(WithCount(mem, p.value, c.refcount - 1), rest);
        } else {
          LiveCountUpdate(mem, p.value, Gone);
          ReleaseKeeps(mem[p.value := Gone], c.slots + rest);
        }
      }
    }
  }

  /** The last reference to an object destroys it; any other release of one reference
      does nothing but count. */
  lemma ReleaseLastExactly(mem: Mem, ext: Handles, o: nat)
    requires Inv(mem, ext + multiset{Some(o)})
    ensures Count(mem, o) == 1 ==> !IsLive(Release(mem, [Some(o)]), o)
    ensures Count(mem, o) != 1 ==>
      IsLive(mem, o) && mem[o].refcount > 1 && Release(mem, [Some(o)]) == WithCount(mem, o, mem[o].refcount - 1)
  {
    DropInv(mem, ext, o);
    if mem[o].refcount == 1 {
      LiveCountUpdate(mem, o, Gone);
      ReleaseKeeps(mem[o := Gone], mem[o].slots + [Some(o)][1..]);
    } else {
      assert [Some(o)][1..] == [];
    }
  }

  /** Objects with one reference each and no slots go one by one. */
  lemma {:induction false} ReleaseLeaves(mem: Mem, ps: seq<Pointer>)
    requires forall i :: 0 <= i < |ps| ==> ps[i].Some? && ps[i].value < |mem| && mem[ps[i].value] == Live(1, [])
    requires forall i, j :: 0 <= i < j < |ps| ==> ps[i] != ps[j]
    ensures |Release(mem, ps)| == |mem|
    ensures forall x :: 0 <= x < |mem| ==> Release(mem, ps)[x] == if Some(x) in ps then Gone else mem[x]
    decreases |ps|
  {
    if ps != [] {
      var x := ps[0].value;
      LiveCountUpdate(mem, x, Gone);
      assert [] + ps[1..] == ps[1..];
      assert ps == [ps[0]] + ps[1..];
      ReleaseLeaves(mem[x := Gone], ps[1..]);
    }
  }

  // ----- what is alive -----

  ghost predicate Holds(mem: Mem, x: nat, y: nat) {
    Some(y) in Slots(mem, x)
  }

  /** A way from a handle along the slots of objects. */
  ghost predicate IsPath(mem: Mem, ext: Handles, p: seq<nat>) {
    && p != [] && Some(p[0]) in ext
    && forall i :: 0 <= i < |p| - 1 ==> Holds(mem, p[i], p[i + 1])
  }

  /** Nothing is destroyed while the program can still get at it. */
  lemma {:induction false} ReachableIsLive(mem: Mem, ext: Handles, p: seq<nat>)
    requires Inv(mem, ext) && IsPath(mem, ext, p)
    ensures IsLive(mem, p[|p| - 1])
  {
    var last := |p| - 1;
    assert OkAt(mem, ext, p[last]);
    if last > 0 {
      ReachableIsLive(mem, ext, p[..last]);
      assert Holds(mem, p[last - 1], p[last - 1 + 1]);
      HeldByAtLeast(mem, p[last - 1], p[last]);
    }
  }

  ghost predicate Acyclic(mem: Mem, depth: nat -> nat) {
    forall x: nat, y: nat {:trigger Holds(mem, x, y)} :: Holds(mem, x, y) ==> depth(x) < depth(y)
  }

  /** And as long as objects do not hold one another in a circle, nothing lives that the
      program cannot get at. */
  lemma {:induction false} LiveIsReachable(mem: Mem, ext: Handles, depth: nat -> nat, o: nat) returns (p: seq<nat>)
    requires Inv(mem, ext) && Acyclic(mem, depth) && IsLive(mem, o)
    ensures IsPath(mem, ext, p) && p[|p| - 1] == o
    decreases depth(o)
  {
    assert OkAt(mem, ext, o);
    if Some(o) in ext {
      p := [o];
    } else {
      var x := Holder(mem, o);
      assert Holds(mem, x, o);
      var q := LiveIsReachable(mem, ext, depth, x);
      p := q + [o];
      forall i | 0 <= i < |p| - 1
        ensures Holds(mem, p[i], p[i + 1])
      {
        assert i < |q| - 1 ==> Holds(mem, q[i], q[i + 1]);
      }
    }
  }

  /** A handle or an object of s holds x. */
  ghost predicate Supports(mem: Mem, ext: Handles, s: set<nat>, x: nat) {
    IsLive(mem, x) && (Some(x) in ext || exists y :: y in s && Holds(mem, y, x))
  }

  /** Objects that are held by handles or by one another. */
  ghost predicate Supported(mem: Mem, ext: Handles, s: set<nat>) {
    forall x {:trigger Supports(mem, ext, s, x)} :: x in s ==> Supports(mem, ext, s, x)
  }

  ghost predicate Kept(mem: Mem, ext: Handles, o: nat) {
    exists s: set<nat> :: o in s && Supported(mem, ext, s)
  }

  lemma SupportSame(mem: Mem, now: Mem, ext: Handles, s: set<nat>)
    requires Supported(mem, ext, s) && |now| == |mem|
    requires forall x :: x in s ==> IsLive(now, x) && Slots(now, x) == Slots(mem, x)
    ensures Supported(now, ext, s)
  {
    forall x | x in s
      ensures Supports(now, ext, s, x)
    {
      assert Supports(mem, ext, s, x);
      if Some(x) !in ext {
        var y :| y in s && Holds(mem, y, x);
        assert Holds(now, y, x);
      }
    }
  }

  /** What has support besides a reference has more than that one: giving it back does
      not take the support away. */
  lemma SupportedStep(mem: Mem, rest: Handles, ext: Handles, s: set<nat>, o: nat)
    requires Supported(mem, ext, s) && ext <= rest && Inv(mem, rest + multiset{Some(o)})
    ensures IsLive(mem, o) && mem[o].refcount > 0
    ensures mem[o].refcount > 1 ==> Supported(WithCount(mem, o, mem[o].refcount - 1), ext, s)
    ensures mem[o].refcount == 1 ==> Supported(mem[o := Gone], ext, s)
  {
    assert OkAt(mem, rest + multiset{Some(o)}, o);
    forall x | x in s
      ensures IsLive(mem, x) && (mem[o].refcount == 1 ==> x != o)
    {
      assert Supports(mem, ext, s, x);
      if x == o && Some(o) !in ext {
        var y :| y in s && Holds(mem, y, o);
        HeldByAtLeast(mem, y, o);
      }
    }
    if mem[o].refcount > 1 {
      SupportSame(mem, WithCount(mem, o, mem[o].refcount - 1), ext, s);
    } else {
      SupportSame(mem, mem[o := Gone], ext, s);
    }
  }

  lemma {:induction false} SupportedSurvive(mem: Mem, pending: seq<Pointer>, ext: Handles, s: set<nat>)
    requires Inv(mem, ext + multiset(pending)) && Supported(mem, ext, s)
    ensures Supported(Release(mem, pending), ext, s)
    decreases LiveCount(mem), |pending|
  {
    if pending != [] {
      var p, rest := pending[0], pending[1..];
      assert pending == [p] + rest;
      if p == None {
        SameHandles(mem, ext + multiset(pending), ext + multiset(rest));
        SupportedSurvive(mem, rest, ext, s);
      } else {
        assert ext + multiset(pending) == ext + multiset(rest) + multiset{p};
        SupportedStep(mem, ext + multiset(rest), ext, s, p.value);
        DropInv(mem, ext + multiset(rest), p.value);
        var c := mem[p.value];
        if c.refcount > 1 {
          LiveCountUpdate(mem, p.value, c.(refcount := c.refcount - 1));
          SupportedSurvive(WithCount(mem, p.value, c.refcount - 1), rest, ext, s);
        } else {
          LiveCountUpdate(mem, p.value, Gone);
          assert ext + multiset(rest) + multiset(c.slots) == ext + multiset(c.slots + rest);
          SupportedSurvive(mem[p.value := Gone], c.slots + rest, ext, s);
        }
      }
    }
  }

  /** What a release leaves alive are exactly the objects that are kept without the
      references it gives back. */
  lemma SurvivesExactly(mem: Mem, pending: seq<Pointer>, ext: Handles, o: nat)
    requires Inv(mem, ext + multiset(pending))
    ensures IsLive(Release(mem, pending), o) <==> Kept(mem, ext, o)
  {
    var now := Release(mem, pending);
    if s: set<nat> :| o in s && Supported(mem, ext, s) {
      SupportedSurvive(mem, pending, ext, s);
      assert Supports(now, ext, s, o);
    }
    if IsLive(now, o) {
      ReleaseInv(mem, pending, ext);
      ReleaseKeeps(mem, pending);
      var s := set x: nat | x < |now| && now[x].Live?;
      forall x | x in s
        ensures Supports(now, ext, s, x)
      {
        assert OkAt(now, ext, x);
        if Some(x) !in ext {
          var y := Holder(now, x);
          assert Holds(now, y, x);
        }
      }
      SupportSame(now, mem, ext, s);
    }
  }

  /** Without circles these are the objects that a handle leads to. */
  lemma SurvivesOnPathExactly(mem: Mem, pending: seq<Pointer>, ext: Handles, o: nat, depth: nat -> nat)
    requires Inv(mem, ext + multiset(pending)) && Acyclic(mem, depth)
    ensures IsLive(Release(mem, pending), o) <==> exists p :: IsPath(mem, ext, p) && p[|p| - 1] == o
  {
    var now := Release(mem, pending);
    ReleaseInv(mem, pending, ext);
    ReleaseKeeps(mem, pending);
    if IsLive(now, o) {
      forall x: nat, y: nat | Holds(now, x, y)
        ensures Holds(mem, x, y)
      {
      }
      var p := LiveIsReachable(now, ext, depth, o);
      assert forall i :: 0 <= i < |p| - 1 ==> Holds(now, p[i], p[i + 1]) && Holds(mem, p[i], p[i + 1]);
    }
    if p :| IsPath(mem, ext, p) && p[|p| - 1] == o {
      PathSurvives(mem, now, ext, p);
    }
  }

  lemma {:induction false} PathSurvives(mem: Mem, now: Mem, ext: Handles, p: seq<nat>)
    requires Inv(now, ext) && |now| == |mem| && IsPath(mem, ext, p)
    requires forall x :: 0 <= x < |mem| && now[x].Live? ==> mem[x].Live? && now[x].slots == mem[x].slots
    ensures IsPath(now, ext, p) && IsLive(now, p[|p| - 1])
  {
    var last := |p| - 1;
    if last > 0 {
      var front := p[..last];
      PathSurvives(mem, now, ext, front);
      assert Holds(mem, p[last - 1], p[last - 1 + 1]);
      forall i | 0 <= i < |p| - 1
        ensures Holds(now, p[i], p[i + 1])
      {
        assert i < last - 1 ==> Holds(now, front[i], front[i + 1]);
      }
    }
    ReachableIsLive(now, ext, p);
  }

  /** Once the program has no handle left, everything is destroyed. */
  lemma NoHandlesNothingLives(mem: Mem, ext: Handles, depth: nat -> nat)
    requires Inv(mem, ext) && Acyclic(mem, depth) && forall x: nat :: Some(x) !in ext
    ensures forall o: nat :: !IsLive(mem, o)
  {
    forall o: nat
      ensures !IsLive(mem, o)
    {
      if IsLive(mem, o) {
        var p := LiveIsReachable(mem, ext, depth, o);
      }
    }
  }

  /** In a circle it is not: an array that holds itself. */
  lemma SelfHolderLeaks()
    ensures Inv([Live(1, [Some(0)])], multiset{})
  {
    var mem := [Live(1, [Some(0)])];
    forall o: nat
      ensures OkAt(mem, multiset{}, o)
    {
      HeldByAppend([], mem[0], o);
      assert [] + mem == mem;
    }
  }

  /** The counts are no information of their own: slots and handles determine them. */
  lemma CountsDetermined(mem: Mem, now: Mem, ext: Handles)
    requires Inv(mem, ext) && Inv(now, ext) && |mem| == |now|
    requires forall o :: 0 <= o < |mem| ==> mem[o].Live? == now[o].Live? && Slots(mem, o) == Slots(now, o)
    ensures mem == now
  {
    forall o | 0 <= o < |mem|
      ensures mem[o] == now[o]
    {
      assert OkAt(mem, ext, o) && OkAt(now, ext, o);
      SameHeldBy(mem, now, o);
    }
  }

  lemma TimesOfSlots(mem: Mem, x: nat, o: nat)
    requires x < |mem|
    ensures Times(mem[x], o) == multiset(Slots(mem, x))[Some(o)]
  {
  }

  lemma {:induction false} SameHeldBy(mem: Mem, now: Mem, o: nat)
    requires |mem| == |now|
    requires forall x :: 0 <= x < |mem| ==> Slots(mem, x) == Slots(now, x)
    ensures HeldBy(mem, o) == HeldBy(now, o)
  {
    if mem != [] {
      var last := |mem| - 1;
      forall x | 0 <= x < last
        ensures Slots(mem[..last], x) == Slots(now[..last], x)
      {
        assert Slots(mem, x) == Slots(now, x);
      }
      assert Slots(mem, last) == Slots(now, last);
      SameHeldBy(mem[..last], now[..last], o);
      TimesOfSlots(mem, last, o);
      TimesOfSlots(now, last, o);
    }
  }

  /** array_pop_back copies the last element out, which takes a reference, and forgets
      the slot without giving its reference back. */
  function PoppedBack(mem: Mem, a: nat): Mem
    requires IsLive(mem, a) && mem[a].slots != []
    requires var p := mem[a].slots[|mem[a].slots| - 1]; p.Some? && IsLive(mem, p.value)
  {
    var slots := mem[a].slots;
    WithSlots(Acquired(mem, slots[|slots| - 1].value), a, slots[..|slots| - 1])
  }

  /** So the element counts one reference that nobody can release. */
  lemma PopBackLeaks(mem: Mem, ext: Handles, a: nat)
    requires Inv(mem, ext) && IsLive(mem, a) && mem[a].slots != []
    requires var p := mem[a].slots[|mem[a].slots| - 1]; p.Some? && IsLive(mem, p.value)
    ensures var p := mem[a].slots[|mem[a].slots| - 1];
      Inv(PoppedBack(mem, a), ext + multiset{p, p}) && !Inv(PoppedBack(mem, a), ext + multiset{p})
  {
    var slots := mem[a].slots;
    var p := slots[|slots| - 1];
    assert slots == slots[..|slots| - 1] + [p];
    AcquireInv(mem, ext, p.value);
    MoveInv(Acquired(mem, p.value), ext + multiset{p}, a, slots[..|slots| - 1], ext + multiset{p, p});
    assert OkAt(PoppedBack(mem, a), ext + multiset{p, p}, p.value);
    assert !OkAt(PoppedBack(mem, a), ext + multiset{p}, p.value);
  }
}
