/** The operations that take and give references: object_ref and object_decref
    (src/SeeObject.c), see_copy_by_ref and see_free_see_object (src/see_functions.c), the
    dynamic array with these two (src/DynamicArray.c) and messages (src/MsgBuffer.c). */
module RefCounts {
  import opened Base
  import opened RefSpec

  const LEAF: Cell := Live(1, [])

  function Pointers(es: seq<nat>): (ps: seq<Pointer>)
    ensures |ps| == |es| && forall i :: 0 <= i < |es| ==> ps[i] == Some(es[i])
  {
    seq(|es|, i requires 0 <= i < |es| => Some(es[i]))
  }

  /** Slots that are not filled yet. */
  function Nulls(n: nat): (ps: seq<Pointer>)
    ensures |ps| == n && forall p: Pointer :: p.Some? ==> multiset(ps)[p] == 0
  {
    var ps := seq(n, _ => None);
    assert forall p: Pointer :: p.Some? ==> p !in ps;
    ps
  }

  function Gones(n: nat): seq<Cell> {
    seq(n, _ => Gone)
  }

  predicate NoNulls(ps: seq<Pointer>) {
    forall i :: 0 <= i < |ps| ==> ps[i].Some?
  }

  ghost predicate Full(c: Cell) {
    c.Live? ==> NoNulls(c.slots)
  }

  ghost predicate Solid(mem: Mem) {
    forall o {:trigger Full(mem[o])} :: 0 <= o < |mem| ==> Full(mem[o])
  }

  /** a alone has other slots now. */
  ghost predicate SlotsSetTo(was: Mem, now: Mem, a: nat, slots: seq<Pointer>) {
    && |now| == |was|
    && forall o {:trigger now[o]} :: 0 <= o < |now| ==>
      now[o].Live? == was[o].Live? && Slots(now, o) == if o == a then slots else Slots(was, o)
  }

  /** A message owns the array of its parts. */
  predicate IsMsg(mem: Mem, m: nat) {
    && IsLive(mem, m) && |mem[m].slots| == 1 && mem[m].slots[0].Some?
    && IsLive(mem, mem[m].slots[0].value)
  }

  function Parts(mem: Mem, m: nat): nat
    requires IsMsg(mem, m)
  {
    mem[m].slots[0].value
  }

  /** The parts of a message made on top of a heap of m objects: objects of its own, each
      with one reference. */
  ghost predicate OwnParts(now: Mem, m: nat, ps: seq<Pointer>) {
    && (forall i :: 0 <= i < |ps| ==>
          ps[i].Some? && m + 2 <= ps[i].value < |now| && now[ps[i].value] == LEAF)
    && (forall i, j :: 0 <= i < j < |ps| ==> ps[i] != ps[j])
  }

  /** On top of an untouched heap, a message with k parts and nothing else that is alive. */
  ghost predicate Builds(was: Mem, now: Mem, k: nat) {
    var m := |was|;
    && |now| >= m + 2 && now[..m] == was
    && now[m] == Live(1, [Some(m + 1)])
    && now[m + 1].Live? && now[m + 1].refcount == 1
    && |now[m + 1].slots| == k && OwnParts(now, m, now[m + 1].slots)
    && forall x :: m + 2 <= x < |now| ==> now[x] == Gone || Some(x) in now[m + 1].slots
  }

  /** One more part. */
  lemma BuildsMore(was: Mem, now: Mem, k: nat, more: Mem)
    requires Builds(was, now, k)
    requires var m := |was|;
      more == now[m + 1 := Live(1, now[m + 1].slots + [Some(|now|)])] + [LEAF]
    ensures Builds(was, more, k + 1)
  {
    var m := |was|;
    var ps := now[m + 1].slots;
    assert more[..m] == now[..m];
    forall i | 0 <= i < |ps|
      ensures ps[i].Some? && m + 2 <= ps[i].value < |now| && more[ps[i].value] == LEAF
    {
    }
  }

  lemma BuildsGone(was: Mem, now: Mem, k: nat)
    requires Builds(was, now, k)
    ensures Builds(was, now + [Gone], k)
  {
    assert (now + [Gone])[..|was|] == now[..|was|];
  }

  /** The message is where it was made, whatever is done to older objects. */
  lemma AboveIsTheMessage(was: Mem, now: Mem, k: nat, part: nat)
    requires Builds(was, now, k) && part < |was| && IsLive(now, part)
    ensures IsMsg(Acquired(now, part), |was|) && Parts(Acquired(now, part), |was|) == |was| + 1
    ensures Acquired(now, part)[|was| + 1] == now[|was| + 1]
  {
  }

  /** A reference that is taken and given back later leaves no trace. */
  lemma TakenAndGiven(mem: Mem, part: nat, a: nat, c: Cell)
    requires IsLive(mem, part) && a < |mem| && a != part
    ensures var m := Acquired(mem, part)[a := c] + [LEAF];
      m[part] == mem[part].(refcount := mem[part].refcount + 1) &&
      WithCount(m, part, mem[part].refcount) == mem[a := c] + [LEAF]
    ensures var m := Acquired(mem, part) + [Gone];
      m[part] == mem[part].(refcount := mem[part].refcount + 1) &&
      WithCount(m, part, mem[part].refcount) == mem + [Gone]
  {
  }

  /** An element was taken from an older array, a copy of it added to the message, or
      not, and then it is given back. */
  lemma CopiedPart(was: Mem, start: Mem, k: nat, part: nat, fits: bool, mem: Mem, ext: Handles)
    requires Builds(was, start, k) && part < |was| && IsLive(start, part) && start[part].refcount > 0
    requires Inv(mem, ext + multiset{Some(part)})
    requires var a := |was| + 1;
      mem == if fits then
        Acquired(start, part)[a := Live(1, start[a].slots + [Some(|start|)])] + [LEAF]
      else Acquired(start, part) + [Gone]
    ensures Builds(was, Release(mem, [Some(part)]), if fits then k + 1 else k)
  {
    var a := |was| + 1;
    var c := Live(1, start[a].slots + [Some(|start|)]);
    TakenAndGiven(start, part, a, c);
    ReleaseLastExactly(mem, ext, part);
    if fits {
      BuildsMore(was, start, k, start[a := c] + [LEAF]);
    } else {
      BuildsGone(was, start, k);
    }
  }

  /** Giving a message back that nobody else knows leaves the heap as it was before. */
  lemma ReleaseBuilt(was: Mem, now: Mem, k: nat, tail: Mem)
    requires Builds(was, now, k)
    ensures Release(now + tail, [Some(|was|)]) == was + Gones(|now| - |was|) + tail
  {
    var m := |was|;
    var mem := now + tail;
    var ps := now[m + 1].slots;
    LiveCountUpdate(mem, m, Gone);
    var one := mem[m := Gone];
    assert [Some(m + 1)] + [Some(m)][1..] == [Some(m + 1)];
    LiveCountUpdate(one, m + 1, Gone);
    var two := one[m + 1 := Gone];
    assert ps + [Some(m + 1)][1..] == ps;
    assert Release(mem, [Some(m)]) == Release(two, ps);
    ReleaseLeaves(two, ps);
    AllGone(was, now, k, tail, Release(two, ps));
  }

  lemma AllGone(was: Mem, now: Mem, k: nat, tail: Mem, end: Mem)
    requires Builds(was, now, k) && |end| == |now + tail|
    requires var m := |was|;
      forall x :: 0 <= x < |end| ==>
        end[x] == if Some(x) in now[m + 1].slots then Gone else (now + tail)[m := Gone][m + 1 := Gone][x]
    ensures end == was + Gones(|now| - |was|) + tail
  {
    var all := was + Gones(|now| - |was|) + tail;
    forall x | 0 <= x < |end|
      ensures end[x] == all[x]
    {
      assert x < |was| ==> now[x] == now[..|was|][x];
    }
  }

  /** Releasing the slots of an object in turn. */
  lemma NextSlot(mem: Mem, ext: Handles, slots: seq<Pointer>, i: nat)
    requires i < |slots|
    ensures Release(mem, slots[..i + 1]) == Release(Release(mem, slots[..i]), [slots[i]])
    ensures LiveCount(Release(mem, slots[..i])) <= LiveCount(mem)
    ensures slots[i] in multiset(slots[i..])
    ensures ext + multiset(slots[i..]) - multiset{slots[i]} == ext + multiset(slots[i + 1..])
  {
    assert slots[i..] == [slots[i]] + slots[i + 1..];
    assert slots[..i + 1] == slots[..i] + [slots[i]];
    ReleaseKeeps(mem, slots[..i]);
    ReleaseAll(mem, slots[..i], [slots[i]]);
  }

  lemma SlotsSet(was: Mem, mem: Mem, a: nat, slots: seq<Pointer>, more: seq<Pointer>, e: nat)
    requires SlotsSetTo(was, mem, a, slots) && IsLive(mem, a) && IsLive(mem, e)
    ensures SlotsSetTo(was, Stored(mem, a, more, e), a, more)
  {
    var now := Stored(mem, a, more, e);
    forall o | 0 <= o < |now|
      ensures now[o].Live? == was[o].Live? && Slots(now, o) == if o == a then more else Slots(was, o)
    {
      assert now[o].Live? == mem[o].Live? && (o != a ==> Slots(now, o) == Slots(mem, o));
    }
  }

  lemma SlotsSetOnce(mem: Mem, a: nat, slots: seq<Pointer>)
    requires IsLive(mem, a)
    ensures SlotsSetTo(mem, WithSlots(mem, a, slots), a, slots)
  {
    var now := WithSlots(mem, a, slots);
    forall o | 0 <= o < |now|
      ensures now[o].Live? == mem[o].Live? && Slots(now, o) == if o == a then slots else Slots(mem, o)
    {
      assert o != a ==> now[o] == mem[o];
    }
  }

  // ----- no slot is NULL -----

  lemma SolidAppend(mem: Mem, c: Cell)
    requires Full(c)
    ensures Solid(mem) ==> Solid(mem + [c])
  {
    if Solid(mem) {
      forall o | 0 <= o < |mem| + 1
        ensures Full((mem + [c])[o])
      {
        assert o < |mem| ==> Full(mem[o]);
      }
    }
  }

  lemma SolidSlots(mem: Mem, a: nat, slots: seq<Pointer>)
    requires Solid(mem) && IsLive(mem, a) && NoNulls(slots)
    ensures Solid(WithSlots(mem, a, slots))
  {
    var now := WithSlots(mem, a, slots);
    forall o | 0 <= o < |now|
      ensures Full(now[o])
    {
      assert Full(mem[o]);
    }
  }

  lemma SolidAcquired(mem: Mem, o: nat)
    requires Solid(mem) && IsLive(mem, o)
    ensures Solid(Acquired(mem, o))
  {
    var now := Acquired(mem, o);
    forall x | 0 <= x < |now|
      ensures Full(now[x])
    {
      assert Full(mem[x]);
    }
  }

  /** The slots of what survives were there before. */
  lemma SolidRelease(mem: Mem, pending: seq<Pointer>)
    ensures Solid(mem) ==> Solid(Release(mem, pending))
  {
    ReleaseKeeps(mem, pending);
    var now := Release(mem, pending);
    if Solid(mem) {
      forall o | 0 <= o < |now|
        ensures Full(now[o])
      {
        assert Full(mem[o]);
      }
    }
  }

  /** All slots but those of a were there before. */
  lemma SolidStored(was: Mem, mem: Mem, a: nat, slots: seq<Pointer>, e: nat)
    requires Solid(was) && IsLive(mem, a) && IsLive(mem, e) && |mem| == |was|
    requires forall o :: 0 <= o < |mem| && o != a && mem[o].Live? ==> was[o].Live? && mem[o].slots == was[o].slots
    ensures NoNulls(slots) ==> Solid(Stored(mem, a, slots, e))
  {
    var now := Stored(mem, a, slots, e);
    if NoNulls(slots) {
      forall o | 0 <= o < |now|
        ensures Full(now[o])
      {
        assert Full(was[o]);
      }
    }
  }

  lemma SolidInserted(was: Mem, now: Mem, a: nat, pos: nat, es: seq<nat>)
    requires Solid(was) && IsLive(was, a) && pos <= |was[a].slots|
    requires SlotsSetTo(was, now, a, was[a].slots[..pos] + Pointers(es) + was[a].slots[pos..])
    ensures Solid(now)
  {
    var s := was[a].slots;
    assert Full(was[a]);
    assert NoNulls(s[..pos] + Pointers(es) + s[pos..]);
    forall o | 0 <= o < |now|
      ensures Full(now[o])
    {
      assert Full(was[o]) && now[o].Live? == was[o].Live?;
    }
  }

  class Store {
    var mem: Mem
    var ext: Handles

    ghost predicate Counted()
      reads this
    {
      Inv(mem, ext)
    }

    /** Between calls the counts are right and no slot is NULL. */
    ghost predicate Valid()
      reads this
    {
      Counted() && Solid(mem)
    }

    constructor ()
      ensures Valid() && mem == [] && ext == multiset{}
    {
      mem, ext := [], multiset{};
      new;
      assert forall o: nat :: OkAt(mem, ext, o);
    }

    /** object_new of an object without slots: an array or a part. */
    method New() returns (o: nat)
      requires Valid()
      modifies this
      ensures Valid() && o == |old(mem)|
      ensures mem == old(mem) + [LEAF] && ext == old(ext) + multiset{Some(o)}
    {
      NewInv(mem, ext);
      SolidAppend(mem, LEAF);
      o := |mem|;
      mem := mem + [LEAF];
      ext := ext + multiset{Some(o)};
    }

    /** object_ref */
    method Ref(o: nat)
      requires Valid() && IsLive(mem, o)
      modifies this
      ensures Valid()
      ensures mem == Acquired(old(mem), o) && ext == old(ext) + multiset{Some(o)}
    {
      AcquireInv(mem, ext, o);
      SolidAcquired(mem, o);
      mem := Acquired(mem, o);
      ext := ext + multiset{Some(o)};
    }

    /** see_object_decref */
    method Decref(p: Pointer)
      requires Counted() && (p.Some? ==> p in ext)
      modifies this
      ensures Counted() && (old(Solid(mem)) ==> Solid(mem))
      ensures mem == Release(old(mem), [p]) && ext == old(ext) - multiset{p}
      decreases LiveCount(mem), 1
    {
      if p == None {
        ext := ext - multiset{p};
        SameHandles(mem, old(ext), ext);
        return;
      }
      var o := p.value;
      ghost var was := mem;
      assert ext == ext - multiset{p} + multiset{p};
      ext := ext - multiset{p};
      DropInv(mem, ext, o);
      mem := WithCount(mem, o, mem[o].refcount - 1);
      assert [p][1..] == [];
      if mem[o].refcount == 0 {
        LiveCountUpdate(was, o, mem[o]);
        assert mem[o := Gone] == was[o := Gone];
        assert mem[o].slots + [p][1..] == mem[o].slots;
        Destroy(o);
      }
      assert mem == Release(was, [p]);
      SolidRelease(was, [p]);
    }

    /** dynamic_array_destroy and msg_buffer_destroy: every slot gives back its reference.
        The block of the object itself is freed after the loop; nobody looks at it. */
    method Destroy(o: nat)
      requires IsLive(mem, o) && Inv(mem[o := Gone], ext + multiset(mem[o].slots))
      modifies this
      ensures Counted()
      ensures mem == Release(old(mem)[o := Gone], old(mem)[o].slots) && ext == old(ext)
      decreases LiveCount(mem), 0
    {
      var slots := mem[o].slots;
      LiveCountUpdate(mem, o, Gone);
      mem := mem[o := Gone];
      ghost var start := mem;
      ext := ext + multiset(slots);
      assert slots[0..] == slots && slots[..0] == [];
      for i := 0 to |slots|
        invariant Counted() && ext == old(ext) + multiset(slots[i..])
        invariant mem == Release(start, slots[..i])
      {
        NextSlot(start, old(ext), slots, i);
        Decref(slots[i]);
      }
      assert slots[|slots|..] == [] && slots[..|slots|] == slots;
    }

    // ----- arrays of references -----

    /** see_copy_by_ref into an empty slot */
    method CopyByRef(a: nat, at: nat, e: nat)
      requires Counted() && IsLive(mem, a) && IsLive(mem, e)
      requires at < |mem[a].slots| && mem[a].slots[at] == None
      modifies this`mem
      ensures Counted()
      ensures mem == Stored(old(mem), a, old(mem)[a].slots[at := Some(e)], e)
    {
      var slots := mem[a].slots[at := Some(e)];
      StoredInv(mem, ext, a, slots, e);
      mem := WithSlots(mem, a, slots);
      mem := Acquired(mem, e);
    }

    /** array_add; `fits` says whether the array can grow when it has to. */
    method Add(a: nat, e: nat, fits: bool) returns (ret: Ret)
      requires Valid() && IsLive(mem, a) && IsLive(mem, e)
      modifies this`mem
      ensures Valid() && ret == if fits then SUCCESS else ERROR_RUNTIME
      ensures mem == if fits then Stored(old(mem), a, old(mem)[a].slots + [Some(e)], e) else old(mem)
      ensures Slots(mem, a) == old(mem)[a].slots + if fits then [Some(e)] else []
    {
      if !fits {
        return ERROR_RUNTIME;
      }
      var slots := mem[a].slots + [Some(e)];
      assert Full(mem[a]);
      StoredInv(mem, ext, a, slots, e);
      SolidStored(mem, mem, a, slots, e);
      mem := WithSlots(mem, a, slots);
      mem := Acquired(mem, e);
      ret := SUCCESS;
    }

    /** array_insert */
    method Insert(a: nat, pos: nat, es: seq<nat>, fits: bool) returns (ret: Ret)
      requires Valid() && IsLive(mem, a) && forall i :: 0 <= i < |es| ==> IsLive(mem, es[i])
      modifies this`mem
      ensures Valid()
      ensures ret == if pos > |old(mem)[a].slots| then ERROR_INDEX else if fits then SUCCESS else ERROR_RUNTIME
      ensures ret != SUCCESS ==> mem == old(mem)
      ensures ret == SUCCESS ==>
        var s := old(mem)[a].slots;
        && SlotsSetTo(old(mem), mem, a, s[..pos] + Pointers(es) + s[pos..])
        && Slots(mem, a) == s[..pos] + Pointers(es) + s[pos..]
    {
      var s := mem[a].slots;
      if pos > |s| {
        return ERROR_INDEX;
      }
      if !fits {
        return ERROR_RUNTIME;
      }
      OpenGap(a, pos, |es|);
      SlotsSetOnce(old(mem), a, s[..pos] + Nulls(|es|) + s[pos..]);
      FilledEnds(s, pos, es);
      for i := 0 to |es|
        invariant Counted() && SlotsSetTo(old(mem), mem, a, Filled(s, pos, es, i))
      {
        assert mem[a].Live? && mem[es[i]].Live?;
        FilledNext(s, pos, es, i);
        SlotsSet(old(mem), mem, a, Filled(s, pos, es, i), Filled(s, pos, es, i + 1), es[i]);
        CopyByRef(a, pos + i, es[i]);
      }
      SolidInserted(old(mem), mem, a, pos, es);
      ret := SUCCESS;
    }

    /** An array while its gap is being filled. */
    static function Filled(s: seq<Pointer>, pos: nat, es: seq<nat>, i: nat): (f: seq<Pointer>)
      requires pos <= |s| && i <= |es|
      ensures |f| == |s| + |es|
    {
      s[..pos] + Pointers(es)[..i] + Nulls(|es| - i) + s[pos..]
    }

    static lemma FilledNext(s: seq<Pointer>, pos: nat, es: seq<nat>, i: nat)
      requires pos <= |s| && i < |es|
      ensures Filled(s, pos, es, i)[pos + i] == None
      ensures Filled(s, pos, es, i)[pos + i := Some(es[i])] == Filled(s, pos, es, i + 1)
    {
    }

    static lemma FilledEnds(s: seq<Pointer>, pos: nat, es: seq<nat>)
      requires pos <= |s|
      ensures Filled(s, pos, es, 0) == s[..pos] + Nulls(|es|) + s[pos..]
      ensures Filled(s, pos, es, |es|) == s[..pos] + Pointers(es) + s[pos..]
    {
    }

    method OpenGap(a: nat, pos: nat, n: nat)
      requires Counted() && IsLive(mem, a) && pos <= |mem[a].slots|
      modifies this`mem
      ensures Counted()
      ensures var s := old(mem)[a].slots; mem == WithSlots(old(mem), a, s[..pos] + Nulls(n) + s[pos..])
    {
      var s := mem[a].slots;
      var gap := s[..pos] + Nulls(n) + s[pos..];
      assert s == s[..pos] + s[pos..];
      MoveInv(mem, ext, a, gap, ext);
      mem := WithSlots(mem, a, gap);
    }

    /** What array_set makes of the heap before it looks at the new element. */
    static function Vacated(mem: Mem, a: nat, pos: nat): Mem
      requires IsLive(mem, a) && pos < |mem[a].slots|
    {
      Release(Without(mem, a, pos), [mem[a].slots[pos]])
    }

    /** An element may be put in the place it has already exactly if something else holds it. */
    static lemma ReplaceWithItselfExactly(mem: Mem, ext: Handles, a: nat, pos: nat, e: nat)
      requires Inv(mem, ext) && IsLive(mem, a) && pos < |mem[a].slots| && mem[a].slots[pos] == Some(e)
      ensures IsLive(Vacated(mem, a, pos), e) <==> Count(mem, e) > 1
    {
      WithoutInv(mem, ext, a, pos);
      assert multiset([Some(e)]) == multiset{Some(e)};
      ReleaseLastExactly(Without(mem, a, pos), ext, e);
    }

    /** The heap before array_set, without the reference that it gives back. */
    static function Without(mem: Mem, a: nat, pos: nat): Mem
      requires IsLive(mem, a) && pos < |mem[a].slots|
    {
      WithSlots(mem, a, mem[a].slots[pos := None])
    }

    static lemma WithoutInv(mem: Mem, ext: Handles, a: nat, pos: nat)
      requires Inv(mem, ext) && IsLive(mem, a) && pos < |mem[a].slots|
      ensures Inv(Without(mem, a, pos), ext + multiset([mem[a].slots[pos]]))
    {
      var s := mem[a].slots;
      MoveInv(mem, ext, a, s[pos := None], ext + multiset([s[pos]]));
    }

    /** The new element is still there after the old one was given back exactly if it is
        kept without that reference: by the handles of the program, or by objects that are
        kept themselves. */
    static lemma SetIsSafeExactly(mem: Mem, ext: Handles, a: nat, pos: nat, e: nat)
      requires Inv(mem, ext) && IsLive(mem, a) && pos < |mem[a].slots|
      ensures IsLive(Vacated(mem, a, pos), e) <==> Kept(Without(mem, a, pos), ext, e)
    {
      WithoutInv(mem, ext, a, pos);
      SurvivesExactly(Without(mem, a, pos), [mem[a].slots[pos]], ext, e);
    }

    /** Without circles: exactly if there is a way to it from a handle that does not go
        through the slot. */
    static lemma SetIsSafeOnPathExactly(mem: Mem, ext: Handles, a: nat, pos: nat, e: nat, depth: nat -> nat)
      requires Inv(mem, ext) && IsLive(mem, a) && pos < |mem[a].slots| && Acyclic(mem, depth)
      ensures IsLive(Vacated(mem, a, pos), e) <==>
        exists p :: IsPath(Without(mem, a, pos), ext, p) && p[|p| - 1] == e
    {
      var h, s := Without(mem, a, pos), mem[a].slots;
      WithoutInv(mem, ext, a, pos);
      forall x: nat, y: nat | Holds(h, x, y)
        ensures depth(x) < depth(y)
      {
        var without: seq<Pointer> := s[pos := None];
        assert x == a ==> forall i :: 0 <= i < |s| && without[i].Some? ==> without[i] == s[i];
        assert Holds(mem, x, y);
      }
      SurvivesOnPathExactly(h, [s[pos]], ext, e, depth);
    }

    /** An array that holds an object that holds another one, which is then set in its
        place: the release of the first destroys the second. */
    static lemma SetFreesWhatTheOldHeld()
      ensures var mem := [Live(1, [Some(1)]), Live(1, [Some(2)]), LEAF];
        Inv(mem, multiset{Some(0)}) && !IsLive(Vacated(mem, 0, 0), 2)
    {
      var none: Mem, h: Handles := [], multiset{};
      var one, two := none + [LEAF], none + [LEAF] + [LEAF];
      assert forall o: nat :: OkAt(none, h, o);
      NewInv(none, h);
      NewInv(one, h + multiset{Some(0)});
      NewInv(two, h + multiset{Some(0)} + multiset{Some(1)});
      var three := two + [LEAF];
      MoveInv(three, h + multiset{Some(0)} + multiset{Some(1)} + multiset{Some(2)}, 1, [Some(2)],
              h + multiset{Some(0)} + multiset{Some(1)});
      var four := WithSlots(three, 1, [Some(2)]);
      MoveInv(four, h + multiset{Some(0)} + multiset{Some(1)}, 0, [Some(1)], h + multiset{Some(0)});
      var mem := WithSlots(four, 0, [Some(1)]);
      assert mem == [Live(1, [Some(1)]), Live(1, [Some(2)]), LEAF];
      assert h + multiset{Some(0)} == multiset{Some(0)};
      SetIsSafeExactly(mem, multiset{Some(0)}, 0, 0, 2);
      var v := Without(mem, 0, 0);
      forall s: set<nat> | Supported(v, multiset{Some(0)}, s)
        ensures 2 !in s
      {
        assert forall x {:trigger x in s} :: x in s ==> Supports(v, multiset{Some(0)}, s, x);
      }
    }

    /** array_set gives back the old element first. If that destroys the new one, it is
        used after it was freed. */
    method Set(a: nat, pos: nat, e: nat) returns (ret: Ret)
      requires Valid() && Some(a) in ext && IsLive(mem, a) && IsLive(mem, e)
      modifies this
      ensures Counted() && ext == old(ext) && (ret != UNDEFINED ==> Valid())
      ensures pos >= |old(mem)[a].slots| ==> ret == ERROR_INDEX && mem == old(mem)
      ensures pos < |old(mem)[a].slots| ==>
        && (ret == SUCCESS || ret == UNDEFINED)
        && (ret == SUCCESS <==> Kept(Without(old(mem), a, pos), ext, e))
        && (ret == SUCCESS ==>
              && IsLive(Vacated(old(mem), a, pos), a) && IsLive(Vacated(old(mem), a, pos), e)
              && mem == Stored(Vacated(old(mem), a, pos), a, old(mem)[a].slots[pos := Some(e)], e))
        && (ret == SUCCESS ==> Slots(mem, a) == old(mem)[a].slots[pos := Some(e)])
        && (Some(e) in ext ==> ret == SUCCESS)
    {
      if pos >= |mem[a].slots| {
        return ERROR_INDEX;
      }
      SetIsSafeExactly(mem, ext, a, pos, e);
      Vacate(a, pos);
      assert OkAt(mem, ext, e);
      if !IsLive(mem, e) {
        return UNDEFINED;
      }
      SolidSet(old(mem), a, pos, e);
      CopyByRef(a, pos, e);
      ret := SUCCESS;
    }

    static lemma SolidSet(mem: Mem, a: nat, pos: nat, e: nat)
      requires Solid(mem) && IsLive(mem, a) && pos < |mem[a].slots|
      requires IsLive(Vacated(mem, a, pos), a) && IsLive(Vacated(mem, a, pos), e)
      ensures Vacated(mem, a, pos)[a].slots == mem[a].slots[pos := None]
      ensures mem[a].slots[pos := None][pos := Some(e)] == mem[a].slots[pos := Some(e)]
      ensures Solid(Stored(Vacated(mem, a, pos), a, mem[a].slots[pos := Some(e)], e))
    {
      ReleaseKeeps(Without(mem, a, pos), [mem[a].slots[pos]]);
      assert Full(mem[a]);
      SolidStored(mem, Vacated(mem, a, pos), a, mem[a].slots[pos := Some(e)], e);
    }

    /** The old element is given back. */
    method Vacate(a: nat, pos: nat)
      requires Counted() && Some(a) in ext && IsLive(mem, a) && pos < |mem[a].slots|
      modifies this
      ensures Counted() && ext == old(ext)
      ensures mem == Vacated(old(mem), a, pos) && IsLive(mem, a)
    {
      var p := mem[a].slots[pos];
      WithoutInv(mem, ext, a, pos);
      assert multiset([p]) == multiset{p};
      mem := WithSlots(mem, a, mem[a].slots[pos := None]);
      ext := ext + multiset{p};
      Decref(p);
      assert ext == old(ext);
      assert OkAt(mem, ext, a);
    }

    /** array_get */
    method Get(a: nat, pos: nat) returns (ret: Ret, out: Pointer)
      requires Valid() && IsLive(mem, a)
      modifies this
      ensures Valid()
      ensures pos >= |old(mem)[a].slots| ==>
        ret == ERROR_INDEX && out == None && mem == old(mem) && ext == old(ext)
      ensures pos < |old(mem)[a].slots| ==>
        && ret == SUCCESS && out == old(mem)[a].slots[pos] && out.Some? && IsLive(old(mem), out.value)
        && mem == Acquired(old(mem), out.value) && ext == old(ext) + multiset{out}
    {
      if pos >= |mem[a].slots| {
        return ERROR_INDEX, None;
      }
      assert Full(mem[a]);
      SlotIsLive(mem, ext, a, pos);
      out := mem[a].slots[pos];
      Ref(out.value);
      ret := SUCCESS;
    }

    static lemma SlotIsLive(mem: Mem, ext: Handles, a: nat, pos: nat)
      requires Inv(mem, ext) && IsLive(mem, a) && pos < |mem[a].slots| && mem[a].slots[pos].Some?
      ensures IsLive(mem, mem[a].slots[pos].value)
    {
      var o := mem[a].slots[pos].value;
      assert OkAt(mem, ext, o);
      assert mem[a].slots[pos] in mem[a].slots;
      HeldByAtLeast(mem, a, o);
    }

    /** see_dynamic_array_copy; `dest` is what *array_out held. */
    method Copy(a: nat, dest: Pointer) returns (out: nat, ghost copied: Mem)
      requires Valid() && IsLive(mem, a) && (dest.Some? ==> dest in ext)
      modifies this
      ensures Valid() && ext == old(ext) + multiset{Some(out)} - multiset{dest}
      ensures out == |old(mem)| && SlotsSetTo(old(mem) + [LEAF], copied, out, old(mem)[a].slots)
      ensures Inv(copied, old(ext) + multiset{Some(out)}) && mem == Release(copied, [dest])
      ensures Slots(copied, out) == old(mem)[a].slots
    {
      var s := mem[a].slots;
      assert Full(mem[a]);
      out := New();
      assert s[..0] == [] && Slots(mem, out) == [];
      for i := 0 to |s|
        invariant Valid() && ext == old(ext) + multiset{Some(out)}
        invariant SlotsSetTo(old(mem) + [LEAF], mem, out, s[..i])
      {
        assert mem[a].Live? && Slots(mem, a) == s && mem[out].Live?;
        SlotIsLive(mem, ext, a, i);
        assert s[..i + 1] == s[..i] + [s[i]];
        SlotsSet(old(mem) + [LEAF], mem, out, s[..i], s[..i + 1], s[i].value);
        var _ := Add(out, s[i].value, true);
      }
      assert s[..|s|] == s;
      copied := mem;
      Decref(dest);
    }

    // ----- messages -----

    /** see_msg_buffer_new */
    method NewMsg() returns (m: nat)
      requires Valid()
      modifies this
      ensures Valid() && m == |old(mem)| && ext == old(ext) + multiset{Some(m)}
      ensures Builds(old(mem), mem, 0)
    {
      m := New();
      var parts := New();
      assert mem[m].slots == [];
      MoveInv(mem, ext, m, [Some(parts)], ext - multiset{Some(parts)});
      SolidSlots(mem, m, [Some(parts)]);
      mem := WithSlots(mem, m, [Some(parts)]);
      ext := ext - multiset{Some(parts)};
      assert mem[..m] == old(mem);
    }

    /** msg_buffer_add_part. The message gets a copy of the part, whose first reference is
        given back whether the array took one or not. That the part was never `written` is
        found after that: then the call fails and the message keeps the copy. */
    method AddPart(m: nat, part: nat, fits: bool, written: bool) returns (ret: Ret)
      requires Valid() && IsMsg(mem, m) && IsLive(mem, part)
      modifies this
      ensures Valid() && ext == old(ext) && ret == if fits && written then SUCCESS else ERROR_RUNTIME
      ensures var parts := Parts(old(mem), m);
        mem == if fits then
          WithSlots(old(mem), parts, old(mem)[parts].slots + [Some(|old(mem)|)]) + [LEAF]
        else
          old(mem) + [Gone]
    {
      var parts := Parts(mem, m);
      var copy := New();
      ret := Add(parts, copy, fits);
      ghost var was := mem;
      assert ext == old(ext) + multiset{Some(copy)};
      ReleaseLastExactly(mem, old(ext), copy);
      if !fits {
        ReleaseLeaves(mem, [Some(copy)]);
      }
      Decref(Some(copy));
      assert ext == old(ext);
      if !written {
        ret := ERROR_RUNTIME;
      }
    }

    /** msg_buffer_get_part hands out a copy. */
    method GetPart(m: nat, n: nat) returns (ret: Ret, out: Pointer)
      requires Valid() && IsMsg(mem, m)
      modifies this
      ensures Valid()
      ensures n >= |old(mem)[Parts(old(mem), m)].slots| ==>
        ret == ERROR_INDEX && out == None && mem == old(mem) && ext == old(ext)
      ensures n < |old(mem)[Parts(old(mem), m)].slots| ==>
        ret == SUCCESS && out == Some(|old(mem)|) && mem == old(mem) + [LEAF] && ext == old(ext) + multiset{out}
    {
      if n >= |mem[Parts(mem, m)].slots| {
        return ERROR_INDEX, None;
      }
      var copy := New();
      return SUCCESS, Some(copy);
    }

    /** The loop of msg_buffer_calc_length, of which only the references matter here; the
        length of a part that was never written is an error. The copy it failed on is not
        given back. */
    method MeasureParts(m: nat, written: seq<bool>) returns (ret: Ret)
      requires Valid() && IsMsg(mem, m) && |written| == |mem[Parts(mem, m)].slots|
      modifies this
      ensures Valid() && ret == if false in written then ERROR_RUNTIME else SUCCESS
      ensures Left(old(mem), mem, if false in written then [LEAF] else [])
      ensures ext == if false in written then old(ext) + multiset{Some(|mem| - 1)} else old(ext)
    {
      assert mem == mem + Gones(0) + [];
      for i := 0 to |written|
        invariant Valid() && ext == old(ext) && Left(old(mem), mem, [])
        invariant forall k :: 0 <= k < i ==> written[k]
      {
        LeftStays(old(mem), mem, m);
        ret := MeasurePart(m, i, written[i]);
        if ret != SUCCESS {
          return;
        }
      }
      ret := SUCCESS;
    }

    /** The body of its loop. */
    method MeasurePart(m: nat, i: nat, written: bool) returns (ret: Ret)
      requires Valid() && IsMsg(mem, m) && i < |mem[Parts(mem, m)].slots|
      modifies this
      ensures Valid() && ret == if written then SUCCESS else ERROR_RUNTIME
      ensures forall was :: Left(was, old(mem), []) ==> Left(was, mem, if written then [] else [LEAF])
      ensures ext == if written then old(ext) else old(ext) + multiset{Some(|mem| - 1)}
    {
      ghost var start := mem;
      var got, part := GetPart(m, i);
      LeftMore(start);
      if !written {
        return ERROR_RUNTIME;
      }
      ReleaseLeaves(mem, [part]);
      assert ext == old(ext) + multiset{part};
      Decref(part);
      assert ext == old(ext) && mem == start + [Gone];
      ret := SUCCESS;
    }

    /** msg_buffer_copy, of which the first `room` parts can be added, and the next one
        fails, its copy kept in the new message or not; `dest` is what *msg_out held. A copy
        that fails leaves nothing behind. */
    method CopyMsg(m: nat, dest: Pointer, room: nat, kept: bool) returns (ret: Ret, out: Pointer, ghost copied: Mem)
      requires Valid() && IsMsg(mem, m) && (dest.Some? ==> dest in ext)
      modifies this
      ensures Valid()
      ensures var k := |old(mem)[Parts(old(mem), m)].slots|;
        if k <= room then
          && ret == SUCCESS && out == Some(|old(mem)|)
          && Builds(old(mem), copied, k) && mem == Release(copied, [dest])
          && ext == old(ext) + multiset{out} - multiset{dest}
        else
          && ret == ERROR_RUNTIME && out == None && ext == old(ext)
          && Left(old(mem), mem, [])
    {
      var parts := Parts(mem, m);
      var s := mem[parts].slots;
      var o := NewMsg();
      copied := mem;
      for i := 0 to |s|
        invariant Valid() && ext == old(ext) + multiset{Some(o)}
        invariant Builds(old(mem), mem, i) && i <= room
      {
        assert mem[parts] == mem[..o][parts];
        assert Full(old(mem)[parts]);
        SlotIsLive(old(mem), old(ext), parts, i);
        ret := CopyPart(old(mem), parts, i, o, i < room || kept, i < room);
        if ret != SUCCESS {
          ghost var k := if kept then i + 1 else i;
          ReadingAfter(old(mem), mem, k, []);
          assert mem + [] == mem;
          Abandon(old(mem), o, k, []);
          assert ext == old(ext);
          return ERROR_RUNTIME, None, copied;
        }
      }
      copied := mem;
      Decref(dest);
      return SUCCESS, Some(o), copied;
    }

    /** The body of its loop: element i of the array `parts` goes to the new message o. */
    method CopyPart(ghost was: Mem, parts: nat, i: nat, o: nat, fits: bool, written: bool) returns (ret: Ret)
      requires Valid() && o == |was| && parts < o && IsLive(mem, parts)
      requires i < |mem[parts].slots| && mem[parts].slots[i].Some?
      requires mem[parts].slots[i].value < o
      requires Builds(was, mem, i)
      modifies this
      ensures Valid() && ext == old(ext) && ret == if fits && written then SUCCESS else ERROR_RUNTIME
      ensures Builds(was, mem, if fits then i + 1 else i)
    {
      ghost var start := mem;
      var got, p := Get(parts, i);
      ghost var part := p.value;
      assert OkAt(start, old(ext), part);
      AboveIsTheMessage(was, start, i, part);
      ret := AddPart(o, p.value, fits, written);
      assert ext == ext - multiset{p} + multiset{p};
      CopiedPart(was, start, i, part, fits, mem, ext - multiset{p});
      Decref(p);
      assert ext == old(ext);
    }

    /** msg_buffer_from_buffer. A failed read leaves nothing behind. A part that was read
        but could not be added is not given back: its reference stays with nobody. */
    method Parse(steps: seq<Read>) returns (ret: Ret, out: Pointer)
      requires Valid()
      modifies this
      ensures Valid()
      ensures ret == Outcome(steps) && out == (if ret == SUCCESS then Some(|old(mem)|) else None)
      ensures Parsed(old(mem), old(ext), steps, mem, ext)
    {
      var m := NewMsg();
      ret := ReadParts(old(mem), m, steps);
      if ret == SUCCESS {
        WholeParsed(old(mem), old(ext), steps, mem, ext);
        out := Some(m);
      } else {
        assert ext - multiset{Some(m)} == old(ext) + Leaked(mem, steps);
        Abandon(old(mem), m, FirstFailure(steps), Tail(steps));
        out := None;
      }
    }

    /** Its loop. */
    method ReadParts(ghost was: Mem, m: nat, steps: seq<Read>) returns (ret: Ret)
      requires Valid() && m == |was| && Builds(was, mem, 0)
      modifies this
      ensures Valid() && ret == Outcome(steps)
      ensures Reading(was, mem, FirstFailure(steps), Tail(steps))
      ensures ext == old(ext) + Leaked(mem, steps)
    {
      ret := SUCCESS;
      for i := 0 to |steps|
        invariant Valid() && ext == old(ext) && ret == SUCCESS
        invariant Builds(was, mem, i) && FirstFailure(steps) >= i
      {
        FailsAt(steps, i);
        ghost var built := mem;
        ret := ReadAndAdd(was, m, i, steps[i]);
        if ret != SUCCESS {
          assert mem == built + Tail(steps);
          ReadingAfter(was, built, i, Tail(steps));
          return;
        }
      }
      ReadingAfter(was, mem, |steps|, []);
      assert mem + [] == mem;
    }

    /** From the label `fail` on. */
    method Abandon(ghost was: Mem, m: nat, ghost k: nat, ghost tail: Mem)
      requires Valid() && m == |was| && Some(m) in ext && Reading(was, mem, k, tail)
      modifies this
      ensures Valid() && ext == old(ext) - multiset{Some(m)} && |mem| == |old(mem)|
      ensures Left(was, mem, tail)
    {
      ghost var built := mem[..|mem| - |tail|];
      assert mem == built + tail;
      ReleaseBuilt(was, built, k, tail);
      Decref(Some(m));
    }

    /** The body of its loop, up to the label `fail`. */
    method ReadAndAdd(ghost was: Mem, m: nat, i: nat, step: Read) returns (ret: Ret)
      requires Valid() && m == |was| && Builds(was, mem, i)
      modifies this
      ensures Valid()
      ensures ret ==
        match step { case Added => SUCCESS case ReadFails => ERROR_MSG_INVALID case AddFails => ERROR_RUNTIME }
      ensures step == Added ==> Builds(was, mem, i + 1) && ext == old(ext)
      ensures step == ReadFails ==> mem == old(mem) && ext == old(ext)
      ensures step == AddFails ==> mem == old(mem) + [LEAF, Gone] && ext == old(ext) + multiset{Some(|old(mem)|)}
    {
      if step == ReadFails {
        return ERROR_MSG_INVALID;
      }
      ghost var built := mem;
      var part := New();
      ret := AddPart(m, part, step == Added, true);
      if ret != SUCCESS {
        return;
      }
      AddedCopy(was, built, i, part, mem);
      Decref(Some(part));
      assert ext == old(ext);
    }

    // ----- programs -----

    method Step(op: Op)
      requires Valid() && Allowed(mem, ext, op)
      modifies this
      ensures Valid() && Effect(old(mem), old(ext), op, mem, ext)
    {
      match op {
        case NewObject => var _ := New();
        case NewMessage => var _ := NewMsg();
        case Ref(o) => Ref(o);
        case Unref(o) => Decref(Some(o));
        case Add(a, e, fits) => var _ := Add(a, e, fits);
        case Insert(a, pos, es, fits) => var _ := Insert(a, pos, es, fits);
        case Set(a, pos, e) => var _ := Set(a, pos, e);
        case Get(a, pos) => var _, _ := Get(a, pos);
        case CopyArray(a, dest) => var _, copied := Copy(a, dest);
        case AddPart(m, part, fits, written) => var _ := AddPart(m, part, fits, written);
        case GetPart(m, n) => var _, _ := GetPart(m, n);
        case CopyMessage(m, dest, room, kept) => var _, _, copied := CopyMsg(m, dest, room, kept);
        case Parse(steps) => var _, _ := Parse(steps);
      }
    }

    /** Over any program, calls that are not allowed left out: each call has its effect,
        and the counts are right after each. When the program ends without handles and
        without circles, nothing is left. */
    method Run(ops: seq<Op>) returns (ghost trace: seq<(Mem, Handles)>)
      requires Valid()
      modifies this
      ensures Valid()
      ensures |trace| == |ops| + 1 && trace[0] == old((mem, ext)) && trace[|ops|] == (mem, ext)
      ensures forall i :: 0 <= i <= |ops| ==> Inv(trace[i].0, trace[i].1)
      ensures forall i :: 0 <= i < |ops| ==> Follows(trace[i], ops[i], trace[i + 1])
      ensures forall depth: nat -> nat ::
        Acyclic(mem, depth) && (forall p: Pointer :: p.Some? ==> p !in ext) ==> forall o: nat :: !IsLive(mem, o)
    {
      trace := [(mem, ext)];
      for i := 0 to |ops|
        invariant Valid() && |trace| == i + 1 && trace[0] == old((mem, ext)) && trace[i] == (mem, ext)
        invariant forall k :: 0 <= k <= i ==> Inv(trace[k].0, trace[k].1)
        invariant forall k :: 0 <= k < i ==> Follows(trace[k], ops[k], trace[k + 1])
      {
        if Allowed(mem, ext, ops[i]) {
          Step(ops[i]);
        }
        trace := trace + [(mem, ext)];
      }
      forall depth: nat -> nat | Acyclic(mem, depth) && (forall p: Pointer :: p.Some? ==> p !in ext)
        ensures forall o: nat :: !IsLive(mem, o)
      {
        NoHandlesNothingLives(mem, ext, depth);
      }
    }
  }

  predicate Has(mem: Mem, ext: Handles, o: nat) {
    IsLive(mem, o) && Some(o) in ext
  }

  /** The program makes this call with objects it has a handle to, as the functions of
      the library demand. */
  predicate Allowed(mem: Mem, ext: Handles, op: Op) {
    match op
    case NewObject => true
    case NewMessage => true
    case Ref(o) => Has(mem, ext, o)
    case Unref(o) => Has(mem, ext, o)
    case Add(a, e, _) => Has(mem, ext, a) && Has(mem, ext, e)
    case Insert(a, _, es, _) => Has(mem, ext, a) && forall i :: 0 <= i < |es| ==> Has(mem, ext, es[i])
    case Set(a, _, e) => Has(mem, ext, a) && Has(mem, ext, e)
    case Get(a, _) => Has(mem, ext, a)
    case CopyArray(a, dest) => Has(mem, ext, a) && (dest.Some? ==> dest in ext)
    case AddPart(m, part, _, _) => Has(mem, ext, m) && IsMsg(mem, m) && Has(mem, ext, part)
    case GetPart(m, _) => Has(mem, ext, m) && IsMsg(mem, m)
    case CopyMessage(m, dest, _, _) => Has(mem, ext, m) && IsMsg(mem, m) && (dest.Some? ==> dest in ext)
    case Parse(_) => true
  }

  /** What an allowed call makes of the heap and the handles. */
  ghost predicate Effect(mem: Mem, ext: Handles, op: Op, now: Mem, held: Handles)
    requires Allowed(mem, ext, op)
  {
    var n := |mem|;
    match op
    case NewObject => now == mem + [LEAF] && held == ext + multiset{Some(n)}
    case NewMessage => Builds(mem, now, 0) && held == ext + multiset{Some(n)}
    case Ref(o) => now == Acquired(mem, o) && held == ext + multiset{Some(o)}
    case Unref(o) => now == Release(mem, [Some(o)]) && held == ext - multiset{Some(o)}
    case Add(a, e, fits) =>
      held == ext && now == if fits then Stored(mem, a, mem[a].slots + [Some(e)], e) else mem
    case Insert(a, pos, es, fits) =>
      var s := mem[a].slots;
      held == ext &&
      if pos <= |s| && fits then SlotsSetTo(mem, now, a, s[..pos] + Pointers(es) + s[pos..]) else now == mem
    case Set(a, pos, e) =>
      var s := mem[a].slots;
      held == ext &&
      if pos < |s| then
        var vacated := Store.Vacated(mem, a, pos);
        IsLive(vacated, a) && IsLive(vacated, e) && now == Stored(vacated, a, s[pos := Some(e)], e)
      else now == mem
    case Get(a, pos) =>
      if pos < |mem[a].slots| then
        var p := mem[a].slots[pos];
        p.Some? && IsLive(mem, p.value) && now == Acquired(mem, p.value) && held == ext + multiset{p}
      else now == mem && held == ext
    case CopyArray(a, dest) => CopiesArray(mem, ext, a, dest, now, held)
    case AddPart(m, _, fits, _) =>
      var parts := Parts(mem, m);
      held == ext &&
      now == if fits then WithSlots(mem, parts, mem[parts].slots + [Some(n)]) + [LEAF] else mem + [Gone]
    case GetPart(m, i) =>
      if i < |mem[Parts(mem, m)].slots| then now == mem + [LEAF] && held == ext + multiset{Some(n)}
      else now == mem && held == ext
    case CopyMessage(m, dest, room, _) => CopiesMessage(mem, ext, m, dest, room, now, held)
    case Parse(steps) => Parsed(mem, ext, steps, now, held)
  }

  ghost predicate CopiesArray(mem: Mem, ext: Handles, a: nat, dest: Pointer, now: Mem, held: Handles)
    requires IsLive(mem, a)
  {
    var n := |mem|;
    && held == ext + multiset{Some(n)} - multiset{dest}
    && exists copied ::
         SlotsSetTo(mem + [LEAF], copied, n, mem[a].slots) && Inv(copied, ext + multiset{Some(n)}) &&
         now == Release(copied, [dest])
  }

  ghost predicate CopiesMessage(mem: Mem, ext: Handles, m: nat, dest: Pointer, room: nat, now: Mem, held: Handles)
    requires IsMsg(mem, m)
  {
    var k := |mem[Parts(mem, m)].slots|;
    if k <= room then
      held == ext + multiset{Some(|mem|)} - multiset{dest} &&
      exists copied :: Builds(mem, copied, k) && now == Release(copied, [dest])
    else held == ext && Left(mem, now, [])
  }

  ghost predicate Follows(before: (Mem, Handles), op: Op, after: (Mem, Handles)) {
    if Allowed(before.0, before.1, op) then Effect(before.0, before.1, op, after.0, after.1)
    else after == before
  }

  datatype Op =
    | NewObject
    | NewMessage
    | Ref(o: nat)
    | Unref(o: nat)
    | Add(a: nat, e: nat, fits: bool)
    | Insert(a: nat, pos: nat, es: seq<nat>, fits: bool)
    | Set(a: nat, pos: nat, e: nat)
    | Get(a: nat, pos: nat)
    | CopyArray(a: nat, dest: Pointer)
    | AddPart(m: nat, part: nat, fits: bool, written: bool)
    | GetPart(m: nat, n: nat)
    | CopyMessage(m: nat, dest: Pointer, room: nat, kept: bool)
    | Parse(steps: seq<Read>)

  /** When a part has been added as a copy, its own release leaves one more part. */
  lemma AddedCopy(was: Mem, built: Mem, k: nat, part: nat, mem: Mem)
    requires Builds(was, built, k) && part == |built|
    requires var m := |was|;
      mem == (built + [LEAF])[m + 1 := Live(1, built[m + 1].slots + [Some(part + 1)])] + [LEAF]
    ensures Builds(was, Release(mem, [Some(part)]), k + 1)
  {
    var m := |was|;
    ReleaseLeaves(mem, [Some(part)]);
    BuildsGone(was, built, k);
    var now := (built + [Gone])[m + 1 := Live(1, built[m + 1].slots + [Some(part + 1)])] + [LEAF];
    BuildsMore(was, built + [Gone], k, now);
    assert Release(mem, [Some(part)]) == now;
  }

  /** How reading a part from a buffer and adding it to the message can go. */
  datatype Read = Added | ReadFails | AddFails

  function FirstFailure(steps: seq<Read>): (k: nat)
    ensures k <= |steps| && (k < |steps| ==> steps[k] != Added)
    ensures forall i :: 0 <= i < k ==> steps[i] == Added
  {
    if steps == [] || steps[0] != Added then 0 else 1 + FirstFailure(steps[1..])
  }

  function Outcome(steps: seq<Read>): Ret {
    var k := FirstFailure(steps);
    if k == |steps| then SUCCESS else if steps[k] == ReadFails then ERROR_MSG_INVALID else ERROR_RUNTIME
  }

  /** What a failed step leaves above the message: the part that was read, and the copy of
      it that the array did not take. */
  function Tail(steps: seq<Read>): Mem {
    if Outcome(steps) == ERROR_RUNTIME then [LEAF, Gone] else []
  }

  /** The reference to the part that was read stays with nobody. */
  function Leaked(mem: Mem, steps: seq<Read>): Handles {
    if Outcome(steps) == ERROR_RUNTIME && |mem| >= 2 then multiset{Some(|mem| - 2)} else multiset{}
  }

  ghost predicate Reading(was: Mem, now: Mem, k: nat, tail: Mem) {
    && |tail| <= |now| && now[|now| - |tail|..] == tail
    && Builds(was, now[..|now| - |tail|], k)
  }

  /** What from_buffer makes of the heap and the handles. */
  ghost predicate Parsed(was: Mem, ext: Handles, steps: seq<Read>, now: Mem, held: Handles) {
    if FirstFailure(steps) == |steps| then Builds(was, now, |steps|) && held == ext + multiset{Some(|was|)}
    else Left(was, now, Tail(steps)) && held == ext + Leaked(now, steps)
  }

  lemma WholeParsed(was: Mem, ext: Handles, steps: seq<Read>, now: Mem, held: Handles)
    requires Outcome(steps) == SUCCESS && Reading(was, now, FirstFailure(steps), Tail(steps))
    requires held == ext + multiset{Some(|was|)} + Leaked(now, steps)
    ensures Parsed(was, ext, steps, now, held)
  {
    assert now[..|now| - 0] == now;
  }

  lemma ReadingAfter(was: Mem, built: Mem, k: nat, tail: Mem)
    requires Builds(was, built, k)
    ensures Reading(was, built + tail, k, tail)
  {
    assert (built + tail)[..|built|] == built;
  }

  /** Of everything made above the heap `was` only `tail` is left. */
  ghost predicate Left(was: Mem, now: Mem, tail: Mem) {
    |now| >= |was| + |tail| && now == was + Gones(|now| - |was| - |tail|) + tail
  }

  lemma LeftMore(now: Mem)
    ensures forall was :: Left(was, now, []) ==> Left(was, now + [Gone], []) && Left(was, now + [LEAF], [LEAF])
  {
    forall was | Left(was, now, [])
      ensures Left(was, now + [Gone], []) && Left(was, now + [LEAF], [LEAF])
    {
      var n := |now| - |was|;
      assert Gones(n + 1) == Gones(n) + [Gone];
      assert now + [Gone] == was + Gones(n + 1) + [];
      assert now + [LEAF] == was + Gones(n) + [LEAF];
    }
  }

  lemma LeftStays(was: Mem, now: Mem, m: nat)
    requires Left(was, now, []) && IsMsg(was, m)
    ensures IsMsg(now, m) && Parts(now, m) == Parts(was, m) && now[Parts(now, m)] == was[Parts(was, m)]
  {
  }

  lemma FailsAt(steps: seq<Read>, i: nat)
    requires i < |steps| && FirstFailure(steps) >= i
    ensures if steps[i] == Added then FirstFailure(steps) >= i + 1 else FirstFailure(steps) == i
  {
  }
}
