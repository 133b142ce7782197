/** Class creation by copying down the parent's table (src/MetaClass.c) and the walk
    along the parents in see_object_is_instance_of (src/SeeObject.c). */
module ClassTables {
  import opened Base
  import OnceInit

  /** The words of a class struct that are fields of SeeClass here: the class and the
      reference count of the object that the class itself is, psuper and inst_size.
      The rest, its name and its function pointers, are its slots. */
  const HEADER: nat := 4

  /** What a slot holds before anything is put in it */
  const NULL_FN: nat := 0

  // slots of SeeObjectClass that see_meta_class_init overrides
  const NAME: nat := 0
  const NEW_OBJ: nat := 1
  const INIT: nat := 3
  const OBJECT_SLOTS: nat := 16

  datatype Write = Write(slot: nat, fn: nat)

  /** A see_class_init_func: the slots it assigns, in order, and what it returns. */
  datatype InitFunc = InitFunc(writes: seq<Write>, ret: Ret)

  predicate Fits(writes: seq<Write>, n: nat) {
    forall i :: 0 <= i < |writes| ==> writes[i].slot < n
  }

  function Written(slots: seq<nat>, writes: seq<Write>): (t: seq<nat>)
    requires Fits(writes, |slots|)
    ensures |t| == |slots|
  {
    if writes == [] then slots
    else
      var last := writes[|writes| - 1];
      Written(slots, writes[..|writes| - 1])[last.slot := last.fn]
  }

  /** What a class overrides: for every slot assigned, the last function put there. */
  function Overrides(writes: seq<Write>): map<nat, nat> {
    if writes == [] then map[]
    else
      var last := writes[|writes| - 1];
      Overrides(writes[..|writes| - 1])[last.slot := last.fn]
  }

  lemma {:induction false} WrittenIsOverrides(slots: seq<nat>, writes: seq<Write>)
    requires Fits(writes, |slots|)
    ensures forall k :: k in Overrides(writes) ==> k < |slots|
    ensures forall k :: 0 <= k < |slots| ==>
      Written(slots, writes)[k] == if k in Overrides(writes) then Overrides(writes)[k] else slots[k]
  {
    if writes != [] {
      WrittenIsOverrides(slots, writes[..|writes| - 1]);
    }
  }

  /** The last assignment to a slot counts, and a slot that is not assigned stays. */
  lemma {:induction false} LastWriteCounts(slots: seq<nat>, writes: seq<Write>, k: nat, i: nat)
    requires Fits(writes, |slots|) && k < |slots| && i <= |writes|
    requires forall j :: i <= j < |writes| ==> writes[j].slot != k
    requires i > 0 ==> writes[i - 1].slot == k
    ensures Written(slots, writes)[k] == if i > 0 then writes[i - 1].fn else slots[k]
    ensures k in Overrides(writes) <==> i > 0
    ensures i > 0 ==> Overrides(writes)[k] == writes[i - 1].fn
  {
    if i < |writes| {
      LastWriteCounts(slots, writes[..|writes| - 1], k, i);
    }
  }

  lemma WrittenAppend(slots: seq<nat>, writes: seq<Write>, w: Write)
    requires Fits(writes, |slots|) && w.slot < |slots|
    ensures Fits(writes + [w], |slots|)
    ensures Written(slots, writes + [w]) == Written(slots, writes)[w.slot := w.fn]
  {
  }

  /** The slots as the table that OnceInit publishes. */
  function TableOf(slots: seq<nat>): OnceInit.Table {
    map k | 0 <= k < |slots| :: slots[k]
  }

  /** Copying the parent's slots and running the init function yields the table that
      OnceInit's steps build up: the parent's, with the overrides on top. */
  lemma WrittenIsRecipe(slots: seq<nat>, writes: seq<Write>)
    requires Fits(writes, |slots|)
    ensures TableOf(Written(slots, writes)) == OnceInit.Recipe(TableOf(slots), Overrides(writes)).Result()
  {
    WrittenIsOverrides(slots, writes);
  }

  function Zeros(n: nat): (z: seq<nat>)
    ensures |z| == n
  {
    seq(n, _ => NULL_FN)
  }

  class SeeClass {
    var cls: SeeClass?
    var refcount: int
    var psuper: SeeClass?
    var instSize: size_t
    var slots: seq<nat>
    ghost var overrides: map<nat, nat>
    ghost var rank: nat
    ghost var live: bool

    /** calloc */
    constructor (n: nat)
      ensures cls == null && refcount == 0 && psuper == null && instSize == 0
      ensures slots == Zeros(n) && overrides == map[] && live
    {
      cls, refcount, psuper, instSize, slots := null, 0, null, 0, Zeros(n);
      overrides, live := map[], true;
    }

    /** object_object_init */
    method ObjectInit(c: SeeClass)
      modifies this`cls, this`refcount
      ensures cls == c && refcount == 1
    {
      cls, refcount := c, 1;
    }

    /** object_decref and object_destroy, which every class inherits from SeeObject. */
    method Decref()
      modifies this`refcount, this`live
      ensures refcount == old(refcount) - 1
      ensures live == (old(live) && refcount != 0)
    {
      refcount := refcount - 1;
      if refcount == 0 {
        live := false;
      }
    }

    /** The part of see_meta_class_init that makes this class the metaclass. */
    method Become(root: SeeClass, name: nat, newCls: nat, metaInit: nat, newClassInit: nat)
      requires this != root && |root.slots| == OBJECT_SLOTS && slots == Zeros(OBJECT_SLOTS + 1)
      modifies this
      ensures slots == root.slots[NAME := name][NEW_OBJ := newCls][INIT := metaInit] + [newClassInit]
      ensures cls == this && refcount == 1 && psuper == root && live == old(live)
      ensures rank == root.rank + 1
      ensures overrides == Overrides(ClassSystem.MetaWrites(name, newCls, metaInit, newClassInit))
    {
      cls, refcount, instSize := root.cls, root.refcount, root.instSize;
      slots := root.slots + slots[OBJECT_SLOTS..];
      cls, refcount := this, 1;
      slots := slots[NAME := name];
      slots := slots[NEW_OBJ := newCls];
      slots := slots[INIT := metaInit];
      psuper := root;
      slots := slots[OBJECT_SLOTS := newClassInit];
      rank := root.rank + 1;
      overrides := Overrides(ClassSystem.MetaWrites(name, newCls, metaInit, newClassInit));
    }

    /** new_class_init on a zeroed class. */
    method NewClassInit(meta: SeeClass, instanceSize: size_t, parent: SeeClass, parentSize: nat, init: InitFunc)
      returns (ret: Ret)
      requires this != parent
      requires parentSize == 0 || HEADER <= parentSize <= HEADER + |parent.slots|
      requires |parent.slots| <= |slots| && Fits(init.writes, |slots|)
      requires slots == Zeros(|slots|)
      modifies this
      ensures |slots| == old(|slots|) && live == old(live)
      ensures instanceSize == 0 || parentSize == 0 ==>
        ret == INVALID_ARGUMENT && refcount == 1
      ensures instanceSize != 0 && parentSize != 0 ==>
        ret == init.ret && cls == parent.cls && refcount == parent.refcount &&
        psuper == parent && instSize == instanceSize && rank == parent.rank + 1 &&
        overrides == Overrides(init.writes) &&
        slots == Written(parent.slots[..parentSize - HEADER] + Zeros(|slots| - (parentSize - HEADER)), init.writes)
    {
      ObjectInit(meta);
      if instanceSize == 0 || parentSize == 0 {
        return INVALID_ARGUMENT;
      }
      var n := parentSize - HEADER;
      cls, refcount := parent.cls, parent.refcount;
      assert slots[n..] == Zeros(|slots| - n);
      slots := parent.slots[..n] + slots[n..];
      psuper := parent;
      instSize := instanceSize;
      rank := parent.rank + 1;
      overrides := Overrides(init.writes);
      slots := Written(slots, init.writes);
      return init.ret;
    }
  }

  // ----- lookup by walking the parents -----

  /** The parent of c is in w too and ranks lower, the struct of c starts with its
      parent's, and c overrides slots it has. */
  ghost predicate Linked(c: SeeClass, w: set<SeeClass>)
    reads c, w
  {
    && (c.psuper != null ==>
          c.psuper in w && c.psuper.rank < c.rank && |c.psuper.slots| <= |c.slots|)
    && forall k :: k in c.overrides ==> k < |c.slots|
  }

  ghost predicate Rooted(w: set<SeeClass>)
    reads w
  {
    forall c {:trigger Linked(c, w)} :: c in w ==> Linked(c, w)
  }

  /** The class that a lookup of the slot in c finds: the nearest one that overrides it. */
  ghost function Owner(c: SeeClass, slot: nat, w: set<SeeClass>): SeeClass?
    reads w
    requires Rooted(w) && c in w
    decreases c.rank
  {
    assert Linked(c, w);
    if slot in c.overrides then c
    else if c.psuper == null then null
    else Owner(c.psuper, slot, w)
  }

  /** Dynamic dispatch by lookup. */
  ghost function Lookup(c: SeeClass, slot: nat, w: set<SeeClass>): nat
    reads w
    requires Rooted(w) && c in w
    decreases c.rank
  {
    assert Linked(c, w);
    if slot in c.overrides then c.overrides[slot]
    else if c.psuper == null then NULL_FN
    else Lookup(c.psuper, slot, w)
  }

  ghost predicate IsAncestor(a: SeeClass, c: SeeClass, w: set<SeeClass>)
    reads w
    requires Rooted(w) && c in w
    decreases c.rank
  {
    assert Linked(c, w);
    a == c || (c.psuper != null && IsAncestor(a, c.psuper, w))
  }

  /** Dispatch through the table of c is dispatch by lookup. */
  ghost predicate Inherits(c: SeeClass, w: set<SeeClass>)
    reads w
    requires Rooted(w) && c in w
  {
    forall k :: 0 <= k < |c.slots| ==> c.slots[k] == Lookup(c, k, w)
  }

  ghost predicate AllInherit(w: set<SeeClass>)
    reads w
    requires Rooted(w)
  {
    forall c {:trigger Inherits(c, w)} :: c in w ==> Inherits(c, w)
  }

  /** What Lookup finds is the nearest override: Owner is an ancestor that overrides the
      slot, and any other ancestor that does is an ancestor of Owner. */
  lemma {:induction false} OwnerIsNearest(c: SeeClass, slot: nat, w: set<SeeClass>)
    requires Rooted(w) && c in w
    ensures var o := Owner(c, slot, w);
      if o == null then
        Lookup(c, slot, w) == NULL_FN && forall a :: a in w && IsAncestor(a, c, w) ==> slot !in a.overrides
      else
        o in w && IsAncestor(o, c, w) && slot in o.overrides && Lookup(c, slot, w) == o.overrides[slot] &&
        forall a :: a in w && IsAncestor(a, c, w) && slot in a.overrides ==> IsAncestor(a, o, w)
    decreases c.rank
  {
    assert Linked(c, w);
    if slot !in c.overrides && c.psuper != null {
      OwnerIsNearest(c.psuper, slot, w);
    }
  }

  /** An ancestor other than the class itself ranks lower; so no class is an ancestor of
      its own ancestors, and a walk along psuper ends. */
  lemma {:induction false} AncestorsRankLower(a: SeeClass, c: SeeClass, w: set<SeeClass>)
    requires Rooted(w) && c in w && IsAncestor(a, c, w)
    ensures a in w && (a == c || a.rank < c.rank)
    ensures IsAncestor(c, a, w) ==> a == c
    decreases c.rank, 1
  {
    assert Linked(c, w);
    if a != c {
      AncestorsRankLower(a, c.psuper, w);
      if IsAncestor(c, a, w) {
        AncestorsRankLower(c, a, w);
      }
    }
  }

  lemma {:induction false} AncestorOfAncestor(a: SeeClass, b: SeeClass, c: SeeClass, w: set<SeeClass>)
    requires Rooted(w) && c in w && IsAncestor(b, c, w) && b in w && IsAncestor(a, b, w)
    ensures IsAncestor(a, c, w)
    decreases c.rank
  {
    assert Linked(c, w);
    if b != c {
      AncestorOfAncestor(a, b, c.psuper, w);
    }
  }

  lemma {:induction false} NothingBeyondSize(c: SeeClass, slot: nat, w: set<SeeClass>)
    requires Rooted(w) && c in w && slot >= |c.slots|
    ensures Lookup(c, slot, w) == NULL_FN
    decreases c.rank
  {
    assert Linked(c, w);
    if c.psuper != null {
      NothingBeyondSize(c.psuper, slot, w);
    }
  }

  /** A path from c along psuper. */
  ghost predicate Chain(chain: seq<SeeClass>, c: SeeClass)
    reads chain
  {
    && chain != [] && chain[0] == c
    && forall i :: 0 <= i < |chain| - 1 ==> chain[i].psuper == chain[i + 1]
  }

  /** The ancestors are the classes that a path along psuper comes to, of any length. */
  lemma AncestorIsChain(a: SeeClass, c: SeeClass, w: set<SeeClass>)
    requires Rooted(w) && c in w
    ensures IsAncestor(a, c, w) <==> exists chain :: Chain(chain, c) && chain[|chain| - 1] == a
  {
    if IsAncestor(a, c, w) {
      var chain := ChainTo(a, c, w);
    }
    if chain :| Chain(chain, c) && chain[|chain| - 1] == a {
      AncestorByChain(chain, c, w);
    }
  }

  lemma {:induction false} ChainTo(a: SeeClass, c: SeeClass, w: set<SeeClass>) returns (chain: seq<SeeClass>)
    requires Rooted(w) && c in w && IsAncestor(a, c, w)
    ensures Chain(chain, c) && chain[|chain| - 1] == a
    decreases c.rank
  {
    assert Linked(c, w);
    if a == c {
      chain := [c];
    } else {
      var rest := ChainTo(a, c.psuper, w);
      chain := [c] + rest;
    }
  }

  lemma {:induction false} AncestorByChain(chain: seq<SeeClass>, c: SeeClass, w: set<SeeClass>)
    requires Rooted(w) && c in w && Chain(chain, c)
    ensures IsAncestor(chain[|chain| - 1], c, w)
    decreases |chain|
  {
    assert Linked(c, w);
    if |chain| > 1 {
      assert chain[1] == c.psuper;
      AncestorByChain(chain[1..], chain[1], w);
    }
  }

  /** More classes do not change what is found from a class. */
  lemma {:induction false} LookupInLarger(c: SeeClass, slot: nat, w: set<SeeClass>, v: set<SeeClass>)
    requires Rooted(w) && Rooted(v) && w <= v && c in w
    ensures Lookup(c, slot, v) == Lookup(c, slot, w)
    decreases c.rank
  {
    assert Linked(c, w);
    if slot !in c.overrides && c.psuper != null {
      LookupInLarger(c.psuper, slot, w, v);
    }
  }

  lemma {:induction false} AncestorInLarger(a: SeeClass, c: SeeClass, w: set<SeeClass>, v: set<SeeClass>)
    requires Rooted(w) && Rooted(v) && w <= v && c in w
    ensures IsAncestor(a, c, v) == IsAncestor(a, c, w)
    decreases c.rank
  {
    assert Linked(c, w);
    if a != c && c.psuper != null {
      AncestorInLarger(a, c.psuper, w, v);
    }
  }

  /** The functions of the parent that a copy of its first n slots leaves behind and the
      init function does not replace. */
  ghost predicate ForgetsNothing(parent: SeeClass, n: nat, init: InitFunc)
    reads parent
  {
    forall k :: n <= k < |parent.slots| && k !in Overrides(init.writes) ==> parent.slots[k] == NULL_FN
  }

  /** A copied-down table serves for lookup exactly when the copy forgets nothing. */
  lemma CopiedInheritsExactly(c: SeeClass, parent: SeeClass, n: nat, init: InitFunc, w: set<SeeClass>)
    requires Rooted(w) && c in w && parent in w && Inherits(parent, w)
    requires n <= |parent.slots| <= |c.slots| && Fits(init.writes, |c.slots|)
    requires c.psuper == parent && c.overrides == Overrides(init.writes)
    requires c.slots == Written(parent.slots[..n] + Zeros(|c.slots| - n), init.writes)
    ensures Inherits(c, w) <==> ForgetsNothing(parent, n, init)
  {
    var copied := parent.slots[..n] + Zeros(|c.slots| - n);
    WrittenIsOverrides(copied, init.writes);
    forall k | 0 <= k < |c.slots|
      ensures c.slots[k] == Lookup(c, k, w) <==>
        (n <= k < |parent.slots| && k !in c.overrides ==> parent.slots[k] == NULL_FN)
    {
      if k >= |parent.slots| {
        NothingBeyondSize(parent, k, w);
      } else {
        assert parent.slots[k] == Lookup(parent, k, w);
      }
    }
    if Inherits(c, w) {
      forall k | n <= k < |parent.slots| && k !in Overrides(init.writes)
        ensures parent.slots[k] == NULL_FN
      {
        assert c.slots[k] == Lookup(c, k, w);
      }
    }
  }

  /** A new class joins the others, which are not affected. */
  lemma Adopt(c: SeeClass, parent: SeeClass, n: nat, init: InitFunc, w: set<SeeClass>)
    requires Rooted(w) && AllInherit(w) && c !in w && parent in w
    requires n <= |parent.slots| <= |c.slots| && Fits(init.writes, |c.slots|)
    requires c.psuper == parent && c.rank == parent.rank + 1 && c.overrides == Overrides(init.writes)
    requires c.slots == Written(parent.slots[..n] + Zeros(|c.slots| - n), init.writes)
    ensures Rooted(w + {c})
    ensures AllInherit(w + {c}) <==> ForgetsNothing(parent, n, init)
  {
    var v := w + {c};
    WrittenIsOverrides(parent.slots[..n] + Zeros(|c.slots| - n), init.writes);
    forall d | d in v
      ensures Linked(d, v)
    {
      assert d in w ==> Linked(d, w);
    }
    forall d | d in w
      ensures Inherits(d, v)
    {
      assert Inherits(d, w);
      forall k | 0 <= k < |d.slots|
        ensures d.slots[k] == Lookup(d, k, v)
      {
        LookupInLarger(d, k, w, v);
      }
    }
    CopiedInheritsExactly(c, parent, n, init, v);
    assert AllInherit(v) ==> Inherits(c, v);
  }

  // ----- the classes of a program -----

  /** The class system of a program: the static class of SeeObject, the instance of the
      metaclass and, as ghost state, all classes made so far. */
  class ClassSystem {
    const root: SeeClass
    var meta: SeeClass?
    ghost var classes: set<SeeClass>

    /** What holds however much of its parent a class copied. */
    ghost predicate Structure()
      reads this, classes
    {
      && root in classes && root.psuper == null && |root.slots| == OBJECT_SLOTS
      && (meta != null ==> meta in classes)
      && Rooted(classes)
      && (forall c :: c in classes ==> c.live && (c.psuper == null <==> c == root))
    }

    ghost predicate Valid()
      reads this, classes
    {
      Structure() && AllInherit(classes)
    }

    /** The static initialiser of SeeObject's class. */
    constructor (fns: seq<nat>)
      requires |fns| == OBJECT_SLOTS
      ensures Valid() && fresh(classes) && classes == {root} && meta == null
      ensures root.slots == fns && root.cls == root && root.refcount == 1
    {
      var r := new SeeClass(OBJECT_SLOTS);
      r.cls, r.refcount, r.slots := r, 1, fns;
      r.overrides := map k | 0 <= k < |fns| :: fns[k];
      root, meta, classes := r, null, {r};
    }

    /** The assignments of see_meta_class_init. */
    static function MetaWrites(name: nat, newCls: nat, metaInit: nat, newClassInit: nat): seq<Write> {
      [Write(NAME, name)] + [Write(NEW_OBJ, newCls)] + [Write(INIT, metaInit)] + [Write(OBJECT_SLOTS, newClassInit)]
    }

    static lemma MetaSlots(slots: seq<nat>, name: nat, newCls: nat, metaInit: nat, newClassInit: nat)
      requires |slots| == OBJECT_SLOTS
      ensures Fits(MetaWrites(name, newCls, metaInit, newClassInit), OBJECT_SLOTS + 1)
      ensures Written(slots + Zeros(1), MetaWrites(name, newCls, metaInit, newClassInit))
        == slots[NAME := name][NEW_OBJ := newCls][INIT := metaInit] + [newClassInit]
    {
      var s := slots + Zeros(1);
      var ws := [Write(NAME, name)];
      WrittenAppend(s, [], Write(NAME, name));
      assert [] + ws == ws;
      WrittenAppend(s, ws, Write(NEW_OBJ, newCls));
      WrittenAppend(s, ws + [Write(NEW_OBJ, newCls)], Write(INIT, metaInit));
      WrittenAppend(s, ws + [Write(NEW_OBJ, newCls)] + [Write(INIT, metaInit)], Write(OBJECT_SLOTS, newClassInit));
    }

    /** see_meta_class_init */
    method MetaInit(name: nat, newCls: nat, metaInit: nat, newClassInit: nat) returns (ret: Ret)
      requires Valid()
      modifies this`meta, this`classes
      ensures Valid() && ret == SUCCESS
      ensures old(meta) != null ==> meta == old(meta) && classes == old(classes)
      ensures old(meta) == null ==>
        fresh(meta) && classes == old(classes) + {meta} && meta.psuper == root &&
        meta.cls == meta && meta.refcount == 1 &&
        meta.slots == root.slots[NAME := name][NEW_OBJ := newCls][INIT := metaInit] + [newClassInit]
    {
      if meta != null {
        return SUCCESS;
      }
      var m := new SeeClass(OBJECT_SLOTS + 1);
      ghost var init := InitFunc(MetaWrites(name, newCls, metaInit, newClassInit), SUCCESS);
      MetaSlots(root.slots, name, newCls, metaInit, newClassInit);
      m.Become(root, name, newCls, metaInit, newClassInit);
      assert root.slots[..OBJECT_SLOTS] == root.slots;
      Adopt(m, root, OBJECT_SLOTS, init, classes);
      meta, classes := m, classes + {m};
      ret := SUCCESS;
    }

    /** new_cls, and the meta_init and new_class_init it runs. When that fails the class
        is given back, but *out is still made to point at it. */
    static method NewCls(meta: SeeClass, clsSize: nat, instanceSize: size_t, parent: SeeClass, parentSize: nat,
                         init: InitFunc)
      returns (ret: Ret, out: SeeClass)
      requires FitsStruct(clsSize, parent, parentSize, init)
      ensures fresh(out)
      ensures ret == if instanceSize == 0 || parentSize == 0 then INVALID_ARGUMENT else init.ret
      ensures ret == SUCCESS ==>
        out.live && parentSize != 0 && Child(out, clsSize, instanceSize, parent, parentSize, init)
      ensures ret != SUCCESS ==>
        (out.live <==> instanceSize != 0 && parentSize != 0 && parent.refcount != 1)
    {
      out := new SeeClass(clsSize - HEADER);
      // meta_init
      out.ObjectInit(meta);
      ret := out.NewClassInit(meta, instanceSize, parent, parentSize, init);
      if ret != SUCCESS {
        out.Decref();
      }
    }

    /** A class struct starts with its parent's, the whole or the beginning of which is
        copied, and the init function stays inside the struct. Sizes are in words. */
    static ghost predicate FitsStruct(clsSize: nat, parent: SeeClass, parentSize: nat, init: InitFunc)
      reads parent
    {
      && HEADER + |parent.slots| <= clsSize
      && (parentSize == 0 || HEADER <= parentSize <= HEADER + |parent.slots|)
      && Fits(init.writes, clsSize - HEADER)
    }

    /** The class struct that new_class makes of its arguments. */
    static ghost predicate Child(c: SeeClass, clsSize: nat, instanceSize: size_t, parent: SeeClass, parentSize: nat,
                                 init: InitFunc)
      reads c, parent
      requires FitsStruct(clsSize, parent, parentSize, init) && parentSize != 0
    {
      var n := parentSize - HEADER;
      && c.psuper == parent && c.instSize == instanceSize && HEADER + |c.slots| == clsSize
      && c.cls == parent.cls && c.refcount == parent.refcount
      && c.overrides == Overrides(init.writes) && c.rank == parent.rank + 1
      && c.slots == Written(parent.slots[..n] + Zeros(|c.slots| - n), init.writes)
    }

    /** see_meta_class_new_class. `current` is what *out holds. */
    method NewClass(outGiven: bool, current: SeeClass?, clsSize: nat, instanceSize: size_t,
                    parent: SeeClass?, parentSize: nat, init: Option<InitFunc>)
      returns (ret: Ret, out: SeeClass?)
      requires Valid()
      requires parent != null && init.Some? ==>
        parent in classes && FitsStruct(clsSize, parent, parentSize, init.value)
      modifies this`classes
      ensures Structure()
      ensures meta == null || !outGiven || current != null || parent == null || init == None ==>
        ret == INVALID_ARGUMENT && out == current && Valid() && classes == old(classes)
      ensures !(meta == null || !outGiven || current != null || parent == null || init == None) ==>
        && ret == (if instanceSize == 0 || parentSize == 0 then INVALID_ARGUMENT else init.value.ret)
        && out != null && fresh(out)
        && (ret == SUCCESS ==>
              && parentSize != 0
              && classes == old(classes) + {out}
              && Child(out, clsSize, instanceSize, parent, parentSize, init.value)
              && (Valid() <==> ForgetsNothing(parent, parentSize - HEADER, init.value)))
        && (ret != SUCCESS ==>
              && classes == old(classes) && Valid()
              && (out.live <==> instanceSize != 0 && parentSize != 0 && parent.refcount != 1))
    {
      if meta == null {
        return INVALID_ARGUMENT, current;
      }
      if !outGiven || current != null {
        return INVALID_ARGUMENT, current;
      }
      if parent == null {
        return INVALID_ARGUMENT, current;
      }
      if init == None {
        return INVALID_ARGUMENT, current;
      }
      ret, out := NewCls(meta, clsSize, instanceSize, parent, parentSize, init.value);
      if ret == SUCCESS {
        Adopt(out, parent, parentSize - HEADER, init.value, classes);
        classes := classes + {out};
      }
    }
  }

  /** A class creation as the source's init functions write it: the parent is one of the
      classes made before, its whole struct is copied, and `extra` slots follow it. */
  datatype Request = Request(parent: nat, extra: nat, instanceSize: size_t, init: InitFunc)

  lemma CopiesAll(parent: SeeClass, init: InitFunc)
    ensures ForgetsNothing(parent, |parent.slots|, init)
  {
  }

  /** A class that a sequence of requests makes: its place in the hierarchy. */
  datatype Planned = Planned(parent: nat, slots: nat, overrides: map<nat, nat>)

  function PlanNext(plan: seq<Planned>, r: Request): (next: seq<Planned>)
    ensures plan <= next
  {
    if r.parent < |plan| && Fits(r.init.writes, plan[r.parent].slots + r.extra)
      && r.instanceSize != 0 && r.init.ret == SUCCESS
    then plan + [Planned(r.parent, plan[r.parent].slots + r.extra, Overrides(r.init.writes))]
    else plan
  }

  /** The classes that come of the requests, the class of SeeObject first. Requests for
      which the init function fails, and requests that break the layout of the structs,
      make none. */
  function Plan(requests: seq<Request>): seq<Planned> {
    if requests == [] then [Planned(0, OBJECT_SLOTS, map[])]
    else PlanNext(Plan(requests[..|requests| - 1]), requests[|requests| - 1])
  }

  /** The request names a class made before it, gives no size 0, and its init function
      does not fail and assigns only slots that the class has. */
  predicate WellFormed(plan: seq<Planned>, r: Request) {
    && r.parent < |plan| && r.instanceSize != 0 && r.init.ret == SUCCESS
    && forall j :: 0 <= j < |r.init.writes| ==> r.init.writes[j].slot < plan[r.parent].slots + r.extra
  }

  /** The class made next after i others and the root is what request i asks for. */
  predicate Requested(plan: seq<Planned>, requests: seq<Request>, i: nat)
    requires i < |requests| && |plan| == |requests| + 1
  {
    var c, r := plan[i + 1], requests[i];
    && r.parent <= i && c.parent == r.parent
    && c.slots == plan[r.parent].slots + r.extra
    && c.overrides == Overrides(r.init.writes)
  }

  ghost predicate AllWellFormed(requests: seq<Request>) {
    forall i :: 0 <= i < |requests| ==> WellFormed(Plan(requests[..i]), requests[i])
  }

  ghost predicate AllRequested(plan: seq<Planned>, requests: seq<Request>) {
    && |plan| == |requests| + 1 && plan[0].slots == OBJECT_SLOTS
    && forall i :: 0 <= i < |requests| ==> Requested(plan, requests, i)
  }

  lemma FrontWellFormed(requests: seq<Request>)
    requires requests != [] && AllWellFormed(requests)
    ensures var last := |requests| - 1;
      AllWellFormed(requests[..last]) && WellFormed(Plan(requests[..last]), requests[last])
  {
    var front := requests[..|requests| - 1];
    forall i | 0 <= i < |front|
      ensures WellFormed(Plan(front[..i]), front[i])
    {
      assert front[..i] == requests[..i];
    }
  }

  lemma RequestedNext(plan: seq<Planned>, front: seq<Request>, r: Request)
    requires AllRequested(plan, front) && WellFormed(plan, r)
    ensures AllRequested(PlanNext(plan, r), front + [r])
  {
    var next, all := PlanNext(plan, r), front + [r];
    forall i | 0 <= i < |all|
      ensures Requested(next, all, i)
    {
      assert i < |front| ==> Requested(plan, front, i);
    }
  }

  /** A sequence of requests that are all well-formed makes a class for each, and the
      class is as requested. */
  lemma {:induction false} EveryRequestServed(requests: seq<Request>)
    requires AllWellFormed(requests)
    ensures AllRequested(Plan(requests), requests)
  {
    if requests != [] {
      var last := |requests| - 1;
      FrontWellFormed(requests);
      EveryRequestServed(requests[..last]);
      RequestedNext(Plan(requests[..last]), requests[..last], requests[last]);
      assert requests[..last] + [requests[last]] == requests;
    }
  }

  ghost predicate AsPlanned(made: seq<SeeClass>, plan: seq<Planned>)
    reads made
  {
    && |made| == |plan|
    && (forall i :: 0 <= i < |plan| ==> |made[i].slots| == plan[i].slots)
    && (forall i :: 0 < i < |plan| ==>
          plan[i].parent < |plan| && made[i].psuper == made[plan[i].parent] && made[i].overrides == plan[i].overrides)
  }

  /** After any sequence of class creations every slot of every table, the root's and the
      metaclass's included, holds what a walk along psuper finds. */
  method CreateAll(sys: ClassSystem, requests: seq<Request>) returns (made: seq<SeeClass>)
    requires sys.Valid() && sys.meta != null
    modifies sys`classes
    ensures sys.Structure() && AllInherit(sys.classes)
    ensures AsPlanned(made, Plan(requests)) && made != [] && made[0] == sys.root
    ensures forall i :: 0 <= i < |made| ==> made[i] in sys.classes
    ensures forall c :: c in sys.classes <==> c in old(sys.classes) || c in made
  {
    made := [sys.root];
    assert requests[..0] == [];
    for i := 0 to |requests|
      invariant sys.Valid() && sys.meta != null
      invariant AsPlanned(made, Plan(requests[..i])) && made != [] && made[0] == sys.root
      invariant forall i :: 0 <= i < |made| ==> made[i] in sys.classes
      invariant forall c :: c in sys.classes <==> c in old(sys.classes) || c in made
    {
      assert requests[..i + 1][..i] == requests[..i];
      made := CreateOne(sys, requests[i], made, Plan(requests[..i]));
    }
    assert requests[..|requests|] == requests;
  }

  method CreateOne(sys: ClassSystem, r: Request, before: seq<SeeClass>, ghost plan: seq<Planned>)
    returns (made: seq<SeeClass>)
    requires sys.Valid() && sys.meta != null
    requires forall i :: 0 <= i < |before| ==> before[i] in sys.classes
    requires AsPlanned(before, plan)
    modifies sys`classes
    ensures sys.Valid() && sys.meta != null
    ensures forall i :: 0 <= i < |made| ==> made[i] in sys.classes
    ensures before <= made && AsPlanned(made, PlanNext(plan, r))
    ensures
      if r.parent < |before| && Fits(r.init.writes, |before[r.parent].slots| + r.extra)
         && r.instanceSize != 0 && r.init.ret == SUCCESS
      then
        && |made| == |before| + 1 && fresh(made[|before|])
        && made[|before|].psuper == before[r.parent] && made[|before|].instSize == r.instanceSize
        && |made[|before|].slots| == |before[r.parent].slots| + r.extra
      else made == before
    ensures forall c :: c in sys.classes <==> c in old(sys.classes) || c in made
  {
    made := before;
    if r.parent < |made| {
      var parent := made[r.parent];
      var size := HEADER + |parent.slots|;
      if Fits(r.init.writes, |parent.slots| + r.extra) {
        CopiesAll(parent, r.init);
        var ret, c := sys.NewClass(true, null, size + r.extra, r.instanceSize, parent, size, Some(r.init));
        if ret == SUCCESS {
          made := made + [c];
        }
      }
    }
  }

  /** see_object_is_instance_of. `obj` is the class of the object, None for no object;
      *result is written only on success. */
  method IsInstanceOf(obj: Option<SeeClass>, cls: SeeClass?, ghost w: set<SeeClass>)
    returns (ret: Ret, result: Option<int>)
    requires Rooted(w) && (obj.Some? ==> obj.value in w)
    ensures cls == null ==> ret == INVALID_ARGUMENT && result == None
    ensures cls != null ==>
      ret == SUCCESS &&
      result == Some(if obj.Some? && IsAncestor(cls, obj.value, w) then 1 else 0)
  {
    if cls == null {
      return INVALID_ARGUMENT, None;
    }
    result := Some(0);
    if obj == None {
      return SUCCESS, result;
    }
    var temp: SeeClass? := obj.value;
    while temp != null
      invariant temp != null ==> temp in w
      invariant result == Some(0)
      invariant IsAncestor(cls, obj.value, w) <==> temp != null && IsAncestor(cls, temp, w)
      decreases if temp == null then 0 else temp.rank + 1
    {
      assert Linked(temp, w);
      if temp == cls {
        result := Some(1);
        break;
      }
      temp := temp.psuper;
    }
    ret := SUCCESS;
  }
}
