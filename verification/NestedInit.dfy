/** see_copy_error_init (src/CopyError.c): the protocol of OnceInit for a class whose
    parent, the class of src/Error.c, is made by the same protocol from within. */
module NestedInit {
  import opened Base
  import opened OnceInit

  /** Both levels. Call i of the system has a program counter in each: a call of
      see_error_init uses the one in `err` and stays Idle in `cpy`; a call of
      see_copy_error_init uses the one in `cpy`, and the one in `err` while it runs
      see_error_init to get its parent. */
  datatype Sys = Sys(err: Level, cpy: Level)

  /** The table of SeeObject, and what the init functions of the two classes override. */
  datatype Recipes = Recipes(base: Table, errOverrides: Table, cpyOverrides: Table) {
    function Err(): Recipe { Recipe(base, errOverrides) }
    function Cpy(): Recipe { Recipe(Err().Result(), cpyOverrides) }
  }

  ghost predicate WellFormed(s: Sys) {
    |s.err.pcs| == |s.cpy.pcs|
  }

  /** It is call i's turn inside see_error_init: it is there already, or it needs the
      parent class, sees none and calls it. */
  predicate ErrTurn(s: Sys, i: nat)
    requires i < |s.err.pcs| && i < |s.cpy.pcs|
  {
    Active(s.err.pcs[i]) || (s.cpy.pcs[i] == Preparing && s.err.cls == None && s.err.pcs[i] == Idle)
  }

  /** Call i is about to use its parent class. */
  predicate UsesParent(pc: Pc) {
    pc.Preparing? || pc.Guarding? || pc.Allocated?
  }

  /** One step of call i. None where it would use a parent class that is not there: the
      assertion of see_copy_error_init fails, or new_class gets NULL for a parent. */
  function NextSys(s: Sys, i: nat, rs: Recipes): Option<Sys>
    requires i < |s.err.pcs| && i < |s.cpy.pcs|
  {
    if ErrTurn(s, i) then Some(Sys(Next(s.err, i, rs.Err()), s.cpy))
    else if !Active(s.cpy.pcs[i]) then Some(s)
    else if s.err.cls == None && UsesParent(s.cpy.pcs[i]) then None
    else
      var parent := if s.err.cls.Some? then s.err.cls.value else map[];
      Some(Sys(s.err, Next(s.cpy, i, Recipe(parent, rs.cpyOverrides))))
  }

  /** Whoever is past finding the parent class, and the class itself, have a parent. */
  ghost predicate ParentFirst(s: Sys) {
    && (s.cpy.cls.Some? ==> s.err.cls.Some?)
    && forall i :: 0 <= i < |s.cpy.pcs| && Owner(s.cpy.pcs[i]) && s.cpy.pcs[i] != Preparing ==> s.err.cls.Some?
  }

  ghost predicate SysInv(s: Sys, rs: Recipes) {
    WellFormed(s) && Inv(s.err, rs.Err()) && Inv(s.cpy, rs.Cpy()) && ParentFirst(s)
  }

  lemma ClsStays(s: Level, i: nat, r: Recipe)
    requires i < |s.pcs|
    ensures s.cls.Some? ==> Next(s, i, r).cls.Some?
  {
  }

  /** The parent class is always there when it is used. */
  lemma NeverStuck(s: Sys, i: nat, rs: Recipes)
    requires SysInv(s, rs) && i < |s.err.pcs|
    ensures NextSys(s, i, rs).Some?
  {
  }

  /** Every step of the system is a step of the one protocol in one of the levels. */
  lemma StepIsLevelStep(s: Sys, i: nat, rs: Recipes)
    requires SysInv(s, rs) && i < |s.err.pcs|
    ensures var t := NextSys(s, i, rs);
      t == Some(s) || t == Some(Sys(Next(s.err, i, rs.Err()), s.cpy)) ||
      (t == Some(Sys(s.err, Next(s.cpy, i, rs.Cpy()))) && !ErrTurn(s, i)
       && (UsesParent(s.cpy.pcs[i]) ==> s.err.cls.Some?))
  {
  }

  lemma SysStepInv(s: Sys, i: nat, rs: Recipes)
    requires SysInv(s, rs) && i < |s.err.pcs|
    ensures NextSys(s, i, rs).Some? && SysInv(NextSys(s, i, rs).value, rs)
  {
    StepIsLevelStep(s, i, rs);
    StepInv(s.err, i, rs.Err());
    StepInv(s.cpy, i, rs.Cpy());
    ClsStays(s.err, i, rs.Err());
    ClsStays(s.cpy, i, rs.Cpy());
    StepParentFirst(s, i, rs);
  }

  lemma StepParentFirst(s: Sys, i: nat, rs: Recipes)
    requires SysInv(s, rs) && i < |s.err.pcs|
    ensures ParentFirst(Sys(Next(s.err, i, rs.Err()), s.cpy))
    ensures (UsesParent(s.cpy.pcs[i]) ==> s.err.cls.Some?) ==>
      ParentFirst(Sys(s.err, Next(s.cpy, i, rs.Cpy())))
  {
  }

  // ----- runs -----

  ghost predicate SysInitial(s: Sys) {
    WellFormed(s) && Initial(s.err) && Initial(s.cpy)
  }

  /** The state after the calls listed in `order` have each made one step; None if the
      parent class was missing where it was used. */
  function RunSys(s: Sys, order: seq<nat>, rs: Recipes): (t: Option<Sys>)
    requires |s.err.pcs| == |s.cpy.pcs| && forall k :: 0 <= k < |order| ==> order[k] < |s.err.pcs|
    ensures t.Some? ==> |t.value.err.pcs| == |t.value.cpy.pcs| == |s.err.pcs|
  {
    if order == [] then Some(s)
    else
      var last := |order| - 1;
      var t := RunSys(s, order[..last], rs);
      if t == None then None else NextSys(t.value, order[last], rs)
  }

  /** Safety over whole runs, for any number of calls of either function in any
      interleaving: no call ever misses its parent class, and both levels are as
      OnceInit promises, the parent complete before the class that copies it. */
  lemma {:induction false} NestedOnceOnly(s: Sys, order: seq<nat>, rs: Recipes)
    requires SysInitial(s) && forall k :: 0 <= k < |order| ==> order[k] < |s.err.pcs|
    ensures RunSys(s, order, rs).Some? && SysInv(RunSys(s, order, rs).value, rs)
  {
    if order == [] {
      InitialInv(s.err, rs.Err());
      InitialInv(s.cpy, rs.Cpy());
    } else {
      var last := |order| - 1;
      NestedOnceOnly(s, order[..last], rs);
      SysStepInv(RunSys(s, order[..last], rs).value, order[last], rs);
    }
  }

  /** What that means for a call of see_copy_error_init that has returned. */
  lemma ReturnedHasClasses(s: Sys, i: nat, rs: Recipes)
    requires SysInv(s, rs) && i < |s.cpy.pcs| && s.cpy.pcs[i].Returned?
    ensures s.err.cls == Some(rs.base + rs.errOverrides)
    ensures s.cpy.cls == Some(rs.base + rs.errOverrides + rs.cpyOverrides)
  {
  }

  /** Over any run of both functions: every call of see_copy_error_init that has returned
      finds both classes complete, and in neither level two calls make the class. */
  lemma NestedRunIsSafe(s: Sys, order: seq<nat>, rs: Recipes)
    requires SysInitial(s) && forall k :: 0 <= k < |order| ==> order[k] < |s.err.pcs|
    ensures RunSys(s, order, rs).Some?
    ensures var t := RunSys(s, order, rs).value;
      && OneOwner(t.err) && OneOwner(t.cpy)
      && (forall i :: 0 <= i < |s.err.pcs| && t.err.pcs[i].Returned? ==> t.err.cls == Some(rs.Err().Result()))
      && (forall i :: 0 <= i < |s.err.pcs| && t.cpy.pcs[i].Returned? ==>
            t.err.cls == Some(rs.Err().Result()) && t.cpy.cls == Some(rs.Cpy().Result()))
  {
    NestedOnceOnly(s, order, rs);
    var t := RunSys(s, order, rs).value;
    forall i | 0 <= i < |s.err.pcs|
      ensures t.err.pcs[i].Returned? ==> t.err.cls == Some(rs.Err().Result())
      ensures t.cpy.pcs[i].Returned? ==> t.err.cls == Some(rs.Err().Result()) && t.cpy.cls == Some(rs.Cpy().Result())
    {
      OnceOnly(t.err, i, rs.Err());
      if t.cpy.pcs[i].Returned? {
        ReturnedHasClasses(t, i, rs);
      }
    }
  }

  // ----- calls made when the class is there -----

  /** At each level with a class: it stays, a call that is Idle there stays Idle, and one
      that has yet to test the class pointer or was served by that test is never past it. */
  ghost predicate StaysServed(s: Sys, t: Sys, i: nat)
    requires i < |s.err.pcs| == |s.cpy.pcs| == |t.err.pcs| == |t.cpy.pcs|
  {
    && (s.err.cls.Some? ==> LevelServed(s.err, t.err, i))
    && (s.cpy.cls.Some? ==> LevelServed(s.cpy, t.cpy, i))
  }

  ghost predicate LevelServed(s: Level, t: Level, i: nat)
    requires i < |s.pcs| == |t.pcs|
  {
    t.cls.Some? && (s.pcs[i] == Idle ==> t.pcs[i] == Idle) && (Served(s.pcs[i]) ==> Served(t.pcs[i]))
  }

  lemma ServedSysStep(s: Sys, j: nat, i: nat, rs: Recipes)
    requires SysInv(s, rs) && i < |s.err.pcs| && j < |s.err.pcs|
    ensures NextSys(s, j, rs).Some? && StaysServed(s, NextSys(s, j, rs).value, i)
  {
    StepIsLevelStep(s, j, rs);
    if s.err.cls.Some? && Served(s.err.pcs[i]) {
      ServedStep(s.err, j, i, rs.Err());
    }
    if s.cpy.cls.Some? && Served(s.cpy.pcs[i]) {
      ServedStep(s.cpy, j, i, rs.Cpy());
    }
  }

  lemma StaysServedOn(s: Sys, t: Sys, u: Sys, i: nat)
    requires i < |s.err.pcs| == |s.cpy.pcs| == |t.err.pcs| == |t.cpy.pcs| == |u.err.pcs| == |u.cpy.pcs|
    requires StaysServed(s, t, i) && StaysServed(t, u, i)
    ensures StaysServed(s, u, i)
  {
  }

  lemma {:induction false} NestedServed(s: Sys, order: seq<nat>, k: nat, i: nat, rs: Recipes)
    requires SysInitial(s) && i < |s.err.pcs| && k <= |order|
    requires forall k :: 0 <= k < |order| ==> order[k] < |s.err.pcs|
    ensures RunSys(s, order[..k], rs).Some? && RunSys(s, order, rs).Some?
    ensures StaysServed(RunSys(s, order[..k], rs).value, RunSys(s, order, rs).value, i)
    decreases |order|
  {
    NestedOnceOnly(s, order, rs);
    if k == |order| {
      assert order[..k] == order;
    } else {
      var last := |order| - 1;
      var front := order[..last];
      assert order[..k] == front[..k];
      NestedServed(s, front, k, i, rs);
      NestedOnceOnly(s, front, rs);
      var v := RunSys(s, front, rs).value;
      ServedSysStep(v, order[last], i, rs);
      StaysServedOn(RunSys(s, front[..k], rs).value, v, RunSys(s, order, rs).value, i);
    }
  }

  /** The tests on entry, over any run of both functions. When the parent class is there,
      a call that is not inside see_error_init never enters it, and one that has yet to
      test the class pointer is never refused; and when the class of see_copy_error_init
      is there, a call that has yet to test it is never refused. */
  lemma NestedServedAtOnce(s: Sys, order: seq<nat>, k: nat, i: nat, rs: Recipes)
    requires SysInitial(s) && i < |s.err.pcs| && k <= |order|
    requires forall k :: 0 <= k < |order| ==> order[k] < |s.err.pcs|
    ensures RunSys(s, order[..k], rs).Some? && RunSys(s, order, rs).Some?
    ensures var u, t := RunSys(s, order[..k], rs).value, RunSys(s, order, rs).value;
      && (u.err.cls.Some? && u.err.pcs[i] == Idle ==> t.err.pcs[i] == Idle)
      && (u.err.cls.Some? && u.err.pcs[i] == Calling ==>
            t.err.pcs[i] == Idle || t.err.pcs[i] == Calling || t.err.pcs[i] == Returned(SUCCESS))
      && (u.cpy.cls.Some? && u.cpy.pcs[i] == Calling ==>
            t.cpy.pcs[i] == Idle || t.cpy.pcs[i] == Calling || t.cpy.pcs[i] == Returned(SUCCESS))
  {
    NestedServed(s, order, k, i, rs);
  }

  // ----- progress -----

  lemma SysStepRank(s: Sys, i: nat, rs: Recipes)
    requires SysInv(s, rs) && i < |s.err.pcs| && NextSys(s, i, rs) != Some(s)
    ensures NextSys(s, i, rs).Some?
    ensures var t := NextSys(s, i, rs).value;
      Sum(Rank, t.err.pcs) + Sum(Rank, t.cpy.pcs) < Sum(Rank, s.err.pcs) + Sum(Rank, s.cpy.pcs)
  {
    StepIsLevelStep(s, i, rs);
    if Next(s.err, i, rs.Err()) != s.err {
      StepRank(s.err, i, rs.Err());
    }
    if Next(s.cpy, i, rs.Cpy()) != s.cpy {
      StepRank(s.cpy, i, rs.Cpy());
    }
  }

  /** While a call of either function is under way, some call can make a step that
      changes something: the two waits cannot block each other. */
  lemma NestedNoDeadlock(s: Sys, i: nat, rs: Recipes) returns (j: nat)
    requires SysInv(s, rs) && i < |s.err.pcs| && (Active(s.err.pcs[i]) || Active(s.cpy.pcs[i]))
    ensures j < |s.err.pcs| && NextSys(s, j, rs) != Some(s)
  {
    if k :| 0 <= k < |s.err.pcs| && Active(s.err.pcs[k]) {
      j := NoDeadlock(s.err, k, rs.Err());
    } else {
      j := NoDeadlock(s.cpy, i, rs.Cpy());
      StepIsLevelStep(s, j, rs);
      if ErrTurn(s, j) {
        assert Next(s.err, j, rs.Err()).pcs[j] == Calling;
      }
    }
  }

  /** The steps that the calls still have before them at most. */
  function Left(t: Option<Sys>): nat {
    if t.Some? then Sum(Rank, t.value.err.pcs) + Sum(Rank, t.value.cpy.pcs) else 0
  }

  predicate AtRest(s: Sys, n: nat)
    requires |s.err.pcs| == |s.cpy.pcs| == n
  {
    forall i :: 0 <= i < n ==> !Active(s.err.pcs[i]) && !Active(s.cpy.pcs[i])
  }

  /** Any run of both functions can be continued until no call is under way. */
  lemma {:induction false} NestedCanFinish(s: Sys, order: seq<nat>, rs: Recipes) returns (whole: seq<nat>)
    requires SysInitial(s) && forall k :: 0 <= k < |order| ==> order[k] < |s.err.pcs|
    ensures order <= whole && forall k :: 0 <= k < |whole| ==> whole[k] < |s.err.pcs|
    ensures RunSys(s, whole, rs).Some? && AtRest(RunSys(s, whole, rs).value, |s.err.pcs|)
    decreases Left(RunSys(s, order, rs))
  {
    NestedOnceOnly(s, order, rs);
    whole := order;
    if !AtRest(RunSys(s, order, rs).value, |s.err.pcs|) {
      whole := SysOneMore(s, order, rs);
      whole := NestedCanFinish(s, whole, rs);
    }
  }

  /** A run that can go on. */
  lemma SysOneMore(s: Sys, order: seq<nat>, rs: Recipes) returns (longer: seq<nat>)
    requires SysInitial(s) && forall k :: 0 <= k < |order| ==> order[k] < |s.err.pcs|
    requires RunSys(s, order, rs).Some? && !AtRest(RunSys(s, order, rs).value, |s.err.pcs|)
    ensures order <= longer && forall k :: 0 <= k < |longer| ==> longer[k] < |s.err.pcs|
    ensures Left(RunSys(s, longer, rs)) < Left(RunSys(s, order, rs))
  {
    NestedOnceOnly(s, order, rs);
    var t := RunSys(s, order, rs).value;
    var i :| 0 <= i < |s.err.pcs| && (Active(t.err.pcs[i]) || Active(t.cpy.pcs[i]));
    var j := NestedNoDeadlock(t, i, rs);
    SysStepRank(t, j, rs);
    longer := order + [j];
    RunSysStep(s, order, j, rs);
  }

  lemma RunSysStep(s: Sys, order: seq<nat>, i: nat, rs: Recipes)
    requires |s.err.pcs| == |s.cpy.pcs| && i < |s.err.pcs|
    requires forall k :: 0 <= k < |order| ==> order[k] < |s.err.pcs|
    requires RunSys(s, order, rs).Some?
    ensures RunSys(s, order + [i], rs) == NextSys(RunSys(s, order, rs).value, i, rs)
  {
    assert (order + [i])[..|order|] == order;
  }

  /** Every step of the run changes something. */
  ghost predicate EffectiveSys(s: Sys, order: seq<nat>, rs: Recipes)
    requires |s.err.pcs| == |s.cpy.pcs| && forall k :: 0 <= k < |order| ==> order[k] < |s.err.pcs|
  {
    forall k :: 0 <= k < |order| ==> RunSys(s, order[..k + 1], rs) != RunSys(s, order[..k], rs)
  }

  lemma EffectiveSysFront(s: Sys, order: seq<nat>, rs: Recipes)
    requires |s.err.pcs| == |s.cpy.pcs| && order != [] && forall k :: 0 <= k < |order| ==> order[k] < |s.err.pcs|
    requires EffectiveSys(s, order, rs)
    ensures var front := order[..|order| - 1];
      EffectiveSys(s, front, rs) && RunSys(s, order, rs) != RunSys(s, front, rs)
  {
    var last := |order| - 1;
    var front := order[..last];
    forall k | 0 <= k < last
      ensures RunSys(s, front[..k + 1], rs) != RunSys(s, front[..k], rs)
    {
      assert front[..k] == order[..k] && front[..k + 1] == order[..k + 1];
    }
    assert order[..last + 1] == order;
  }

  /** A run of both functions in which every step changes something is at most twenty
      steps a call long. */
  lemma {:induction false} NestedRunsEnd(s: Sys, order: seq<nat>, rs: Recipes)
    requires SysInitial(s) && forall k :: 0 <= k < |order| ==> order[k] < |s.err.pcs|
    requires EffectiveSys(s, order, rs)
    ensures RunSys(s, order, rs).Some?
    ensures var t := RunSys(s, order, rs).value;
      |order| + Sum(Rank, t.err.pcs) + Sum(Rank, t.cpy.pcs) <= Sum(Rank, s.err.pcs) + Sum(Rank, s.cpy.pcs)
        <= 20 * |s.err.pcs|
  {
    SumBounded(Rank, s.err.pcs, 10);
    SumBounded(Rank, s.cpy.pcs, 10);
    if order != [] {
      var last := |order| - 1;
      var front := order[..last];
      EffectiveSysFront(s, order, rs);
      NestedRunsEnd(s, front, rs);
      NestedOnceOnly(s, front, rs);
      SysStepRank(RunSys(s, front, rs).value, order[last], rs);
    }
  }
}
