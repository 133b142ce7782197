/** Class creation by racing threads: see_error_init (src/Error.c) for one class, on
    the atomic operations of src/atomic_operations.c, sequentially consistent.

    A level is one class with its counter and pointer, and the program counters of
    all calls of its init function; each step is one shared access of one call. */
module OnceInit {
  import opened Base

  /** A class table: slots with the functions in them. */
  type Table = map<nat, nat>

  /** Where a call is. A call that is Idle has not started. */
  datatype Pc =
    | Idle
    | Calling                      // about to test the class pointer
    | Incrementing                 // saw NULL, about to increment the counter
    | Preparing                    // drew 1, about to find the parent class
    | Guarding                     // in new_class, about to test *out
    | Allocated                    // the new table is zeroed
    | Copied(table: Table)         // the parent's table is copied
    | Complete(table: Table)       // the init function has run
    | Decrementing(ret: Ret)       // about to decrement the counter
    | Spinning(ret: Ret)           // waiting for the counter to be 0
    | Returned(ret: Ret)

  datatype Level = Level(count: int, cls: Option<Table>, pcs: seq<Pc>)

  /** The parent's table and what the class's init function overrides in it. */
  datatype Recipe = Recipe(parent: Table, overrides: Table) {
    function Result(): Table { parent + overrides }
  }

  /** One step of a call at pc that finds the counter and the class pointer like this:
      where it is then and what it leaves in them. */
  function Local(pc: Pc, count: int, cls: Option<Table>, r: Recipe): (Pc, int, Option<Table>) {
    match pc
    case Idle => (Calling, count, cls)
    case Calling => (if cls.Some? then Returned(SUCCESS) else Incrementing, count, cls)
    case Incrementing =>
      var drawn := count + 1;
      (if drawn == 1 then Preparing else Decrementing(SUCCESS), drawn, cls)
    case Preparing => (Guarding, count, cls)
    case Guarding => (if cls.Some? then Decrementing(INVALID_ARGUMENT) else Allocated, count, cls)
    case Allocated => (Copied(r.parent), count, cls)
    case Copied(table) => (Complete(table + r.overrides), count, cls)
    case Complete(table) => (Decrementing(SUCCESS), count, Some(table))
    case Decrementing(ret) => (Spinning(ret), count - 1, cls)
    case Spinning(ret) => (if count == 0 then Returned(ret) else pc, count, cls)
    case Returned(_) => (pc, count, cls)
  }

  /** The level after a step of call i. */
  function Next(s: Level, i: nat, r: Recipe): (t: Level)
    requires i < |s.pcs|
    ensures |t.pcs| == |s.pcs|
  {
    var (pc, count, cls) := Local(s.pcs[i], s.count, s.cls, r);
    Level(count, cls, s.pcs[i := pc])
  }

  // ----- sums over the calls -----

  function Sum(f: Pc -> nat, pcs: seq<Pc>): nat {
    if pcs == [] then 0 else Sum(f, pcs[..|pcs| - 1]) + f(pcs[|pcs| - 1])
  }

  lemma {:induction false} SumUpdate(f: Pc -> nat, pcs: seq<Pc>, i: nat, pc: Pc)
    requires i < |pcs|
    ensures Sum(f, pcs[i := pc]) + f(pcs[i]) == Sum(f, pcs) + f(pc)
  {
    var last := |pcs| - 1;
    if i == last {
      assert pcs[i := pc][..last] == pcs[..last];
    } else {
      assert pcs[i := pc][..last] == pcs[..last][i := pc];
      SumUpdate(f, pcs[..last], i, pc);
    }
  }

  lemma {:induction false} SumAtLeast(f: Pc -> nat, pcs: seq<Pc>, i: nat)
    requires i < |pcs|
    ensures Sum(f, pcs) >= f(pcs[i])
  {
    if i < |pcs| - 1 {
      SumAtLeast(f, pcs[..|pcs| - 1], i);
    }
  }

  lemma {:induction false} SumZero(f: Pc -> nat, pcs: seq<Pc>)
    requires forall i :: 0 <= i < |pcs| ==> f(pcs[i]) == 0
    ensures Sum(f, pcs) == 0
  {
    if pcs != [] {
      SumZero(f, pcs[..|pcs| - 1]);
    }
  }

  lemma {:induction false} SumBounded(f: Pc -> nat, pcs: seq<Pc>, b: nat)
    requires forall i :: 0 <= i < |pcs| ==> f(pcs[i]) <= b
    ensures Sum(f, pcs) <= b * |pcs|
  {
    if pcs != [] {
      SumBounded(f, pcs[..|pcs| - 1], b);
    }
  }

  /** Calls between their increment and their decrement. */
  predicate InSection(pc: Pc) {
    Owner(pc) || pc.Decrementing?
  }

  /** A call that drew 1 and has not left new_class. */
  predicate Owner(pc: Pc) {
    pc.Preparing? || pc.Guarding? || Building(pc)
  }

  /** A call inside new_class, past the test of *out. */
  predicate Building(pc: Pc) {
    pc.Allocated? || pc.Copied? || pc.Complete?
  }

  function Ticket(pc: Pc): nat {
    if InSection(pc) then 1 else 0
  }

  // ----- the invariant -----

  ghost predicate HasOwner(s: Level) {
    exists i :: 0 <= i < |s.pcs| && Owner(s.pcs[i])
  }

  ghost predicate OneOwner(s: Level) {
    forall i, j :: 0 <= i < |s.pcs| && 0 <= j < |s.pcs| && Owner(s.pcs[i]) && Owner(s.pcs[j]) ==> i == j
  }

  /** What the program counter of a call says about the level. */
  ghost predicate PcOk(s: Level, pc: Pc, r: Recipe) {
    match pc
    case Allocated => s.cls == None
    case Copied(table) => s.cls == None && table == r.parent
    case Complete(table) => s.cls == None && table == r.Result()
    case Decrementing(_) => s.cls.Some? || HasOwner(s)
    case Spinning(_) => s.cls.Some? || HasOwner(s)
    case Returned(_) => s.cls.Some?
    case _ => true
  }

  ghost predicate Inv(s: Level, r: Recipe) {
    && s.count == Sum(Ticket, s.pcs)
    && OneOwner(s)
    && (forall i :: 0 <= i < |s.pcs| ==> PcOk(s, s.pcs[i], r))
    && (s.cls.Some? ==> s.cls.value == r.Result())
  }

  /** Before any call has come far. */
  ghost predicate Initial(s: Level) {
    s.count == 0 && s.cls == None && forall i :: 0 <= i < |s.pcs| ==> s.pcs[i] == Idle || s.pcs[i] == Calling
  }

  lemma InitialInv(s: Level, r: Recipe)
    requires Initial(s)
    ensures Inv(s, r)
  {
    SumZero(Ticket, s.pcs);
  }

  lemma EmptySection(s: Level, i: nat)
    requires s.count == Sum(Ticket, s.pcs) && i < |s.pcs|
    ensures s.count >= 0 && (InSection(s.pcs[i]) ==> s.count >= 1)
  {
    SumAtLeast(Ticket, s.pcs, i);
  }

  lemma OwnerSurvives(s: Level, t: Level, i: nat, pc: Pc)
    requires i < |s.pcs| && t.pcs == s.pcs[i := pc]
    requires Owner(s.pcs[i]) ==> Owner(pc)
    ensures HasOwner(s) ==> HasOwner(t)
  {
    if HasOwner(s) {
      var j :| 0 <= j < |s.pcs| && Owner(s.pcs[j]);
      assert Owner(t.pcs[j]);
    }
  }

  /** A call that finds the section occupied finds an owner there or the class made. */
  lemma OccupiedHasOwner(s: Level, r: Recipe)
    requires Inv(s, r) && s.count != 0
    ensures s.cls.Some? || HasOwner(s)
  {
    if forall i :: 0 <= i < |s.pcs| ==> Ticket(s.pcs[i]) == 0 {
      SumZero(Ticket, s.pcs);
    }
    var i :| 0 <= i < |s.pcs| && Ticket(s.pcs[i]) != 0;
    assert PcOk(s, s.pcs[i], r);
  }

  /** Every step of every call keeps the invariant. */
  lemma StepInv(s: Level, i: nat, r: Recipe)
    requires Inv(s, r) && i < |s.pcs|
    ensures Inv(Next(s, i, r), r)
  {
    StepCount(s, i, r);
    StepOneOwner(s, i, r);
    StepPcs(s, i, r);
  }

  lemma StepCount(s: Level, i: nat, r: Recipe)
    requires s.count == Sum(Ticket, s.pcs) && i < |s.pcs|
    ensures Next(s, i, r).count == Sum(Ticket, Next(s, i, r).pcs)
  {
    SumUpdate(Ticket, s.pcs, i, Local(s.pcs[i], s.count, s.cls, r).0);
  }

  lemma StepOneOwner(s: Level, i: nat, r: Recipe)
    requires Inv(s, r) && i < |s.pcs|
    ensures OneOwner(Next(s, i, r))
  {
    if s.pcs[i] == Incrementing && s.count == 0 {
      forall j | 0 <= j < |s.pcs|
        ensures !Owner(s.pcs[j])
      {
        EmptySection(s, j);
      }
    }
  }

  lemma StepPcs(s: Level, i: nat, r: Recipe)
    requires Inv(s, r) && i < |s.pcs|
    ensures var t := Next(s, i, r);
      && (forall j :: 0 <= j < |t.pcs| ==> PcOk(t, t.pcs[j], r))
      && (t.cls.Some? ==> t.cls.value == r.Result())
  {
    var t := Next(s, i, r);
    assert PcOk(s, s.pcs[i], r);
    var pc := t.pcs[i];
    assert t.pcs == s.pcs[i := pc];
    if Owner(s.pcs[i]) ==> Owner(pc) {
      OwnerSurvives(s, t, i, pc);
    }
    if s.count != 0 {
      OccupiedHasOwner(s, r);
    }
    if s.pcs[i].Spinning? && HasOwner(s) {
      var j :| 0 <= j < |s.pcs| && Owner(s.pcs[j]);
      EmptySection(s, j);
    }
    forall j | 0 <= j < |t.pcs|
      ensures PcOk(t, t.pcs[j], r)
    {
      assert PcOk(s, s.pcs[j], r);
    }
  }

  // ----- what the invariant means -----

  /** At most one call is inside new_class, and the class pointer is set only to the
      finished table and never again changed; whoever has returned finds it set. */
  lemma OnceOnly(s: Level, i: nat, r: Recipe)
    requires Inv(s, r) && i < |s.pcs|
    ensures forall j, k ::
      0 <= j < |s.pcs| && 0 <= k < |s.pcs| && Owner(s.pcs[j]) && Owner(s.pcs[k]) ==> j == k
    ensures s.cls.Some? ==> s.cls == Some(r.Result()) && Next(s, i, r).cls == s.cls
    ensures s.pcs[i].Returned? ==> s.cls == Some(r.Result())
  {
  }

  /** A call that carries the error of new_class's guard. */
  predicate Refused(pc: Pc) {
    (pc.Decrementing? || pc.Spinning? || pc.Returned?) && pc.ret != SUCCESS
  }

  /** The call whose turn it is drew 1 although the class is there. */
  ghost predicate IsLate(s: Level, i: nat) {
    i < |s.pcs| && s.pcs[i] == Guarding && s.cls.Some?
  }

  lemma StepRefused(s: Level, j: nat, i: nat, r: Recipe)
    requires i < |s.pcs| && j < |s.pcs|
    ensures Refused(Next(s, j, r).pcs[i]) <==> Refused(s.pcs[i]) || (j == i && IsLate(s, i))
  {
  }

  // ----- progress -----

  function Rank(pc: Pc): nat {
    match pc
    case Idle => 10
    case Calling => 9
    case Incrementing => 8
    case Preparing => 7
    case Guarding => 6
    case Allocated => 5
    case Copied(_) => 4
    case Complete(_) => 3
    case Decrementing(_) => 2
    case Spinning(_) => 1
    case Returned(_) => 0
  }

  predicate Active(pc: Pc) {
    !pc.Idle? && !pc.Returned?
  }

  /** A step that changes anything brings its call nearer to its end. */
  lemma StepRank(s: Level, i: nat, r: Recipe)
    requires i < |s.pcs| && Next(s, i, r) != s
    ensures Sum(Rank, Next(s, i, r).pcs) < Sum(Rank, s.pcs)
  {
    var t := Next(s, i, r);
    var pc := t.pcs[i];
    assert t.pcs == s.pcs[i := pc];
    SumUpdate(Rank, s.pcs, i, pc);
  }

  /** While some call is under way, some call that is under way can make a step:
      waiting for the counter never blocks everyone. */
  lemma NoDeadlock(s: Level, i: nat, r: Recipe) returns (j: nat)
    requires Inv(s, r) && i < |s.pcs| && Active(s.pcs[i])
    ensures j < |s.pcs| && Active(s.pcs[j]) && Next(s, j, r) != s
  {
    j := i;
    if s.pcs[i].Spinning? && s.count != 0 {
      if forall k :: 0 <= k < |s.pcs| ==> Ticket(s.pcs[k]) == 0 {
        SumZero(Ticket, s.pcs);
      }
      j :| 0 <= j < |s.pcs| && Ticket(s.pcs[j]) != 0;
    }
    assert Next(s, j, r).pcs[j] != s.pcs[j];
  }

  // ----- runs -----

  /** The state after the calls listed in `order` have each made one step. */
  function Run(s: Level, order: seq<nat>, r: Recipe): Level
    requires forall k :: 0 <= k < |order| ==> order[k] < |s.pcs|
    ensures |Run(s, order, r).pcs| == |s.pcs|
  {
    if order == [] then s
    else
      var last := |order| - 1;
      Next(Run(s, order[..last], r), order[last], r)
  }

  lemma {:induction false} RunInv(s: Level, order: seq<nat>, r: Recipe)
    requires Initial(s) && forall k :: 0 <= k < |order| ==> order[k] < |s.pcs|
    ensures Inv(Run(s, order, r), r)
  {
    if order == [] {
      InitialInv(s, r);
    } else {
      var last := |order| - 1;
      RunInv(s, order[..last], r);
      StepInv(Run(s, order[..last], r), order[last], r);
    }
  }

  /** A class that is published after k steps is never replaced. */
  lemma {:induction false} PublishedStays(s: Level, order: seq<nat>, k: nat, r: Recipe)
    requires Initial(s) && k <= |order| && forall k :: 0 <= k < |order| ==> order[k] < |s.pcs|
    requires Run(s, order[..k], r).cls.Some?
    ensures Run(s, order, r).cls == Run(s, order[..k], r).cls == Some(r.Result())
    decreases |order|
  {
    if k == |order| {
      assert order[..k] == order;
      RunInv(s, order, r);
    } else {
      var last := |order| - 1;
      var front := order[..last];
      assert order[..k] == front[..k];
      PublishedStays(s, front, k, r);
      RunInv(s, front, r);
      OnceOnly(Run(s, front, r), order[last], r);
    }
  }

  /** Safety over whole runs: any number of calls, interleaved in any order. */
  lemma RunOnceOnly(s: Level, order: seq<nat>, r: Recipe)
    requires Initial(s) && forall k :: 0 <= k < |order| ==> order[k] < |s.pcs|
    ensures Inv(Run(s, order, r), r)
    ensures forall k :: 0 <= k <= |order| && Run(s, order[..k], r).cls.Some? ==>
      Run(s, order, r).cls == Run(s, order[..k], r).cls == Some(r.Result())
  {
    RunInv(s, order, r);
    forall k | 0 <= k <= |order| && Run(s, order[..k], r).cls.Some?
      ensures Run(s, order, r).cls == Run(s, order[..k], r).cls == Some(r.Result())
    {
      PublishedStays(s, order, k, r);
    }
  }

  /** What that means: over any run at most one call is inside new_class at a time, and
      every call that has returned finds the one class that was made, complete. */
  lemma RunIsSafe(s: Level, order: seq<nat>, r: Recipe)
    requires Initial(s) && forall k :: 0 <= k < |order| ==> order[k] < |s.pcs|
    ensures var t := Run(s, order, r);
      && (forall i, j :: 0 <= i < |s.pcs| && 0 <= j < |s.pcs| && Owner(t.pcs[i]) && Owner(t.pcs[j]) ==> i == j)
      && (forall i :: 0 <= i < |s.pcs| && t.pcs[i].Returned? ==> t.cls == Some(r.Result()))
  {
    RunOnceOnly(s, order, r);
    var t := Run(s, order, r);
    forall i | 0 <= i < |s.pcs| && t.pcs[i].Returned?
      ensures t.cls == Some(r.Result())
    {
      OnceOnly(t, i, r);
    }
  }

  // ----- calls made when the class is there -----

  /** A call that has not yet tested the class pointer, or found the class by that test. */
  predicate Served(pc: Pc) {
    pc == Idle || pc == Calling || pc == Returned(SUCCESS)
  }

  lemma ServedStep(s: Level, j: nat, i: nat, r: Recipe)
    requires i < |s.pcs| && j < |s.pcs| && s.cls.Some? && Served(s.pcs[i])
    ensures var t := Next(s, j, r);
      t.cls.Some? && Served(t.pcs[i]) && Rank(t.pcs[i]) <= Rank(s.pcs[i])
    ensures j == i ==> Rank(Next(s, j, r).pcs[i]) <= 9 && (Rank(s.pcs[i]) <= 9 ==> Rank(Next(s, j, r).pcs[i]) == 0)
    ensures j == i ==> Next(s, j, r).count == s.count
  {
  }

  lemma {:induction false} ServedRun(s: Level, order: seq<nat>, k: nat, i: nat, r: Recipe)
    requires Initial(s) && i < |s.pcs| && k <= |order| && forall k :: 0 <= k < |order| ==> order[k] < |s.pcs|
    requires Run(s, order[..k], r).cls.Some? && Served(Run(s, order[..k], r).pcs[i])
    ensures Run(s, order, r).cls.Some? && Served(Run(s, order, r).pcs[i])
    ensures Rank(Run(s, order, r).pcs[i]) <= Rank(Run(s, order[..k], r).pcs[i])
    decreases |order|
  {
    if k == |order| {
      assert order[..k] == order;
    } else {
      var last := |order| - 1;
      var front := order[..last];
      assert order[..k] == front[..k];
      ServedRun(s, front, k, i, r);
      ServedStep(Run(s, front, r), order[last], i, r);
    }
  }

  /** What the test of the class pointer on entry is for: a call that has not passed it
      when the class is there never touches the counter and is never refused, whatever
      the other calls do. */
  lemma ServedAtOnce(s: Level, order: seq<nat>, k: nat, i: nat, r: Recipe)
    requires Initial(s) && i < |s.pcs| && k <= |order| && forall k :: 0 <= k < |order| ==> order[k] < |s.pcs|
    requires var u := Run(s, order[..k], r); u.cls.Some? && (u.pcs[i] == Idle || u.pcs[i] == Calling)
    ensures var pc := Run(s, order, r).pcs[i]; pc == Idle || pc == Calling || pc == Returned(SUCCESS)
  {
    ServedRun(s, order, k, i, r);
  }

  /** Its second step at the latest returns SUCCESS: it does not wait for anyone. */
  lemma ServedInTwoSteps(s: Level, order: seq<nat>, k: nat, i: nat, a: nat, b: nat, r: Recipe)
    requires Initial(s) && i < |s.pcs| && forall k :: 0 <= k < |order| ==> order[k] < |s.pcs|
    requires k <= a < b < |order| && order[a] == order[b] == i
    requires var u := Run(s, order[..k], r); u.cls.Some? && (u.pcs[i] == Idle || u.pcs[i] == Calling)
    ensures Run(s, order, r).pcs[i] == Returned(SUCCESS)
  {
    TakesTurn(s, order, k, i, a, r);
    TakesTurn(s, order, a + 1, i, b, r);
    assert order[..|order|] == order;
    ServedRun(s, order, b + 1, i, r);
  }

  /** From a state in which call i is served up to the one after its step number a. */
  lemma TakesTurn(s: Level, order: seq<nat>, k: nat, i: nat, a: nat, r: Recipe)
    requires Initial(s) && i < |s.pcs| && forall k :: 0 <= k < |order| ==> order[k] < |s.pcs|
    requires k <= a < |order| && order[a] == i
    requires var u := Run(s, order[..k], r); u.cls.Some? && Served(u.pcs[i])
    ensures var u, t := Run(s, order[..k], r), Run(s, order[..a + 1], r);
      && t.cls.Some? && Served(t.pcs[i])
      && Rank(t.pcs[i]) <= 9 && (Rank(u.pcs[i]) <= 9 ==> Rank(t.pcs[i]) == 0)
  {
    var front, upTo := order[..a], order[..a + 1];
    assert front[..k] == order[..k];
    ServedRun(s, front, k, i, r);
    assert upTo[..a] == front && upTo[a] == i;
    ServedStep(Run(s, front, r), i, i, r);
  }

  /** Any run can be continued until all calls have returned: none waits for ever unless
      the scheduler never lets it or those it waits for run. */
  lemma {:induction false} CanFinish(s: Level, order: seq<nat>, r: Recipe) returns (whole: seq<nat>)
    requires Initial(s) && forall k :: 0 <= k < |order| ==> order[k] < |s.pcs|
    ensures order <= whole && forall k :: 0 <= k < |whole| ==> whole[k] < |s.pcs|
    ensures forall i :: 0 <= i < |s.pcs| ==> Run(s, whole, r).pcs[i].Returned?
    decreases Sum(Rank, Run(s, order, r).pcs)
  {
    var t := Run(s, order, r);
    whole := order;
    if i :| 0 <= i < |t.pcs| && !t.pcs[i].Returned? {
      whole := OneMore(s, order, i, r);
      whole := CanFinish(s, whole, r);
    }
  }

  /** A run that can go on. */
  lemma OneMore(s: Level, order: seq<nat>, i: nat, r: Recipe) returns (longer: seq<nat>)
    requires Initial(s) && i < |s.pcs| && forall k :: 0 <= k < |order| ==> order[k] < |s.pcs|
    requires !Run(s, order, r).pcs[i].Returned?
    ensures order <= longer && forall k :: 0 <= k < |longer| ==> longer[k] < |s.pcs|
    ensures Sum(Rank, Run(s, longer, r).pcs) < Sum(Rank, Run(s, order, r).pcs)
  {
    RunInv(s, order, r);
    var j := CanStep(Run(s, order, r), i, r);
    StepRank(Run(s, order, r), j, r);
    RunStep(s, order, j, r);
    longer := order + [j];
  }

  lemma CanStep(s: Level, i: nat, r: Recipe) returns (j: nat)
    requires Inv(s, r) && i < |s.pcs| && !s.pcs[i].Returned?
    ensures j < |s.pcs| && Next(s, j, r) != s
  {
    if s.pcs[i] == Idle {
      j := i;
      assert Next(s, j, r).pcs[j] == Calling;
    } else {
      j := NoDeadlock(s, i, r);
    }
  }

  /** Every step of the run changes something. */
  ghost predicate Effective(s: Level, order: seq<nat>, r: Recipe)
    requires forall k :: 0 <= k < |order| ==> order[k] < |s.pcs|
  {
    forall k :: 0 <= k < |order| ==> Next(Run(s, order[..k], r), order[k], r) != Run(s, order[..k], r)
  }

  lemma EffectiveFront(s: Level, order: seq<nat>, r: Recipe)
    requires order != [] && forall k :: 0 <= k < |order| ==> order[k] < |s.pcs|
    requires Effective(s, order, r)
    ensures var front := order[..|order| - 1];
      Effective(s, front, r) && Run(s, order, r) != Run(s, front, r)
  {
    var front := order[..|order| - 1];
    forall k | 0 <= k < |front|
      ensures Next(Run(s, front[..k], r), front[k], r) != Run(s, front[..k], r)
    {
      assert front[..k] == order[..k];
    }
  }

  /** A run in which every step changes something is at most ten steps a call long. */
  lemma {:induction false} RunsEnd(s: Level, order: seq<nat>, r: Recipe)
    requires forall k :: 0 <= k < |order| ==> order[k] < |s.pcs|
    requires Effective(s, order, r)
    ensures |order| + Sum(Rank, Run(s, order, r).pcs) <= Sum(Rank, s.pcs) <= 10 * |s.pcs|
  {
    SumBounded(Rank, s.pcs, 10);
    if order != [] {
      var last := |order| - 1;
      var front := order[..last];
      EffectiveFront(s, order, r);
      RunsEnd(s, front, r);
      StepRank(Run(s, front, r), order[last], r);
    }
  }

  /** At some point of the run it was call i's turn and the call was late. */
  ghost predicate WasLate(s: Level, order: seq<nat>, i: nat, r: Recipe)
    requires forall k :: 0 <= k < |order| ==> order[k] < |s.pcs|
  {
    exists k :: 0 <= k < |order| && order[k] == i && IsLate(Run(s, order[..k], r), i)
  }

  lemma WasLateStep(s: Level, order: seq<nat>, i: nat, last: nat, r: Recipe)
    requires |order| == last + 1 && forall k :: 0 <= k < |order| ==> order[k] < |s.pcs|
    ensures WasLate(s, order, i, r) <==>
      WasLate(s, order[..last], i, r) || (order[last] == i && IsLate(Run(s, order[..last], r), i))
  {
    var front := order[..last];
    forall k | 0 <= k < last
      ensures order[..k] == front[..k] && order[k] == front[k]
    {
    }
    if WasLate(s, front, i, r) {
      var k :| 0 <= k < |front| && front[k] == i && IsLate(Run(s, front[..k], r), i);
      assert order[k] == i && IsLate(Run(s, order[..k], r), i);
    }
  }

  /** Call i made its test of the class pointer at some point of the run at which there was
      no class. */
  ghost predicate SawNone(s: Level, order: seq<nat>, i: nat, r: Recipe)
    requires i < |s.pcs| && forall k :: 0 <= k < |order| ==> order[k] < |s.pcs|
  {
    exists k :: 0 <= k < |order| && order[k] == i && MissesClass(Run(s, order[..k], r), i)
  }

  predicate MissesClass(s: Level, i: nat)
    requires i < |s.pcs|
  {
    s.pcs[i] == Calling && s.cls == None
  }

  lemma SawNoneStep(s: Level, order: seq<nat>, i: nat, last: nat, r: Recipe)
    requires i < |s.pcs| && |order| == last + 1 && forall k :: 0 <= k < |order| ==> order[k] < |s.pcs|
    ensures SawNone(s, order[..last], i, r) ==> SawNone(s, order, i, r)
    ensures order[last] == i && MissesClass(Run(s, order[..last], r), i) ==> SawNone(s, order, i, r)
  {
    var front := order[..last];
    if k :| 0 <= k < |front| && front[k] == i && MissesClass(Run(s, front[..k], r), i) {
      assert order[..k] == front[..k] && order[k] == i;
    }
  }

  /** A call that is past its test, or was refused, saw no class in it. */
  lemma {:induction false} PastTestSawNone(s: Level, order: seq<nat>, i: nat, r: Recipe)
    requires Initial(s) && i < |s.pcs| && forall k :: 0 <= k < |order| ==> order[k] < |s.pcs|
    ensures Served(Run(s, order, r).pcs[i]) || SawNone(s, order, i, r)
  {
    if order != [] {
      var last := |order| - 1;
      PastTestSawNone(s, order[..last], i, r);
      SawNoneStep(s, order, i, last, r);
    }
  }

  /** Over a whole run, a call is refused exactly if it drew 1 when the class had been
      made already: the guard of new_class keeps it from making the class again. It had
      seen no class in its test on entry. */
  lemma {:induction false} RefusedExactly(s: Level, order: seq<nat>, i: nat, r: Recipe)
    requires Initial(s) && i < |s.pcs| && forall k :: 0 <= k < |order| ==> order[k] < |s.pcs|
    ensures Refused(Run(s, order, r).pcs[i]) <==> WasLate(s, order, i, r)
    ensures Refused(Run(s, order, r).pcs[i]) ==> SawNone(s, order, i, r)
  {
    PastTestSawNone(s, order, i, r);
    if order != [] {
      var last := |order| - 1;
      var front := order[..last];
      RefusedExactly(s, front, i, r);
      WasLateStep(s, order, i, last, r);
      StepRefused(Run(s, front, r), order[last], i, r);
    }
  }

  /** Two calls, of which the second has seen no class but increments the counter after
      the first is through: it returns an error although the class is there. */
  lemma LateCall(r: Recipe) returns (order: seq<nat>)
    ensures var s := Level(0, None, [Calling, Calling]);
      && (forall k :: 0 <= k < |order| ==> order[k] < 2)
      && Run(s, order, r) == Level(0, Some(r.Result()), [Returned(SUCCESS), Returned(INVALID_ARGUMENT)])
  {
    var s, d := Level(0, None, [Calling, Calling]), Returned(SUCCESS);
    var c := Some(r.Result());
    order := FirstIsThrough(s, r);
    order := Second(s, order, 0, c, d, Incrementing, r);
    order := Second(s, order, 1, c, d, Preparing, r);
    order := Second(s, order, 1, c, d, Guarding, r);
    order := Second(s, order, 1, c, d, Decrementing(INVALID_ARGUMENT), r);
    order := Second(s, order, 0, c, d, Spinning(INVALID_ARGUMENT), r);
  }

  lemma FirstIsThrough(s: Level, r: Recipe) returns (order: seq<nat>)
    requires s == Level(0, None, [Calling, Calling])
    ensures forall k :: 0 <= k < |order| ==> order[k] < 2
    ensures Run(s, order, r) == Level(0, Some(r.Result()), [Returned(SUCCESS), Incrementing])
  {
    var q, c := Incrementing, Some(r.Result());
    order := FirstIsInside(s, r);
    order := First(s, order, 1, None, Allocated, q, r);
    order := First(s, order, 1, None, Copied(r.parent), q, r);
    order := First(s, order, 1, None, Complete(r.Result()), q, r);
    order := First(s, order, 1, c, Decrementing(SUCCESS), q, r);
    order := First(s, order, 0, c, Spinning(SUCCESS), q, r);
  }

  lemma FirstIsInside(s: Level, r: Recipe) returns (order: seq<nat>)
    requires s == Level(0, None, [Calling, Calling])
    ensures forall k :: 0 <= k < |order| ==> order[k] < 2
    ensures Run(s, order, r) == Level(1, None, [Allocated, Incrementing])
  {
    var q := Incrementing;
    order := Second(s, [], 0, None, Calling, Calling, r);
    order := First(s, order, 0, None, Calling, q, r);
    order := First(s, order, 0, None, q, q, r);
    order := First(s, order, 1, None, Preparing, q, r);
    order := First(s, order, 1, None, Guarding, q, r);
  }

  /** A step of the first of two calls. */
  lemma First(s: Level, order: seq<nat>, count: int, cls: Option<Table>, a: Pc, b: Pc, r: Recipe)
    returns (order': seq<nat>)
    requires |s.pcs| == 2 && forall k :: 0 <= k < |order| ==> order[k] < 2
    requires Run(s, order, r) == Level(count, cls, [a, b])
    ensures forall k :: 0 <= k < |order'| ==> order'[k] < 2
    ensures var (pc, count', cls') := Local(a, count, cls, r);
      Run(s, order', r) == Level(count', cls', [pc, b])
  {
    RunStep(s, order, 0, r);
    order' := order + [0];
  }

  /** A step of the second of two calls. */
  lemma Second(s: Level, order: seq<nat>, count: int, cls: Option<Table>, a: Pc, b: Pc, r: Recipe)
    returns (order': seq<nat>)
    requires |s.pcs| == 2 && forall k :: 0 <= k < |order| ==> order[k] < 2
    requires Run(s, order, r) == Level(count, cls, [a, b])
    ensures forall k :: 0 <= k < |order'| ==> order'[k] < 2
    ensures var (pc, count', cls') := Local(b, count, cls, r);
      Run(s, order', r) == Level(count', cls', [a, pc])
  {
    RunStep(s, order, 1, r);
    order' := order + [1];
  }

  lemma RunStep(s: Level, order: seq<nat>, i: nat, r: Recipe)
    requires i < |s.pcs| && forall k :: 0 <= k < |order| ==> order[k] < |s.pcs|
    ensures Run(s, order + [i], r) == Next(Run(s, order, r), i, r)
  {
  }
}
