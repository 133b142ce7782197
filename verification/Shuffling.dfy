/** The Fisher-Yates shuffle of see_dynamic_array_shuffle_range (src/DynamicArray.c)
    as a function of the numbers drawn. */
module Shuffling {

  function Swapped<T>(s: seq<T>, i: nat, j: nat): (r: seq<T>)
    requires i < |s| && j < |s|
    ensures |r| == |s|
  {
    s[i := s[j]][j := s[i]]
  }

  /** draws[k] is a number that see_random_uint64_range(rgen, start + k, end - 1) can return. */
  ghost predicate Drawn(start: nat, end: nat, draws: seq<nat>) {
    && |draws| == (if start < end then end - start else 0)
    && forall k :: 0 <= k < |draws| ==> start + k <= draws[k] < end
  }

  /** Position start gets the element drawn for it, then the rest is shuffled. */
  function Shuffled<T>(s: seq<T>, start: nat, end: nat, draws: seq<nat>): (r: seq<T>)
    requires end <= |s| && Drawn(start, end, draws)
    ensures |r| == |s|
    decreases end - start
  {
    if start >= end then s
    else Shuffled(Swapped(s, start, draws[0]), start + 1, end, draws[1..])
  }

  lemma ShuffledNext<T>(s: seq<T>, i: nat, end: nat, draws: seq<nat>, k: nat, next: nat, after: nat)
    requires i < end <= |s| && k <= |draws| && Drawn(i, end, draws[k..]) && next == i + 1 && after == k + 1
    ensures k < |draws| && i <= draws[k] < end && Drawn(next, end, draws[after..])
    ensures Shuffled(s, i, end, draws[k..]) == Shuffled(Swapped(s, i, draws[k]), next, end, draws[after..])
  {
    assert draws[k..][0] == draws[k] && draws[k..][1..] == draws[after..];
  }

  ghost predicate Distinct<T>(s: seq<T>) {
    forall i, j :: 0 <= i < j < |s| ==> s[i] != s[j]
  }

  /** t is s with the elements of [start, end) in some order. */
  ghost predicate Rearranges<T>(s: seq<T>, t: seq<T>, start: nat, end: nat) {
    && |s| == |t| && multiset(s) == multiset(t)
    && forall i :: 0 <= i < |s| && !(start <= i < end) ==> s[i] == t[i]
  }

  lemma SwappedMultiset<T>(s: seq<T>, i: nat, j: nat)
    requires i < |s| && j < |s|
    ensures multiset(Swapped(s, i, j)) == multiset(s)
  {
    assert multiset(s[i := s[j]]) == multiset(s) - multiset{s[i]} + multiset{s[j]};
  }

  /** Elements are neither lost nor duplicated, and those outside the range stay. */
  lemma {:induction false} ShuffledRearranges<T>(s: seq<T>, start: nat, end: nat, draws: seq<nat>)
    requires end <= |s| && Drawn(start, end, draws)
    ensures Rearranges(s, Shuffled(s, start, end, draws), start, end)
    decreases end - start
  {
    if start < end {
      SwappedMultiset(s, start, draws[0]);
      ShuffledRearranges(Swapped(s, start, draws[0]), start + 1, end, draws[1..]);
    }
  }

  /** The first draw decides which element ends up first. */
  lemma ShuffledFirst<T>(s: seq<T>, start: nat, end: nat, draws: seq<nat>)
    requires start < end <= |s| && Drawn(start, end, draws)
    ensures Shuffled(s, start, end, draws)[start] == s[draws[0]]
  {
    ShuffledRearranges(Swapped(s, start, draws[0]), start + 1, end, draws[1..]);
  }

  lemma SwappedDistinct<T>(s: seq<T>, i: nat, j: nat)
    requires i < |s| && j < |s| && Distinct(s)
    ensures Distinct(Swapped(s, i, j))
  {
  }

  /** Two runs of draws that shuffle distinct elements alike are the same run. */
  lemma {:induction false} DrawsUnique<T>(s: seq<T>, start: nat, end: nat, d: seq<nat>, e: seq<nat>)
    requires end <= |s| && Distinct(s)
    requires Drawn(start, end, d) && Drawn(start, end, e)
    requires Shuffled(s, start, end, d) == Shuffled(s, start, end, e)
    ensures d == e
    decreases end - start
  {
    if start < end {
      ShuffledFirst(s, start, end, d);
      ShuffledFirst(s, start, end, e);
      SwappedDistinct(s, start, d[0]);
      DrawsUnique(Swapped(s, start, d[0]), start + 1, end, d[1..], e[1..]);
      assert d == [d[0]] + d[1..];
      assert e == [e[0]] + e[1..];
    }
  }

  lemma TwiceCounted<T>(s: seq<T>, i: nat, j: nat)
    requires i < j < |s| && s[i] == s[j]
    ensures multiset(s)[s[i]] >= 2
  {
    assert s == s[..j] + s[j..];
    assert multiset(s) == multiset(s[..j]) + multiset(s[j..]);
    assert s[i] in s[..j] && s[j] in s[j..];
  }

  lemma {:induction false} DistinctCount<T>(s: seq<T>, x: T)
    requires Distinct(s)
    ensures multiset(s)[x] <= 1
  {
    if s != [] {
      var last := |s| - 1;
      assert s == s[..last] + [s[last]];
      DistinctCount(s[..last], x);
      assert s[last] !in s[..last];
    }
  }

  lemma PermutationDistinct<T>(s: seq<T>, t: seq<T>)
    requires Distinct(s) && multiset(s) == multiset(t)
    ensures Distinct(t)
  {
    forall i, j | 0 <= i < j < |t|
      ensures t[i] != t[j]
    {
      if t[i] == t[j] {
        TwiceCounted(t, i, j);
        DistinctCount(s, t[i]);
      }
    }
  }

  /** Where the element that t has first in the range is found in s. */
  lemma FirstDraw<T>(s: seq<T>, t: seq<T>, start: nat, end: nat) returns (j: nat)
    requires start < end <= |s| && Distinct(s) && Rearranges(s, t, start, end)
    ensures start <= j < end && s[j] == t[start]
  {
    PermutationDistinct(s, t);
    assert t[start] in multiset(t);
    assert t[start] in s;
    j :| 0 <= j < |s| && s[j] == t[start];
  }

  lemma DrawsCons<T>(s: seq<T>, start: nat, end: nat, j: nat, rest: seq<nat>)
    requires start <= j < end <= |s| && Drawn(start + 1, end, rest)
    ensures Drawn(start, end, [j] + rest)
    ensures Shuffled(s, start, end, [j] + rest) == Shuffled(Swapped(s, start, j), start + 1, end, rest)
  {
    assert ([j] + rest)[1..] == rest;
  }

  /** Every rearrangement of the range is drawn by some run of draws. */
  lemma {:induction false} DrawsExist<T>(s: seq<T>, t: seq<T>, start: nat, end: nat)
    returns (draws: seq<nat>)
    requires end <= |s| && Distinct(s) && Rearranges(s, t, start, end)
    ensures Drawn(start, end, draws) && Shuffled(s, start, end, draws) == t
    decreases end - start
  {
    if start >= end {
      draws := [];
    } else {
      var j := FirstDraw(s, t, start, end);
      SwappedMultiset(s, start, j);
      SwappedDistinct(s, start, j);
      var rest := DrawsExist(Swapped(s, start, j), t, start + 1, end);
      DrawsCons(s, start, end, j, rest);
      draws := [j] + rest;
    }
  }

  /** On distinct elements each rearrangement of the range results from exactly one
      run of draws, so uniform draws shuffle uniformly. */
  lemma ShuffleBijection<T>(s: seq<T>, t: seq<T>, start: nat, end: nat)
    requires end <= |s| && Distinct(s)
    ensures Rearranges(s, t, start, end) <==>
      exists d :: Drawn(start, end, d) && Shuffled(s, start, end, d) == t
    ensures forall d, e |
      Drawn(start, end, d) && Drawn(start, end, e)
      && Shuffled(s, start, end, d) == t && Shuffled(s, start, end, e) == t :: d == e
  {
    if Rearranges(s, t, start, end) {
      var d := DrawsExist(s, t, start, end);
    }
    forall d | Drawn(start, end, d) && Shuffled(s, start, end, d) == t
      ensures Rearranges(s, t, start, end)
    {
      ShuffledRearranges(s, start, end, d);
    }
    forall d, e |
      Drawn(start, end, d) && Drawn(start, end, e)
      && Shuffled(s, start, end, d) == t && Shuffled(s, start, end, e) == t
      ensures d == e
    {
      DrawsUnique(s, start, end, d, e);
    }
  }
}
