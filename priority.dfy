/**
 * The priority order of the child indices (`sortedChildIndices`): the indices
 * `0 .. n-1` stably sorted with a comparator that moves the current active
 * index to the front and the previous active index right behind it.
 */
module Priority {
  import opened Options

  /** The indices `lo, lo+1, .., n-1`. */
  function IndicesFrom(lo: nat, n: nat): seq<nat>
    decreases n - lo
  {
    if lo >= n then [] else [lo] + IndicesFrom(lo + 1, n)
  }

  /** `childIndices`: one index per child, in document order. */
  function ChildIndices(n: nat): seq<nat>
  {
    IndicesFrom(0, n)
  }

  lemma {:induction false} IndicesFromContents(lo: nat, n: nat)
    ensures |IndicesFrom(lo, n)| == if lo <= n then n - lo else 0
    ensures forall k :: 0 <= k < |IndicesFrom(lo, n)| ==> IndicesFrom(lo, n)[k] == lo + k
    decreases n - lo
  {
    if lo < n {
      IndicesFromContents(lo + 1, n);
    }
  }

  /** `childIndices` holds exactly the indices below the child count, each once, ascending. */
  lemma ChildIndicesContents(n: nat)
    ensures |ChildIndices(n)| == n
    ensures forall k :: 0 <= k < n ==> ChildIndices(n)[k] == k
    ensures forall i: nat :: i in ChildIndices(n) <==> i < n
  {
    IndicesFromContents(0, n);
    forall i: nat | i < n
      ensures i in ChildIndices(n)
    {
      assert ChildIndices(n)[i] == i;
    }
  }

  /** The comparator given to `sort` for the priority order. */
  function Comparator(a: int, b: int, current: Option<int>, previous: Option<int>): int
  {
    if current == Some(a) then -1
    else if current == Some(b) then 1
    else if previous == Some(a) then -1
    else if previous == Some(b) then 1
    else 0
  }

  /** The rank the comparator sorts by: current active, then previous active, then the rest. */
  function Rank(i: int, current: Option<int>, previous: Option<int>): nat
  {
    if current == Some(i) then 0 else if previous == Some(i) then 1 else 2
  }

  /**
   * On distinct indices the comparator is consistent: it compares ranks and is
   * antisymmetric, so every stable sort produces the same order from it.
   */
  lemma ComparatorComparesRanks(a: int, b: int, current: Option<int>, previous: Option<int>)
    requires a != b
    ensures Comparator(a, b, current, previous) < 0 <==> Rank(a, current, previous) < Rank(b, current, previous)
    ensures Comparator(a, b, current, previous) > 0 <==> Rank(a, current, previous) > Rank(b, current, previous)
    ensures Comparator(a, b, current, previous) == -Comparator(b, a, current, previous)
  {
  }

  /** Places x in front of the first element it does not sort after. */
  function InsertBy(x: nat, t: seq<nat>, current: Option<int>, previous: Option<int>): seq<nat>
  {
    if t == [] then [x]
    else if Comparator(x, t[0], current, previous) <= 0 then [x] + t
    else [t[0]] + InsertBy(x, t[1..], current, previous)
  }

  /** A stable sort of s with `Comparator`. */
  function SortBy(s: seq<nat>, current: Option<int>, previous: Option<int>): seq<nat>
  {
    if s == [] then [] else InsertBy(s[0], SortBy(s[1..], current, previous), current, previous)
  }

  /** `sortedChildIndices`. */
  function PriorityOrder(n: nat, current: Option<int>, previous: Option<int>): seq<nat>
  {
    SortBy(ChildIndices(n), current, previous)
  }

  // ----- an explicit description of the same order -----

  predicate InRange(o: Option<int>, lo: nat, n: nat)
  {
    o.Some? && lo <= o.value < n
  }

  /** The promoted indices: the current active one, then a distinct previous active one. */
  function Front(lo: nat, n: nat, current: Option<int>, previous: Option<int>): seq<nat>
  {
    (if InRange(current, lo, n) then [current.value as nat] else [])
      + (if InRange(previous, lo, n) && previous != current then [previous.value as nat] else [])
  }

  /** The indices from lo below n that are neither active nor previously active, ascending. */
  function Others(lo: nat, n: nat, current: Option<int>, previous: Option<int>): seq<nat>
    decreases n - lo
  {
    if lo >= n then []
    else
      var head: seq<nat> := if current == Some(lo as int) || previous == Some(lo as int) then [] else [lo];
      head + Others(lo + 1, n, current, previous)
  }

  function Layout(lo: nat, n: nat, current: Option<int>, previous: Option<int>): seq<nat>
  {
    Front(lo, n, current, previous) + Others(lo, n, current, previous)
  }

  lemma {:induction false} OthersContents(lo: nat, n: nat, current: Option<int>, previous: Option<int>)
    ensures forall i, j :: 0 <= i < j < |Others(lo, n, current, previous)| ==>
      Others(lo, n, current, previous)[i] < Others(lo, n, current, previous)[j]
    ensures forall k :: 0 <= k < |Others(lo, n, current, previous)| ==>
      var x := Others(lo, n, current, previous)[k];
      lo <= x < n && current != Some(x as int) && previous != Some(x as int)
    ensures forall x: nat :: lo <= x < n && current != Some(x as int) && previous != Some(x as int) ==>
      x in Others(lo, n, current, previous)
    decreases n - lo
  {
    if lo < n {
      OthersContents(lo + 1, n, current, previous);
      var rest := Others(lo + 1, n, current, previous);
      var head: seq<nat> := if current == Some(lo as int) || previous == Some(lo as int) then [] else [lo];
      assert Others(lo, n, current, previous) == head + rest;
      forall x: nat | lo <= x < n && current != Some(x as int) && previous != Some(x as int)
        ensures x in head + rest
      {
        if x == lo { assert (head + rest)[0] == x; } else { assert x in rest; }
      }
    }
  }

  /** Inserting x past an element that sorts before it. */
  lemma InsertByPasses(x: nat, t: seq<nat>, current: Option<int>, previous: Option<int>)
    requires t != [] && Comparator(x, t[0], current, previous) > 0
    ensures InsertBy(x, t, current, previous) == [t[0]] + InsertBy(x, t[1..], current, previous)
  {
  }

  /** Inserting x past a block that all sorts before it. */
  lemma {:induction false} InsertBySkips(x: nat, a: seq<nat>, b: seq<nat>, current: Option<int>, previous: Option<int>)
    requires forall k :: 0 <= k < |a| ==> Comparator(x, a[k], current, previous) > 0
    ensures InsertBy(x, a + b, current, previous) == a + InsertBy(x, b, current, previous)
  {
    if a == [] {
      assert a + b == b;
    } else {
      var t := a + b;
      assert t[0] == a[0] && t[1..] == a[1..] + b;
      InsertByPasses(x, t, current, previous);
      assert forall k :: 0 <= k < |a[1..]| ==> a[1..][k] == a[k + 1];
      InsertBySkips(x, a[1..], b, current, previous);
      assert a == [a[0]] + a[1..];
    }
  }

  /** The index lo is the current active one: it goes to the front. */
  lemma InsertCurrent(lo: nat, n: nat, current: Option<int>, previous: Option<int>)
    requires lo < n && current == Some(lo as int)
    ensures InsertBy(lo, Layout(lo + 1, n, current, previous), current, previous) == Layout(lo, n, current, previous)
  {
    var front := Front(lo + 1, n, current, previous);
    var rest := Others(lo + 1, n, current, previous);
    calc {
      InsertBy(lo, Layout(lo + 1, n, current, previous), current, previous);
      InsertBy(lo, front + rest, current, previous);
      { if front + rest != [] {
          assert Comparator(lo, (front + rest)[0], current, previous) == -1;
        } }
      [lo] + (front + rest);
      { assert Front(lo, n, current, previous) == [lo] + front by {
          assert InRange(current, lo, n) && !InRange(current, lo + 1, n);
          assert (InRange(previous, lo, n) && previous != current) == (InRange(previous, lo + 1, n) && previous != current);
        }
        var head: seq<nat> := [];
        assert Others(lo, n, current, previous) == head + rest; }
      Layout(lo, n, current, previous);
    }
  }

  /** The index lo is the previous active one: it goes right behind the current one. */
  lemma InsertPrevious(lo: nat, n: nat, current: Option<int>, previous: Option<int>)
    requires lo < n && previous == Some(lo as int) && current != Some(lo as int)
    ensures InsertBy(lo, Layout(lo + 1, n, current, previous), current, previous) == Layout(lo, n, current, previous)
  {
    var cur: seq<nat> := if InRange(current, lo + 1, n) then [current.value as nat] else [];
    var rest := Others(lo + 1, n, current, previous);
    calc {
      InsertBy(lo, Layout(lo + 1, n, current, previous), current, previous);
      { assert !InRange(previous, lo + 1, n);
        assert Layout(lo + 1, n, current, previous) == cur + rest; }
      InsertBy(lo, cur + rest, current, previous);
      { assert forall k :: 0 <= k < |cur| ==> Comparator(lo, cur[k], current, previous) == 1;
        InsertBySkips(lo, cur, rest, current, previous); }
      cur + InsertBy(lo, rest, current, previous);
      { if rest != [] {
          OthersContents(lo + 1, n, current, previous);
          assert current != Some(rest[0] as int);
          assert Comparator(lo, rest[0], current, previous) == -1;
        } }
      cur + ([lo] + rest);
      (cur + [lo]) + rest;
      { assert InRange(current, lo, n) == InRange(current, lo + 1, n);
        assert InRange(previous, lo, n) && previous != current;
        assert Front(lo, n, current, previous) == cur + [lo]; }
      Front(lo, n, current, previous) + rest;
      { var head: seq<nat> := [];
        assert Others(lo, n, current, previous) == head + rest; }
      Layout(lo, n, current, previous);
    }
  }

  /** Any other index lo goes in front of the other indices above it. */
  lemma InsertOther(lo: nat, n: nat, current: Option<int>, previous: Option<int>)
    requires lo < n && previous != Some(lo as int) && current != Some(lo as int)
    ensures InsertBy(lo, Layout(lo + 1, n, current, previous), current, previous) == Layout(lo, n, current, previous)
  {
    var front := Front(lo + 1, n, current, previous);
    var rest := Others(lo + 1, n, current, previous);
    calc {
      InsertBy(lo, Layout(lo + 1, n, current, previous), current, previous);
      InsertBy(lo, front + rest, current, previous);
      { forall k | 0 <= k < |front|
          ensures Comparator(lo, front[k], current, previous) == 1
        {
          assert current == Some(front[k] as int) || previous == Some(front[k] as int);
        }
        InsertBySkips(lo, front, rest, current, previous); }
      front + InsertBy(lo, rest, current, previous);
      { if rest != [] {
          OthersContents(lo + 1, n, current, previous);
          assert current != Some(rest[0] as int) && previous != Some(rest[0] as int);
          assert Comparator(lo, rest[0], current, previous) == 0;
        } }
      front + ([lo] + rest);
      { assert Front(lo, n, current, previous) == front by {
          assert InRange(current, lo, n) == InRange(current, lo + 1, n);
          assert InRange(previous, lo, n) == InRange(previous, lo + 1, n);
        }
        assert Others(lo, n, current, previous) == [lo] + rest; }
      Layout(lo, n, current, previous);
    }
  }

  /** The stable sort with `Comparator` yields the explicit layout. */
  lemma {:induction false} SortedIndicesAreLayout(lo: nat, n: nat, current: Option<int>, previous: Option<int>)
    ensures SortBy(IndicesFrom(lo, n), current, previous) == Layout(lo, n, current, previous)
    decreases n - lo
  {
    if lo < n {
      SortedIndicesAreLayout(lo + 1, n, current, previous);
      var s := IndicesFrom(lo, n);
      assert s[0] == lo && s[1..] == IndicesFrom(lo + 1, n);
      if current == Some(lo as int) {
        InsertCurrent(lo, n, current, previous);
      } else if previous == Some(lo as int) {
        InsertPrevious(lo, n, current, previous);
      } else {
        InsertOther(lo, n, current, previous);
      }
    }
  }

  lemma {:induction false} InsertByPermutation(x: nat, t: seq<nat>, current: Option<int>, previous: Option<int>)
    ensures multiset(InsertBy(x, t, current, previous)) == multiset(t) + multiset{x}
  {
    if t != [] && Comparator(x, t[0], current, previous) > 0 {
      InsertByPermutation(x, t[1..], current, previous);
      assert t == [t[0]] + t[1..];
    }
  }

  lemma {:induction false} SortByPermutation(s: seq<nat>, current: Option<int>, previous: Option<int>)
    ensures multiset(SortBy(s, current, previous)) == multiset(s)
  {
    if s != [] {
      SortByPermutation(s[1..], current, previous);
      InsertByPermutation(s[0], SortBy(s[1..], current, previous), current, previous);
      assert s == [s[0]] + s[1..];
    }
  }

  /** The ascending part of the layout: past the front, only non-promoted indices, ascending. */
  lemma LayoutTail(n: nat, current: Option<int>, previous: Option<int>)
    ensures forall i, j :: |Front(0, n, current, previous)| <= i < j < |Layout(0, n, current, previous)| ==>
      Layout(0, n, current, previous)[i] < Layout(0, n, current, previous)[j]
    ensures forall k :: |Front(0, n, current, previous)| <= k < |Layout(0, n, current, previous)| ==>
      current != Some(Layout(0, n, current, previous)[k] as int) &&
      previous != Some(Layout(0, n, current, previous)[k] as int)
  {
    OthersContents(0, n, current, previous);
    var front := Front(0, n, current, previous);
    var rest := Others(0, n, current, previous);
    var p := front + rest;
    forall k | |front| <= k < |p|
      ensures p[k] == rest[k - |front|]
    {
    }
  }

  /**
   * The priority order is a permutation of the child indices: the valid current
   * active index first, then a valid previous active index distinct from it,
   * then every other index in ascending (document) order.
   */
  lemma PriorityOrderLayout(n: nat, current: Option<int>, previous: Option<int>)
    ensures PriorityOrder(n, current, previous) == Front(0, n, current, previous) + Others(0, n, current, previous)
    ensures InRange(current, 0, n) ==> PriorityOrder(n, current, previous)[0] == current.value
    ensures InRange(previous, 0, n) && previous != current ==>
      PriorityOrder(n, current, previous)[if InRange(current, 0, n) then 1 else 0] == previous.value
    ensures forall i, j :: |Front(0, n, current, previous)| <= i < j < |PriorityOrder(n, current, previous)| ==>
      PriorityOrder(n, current, previous)[i] < PriorityOrder(n, current, previous)[j]
    ensures forall k :: |Front(0, n, current, previous)| <= k < |PriorityOrder(n, current, previous)| ==>
      current != Some(PriorityOrder(n, current, previous)[k] as int) &&
      previous != Some(PriorityOrder(n, current, previous)[k] as int)
  {
    SortedIndicesAreLayout(0, n, current, previous);
    LayoutTail(n, current, previous);
  }

  /** No index occurs twice in the priority order. */
  lemma PriorityOrderDistinct(n: nat, current: Option<int>, previous: Option<int>)
    ensures forall i, j :: 0 <= i < j < |PriorityOrder(n, current, previous)| ==>
      PriorityOrder(n, current, previous)[i] != PriorityOrder(n, current, previous)[j]
  {
    SortedIndicesAreLayout(0, n, current, previous);
    OthersContents(0, n, current, previous);
    var front := Front(0, n, current, previous);
    var rest := Others(0, n, current, previous);
    var p := front + rest;
    forall i, j | 0 <= i < j < |p|
      ensures p[i] != p[j]
    {
      if j < |front| {
        assert i == 0 && j == 1;
      } else if i < |front| {
        assert p[j] == rest[j - |front|];
        assert current == Some(p[i] as int) || previous == Some(p[i] as int);
      } else {
        assert p[i] == rest[i - |front|] && p[j] == rest[j - |front|];
      }
    }
  }

  /** The priority order holds every child index exactly once and nothing else. */
  lemma PriorityOrderIsPermutation(n: nat, current: Option<int>, previous: Option<int>)
    ensures multiset(PriorityOrder(n, current, previous)) == multiset(ChildIndices(n))
    ensures |PriorityOrder(n, current, previous)| == n
    ensures forall i: nat :: i in PriorityOrder(n, current, previous) <==> i < n
    ensures forall i, j :: 0 <= i < j < |PriorityOrder(n, current, previous)| ==>
      PriorityOrder(n, current, previous)[i] != PriorityOrder(n, current, previous)[j]
  {
    var p := PriorityOrder(n, current, previous);
    SortByPermutation(ChildIndices(n), current, previous);
    ChildIndicesContents(n);
    assert |p| == |multiset(p)|;
    forall i: nat
      ensures i in p <==> i < n
    {
      assert i in p <==> i in multiset(p);
      assert i in ChildIndices(n) <==> i in multiset(ChildIndices(n));
    }
    PriorityOrderDistinct(n, current, previous);
  }
}
