/**
 * The split of the priority order into shown and overflowing indices
 * (`shownChildIndices`, `overflowingChildIndices`) and the two filters that
 * pick the shown and the overflowing children in document order.
 */
module Partition {
  import opened Options
  import opened JsSort
  import opened Priority

  function Min(a: nat, b: nat): nat
  {
    if a < b then a else b
  }

  /** `sortedChildIndices.slice(0, amountShownChildren).sort()`. */
  function Shown(order: seq<nat>, amount: nat): seq<nat>
  {
    DefaultSort(order[..Min(amount, |order|)])
  }

  /** `sortedChildIndices.slice(amountShownChildren).sort()`. */
  function Overflow(order: seq<nat>, amount: nat): seq<nat>
  {
    DefaultSort(order[Min(amount, |order|)..])
  }

  /**
   * The shown indices are the first `amount` entries of the order and the
   * overflowing ones are the rest; the sorts only rearrange each slice.
   */
  lemma SlicesPartitionOrder(order: seq<nat>, amount: nat)
    ensures |Shown(order, amount)| == Min(amount, |order|)
    ensures |Shown(order, amount)| + |Overflow(order, amount)| == |order|
    ensures multiset(Shown(order, amount)) + multiset(Overflow(order, amount)) == multiset(order)
    ensures forall x :: x in Shown(order, amount) <==> x in order[..Min(amount, |order|)]
    ensures forall x :: x in Overflow(order, amount) <==> x in order[Min(amount, |order|)..]
  {
    var k := Min(amount, |order|);
    SortedSliceSameElements(order[..k]);
    SortedSliceSameElements(order[k..]);
    assert multiset(order[..k]) + multiset(order[k..]) == multiset(order) by {
      assert order == order[..k] + order[k..];
    }
  }

  /** Both index lists are ordered by decimal string, as `.sort()` leaves them. */
  lemma SlicesOrderedAsStrings(order: seq<nat>, amount: nat)
    ensures OrderedAsStrings(Shown(order, amount)) && OrderedAsStrings(Overflow(order, amount))
  {
    var k := Min(amount, |order|);
    DefaultSortOrdersByDecimalString(order[..k]);
    DefaultSortOrdersByDecimalString(order[k..]);
  }

  /** The default sort keeps the length, the multiset and the members of a slice. */
  lemma SortedSliceSameElements(slice: seq<nat>)
    ensures |DefaultSort(slice)| == |slice|
    ensures multiset(DefaultSort(slice)) == multiset(slice)
    ensures forall x :: x in DefaultSort(slice) <==> x in slice
  {
    DefaultSortIsPermutation(slice);
    forall x
      ensures x in DefaultSort(slice) <==> x in slice
    {
      assert x in DefaultSort(slice) <==> x in multiset(DefaultSort(slice));
      assert x in slice <==> x in multiset(slice);
    }
  }

  /** In a list without repeats, nothing is both in a prefix and in the rest. */
  lemma DistinctSlicesDisjoint(p: seq<nat>, k: nat)
    requires k <= |p|
    requires forall i, j :: 0 <= i < j < |p| ==> p[i] != p[j]
    ensures forall x :: !(x in p[..k] && x in p[k..])
  {
  }

  /**
   * Over the priority order, the shown and overflowing indices are disjoint,
   * together hold exactly the child indices, and the shown ones are the
   * first `min(amount, n)` entries of the priority order.
   */
  lemma ChildIndicesPartition(n: nat, current: Option<int>, previous: Option<int>, amount: nat)
    ensures |PriorityOrder(n, current, previous)| == n
    ensures |Shown(PriorityOrder(n, current, previous), amount)| == Min(amount, n)
    ensures |Overflow(PriorityOrder(n, current, previous), amount)| == n - Min(amount, n)
    ensures forall i: nat :: i in Shown(PriorityOrder(n, current, previous), amount) <==>
      i in PriorityOrder(n, current, previous)[..Min(amount, n)]
    ensures forall i: nat :: (i in Shown(PriorityOrder(n, current, previous), amount) ||
      i in Overflow(PriorityOrder(n, current, previous), amount)) <==> i < n
    ensures forall i: nat ::
      !(i in Shown(PriorityOrder(n, current, previous), amount) && i in Overflow(PriorityOrder(n, current, previous), amount))
  {
    var p := PriorityOrder(n, current, previous);
    var k := Min(amount, n);
    PriorityOrderIsPermutation(n, current, previous);
    SlicesPartitionOrder(p, amount);
    DistinctSlicesDisjoint(p, k);
    assert p == p[..k] + p[k..];
    forall i: nat
      ensures i in p <==> i in p[..k] || i in p[k..]
    {
    }
  }

  /** With at most ten children both index lists are in ascending numeric order. */
  lemma SmallToolbarAscending(n: nat, current: Option<int>, previous: Option<int>, amount: nat)
    requires n <= 10
    ensures forall i, j :: 0 <= i < j < |Shown(PriorityOrder(n, current, previous), amount)| ==>
      Shown(PriorityOrder(n, current, previous), amount)[i] < Shown(PriorityOrder(n, current, previous), amount)[j]
    ensures forall i, j :: 0 <= i < j < |Overflow(PriorityOrder(n, current, previous), amount)| ==>
      Overflow(PriorityOrder(n, current, previous), amount)[i] < Overflow(PriorityOrder(n, current, previous), amount)[j]
  {
    var p := PriorityOrder(n, current, previous);
    var k := Min(amount, n);
    PriorityOrderIsPermutation(n, current, previous);
    assert forall i :: 0 <= i < |p[..k]| ==> p[..k][i] < 10 by {
      forall i | 0 <= i < |p[..k]| ensures p[..k][i] < 10 { assert p[..k][i] in p; }
    }
    assert forall i :: 0 <= i < |p[k..]| ==> p[k..][i] < 10 by {
      forall i | 0 <= i < |p[k..]| ensures p[k..][i] < 10 { assert p[k..][i] in p; }
    }
    DefaultSortSmallIsNumeric(p[..k]);
    DefaultSortSmallIsNumeric(p[k..]);
    DistinctSortedIsStrict(p[..k], Shown(p, amount), n);
    DistinctSortedIsStrict(p[k..], Overflow(p, amount), n);
  }

  /** A sorted rearrangement of a list without repeats is strictly ascending. */
  lemma DistinctSortedIsStrict(s: seq<nat>, r: seq<nat>, n: nat)
    requires r == DefaultSort(s)
    requires forall i, j :: 0 <= i < j < |s| ==> s[i] != s[j]
    requires forall i, j :: 0 <= i < j < |r| ==> r[i] <= r[j]
    ensures forall i, j :: 0 <= i < j < |r| ==> r[i] < r[j]
  {
    DefaultSortIsPermutation(s);
    forall i, j | 0 <= i < j < |r|
      ensures r[i] < r[j]
    {
      if r[i] == r[j] {
        var x := r[i];
        assert multiset(r)[x] >= 2 by {
          assert r == r[..j] + r[j..];
          assert x in multiset(r[..j]) && x in multiset(r[j..]);
        }
        NoRepeatsCountOne(s, x);
      }
    }
  }

  lemma {:induction false} NoRepeatsCountOne(s: seq<nat>, x: nat)
    requires forall i, j :: 0 <= i < j < |s| ==> s[i] != s[j]
    ensures multiset(s)[x] <= 1
  {
    if s != [] {
      assert s == [s[0]] + s[1..];
      NoRepeatsCountOne(s[1..], x);
      if s[0] == x {
        assert x !in s[1..];
      }
    }
  }

  /** A valid current active index is shown whenever at least one child is. */
  lemma ActiveIsShown(n: nat, current: Option<int>, previous: Option<int>, amount: nat)
    requires InRange(current, 0, n) && amount >= 1
    ensures current.value in Shown(PriorityOrder(n, current, previous), amount)
  {
    var p := PriorityOrder(n, current, previous);
    PriorityOrderLayout(n, current, previous);
    PriorityOrderIsPermutation(n, current, previous);
    ChildIndicesPartition(n, current, previous, amount);
    assert p[..Min(amount, n)][0] == current.value;
  }

  /**
   * A valid previous active index distinct from the current one is shown
   * whenever the shown slice reaches past the promoted current index.
   */
  lemma PreviousIsShown(n: nat, current: Option<int>, previous: Option<int>, amount: nat)
    requires InRange(previous, 0, n) && previous != current
    requires amount >= (if InRange(current, 0, n) then 2 else 1)
    ensures previous.value in Shown(PriorityOrder(n, current, previous), amount)
  {
    var p := PriorityOrder(n, current, previous);
    var at := if InRange(current, 0, n) then 1 else 0;
    PriorityOrderLayout(n, current, previous);
    PriorityOrderIsPermutation(n, current, previous);
    ChildIndicesPartition(n, current, previous, amount);
    assert p[..Min(amount, n)][at] == previous.value;
  }

  // ----- the children filters -----

  /** The children from position `from` on whose index is (want) or is not (!want) listed in idx. */
  function Pick<T>(children: seq<T>, from: nat, idx: seq<nat>, want: bool): seq<T>
    decreases |children| - from
  {
    if from >= |children| then []
    else
      var here := if (from in idx) == want then [children[from]] else [];
      here + Pick(children, from + 1, idx, want)
  }

  /** `shownChildren`: the children whose index is shown, in document order. */
  function ShownChildren<T>(children: seq<T>, shownIndices: seq<nat>): (r: seq<T>)
    ensures |r| == |Positions(|children|, 0, shownIndices, true)|
    ensures forall k :: 0 <= k < |r| ==>
      Positions(|children|, 0, shownIndices, true)[k] < |children| &&
      r[k] == children[Positions(|children|, 0, shownIndices, true)[k]]
  {
    PickAtPositions(children, 0, shownIndices, true);
    Pick(children, 0, shownIndices, true)
  }

  /** `overflowingChildren`: the children whose index is not shown, in document order. */
  function OverflowingChildren<T>(children: seq<T>, shownIndices: seq<nat>): (r: seq<T>)
    ensures |r| == |Positions(|children|, 0, shownIndices, false)|
    ensures forall k :: 0 <= k < |r| ==>
      Positions(|children|, 0, shownIndices, false)[k] < |children| &&
      r[k] == children[Positions(|children|, 0, shownIndices, false)[k]]
  {
    PickAtPositions(children, 0, shownIndices, false);
    Pick(children, 0, shownIndices, false)
  }

  /** The positions from `from` below n whose membership in idx is want, ascending. */
  function Positions(n: nat, from: nat, idx: seq<nat>, want: bool): seq<nat>
    decreases n - from
  {
    if from >= n then []
    else (if (from in idx) == want then [from] else []) + Positions(n, from + 1, idx, want)
  }

  lemma {:induction false} PositionsContents(n: nat, from: nat, idx: seq<nat>, want: bool)
    ensures forall k :: 0 <= k < |Positions(n, from, idx, want)| ==> from <= Positions(n, from, idx, want)[k] < n
    ensures forall i, j :: 0 <= i < j < |Positions(n, from, idx, want)| ==>
      Positions(n, from, idx, want)[i] < Positions(n, from, idx, want)[j]
    ensures forall x: nat :: x in Positions(n, from, idx, want) <==> from <= x < n && (x in idx) == want
    decreases n - from
  {
    if from < n {
      PositionsContents(n, from + 1, idx, want);
      var tail := Positions(n, from + 1, idx, want);
      var head: seq<nat> := if (from in idx) == want then [from] else [];
      assert Positions(n, from, idx, want) == head + tail;
      forall x: nat
        ensures x in head + tail <==> from <= x < n && (x in idx) == want
      {
        if x == from { assert x !in tail; } else { assert x in head + tail <==> x in tail; }
      }
    }
  }

  lemma {:induction false} PickLength<T>(children: seq<T>, from: nat, idx: seq<nat>, want: bool)
    ensures |Pick(children, from, idx, want)| == |Positions(|children|, from, idx, want)|
    decreases |children| - from
  {
    if from < |children| {
      PickLength(children, from + 1, idx, want);
    }
  }

  lemma {:induction false} PickAtPositions<T>(children: seq<T>, from: nat, idx: seq<nat>, want: bool)
    ensures |Pick(children, from, idx, want)| == |Positions(|children|, from, idx, want)|
    ensures forall k :: 0 <= k < |Positions(|children|, from, idx, want)| ==>
      from <= Positions(|children|, from, idx, want)[k] < |children| &&
      Pick(children, from, idx, want)[k] == children[Positions(|children|, from, idx, want)[k]]
    decreases |children| - from
  {
    PositionsContents(|children|, from, idx, want);
    PickLength(children, from, idx, want);
    if from < |children| {
      PickAtPositions(children, from + 1, idx, want);
      var picked := Pick(children, from + 1, idx, want);
      var tail := Positions(|children|, from + 1, idx, want);
      var here: seq<T> := if (from in idx) == want then [children[from]] else [];
      var head: seq<nat> := if (from in idx) == want then [from] else [];
      assert Pick(children, from, idx, want) == here + picked;
      assert Positions(|children|, from, idx, want) == head + tail;
      forall k | 0 <= k < |head + tail|
        ensures (here + picked)[k] == children[(head + tail)[k]]
      {
        if k >= |head| {
          assert (here + picked)[k] == picked[k - |head|] && (head + tail)[k] == tail[k - |head|];
        }
      }
    }
  }

  /**
   * The two filters are complementary: the shown children sit at the listed
   * indices and the overflowing children at the others, each in ascending
   * document order, and together they account for every child once.
   */
  lemma ChildrenFiltersComplementary<T>(children: seq<T>, shownIndices: seq<nat>)
    ensures |ShownChildren(children, shownIndices)| + |OverflowingChildren(children, shownIndices)| == |children|
    ensures forall x: nat :: x in Positions(|children|, 0, shownIndices, true) <==> x < |children| && x in shownIndices
    ensures forall x: nat :: x in Positions(|children|, 0, shownIndices, false) <==> x < |children| && x !in shownIndices
    ensures forall i, j :: 0 <= i < j < |Positions(|children|, 0, shownIndices, true)| ==>
      Positions(|children|, 0, shownIndices, true)[i] < Positions(|children|, 0, shownIndices, true)[j]
    ensures forall i, j :: 0 <= i < j < |Positions(|children|, 0, shownIndices, false)| ==>
      Positions(|children|, 0, shownIndices, false)[i] < Positions(|children|, 0, shownIndices, false)[j]
  {
    PositionsContents(|children|, 0, shownIndices, true);
    PositionsContents(|children|, 0, shownIndices, false);
    PositionsSplit(|children|, 0, shownIndices);
  }

  lemma {:induction false} PositionsSplit(n: nat, from: nat, idx: seq<nat>)
    requires from <= n
    ensures |Positions(n, from, idx, true)| + |Positions(n, from, idx, false)| == n - from
    decreases n - from
  {
    if from < n {
      PositionsSplit(n, from + 1, idx);
    }
  }
}
