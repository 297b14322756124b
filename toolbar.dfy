/**
 * The state of the responsive toolbar component and the effects that change
 * it: the fit recalculation, the reaction to a new `activeIndex` prop, the
 * clean-up of the previous active index and the recalculation counter.
 * Each effect is a function on `State`; the class `ResponsiveToolbar` holds
 * the same state in fields and its methods are proved to perform exactly
 * these functions.
 */
module Toolbar {
  import opened Options
  import opened Priority
  import opened Partition
  import opened Fit

  /** The state cells of the component. */
  datatype State = State(
    childCount: nat,                 // React.Children.count(children)
    amountShown: nat,                // amountShownChildren
    currentActive: Option<int>,      // currentActiveIndex
    previousActive: Option<int>,     // previousActiveIndex
    counter: nat                     // forceRecalculateCounter
  )

  /**
   * What one recalculation reads from the layout: the widths of the shadow
   * children in the order of their refs (None for a ref that is not mounted),
   * and the widths of the shadow overflow button, the visible container and
   * the shadow container (None when the element is not mounted).
   */
  datatype Measurements = Measurements(
    childWidths: seq<Option<nat>>,
    overflowButtonWidth: Option<nat>,
    containerWidth: Option<nat>,
    virtualContainerWidth: Option<nat>
  )

  /** The state right after mounting with n children and the given active index. */
  function Initial(n: nat, activeIndex: Option<int>): State
  {
    State(n, n, activeIndex, None, 0)
  }

  /** `sortedChildIndices`. */
  function Order(s: State): seq<nat>
  {
    PriorityOrder(s.childCount, s.currentActive, s.previousActive)
  }

  /** `shownChildIndices`. */
  function ShownIndices(s: State): seq<nat>
  {
    Shown(Order(s), s.amountShown)
  }

  /** `overflowingChildIndices`. */
  function OverflowingIndices(s: State): seq<nat>
  {
    Overflow(Order(s), s.amountShown)
  }

  /** `showOverflowButton`: there are more children than shown ones. */
  function ShowOverflowButton(s: State): (r: bool)
    ensures r <==> OverflowingIndices(s) != []
    ensures r <==> |ShownIndices(s)| < s.childCount
  {
    ChildIndicesPartition(s.childCount, s.currentActive, s.previousActive, s.amountShown);
    s.childCount > s.amountShown
  }

  /** The children prop changed to `count` children; nothing else is reset. */
  function ChildrenChanged(s: State, count: nat): State
  {
    s.(childCount := count)
  }

  /** `forceRecalculateAmountShownChildren`. */
  function Forced(s: State): State
  {
    s.(counter := s.counter + 1)
  }

  predicate Missing(m: Measurements)
  {
    m.overflowButtonWidth.None? || m.containerWidth.None? || m.virtualContainerWidth.None?
  }

  /** `recalculateAmountShownChildren`. */
  function Recalculated(s: State, m: Measurements): State
  {
    if Missing(m) then s
    else if m.containerWidth.value >= m.virtualContainerWidth.value then s.(amountShown := s.childCount)
    else
      var count := FitCount(m.childWidths, m.overflowButtonWidth.value, m.containerWidth.value);
      s.(amountShown := count, previousActive := if count < s.amountShown then None else s.previousActive)
  }

  /** The effect that reacts to a new `activeIndex` prop. */
  function ActiveIndexChanged(s: State, newActive: Option<int>): State
  {
    if newActive == s.currentActive then s
    else
      var previous :=
        if newActive.None? || newActive.value in ShownIndices(s) then
          if s.currentActive.Some? && s.currentActive.value + 1 > s.amountShown then s.currentActive
          else s.previousActive
        else None;
      Forced(s.(previousActive := previous, currentActive := newActive))
  }

  /** The effect that clears a previous active index that no longer needs promoting. */
  function PreviousCleaned(s: State): State
  {
    if s.previousActive.None? then s
    else if s.previousActive.value !in ChildIndices(s.childCount) || s.previousActive.value < s.amountShown then
      s.(previousActive := None)
    else s
  }

  // ----- recalculation -----

  /**
   * The three outcomes of a recalculation. With a measurement missing nothing
   * changes. When the container is at least as wide as the shadow container
   * every child is shown and the previous active index is kept. Otherwise the
   * new count is the number of prefixes of the mounted shadow children whose
   * widths fit beside the overflow button, and the previous active index is
   * cleared exactly when that count is below the old one.
   */
  lemma RecalculatedOutcomes(s: State, m: Measurements)
    ensures Missing(m) ==> Recalculated(s, m) == s
    ensures !Missing(m) && m.containerWidth.value >= m.virtualContainerWidth.value ==>
      Recalculated(s, m) == s.(amountShown := s.childCount)
    ensures !Missing(m) && m.containerWidth.value < m.virtualContainerWidth.value ==>
      var r := Recalculated(s, m);
      var widths := Measured(m.childWidths);
      && r.amountShown <= |widths|
      && (forall j :: 1 <= j <= |widths| ==>
            (m.overflowButtonWidth.value + Sum(widths[..j]) <= m.containerWidth.value <==> j <= r.amountShown))
      && r.previousActive == (if r.amountShown < s.amountShown then None else s.previousActive)
      && r.(amountShown := s.amountShown, previousActive := s.previousActive) == s
  {
    if !Missing(m) {
      FitCountIsLongestFittingPrefix(m.childWidths, m.overflowButtonWidth.value, m.containerWidth.value);
    }
  }

  /** When everything fits nothing overflows and the overflow button is hidden. */
  lemma EverythingFitsNoOverflow(s: State, m: Measurements)
    requires !Missing(m) && m.containerWidth.value >= m.virtualContainerWidth.value
    ensures OverflowingIndices(Recalculated(s, m)) == []
    ensures |ShownIndices(Recalculated(s, m))| == s.childCount
    ensures !ShowOverflowButton(Recalculated(s, m))
  {
    var r := Recalculated(s, m);
    ChildIndicesPartition(r.childCount, r.currentActive, r.previousActive, r.amountShown);
  }

  /** Recalculating twice with the same measurements is the same as recalculating once. */
  lemma RecalculatedIdempotent(s: State, m: Measurements)
    ensures Recalculated(Recalculated(s, m), m) == Recalculated(s, m)
  {
  }

  /** With the same measurements, a wider container never shows fewer children. */
  lemma RecalculatedMonotone(s: State, m: Measurements, wider: nat)
    requires !Missing(m) && m.containerWidth.value <= wider
    requires |Measured(m.childWidths)| <= s.childCount
    ensures Recalculated(s, m).amountShown <= Recalculated(s, m.(containerWidth := Some(wider))).amountShown
  {
    var b, c := m.overflowButtonWidth.value, m.containerWidth.value;
    FitCountIsLongestFittingPrefix(m.childWidths, b, c);
    FitCountMonotone(m.childWidths, b, c, wider);
  }

  // ----- the active index -----

  /** The index is among the first amountShownChildren entries of the priority order. */
  predicate InShownRange(s: State, i: int)
  {
    i in Order(s)[..Min(s.amountShown, |Order(s)|)]
  }

  /**
   * The reaction to a new active index. An unchanged index changes nothing.
   * Otherwise the new index becomes current and the counter goes up by one;
   * when the new index is null or already in the shown range, a current index
   * at or beyond the shown count becomes the previous active index (and any
   * other previous active index is kept); when the new index is not in the
   * shown range, the previous active index is cleared.
   */
  lemma ActiveIndexChangedCases(s: State, newActive: Option<int>)
    ensures newActive == s.currentActive ==> ActiveIndexChanged(s, newActive) == s
    ensures newActive != s.currentActive ==>
      var r := ActiveIndexChanged(s, newActive);
      && r.currentActive == newActive
      && r.counter == s.counter + 1
      && r.childCount == s.childCount && r.amountShown == s.amountShown
      && r.previousActive ==
           if newActive.Some? && !InShownRange(s, newActive.value) then None
           else if s.currentActive.Some? && s.currentActive.value >= s.amountShown then s.currentActive
           else s.previousActive
  {
    if newActive.Some? {
      SlicesPartitionOrder(Order(s), s.amountShown);
    }
  }

  /** A new valid active index is shown after the change, provided any child is shown. */
  lemma ActiveIndexPromoted(s: State, newActive: Option<int>)
    requires newActive != s.currentActive
    requires InRange(newActive, 0, s.childCount) && s.amountShown >= 1
    ensures newActive.value in ShownIndices(ActiveIndexChanged(s, newActive))
  {
    var r := ActiveIndexChanged(s, newActive);
    ActiveIsShown(r.childCount, r.currentActive, r.previousActive, r.amountShown);
  }

  /**
   * When the active index moves from an item beyond the shown count to null or
   * to an already shown item, the old item becomes the previous active index
   * and stays shown through the transition.
   */
  lemma DemotedActiveStaysShown(s: State, newActive: Option<int>)
    requires newActive != s.currentActive
    requires InRange(s.currentActive, 0, s.childCount) && s.currentActive.value >= s.amountShown
    requires newActive.None? || newActive.value in ShownIndices(s)
    requires s.amountShown >= (if InRange(newActive, 0, s.childCount) then 2 else 1)
    ensures ActiveIndexChanged(s, newActive).previousActive == s.currentActive
    ensures s.currentActive.value in ShownIndices(ActiveIndexChanged(s, newActive))
  {
    var r := ActiveIndexChanged(s, newActive);
    PreviousIsShown(r.childCount, r.currentActive, r.previousActive, r.amountShown);
  }

  // ----- the previous active index -----

  /**
   * The clean-up clears the previous active index exactly when it is set and
   * either is not a child index or lies below the shown count; otherwise it
   * changes nothing, and it never touches the other cells.
   */
  lemma PreviousCleanedCases(s: State)
    ensures PreviousCleaned(s).previousActive == None <==>
      (s.previousActive == None || !(0 <= s.previousActive.value < s.childCount) || s.previousActive.value < s.amountShown)
    ensures PreviousCleaned(s).previousActive != None ==> PreviousCleaned(s) == s
    ensures PreviousCleaned(s).(previousActive := s.previousActive) == s
  {
    ChildIndicesContents(s.childCount);
  }

  /**
   * After the clean-up, a previous active index that survives is a child index
   * at or beyond the shown count, and a second clean-up changes nothing.
   */
  lemma PreviousCleanedSettles(s: State)
    ensures var r := PreviousCleaned(s);
      r.previousActive == None || (InRange(r.previousActive, 0, r.childCount) && r.previousActive.value >= r.amountShown)
    ensures PreviousCleaned(PreviousCleaned(s)) == PreviousCleaned(s)
  {
    ChildIndicesContents(s.childCount);
  }

  /** The component's state cells, updated in place by its effects. */
  class ResponsiveToolbar {
    var childCount: nat
    var amountShown: nat
    var currentActive: Option<int>
    var previousActive: Option<int>
    var counter: nat

    function Snapshot(): State
      reads this
    {
      State(childCount, amountShown, currentActive, previousActive, counter)
    }

    /** Mounting: every child counts as shown until the first recalculation. */
    constructor (n: nat, activeIndex: Option<int>)
      ensures Snapshot() == Initial(n, activeIndex)
    {
      childCount := n;
      amountShown := n;
      currentActive := activeIndex;
      previousActive := None;
      counter := 0;
    }

    method SetChildren(count: nat)
      modifies this
      ensures Snapshot() == ChildrenChanged(old(Snapshot()), count)
    {
      childCount := count;
    }

    method ForceRecalculate()
      modifies this
      ensures Snapshot() == Forced(old(Snapshot()))
    {
      counter := counter + 1;
    }

    method Recalculate(childWidths: seq<Option<nat>>, overflowButtonWidth: Option<nat>,
                       containerWidth: Option<nat>, virtualContainerWidth: Option<nat>)
      modifies this
      ensures Snapshot() == Recalculated(old(Snapshot()),
        Measurements(childWidths, overflowButtonWidth, containerWidth, virtualContainerWidth))
    {
      if overflowButtonWidth.None? || containerWidth.None? || virtualContainerWidth.None? {
        return;
      }
      if containerWidth.value >= virtualContainerWidth.value {
        amountShown := childCount;
        return;
      }
      var count := CountFitting(childWidths, overflowButtonWidth.value, containerWidth.value);
      if count < amountShown {
        previousActive := None;
      }
      amountShown := count;
    }

    method OnActiveIndex(newActive: Option<int>)
      modifies this
      ensures Snapshot() == ActiveIndexChanged(old(Snapshot()), newActive)
    {
      if newActive == currentActive {
        return;
      }
      var shown := ShownIndices(Snapshot());
      if newActive.None? || newActive.value in shown {
        if currentActive.Some? && currentActive.value + 1 > amountShown {
          previousActive := currentActive;
        }
      } else {
        previousActive := None;
      }
      currentActive := newActive;
      ForceRecalculate();
    }

    method CleanupPrevious()
      modifies this
      ensures Snapshot() == PreviousCleaned(old(Snapshot()))
    {
      if previousActive.None? {
        return;
      }
      if previousActive.value !in ChildIndices(childCount) || previousActive.value < amountShown {
        previousActive := None;
      }
    }
  }
}
