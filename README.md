# Responsive toolbar: overflow resolution, modelled in Dafny

This project models the overflow-resolution logic of the `ResponsiveToolbar` React
component (`src/index.tsx`). The component gets an ordered list of children and a
container of changing width. It decides how many children fit in the visible row
and moves the rest into an overflow button. It also keeps an externally chosen
"active" child visible, and for a while keeps the previously active child visible
too. Every DOM measurement is an input of the model.

The model has these parts:

- `options.dfy`: `Option`, standing for JavaScript's `null`/`undefined`.
- `jssort.dfy`: `Array.prototype.sort()` without a comparator, as the component
  calls it on index arrays. Each number is converted to its decimal string and the
  strings are compared code unit by code unit. The sort is stable. It is proved to be
  a permutation and ordered by decimal string. It is proved numeric only when every
  element is below 10; `[2, 10]` sorts to `[10, 2]`.
- `priority.dfy`: `childIndices` and `sortedChildIndices`. The comparator is modelled
  clause for clause. A stable insertion sort runs it. On distinct indices it compares
  ranks (current active 0, previous active 1, the rest 2). So every stable sort, and
  therefore the engine's, gives the same order. The sort is proved equal to an
  explicit layout: a valid current active index first, then a valid previous active
  index that differs from it, then every other index in ascending order.
- `partition.dfy`: `shownChildIndices` and `overflowingChildIndices` (a slice of the
  priority order, then `.sort()`), and the `shownChildren` and `overflowingChildren`
  filters over the children in document order.
- `fit.dfy`: the measuring loop of `recalculateAmountShownChildren`. `FitCount` is
  the specification function and `CountFitting` is the loop itself. The count is
  proved to be the number of prefixes of the mounted shadow children that fit beside
  the overflow button. That is also the length of the longest fitting prefix. It is
  monotone in the container width.
- `toolbar.dfy`: the component's state cells as a `State` value. Each effect is a
  function on it: recalculation, the reaction to a new `activeIndex`, the clean-up of
  the previous active index, the forced-recalculation counter, and a change of
  children. The class `ResponsiveToolbar` holds the same cells in fields. Its methods
  update them in place and are proved to compute exactly those functions.
- `scenarios.dfy`: worked runs with three children of width 100 and a button of
  width 50.

Behaviour of the code that is easy to misread, and that the model follows:

- When the new active index is null or already shown, a current active index with
  `current + 1 > amountShownChildren` becomes the previous active index. In every
  other case on that branch the previous active index is left UNCHANGED. It is not
  cleared. The test compares with the shown count, not with membership in the shown
  list.
- The slices at lines 77 and 81 are sorted by decimal string. With eleven or more
  children the `overflowingIndices` handed to the overflow button are not in
  numeric order. The rendered children are still in document order, because the
  filters at lines 218-234 walk the children in order.
- The fast path compares the container with the measured width of the shadow
  container, not with a sum of the child widths. The model takes that width as its
  own input.
- The loop keeps adding widths after the first child that does not fit. It never
  counts a later child, because widths are non-negative (proved).
- A previous active index is not a one-render grace slot. It stays as long as it is
  a child index at or beyond the shown count and the count does not drop
  (`Scenarios.DeactivatingPromotedChild`).
- The sorts at line 108 (over ref objects) and line 198 (over element children) sort
  objects whose string forms are all `[object Object]`. A stable sort therefore
  leaves them in place. So the shadow children, and the widths the loop reads, are
  in priority order. The model's `childWidths` input is that list of refs in order,
  with `None` for a ref with nothing mounted.

## Model

| member | source | states |
|---|---|---|
| `JsSort.DefaultSortIsPermutation` | src/index.tsx:77-81 | `.sort()` keeps the length and the multiset of the slice it sorts |
| `JsSort.DefaultSortOrdersByDecimalString` | src/index.tsx:77-81 | the result of `.sort()` is ordered pairwise by the decimal strings of its elements |
| `JsSort.DefaultSortSmallIsNumeric` | src/index.tsx:77-81 | when every element is below 10, the result of `.sort()` is ascending numerically |
| `JsSort.DefaultSortTenBeforeTwo` | src/index.tsx:77-81 | `.sort()` turns `[2, 10]` into `[10, 2]`, so the order is not numeric in general |
| `Priority.ChildIndicesContents` | src/index.tsx:58-61 | `childIndices` has one entry per child, entry k equal to k, and holds exactly the indices below the child count |
| `Priority.ComparatorComparesRanks` | src/index.tsx:65-71 | on distinct indices the comparator's sign is the comparison of ranks (current 0, previous 1, other 2) and it is antisymmetric |
| `Priority.PriorityOrderLayout` | src/index.tsx:63-74 | the stably sorted indices are the valid current active index, then a valid distinct previous active index, then all other indices ascending and free of both |
| `Priority.PriorityOrderIsPermutation` | src/index.tsx:63-74 | the priority order is a permutation of `childIndices`: same multiset, length n, members exactly the indices below n, no repeats |
| `Partition.SlicesPartitionOrder` | src/index.tsx:76-82 | shown has length `min(amount, n)`, the two lists together have the multiset of the order, and their members are those of the prefix and of the suffix at `min(amount, n)` |
| `Partition.SlicesOrderedAsStrings` | src/index.tsx:76-82 | both index lists are ordered by decimal string |
| `Partition.ChildIndicesPartition` | src/index.tsx:58-82 | over the priority order, shown and overflowing indices are disjoint, together are exactly the child indices, and shown ones are the first `min(amount, n)` of the priority order |
| `Partition.SmallToolbarAscending` | src/index.tsx:76-82 | with at most ten children both index lists are strictly ascending |
| `Partition.ActiveIsShown` | src/index.tsx:63-78 | a valid current active index is among the shown indices whenever at least one child is shown |
| `Partition.PreviousIsShown` | src/index.tsx:63-78 | a valid previous active index distinct from the current one is shown whenever the shown count reaches past the promoted current index |
| `Partition.ShownChildren` | src/index.tsx:218-228 | the shown children are the children at the listed positions, in that order |
| `Partition.OverflowingChildren` | src/index.tsx:230-234 | the overflowing children are the children at the unlisted positions, in that order |
| `Partition.ChildrenFiltersComplementary` | src/index.tsx:218-234 | the two filters together have one entry per child, at positions that are strictly ascending (document order), listed and unlisted respectively |
| `Fit.FitCountIsLongestFittingPrefix` | src/index.tsx:105-122 | the count is at most the number of mounted shadow children, and a prefix of k >= 1 of their widths fits beside the button exactly when k is at most the count |
| `Fit.FitCountMonotone` | src/index.tsx:105-122 | a wider container never gives a smaller count |
| `Fit.CountFitting` | src/index.tsx:105-122 | the loop with its running width and counter returns `FitCount` |
| `Toolbar.ShowOverflowButton` | src/index.tsx:236 | the button is shown exactly when some index overflows, i.e. fewer indices are shown than there are children |
| `Toolbar.RecalculatedOutcomes` | src/index.tsx:84-129 | a missing measurement changes nothing; a container at least as wide as the shadow container shows all children and keeps the previous index; otherwise the count is the longest fitting prefix and the previous index is cleared exactly when the count drops |
| `Toolbar.EverythingFitsNoOverflow` | src/index.tsx:99-103 | after the fast path nothing overflows, all n indices are shown and the button is hidden |
| `Toolbar.RecalculatedIdempotent` | src/index.tsx:84-129 | recalculating twice with the same measurements equals recalculating once |
| `Toolbar.RecalculatedMonotone` | src/index.tsx:99-128 | with the same measurements a wider container never shows fewer children |
| `Toolbar.ActiveIndexChangedCases` | src/index.tsx:131-149 | an equal index changes nothing; otherwise the new index becomes current, the counter rises by one, and the previous index is cleared if the new one is outside the shown range, set to the old current if that is at or beyond the count, else unchanged |
| `Toolbar.ActiveIndexPromoted` | src/index.tsx:131-149 | after a change to a valid index, that index is shown if at least one child is |
| `Toolbar.DemotedActiveStaysShown` | src/index.tsx:136-142 | moving away from an active index beyond the count to null or a shown index makes it the previous index and keeps it shown |
| `Toolbar.PreviousCleanedCases` | src/index.tsx:158-169 | the clean-up clears the previous index exactly when it is set and not a child index or below the count, and touches nothing else |
| `Toolbar.PreviousCleanedSettles` | src/index.tsx:158-169 | after the clean-up a surviving previous index is a child index at or beyond the count, and a second clean-up changes nothing |
| `Toolbar.ResponsiveToolbar.constructor` | src/index.tsx:30-56 | mounting: counter 0, no previous index, the prop as current index, every child counted as shown |
| `Toolbar.ResponsiveToolbar.SetChildren` | src/index.tsx:52-61 | a new children prop changes the child count and nothing else |
| `Toolbar.ResponsiveToolbar.ForceRecalculate` | src/index.tsx:34-38 | the counter rises by one and nothing else changes |
| `Toolbar.ResponsiveToolbar.Recalculate` | src/index.tsx:84-129 | the fields after the call are `Recalculated` of the fields before |
| `Toolbar.ResponsiveToolbar.OnActiveIndex` | src/index.tsx:131-156 | the fields after the call are `ActiveIndexChanged` of the fields before |
| `Toolbar.ResponsiveToolbar.CleanupPrevious` | src/index.tsx:158-169 | the fields after the call are `PreviousCleaned` of the fields before |
| `Scenarios.TwoOfThreeFit` | src/index.tsx:105-128 | width 250: two children fit (50 + 200 is exactly 250), shown `[0, 1]`, overflow `[2]` |
| `Scenarios.AllThreeFit` | src/index.tsx:99-103 | width 400 is at least the shadow width 300: all three shown, no button |
| `Scenarios.ActivatingOverflowedChild` | src/index.tsx:131-149 | activating overflowed child 2 clears the previous index, bumps the counter, and shows `[0, 2]` with `[1]` overflowing |
| `Scenarios.DeactivatingPromotedChild` | src/index.tsx:131-169 | deactivating child 2 makes it the previous index, still shown as `[0, 2]`; the clean-up and a recalculation with the same widths keep it |

## Left out

- Rendering and JSX layout (lines 238-303): the hidden shadow containers, their styles and `aria-hidden`. This is presentation.
- Hook scheduling: `useMemo` dependencies, when `useEffect` and `useLayoutEffect` run, and batching of state updates. Each effect is an explicit call. The layout effect at lines 171-179 runs a recalculation whenever the counter changes; only its trigger, the counter, is modelled.
- `useResizeObserver` (lines 181-187) and `getBoundingClientRect`. These are host I/O and a foreign library. Their results are the inputs of `Recalculate`, and a resize corresponds to a call of `ForceRecalculate`.
- Pixel widths are floating point in the browser. Here they are natural numbers.
- How `virtualChildRefs` grows (lines 200-202). Stale or unmounted refs appear as `None` entries of the width list and are skipped.
- Text children (strings and numbers): the sort at line 198 would reorder them by string value. The model assumes element children.
- An `activeIndex` that is not an integer, such as 1.5. Active indices are `Option<int>`.
- `Toolbar.RecalculatedMonotone`: requires at most as many mounted shadow children as children. A stale list with more mounted entries could let the fast path show fewer children than the loop counted. In the component, unmounted refs are null.
- The demo application, its button and portal, and the smoke test. They contain no engine logic.
