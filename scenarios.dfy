/**
 * Worked runs of the toolbar effects on three children of width 100 with an
 * overflow button of width 50; the shadow container then measures 300.
 */
module Scenarios {
  import opened Options
  import opened JsSort
  import opened Priority
  import opened Partition
  import opened Toolbar

  function Widths(): seq<Option<nat>>
  {
    [Some(100), Some(100), Some(100)]
  }

  function Sized(containerWidth: nat): Measurements
  {
    Measurements(Widths(), Some(50), Some(containerWidth), Some(300))
  }

  /** Beside the button, 50 + 100 + 100 reaches 250 exactly; the third child does not fit. */
  lemma FitsTwo()
    ensures Fit.FitCount(Widths(), 50, 250) == 2
  {
    var w: seq<Option<nat>> := Widths();
    var w1: seq<Option<nat>> := w[1..];
    var w2: seq<Option<nat>> := w1[1..];
    assert w1 == [Some(100), Some(100)] && w2 == [Some(100)] && w2[1..] == [];
    assert Fit.Greedy(w2, 250, 250) == 0;
    assert Fit.Greedy(w1, 150, 250) == 1;
  }

  lemma OrderWithoutActive()
    ensures PriorityOrder(3, None, None) == [0, 1, 2]
  {
    PriorityOrderLayout(3, None, None);
    assert Others(3, 3, None, None) == [];
    assert Others(2, 3, None, None) == [2];
    assert Others(1, 3, None, None) == [1, 2];
  }

  lemma OrderWithTwoPromoted(current: Option<int>, previous: Option<int>)
    requires (current == Some(2) && previous == None) || (current == None && previous == Some(2))
    ensures PriorityOrder(3, current, previous) == [2, 0, 1]
  {
    PriorityOrderLayout(3, current, previous);
    assert Others(3, 3, current, previous) == [];
    assert Others(2, 3, current, previous) == [];
    assert Others(1, 3, current, previous) == [1];
    assert Others(0, 3, current, previous) == [0, 1];
  }

  lemma SortTwo(a: nat, b: nat)
    requires a < b < 10
    ensures DefaultSort([a, b]) == [a, b] && DefaultSort([b, a]) == [a, b]
  {
    DecimalLeSmall(a, b);
    DecimalLeSmall(b, a);
    assert DefaultSort([b]) == [b];
    assert DefaultSort([a]) == [a];
    assert [a, b][1..] == [b] && [b, a][1..] == [a];
  }

  /** Width 250: two children fit beside the button, the third overflows. */
  lemma TwoOfThreeFit()
    ensures Recalculated(Initial(3, None), Sized(250)) == State(3, 2, None, None, 0)
    ensures ShownIndices(State(3, 2, None, None, 0)) == [0, 1]
    ensures OverflowingIndices(State(3, 2, None, None, 0)) == [2]
  {
    var m := Sized(250);
    FitsTwo();
    OrderWithoutActive();
    SortTwo(0, 1);
    assert [0, 1, 2][..2] == [0, 1] && [0, 1, 2][2..] == [2];
    assert DefaultSort([2]) == [2];
  }

  /** Width 400 covers the shadow container: everything is shown, no button. */
  lemma AllThreeFit()
    ensures Recalculated(State(3, 2, None, None, 0), Sized(400)) == State(3, 3, None, None, 0)
    ensures !ShowOverflowButton(State(3, 3, None, None, 0))
  {
  }

  /** Activating the overflowed child 2 promotes it: 0 and 2 are shown, 1 overflows. */
  lemma ActivatingOverflowedChild()
    ensures ActiveIndexChanged(State(3, 2, None, None, 0), Some(2)) == State(3, 2, Some(2), None, 1)
    ensures ShownIndices(State(3, 2, Some(2), None, 1)) == [0, 2]
    ensures OverflowingIndices(State(3, 2, Some(2), None, 1)) == [1]
  {
    TwoOfThreeFit();
    OrderWithTwoPromoted(Some(2), None);
    SortTwo(0, 2);
    assert [2, 0, 1][..2] == [2, 0] && [2, 0, 1][2..] == [1];
    assert DefaultSort([1]) == [1];
  }

  /**
   * Deactivating it keeps child 2 as the previous active index, still shown;
   * the clean-up and a recalculation with unchanged widths keep it so.
   */
  lemma DeactivatingPromotedChild()
    ensures ActiveIndexChanged(State(3, 2, Some(2), None, 1), None) == State(3, 2, None, Some(2), 2)
    ensures ShownIndices(State(3, 2, None, Some(2), 2)) == [0, 2]
    ensures PreviousCleaned(State(3, 2, None, Some(2), 2)) == State(3, 2, None, Some(2), 2)
    ensures Recalculated(State(3, 2, None, Some(2), 2), Sized(250)) == State(3, 2, None, Some(2), 2)
  {
    OrderWithTwoPromoted(None, Some(2));
    SortTwo(0, 2);
    assert [2, 0, 1][..2] == [2, 0];
    ChildIndicesContents(3);
    var m := Sized(250);
    FitsTwo();
  }
}
