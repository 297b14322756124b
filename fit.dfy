/**
 * The fit calculation of `recalculateAmountShownChildren`: starting from the
 * width of the overflow button, the widths of the shadow children are added
 * one by one in priority order, and every child after which the running
 * total still fits the container is counted. Unmounted shadow children
 * (missing widths) are skipped.
 */
module Fit {
  import opened Options

  /** The widths of the mounted shadow children, in order. */
  function Measured(widths: seq<Option<nat>>): seq<nat>
  {
    if widths == [] then []
    else (if widths[0].Some? then [widths[0].value] else []) + Measured(widths[1..])
  }

  function Sum(s: seq<nat>): nat
  {
    if s == [] then 0 else s[0] + Sum(s[1..])
  }

  /**
   * What the loop counts from a running total `acc` on: every mounted child
   * whose width, added to the running total, still fits within `limit`.
   */
  function Greedy(widths: seq<Option<nat>>, acc: nat, limit: nat): nat
  {
    if widths == [] then 0
    else match widths[0]
      case None => Greedy(widths[1..], acc, limit)
      case Some(w) => (if acc + w <= limit then 1 else 0) + Greedy(widths[1..], acc + w, limit)
  }

  /** The count `currentAmountShownChildren` reaches at the end of the loop. */
  function FitCount(widths: seq<Option<nat>>, buttonWidth: nat, containerWidth: nat): nat
  {
    Greedy(widths, buttonWidth, containerWidth)
  }

  /** The running-total condition for a list of mounted widths that starts with w. */
  lemma PrefixSumsAfterFirst(w: nat, p': seq<nat>)
    ensures forall j :: 1 <= j <= |p'| + 1 ==> Sum(([w] + p')[..j]) == w + Sum(p'[..j - 1])
  {
    forall j | 1 <= j <= |p'| + 1
      ensures Sum(([w] + p')[..j]) == w + Sum(p'[..j - 1])
    {
      var q := ([w] + p')[..j];
      assert q[0] == w && q[1..] == p'[..j - 1];
    }
  }

  /** One step of the loop over a mounted child of width w. */
  lemma GreedyStep(w: nat, p': seq<nat>, k': nat, acc: nat, limit: nat)
    requires k' <= |p'|
    requires forall j :: 1 <= j <= |p'| ==> (acc + w + Sum(p'[..j]) <= limit <==> j <= k')
    ensures (if acc + w <= limit then 1 else 0) + k' <= |p'| + 1
    ensures forall j :: 1 <= j <= |p'| + 1 ==>
      (acc + Sum(([w] + p')[..j]) <= limit <==> j <= (if acc + w <= limit then 1 else 0) + k')
  {
    PrefixSumsAfterFirst(w, p');
    assert Sum(p'[..0]) == 0;
    if acc + w > limit && |p'| >= 1 {
      assert !(acc + w + Sum(p'[..1]) <= limit);
      assert k' == 0;
    }
  }

  lemma {:induction false} GreedyIsLongestFittingPrefix(widths: seq<Option<nat>>, acc: nat, limit: nat)
    ensures Greedy(widths, acc, limit) <= |Measured(widths)|
    ensures forall j :: 1 <= j <= |Measured(widths)| ==>
      (acc + Sum(Measured(widths)[..j]) <= limit <==> j <= Greedy(widths, acc, limit))
  {
    if widths != [] {
      match widths[0]
      case None =>
        GreedyIsLongestFittingPrefix(widths[1..], acc, limit);
        assert Measured(widths) == Measured(widths[1..]);
      case Some(w) =>
        GreedyIsLongestFittingPrefix(widths[1..], acc + w, limit);
        assert Measured(widths) == [w] + Measured(widths[1..]);
        GreedyStep(w, Measured(widths[1..]), Greedy(widths[1..], acc + w, limit), acc, limit);
    }
  }

  /**
   * The count is at most the number of mounted children, and a prefix of
   * k >= 1 of their widths fits together with the overflow button exactly
   * when k is at most the count: the count is the number of fitting prefixes,
   * which is the length of the longest one. In particular no child that fails
   * to fit is ever followed by one that is counted.
   */
  lemma FitCountIsLongestFittingPrefix(widths: seq<Option<nat>>, buttonWidth: nat, containerWidth: nat)
    ensures FitCount(widths, buttonWidth, containerWidth) <= |Measured(widths)|
    ensures forall j :: 1 <= j <= |Measured(widths)| ==>
      (buttonWidth + Sum(Measured(widths)[..j]) <= containerWidth <==> j <= FitCount(widths, buttonWidth, containerWidth))
  {
    GreedyIsLongestFittingPrefix(widths, buttonWidth, containerWidth);
  }

  /** A wider container never fits fewer children. */
  lemma FitCountMonotone(widths: seq<Option<nat>>, buttonWidth: nat, narrow: nat, wide: nat)
    requires narrow <= wide
    ensures FitCount(widths, buttonWidth, narrow) <= FitCount(widths, buttonWidth, wide)
  {
    var k := FitCount(widths, buttonWidth, narrow);
    FitCountIsLongestFittingPrefix(widths, buttonWidth, narrow);
    FitCountIsLongestFittingPrefix(widths, buttonWidth, wide);
    if k >= 1 {
      assert buttonWidth + Sum(Measured(widths)[..k]) <= narrow;
    }
  }

  /** The `forEach` loop of `recalculateAmountShownChildren` (lines 105-122). */
  method CountFitting(widths: seq<Option<nat>>, buttonWidth: nat, containerWidth: nat) returns (count: nat)
    ensures count == FitCount(widths, buttonWidth, containerWidth)
  {
    count := 0;
    var combined := buttonWidth;
    var i := 0;
    while i < |widths|
      invariant 0 <= i <= |widths|
      invariant count + Greedy(widths[i..], combined, containerWidth) == FitCount(widths, buttonWidth, containerWidth)
    {
      match widths[i] {
        case None =>
        case Some(w) =>
          combined := combined + w;
          if combined <= containerWidth {
            count := count + 1;
          }
      }
      i := i + 1;
    }
  }
}
