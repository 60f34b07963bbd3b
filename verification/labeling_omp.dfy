/** OpenMP component labelling (component_label_omp.cpp).  The row loop of a
    pass is shared among threads in an order the runtime chooses; each
    iteration reads only the previous grid and writes only its own row of
    the copy, and the change flag is an OR reduction over iterations.  The
    model takes the order of iterations of every pass as a parameter and
    shows that no order changes the result. */
module OmpLabeling {
  import opened Base
  import opened Grid
  import opened Partition
  import opened LabelSweep
  import opened SeqLabeling

  /** One parallel pass: iteration `i` writes row `i` of the copy with the
      sequential row rule, in the order the schedule gives.  Whatever the
      schedule, the result is the whole-grid pass. */
  function OmpPass(image: Matrix, L: Matrix, order: seq<int>): (N: Matrix)
    requires Fits(image, L) && Covers(order, |image|)
    ensures N == Sweep(image, L)
  {
    ApplyInOrderAll(L, order, Sweep(image, L));
    ApplyInOrder(L, order, Sweep(image, L))
  }

  /** The `reduction(||: changeFlag)` of the pass: the OR, over iterations
      in schedule order, of "a label in this row dropped". */
  function OmpFlag(L: Matrix, N: Matrix, order: seq<int>): (flag: bool)
    requires |L| == |N| && forall k :: 0 <= k < |order| ==> 0 <= order[k] < |L|
    ensures flag <==> exists k :: 0 <= k < |order| && RowDecreased(L, N, order[k])
  {
    var flags := seq(|order|, k requires 0 <= k < |order| => RowDecreased(L, N, order[k]));
    OrReduceIff(flags);
    assert forall k :: 0 <= k < |order| ==> flags[k] == RowDecreased(L, N, order[k]);
    OrReduce(flags)
  }

  /** The reduced flag is the sequential change flag for every schedule. */
  lemma OmpFlagIsChanged(L: Matrix, N: Matrix, order: seq<int>)
    requires |L| == |N| && Covers(order, |L|)
    ensures OmpFlag(L, N, order) == Changed(L, N)
  {
    var flags := seq(|order|, k requires 0 <= k < |order| => RowDecreased(L, N, order[k]));
    OrReduceIff(flags);
    OrReduceIff(DecreasedFlags(L, N));
    if OrReduce(flags) {
      var k :| 0 <= k < |flags| && flags[k];
      assert DecreasedFlags(L, N)[order[k]];
    }
    if Changed(L, N) {
      var i :| 0 <= i < |L| && DecreasedFlags(L, N)[i];
      assert i in order;
      var k :| 0 <= k < |order| && order[k] == i;
      assert flags[k];
    }
  }

  /** The source's loop with a fresh schedule `schedule(n)` on pass `n`;
      an image with no rows returns at once. */
  method OmpComponentLabeling(image: Matrix, schedule: nat -> seq<int>) returns (labels: Matrix)
    requires Rect(image)
    requires forall n: nat :: Covers(schedule(n), |image|)
    ensures labels == Labeling(image)
    ensures ComponentMinimum(image, labels)
  {
    LabelingIsComponentMinimum(image);
    if |image| == 0 {
      return [];
    }
    labels := InitLabels(image);
    var changed := true;
    var round: nat := 0;
    while changed
      invariant Fits(image, labels) && NonNeg(labels)
      invariant changed ==> Propagate(image, labels) == Labeling(image)
      invariant !changed ==> labels == Labeling(image)
      decreases if changed then SumGrid(labels) + 1 else 0
    {
      var order := schedule(round);
      SumGridNonNeg(labels);
      var newLabel := OmpPass(image, labels, order);
      OmpFlagIsChanged(labels, newLabel, order);
      SumGridDecreases(labels, newLabel, Width(image));
      SweepNonNeg(image, labels);
      changed := OmpFlag(labels, newLabel, order);
      if !changed {
        UnchangedIsIdentity(labels, newLabel, Width(image));
      }
      labels := newLabel;
      SumGridNonNeg(labels);
      round := round + 1;
    }
  }
}
