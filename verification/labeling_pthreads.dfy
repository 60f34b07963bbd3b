/** POSIX-threads component labelling (component_label_pthr.cpp).  Thread
    `t` of `n` owns rows `[rows*t/n, rows*(t+1)/n)`.  Each round has three
    barrier-separated phases over shared state: every thread computes its
    rows of `newLabel` and ORs its local flag into `global_changed`; every
    thread copies its rows back into `label`; thread 0 turns the flag into
    `done` and resets it.  The barriers make each phase see the complete
    result of the one before, so a round is modelled as three whole-grid
    steps, each assembled from the threads' disjoint row ranges. */
module PthreadsLabeling {
  import opened Base
  import opened Grid
  import opened Partition
  import opened LabelSweep
  import opened SeqLabeling

  /** Threads the program starts. */
  const NumThreads: nat := 4

  /** Phase 1 rule: a foreground cell takes its neighbourhood minimum, a
      background cell is written 0. */
  function PthrCell(image: Matrix, L: Matrix, i: int, j: int): (c: int)
    requires Fits(image, L) && 0 <= i < |image| && 0 <= j < Width(image)
    ensures image[i][j] == 1 ==> c == CellUpdate(image, L, i, j)
    ensures image[i][j] != 1 ==> c == 0
  {
    if image[i][j] == 1 then NeighbourMin(image, L, i, j) else 0
  }

  /** What phase 1 computes for every row, whichever thread owns it. */
  function PthrGrid(image: Matrix, L: Matrix): (N: Matrix)
    requires Fits(image, L)
    ensures Fits(image, N)
  {
    seq(|image|, i requires 0 <= i < |image| =>
      seq(Width(image), j requires 0 <= j < Width(image) => PthrCell(image, L, i, j)))
  }

  /** Writing 0 to background cells agrees with the sequential rule, which
      leaves them alone, as long as they already hold 0. */
  lemma PthrGridIsSweep(image: Matrix, L: Matrix)
    requires Fits(image, L) && BackgroundZero(image, L)
    ensures PthrGrid(image, L) == Sweep(image, L)
  {
    var P, S := PthrGrid(image, L), Sweep(image, L);
    forall i | 0 <= i < |image|
      ensures P[i] == S[i]
    {
    }
  }

  /** A thread's local flag for row `i`: some foreground cell found a
      smaller label. */
  predicate RowLowered(image: Matrix, L: Matrix, i: int)
    requires Fits(image, L) && 0 <= i < |image|
  {
    exists j :: 0 <= j < Width(image) && image[i][j] == 1 && NeighbourMin(image, L, i, j) < L[i][j]
  }

  function RowFlags(image: Matrix, L: Matrix): (flags: seq<bool>)
    requires Fits(image, L)
    ensures |flags| == |image|
  {
    seq(|image|, i requires 0 <= i < |image| => RowLowered(image, L, i))
  }

  /** The row flags are exactly the rows where the sequential pass lowers a
      label. */
  lemma RowFlagsAreDecreased(image: Matrix, L: Matrix)
    requires Fits(image, L)
    ensures RowFlags(image, L) == DecreasedFlags(L, Sweep(image, L))
  {
    var N := Sweep(image, L);
    forall i | 0 <= i < |image|
      ensures RowLowered(image, L, i) == RowDecreased(L, N, i)
    {
      if RowLowered(image, L, i) {
        var j :| 0 <= j < Width(image) && image[i][j] == 1 && NeighbourMin(image, L, i, j) < L[i][j];
        assert N[i][j] < L[i][j];
      }
      if RowDecreased(L, N, i) {
        var j :| 0 <= j < |L[i]| && j < |N[i]| && N[i][j] < L[i][j];
        assert image[i][j] == 1 && NeighbourMin(image, L, i, j) < L[i][j];
      }
    }
  }

  /** The shared variables of the program. */
  datatype Shared = Shared(labels: Matrix, newLabels: Matrix, globalChanged: bool, done: bool)

  predicate WellFormed(image: Matrix, s: Shared)
  {
    Fits(image, s.labels) && Fits(image, s.newLabels)
  }

  /** One round of the worker loop, run by `n` threads. */
  function Round(image: Matrix, n: nat, s: Shared): (r: Shared)
    requires n > 0 && WellFormed(image, s)
    ensures WellFormed(image, r)
  {
    var b := EvenBounds(|image|, n);
    EvenTiles(|image|, n);
    // Phase 1: each thread fills its own rows of newLabel.
    var newLabels := WriteTiles(s.newLabels, b, PthrGrid(image, s.labels), n);
    WriteTilesAll(s.newLabels, b, PthrGrid(image, s.labels));
    // ... and ORs its local flag into global_changed under the mutex.
    var global := s.globalChanged || OrReduce(RangeFlags(RowFlags(image, s.labels), b));
    // Phase 2: each thread copies its own rows back.
    var labels := WriteTiles(s.labels, b, newLabels, n);
    WriteTilesAll(s.labels, b, newLabels);
    // Phase 3: thread 0 decides and resets the flag.
    Shared(labels, newLabels, false, !global)
  }

  /** A round started with the flag clear performs one sequential pass,
      for every thread count, and sets `done` exactly when the pass lowered
      nothing. */
  lemma RoundIsPass(image: Matrix, n: nat, s: Shared)
    requires n > 0 && WellFormed(image, s) && BackgroundZero(image, s.labels) && !s.globalChanged
    ensures Round(image, n, s).labels == Sweep(image, s.labels)
    ensures Round(image, n, s).newLabels == Sweep(image, s.labels)
    ensures Round(image, n, s).done == !Changed(s.labels, Sweep(image, s.labels))
    ensures !Round(image, n, s).globalChanged
  {
    var b := EvenBounds(|image|, n);
    EvenTiles(|image|, n);
    PthrGridIsSweep(image, s.labels);
    RowFlagsAreDecreased(image, s.labels);
    OrReduceTiles(RowFlags(image, s.labels), b);
    WriteTilesAll(s.newLabels, b, PthrGrid(image, s.labels));
    WriteTilesAll(s.labels, b, PthrGrid(image, s.labels));
  }

  function ZeroGrid(rows: nat, cols: nat): (z: Matrix)
    ensures IsMatrix(z, rows, cols) && NonNeg(z)
  {
    seq(rows, i => seq(cols, j => 0))
  }

  /** `main` followed by the workers: the shared state starts with initial
      labels, a zero `newLabel` and both flags clear, and rounds run until
      thread 0 sets `done`.  `main` reads the width of row 0, so the image
      has a row; the barrier needs at least one thread. */
  method PthreadsComponentLabeling(image: Matrix, n: nat) returns (labels: Matrix)
    requires Rect(image) && |image| > 0 && n > 0
    ensures labels == Labeling(image)
    ensures ComponentMinimum(image, labels)
  {
    LabelingIsComponentMinimum(image);
    var s := Shared(InitLabels(image), ZeroGrid(|image|, Width(image)), false, false);
    InitInvariant(image);
    while !s.done
      invariant WellFormed(image, s) && NonNeg(s.labels) && BackgroundZero(image, s.labels)
      invariant !s.globalChanged
      invariant !s.done ==> Propagate(image, s.labels) == Labeling(image)
      invariant s.done ==> s.labels == Labeling(image)
      decreases if s.done then 0 else SumGrid(s.labels) + 1
    {
      var L := s.labels;
      var N := Sweep(image, L);
      RoundIsPass(image, n, s);
      SumGridNonNeg(L);
      SumGridDecreases(L, N, Width(image));
      SweepNonNeg(image, L);
      if !Changed(L, N) {
        UnchangedIsIdentity(L, N, Width(image));
      }
      s := Round(image, n, s);
      SumGridNonNeg(s.labels);
    }
    labels := s.labels;
  }

  /** The program as shipped: the hard-coded image on four threads. */
  method PthreadsExample() returns (labels: Matrix)
    ensures labels == ExampleLabels
  {
    ExampleLabeling();
    labels := PthreadsComponentLabeling(ExampleImage, NumThreads);
  }
}
