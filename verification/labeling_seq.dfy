/** Sequential component labelling (component_label_seq.cpp): initial labels
    are linear indices, then whole-grid passes repeat until no label drops.
    The result gives every foreground cell the smallest linear index in its
    4-connected foreground component and every background cell 0. */
module SeqLabeling {
  import opened Base
  import opened Grid
  import opened LabelSweep

  /** Foreground cell (i, j) starts with its own index `i*cols + j`,
      background with 0. */
  function InitLabels(image: Matrix): (L: Matrix)
    requires Rect(image)
    ensures Fits(image, L) && NonNeg(L)
  {
    var cols := Width(image);
    seq(|image|, i requires 0 <= i < |image| =>
      seq(cols, j requires 0 <= j < cols =>
        if image[i][j] == 1 then i * cols + j else 0))
  }

  /** Repeat passes until one lowers no label; the last pass is returned.
      Terminates because a pass that lowers a label lowers the label sum. */
  function Propagate(image: Matrix, L: Matrix): (R: Matrix)
    requires Fits(image, L) && NonNeg(L)
    ensures Fits(image, R) && NonNeg(R)
    ensures Sweep(image, R) == R
    decreases SumGrid(L)
  {
    var N := Sweep(image, L);
    SweepNonNeg(image, L);
    SumGridNonNeg(L);
    SumGridDecreases(L, N, Width(image));
    if Changed(L, N) then
      Propagate(image, N)
    else
      UnchangedIsIdentity(L, N, Width(image));
      N
  }

  /** The labelling of an image; an image with no rows has no labels. */
  function Labeling(image: Matrix): (R: Matrix)
    requires Rect(image)
    ensures Fits(image, R)
  {
    if |image| == 0 then [] else Propagate(image, InitLabels(image))
  }

  /** The source's loop: copy, sweep, raise `changed` on any drop, repeat. */
  method SequentialComponentLabeling(image: Matrix) returns (labels: Matrix)
    requires Rect(image)
    ensures labels == Labeling(image)
    ensures ComponentMinimum(image, labels)
  {
    LabelingIsComponentMinimum(image);
    if |image| == 0 {
      return [];
    }
    labels := InitLabels(image);
    var changed := true;
    while changed
      invariant Fits(image, labels) && NonNeg(labels)
      invariant changed ==> Propagate(image, labels) == Labeling(image)
      invariant !changed ==> labels == Labeling(image)
      decreases if changed then SumGrid(labels) + 1 else 0
    {
      SumGridNonNeg(labels);
      var newLabel := Sweep(image, labels);
      SumGridDecreases(labels, newLabel, Width(image));
      SweepNonNeg(image, labels);
      changed := Changed(labels, newLabel);
      if !changed {
        UnchangedIsIdentity(labels, newLabel, Width(image));
      }
      labels := newLabel;
      SumGridNonNeg(labels);
    }
  }

  // ---------------------------------------------------------------------------
  // Invariants kept by every pass.

  predicate BackgroundZero(image: Matrix, L: Matrix)
    requires Fits(image, L)
  {
    forall i, j :: 0 <= i < |image| && 0 <= j < Width(image) && image[i][j] != 1 ==> L[i][j] == 0
  }

  /** Each foreground label is the index of a cell the cell reaches. */
  ghost predicate Sound(image: Matrix, L: Matrix)
    requires Fits(image, L)
  {
    forall i, j :: 0 <= i < |image| && 0 <= j < Width(image) && image[i][j] == 1 ==>
      exists b :: Connected(image, Cell(i, j), b) && L[i][j] == Index(Width(image), b)
  }

  /** No foreground label exceeds the cell's own index. */
  predicate Bounded(image: Matrix, L: Matrix)
    requires Fits(image, L)
  {
    forall i, j :: 0 <= i < |image| && 0 <= j < Width(image) && image[i][j] == 1 ==>
      L[i][j] <= i * Width(image) + j
  }

  ghost predicate Invariant(image: Matrix, L: Matrix)
  {
    Fits(image, L) && NonNeg(L) && BackgroundZero(image, L) && Sound(image, L) && Bounded(image, L)
  }

  /** The initial labels satisfy the invariant, and no two foreground cells
      share an initial label. */
  lemma InitInvariant(image: Matrix)
    requires Rect(image)
    ensures Invariant(image, InitLabels(image))
    ensures forall i, j, p, q ::
              (0 <= i < |image| && 0 <= j < Width(image) && 0 <= p < |image| && 0 <= q < Width(image) &&
               image[i][j] == 1 && image[p][q] == 1 && InitLabels(image)[i][j] == InitLabels(image)[p][q])
              ==> i == p && j == q
  {
    var L := InitLabels(image);
    var cols := Width(image);
    forall i, j | 0 <= i < |image| && 0 <= j < cols && image[i][j] == 1
      ensures exists b :: Connected(image, Cell(i, j), b) && L[i][j] == Index(cols, b)
    {
      ConnectedRefl(image, Cell(i, j));
      assert L[i][j] == Index(cols, Cell(i, j));
    }
    forall i, j, p, q | 0 <= i < |image| && 0 <= j < cols && 0 <= p < |image| && 0 <= q < cols &&
                        image[i][j] == 1 && image[p][q] == 1 && L[i][j] == L[p][q]
      ensures i == p && j == q
    {
      RowMajorUnique(i, j, p, q, cols);
    }
  }

  /** A swept foreground label is still the index of a cell the cell
      reaches: either its own old label or a foreground neighbour's. */
  lemma SweepSoundCell(image: Matrix, L: Matrix, i: int, j: int)
    requires Invariant(image, L)
    requires 0 <= i < |image| && 0 <= j < Width(image) && image[i][j] == 1
    ensures exists b :: Connected(image, Cell(i, j), b) && Sweep(image, L)[i][j] == Index(Width(image), b)
  {
    var N := Sweep(image, L);
    var cols := Width(image);
    SweepIsNeighbourhoodMin(image, L, i, j);
    if N[i][j] == L[i][j] {
      var b :| Connected(image, Cell(i, j), b) && L[i][j] == Index(cols, b);
    } else {
      var p, q :| FgNeighbour(image, i, j, p, q) && N[i][j] == L[p][q];
      var b :| Connected(image, Cell(p, q), b) && L[p][q] == Index(cols, b);
      ConnectedStep(image, Cell(i, j), Cell(p, q), b);
    }
  }

  /** One pass keeps every invariant. */
  lemma SweepInvariant(image: Matrix, L: Matrix)
    requires Invariant(image, L)
    ensures Invariant(image, Sweep(image, L))
  {
    var N := Sweep(image, L);
    SweepNonNeg(image, L);
    forall i, j | 0 <= i < |image| && 0 <= j < Width(image) && image[i][j] == 1
      ensures exists b :: Connected(image, Cell(i, j), b) && N[i][j] == Index(Width(image), b)
    {
      SweepSoundCell(image, L, i, j);
    }
    assert Sound(image, N);
    assert Bounded(image, N);
  }

  lemma {:induction false} PropagateInvariant(image: Matrix, L: Matrix)
    requires Invariant(image, L)
    ensures Invariant(image, Propagate(image, L))
    decreases SumGrid(L)
  {
    var N := Sweep(image, L);
    SweepInvariant(image, L);
    SumGridNonNeg(L);
    SumGridDecreases(L, N, Width(image));
    if Changed(L, N) {
      PropagateInvariant(image, N);
    }
  }

  /** Propagating from an already converged grid returns it unchanged. */
  lemma PropagateFixpoint(image: Matrix, L: Matrix)
    requires Fits(image, L) && NonNeg(L) && Sweep(image, L) == L
    ensures Propagate(image, L) == L
    ensures !Changed(L, Sweep(image, L))
  {
    ChangedIff(L, Sweep(image, L));
  }

  // ---------------------------------------------------------------------------
  // What a converged grid means.

  /** At a fixpoint two adjacent foreground cells carry the same label. */
  lemma FixpointNeighboursEqual(image: Matrix, R: Matrix, i: int, j: int, p: int, q: int)
    requires Fits(image, R) && Sweep(image, R) == R
    requires 0 <= i < |image| && 0 <= j < Width(image) && image[i][j] == 1
    requires FgNeighbour(image, i, j, p, q)
    ensures R[i][j] == R[p][q]
  {
    NeighbourMinIsMinimum(image, R, i, j);
    assert R[i][j] == Sweep(image, R)[i][j];
    assert FgNeighbour(image, p, q, i, j);
    NeighbourMinIsMinimum(image, R, p, q);
    assert R[p][q] == Sweep(image, R)[p][q];
  }

  lemma {:induction false} FixpointConstantOnPath(image: Matrix, R: Matrix, path: seq<Cell>, k: nat)
    requires Fits(image, R) && Sweep(image, R) == R
    requires IsPath(image, path) && k < |path|
    ensures R[path[0].row][path[0].col] == R[path[k].row][path[k].col]
    decreases k
  {
    if k > 0 {
      FixpointConstantOnPath(image, R, path, k - 1);
      var a, b := path[k - 1], path[k];
      assert Fg(image, a) && Fg(image, b) && Adjacent(a, b);
      FixpointNeighboursEqual(image, R, a.row, a.col, b.row, b.col);
    }
  }

  /** Connected foreground cells carry the same label at a fixpoint. */
  lemma FixpointConstantOnComponent(image: Matrix, R: Matrix, a: Cell, d: Cell)
    requires Fits(image, R) && Sweep(image, R) == R && Connected(image, a, d)
    ensures InBounds(image, a) && InBounds(image, d)
    ensures R[a.row][a.col] == R[d.row][d.col]
  {
    var path :| IsPath(image, path) && path[0] == a && path[|path| - 1] == d;
    assert Fg(image, path[0]) && Fg(image, path[|path| - 1]);
    FixpointConstantOnPath(image, R, path, |path| - 1);
  }

  /** Every foreground cell carries the smallest index in its component:
      the index of a cell it reaches, no larger than the index of any cell
      it reaches.  Adjacent foreground cells agree, background is 0. */
  ghost predicate ComponentMinimum(image: Matrix, R: Matrix)
    requires Fits(image, R)
  {
    var cols := Width(image);
    && BackgroundZero(image, R)
    && (forall i, j, p, q ::
          (0 <= i < |image| && 0 <= j < cols && image[i][j] == 1 && FgNeighbour(image, i, j, p, q))
          ==> R[i][j] == R[p][q])
    && forall i, j :: 0 <= i < |image| && 0 <= j < cols && image[i][j] == 1 ==>
         && (exists b :: Connected(image, Cell(i, j), b) && R[i][j] == Index(cols, b))
         && (forall d :: Connected(image, Cell(i, j), d) ==> R[i][j] <= Index(cols, d))
  }

  lemma FixpointIsComponentMinimum(image: Matrix, R: Matrix)
    requires Invariant(image, R) && Sweep(image, R) == R
    ensures ComponentMinimum(image, R)
  {
    var cols := Width(image);
    forall i, j, p, q | 0 <= i < |image| && 0 <= j < cols && image[i][j] == 1 &&
                        FgNeighbour(image, i, j, p, q)
      ensures R[i][j] == R[p][q]
    {
      FixpointNeighboursEqual(image, R, i, j, p, q);
    }
    forall i, j, d | 0 <= i < |image| && 0 <= j < cols && image[i][j] == 1 &&
                     Connected(image, Cell(i, j), d)
      ensures R[i][j] <= Index(cols, d)
    {
      FixpointConstantOnComponent(image, R, Cell(i, j), d);
      var path :| IsPath(image, path) && path[0] == Cell(i, j) && path[|path| - 1] == d;
      assert Fg(image, path[|path| - 1]);
    }
  }

  /** The labelling is correct: each foreground cell ends with the least
      linear index of its 4-connected foreground component. */
  lemma LabelingIsComponentMinimum(image: Matrix)
    requires Rect(image)
    ensures ComponentMinimum(image, Labeling(image))
  {
    if |image| > 0 {
      InitInvariant(image);
      PropagateInvariant(image, InitLabels(image));
      FixpointIsComponentMinimum(image, Labeling(image));
    }
  }

  /** Two foreground cells end with the same label exactly when they are in
      the same component. */
  lemma LabelsIdentifyComponents(image: Matrix, a: Cell, d: Cell)
    requires Rect(image) && Fg(image, a) && Fg(image, d)
    ensures Labeling(image)[a.row][a.col] == Labeling(image)[d.row][d.col] <==> Connected(image, a, d)
  {
    var R := Labeling(image);
    InitInvariant(image);
    PropagateInvariant(image, InitLabels(image));
    LabelingIsComponentMinimum(image);
    if Connected(image, a, d) {
      FixpointConstantOnComponent(image, R, a, d);
    }
    if R[a.row][a.col] == R[d.row][d.col] {
      SoundSameLabelConnected(image, R, a, d);
    }
  }

  /** Under a sound labelling, two foreground cells that share a label both
      reach the cell that label names, so they are connected. */
  lemma SoundSameLabelConnected(image: Matrix, R: Matrix, a: Cell, d: Cell)
    requires Fits(image, R) && Sound(image, R) && Fg(image, a) && Fg(image, d)
    requires R[a.row][a.col] == R[d.row][d.col]
    ensures Connected(image, a, d)
  {
    var cols := Width(image);
    var x :| Connected(image, a, x) && R[a.row][a.col] == Index(cols, x);
    var y :| Connected(image, d, y) && R[d.row][d.col] == Index(cols, y);
    var px :| IsPath(image, px) && px[0] == a && px[|px| - 1] == x;
    var py :| IsPath(image, py) && py[0] == d && py[|py| - 1] == y;
    assert Fg(image, px[|px| - 1]) && Fg(image, py[|py| - 1]);
    RowMajorUnique(x.row, x.col, y.row, y.col, cols);
    ConnectedSym(image, d, y);
    ConnectedTrans(image, a, x, d);
  }

  // ---------------------------------------------------------------------------
  // The example image hard-coded in every labelling program.

  const ExampleImage: Matrix := [
    [0, 1, 0, 0, 1],
    [1, 1, 0, 1, 1],
    [0, 0, 0, 0, 0],
    [1, 0, 1, 1, 1]
  ]

  const ExampleLabels: Matrix := [
    [0, 1, 0, 0, 4],
    [1, 1, 0, 4, 4],
    [0, 0, 0, 0, 0],
    [15, 0, 17, 17, 17]
  ]

  const ExampleInit: Matrix := [
    [0, 1, 0, 0, 4],
    [5, 6, 0, 8, 9],
    [0, 0, 0, 0, 0],
    [15, 0, 17, 18, 19]
  ]

  const ExamplePass1: Matrix := [
    [0, 1, 0, 0, 4],
    [5, 1, 0, 8, 4],
    [0, 0, 0, 0, 0],
    [15, 0, 17, 17, 18]
  ]

  /** Two 4 × 5 grids that agree cell by cell are equal. */
  lemma SameGrid(A: Matrix, B: Matrix)
    requires IsMatrix(A, 4, 5) && IsMatrix(B, 4, 5)
    requires forall i, j :: 0 <= i < 4 && 0 <= j < 5 ==> A[i][j] == B[i][j]
    ensures A == B
  {
    forall i | 0 <= i < 4
      ensures A[i] == B[i]
    {
    }
  }

  lemma ExampleInitLabels()
    ensures InitLabels(ExampleImage) == ExampleInit
  {
    var L := InitLabels(ExampleImage);
    assert L[0] == ExampleInit[0] && L[1] == ExampleInit[1];
    assert L[2] == ExampleInit[2] && L[3] == ExampleInit[3];
    SameGrid(L, ExampleInit);
  }

  /** Row `i` of a pass over the example image, from its five cell updates. */
  lemma ExampleRow(L: Matrix, i: nat, row: seq<int>)
    requires Fits(ExampleImage, L) && i < 4 && |row| == 5
    requires CellUpdate(ExampleImage, L, i, 0) == row[0] && CellUpdate(ExampleImage, L, i, 1) == row[1]
    requires CellUpdate(ExampleImage, L, i, 2) == row[2] && CellUpdate(ExampleImage, L, i, 3) == row[3]
    requires CellUpdate(ExampleImage, L, i, 4) == row[4]
    ensures Sweep(ExampleImage, L)[i] == row
  {
    var r := Sweep(ExampleImage, L)[i];
    forall j | 0 <= j < 5
      ensures r[j] == row[j]
    {
      assert j == 0 || j == 1 || j == 2 || j == 3 || j == 4;
    }
  }

  lemma ExampleFirstPass()
    ensures Sweep(ExampleImage, ExampleInit) == ExamplePass1
  {
    var N := Sweep(ExampleImage, ExampleInit);
    ExampleRow(ExampleInit, 0, ExamplePass1[0]);
    ExampleRow(ExampleInit, 1, ExamplePass1[1]);
    ExampleRow(ExampleInit, 2, ExamplePass1[2]);
    ExampleRow(ExampleInit, 3, ExamplePass1[3]);
    SameGrid(N, ExamplePass1);
  }

  lemma ExampleSecondPass()
    ensures Sweep(ExampleImage, ExamplePass1) == ExampleLabels
  {
    var N := Sweep(ExampleImage, ExamplePass1);
    ExampleRow(ExamplePass1, 0, ExampleLabels[0]);
    ExampleRow(ExamplePass1, 1, ExampleLabels[1]);
    ExampleRow(ExamplePass1, 2, ExampleLabels[2]);
    ExampleRow(ExamplePass1, 3, ExampleLabels[3]);
    SameGrid(N, ExampleLabels);
  }

  lemma ExampleConverged()
    ensures Sweep(ExampleImage, ExampleLabels) == ExampleLabels
  {
    var N := Sweep(ExampleImage, ExampleLabels);
    ExampleRow(ExampleLabels, 0, ExampleLabels[0]);
    ExampleRow(ExampleLabels, 1, ExampleLabels[1]);
    ExampleRow(ExampleLabels, 2, ExampleLabels[2]);
    ExampleRow(ExampleLabels, 3, ExampleLabels[3]);
    SameGrid(N, ExampleLabels);
  }

  /** A pass that lowers some label hands the rest of the loop its result. */
  lemma PropagateStep(image: Matrix, L: Matrix)
    requires Fits(image, L) && NonNeg(L) && Changed(L, Sweep(image, L))
    ensures NonNeg(Sweep(image, L))
    ensures Propagate(image, L) == Propagate(image, Sweep(image, L))
  {
    SweepNonNeg(image, L);
  }

  /** The hard-coded image converges after two lowering passes to its
      component minima: {(0,1),(1,0),(1,1)} gets 1, {(0,4),(1,3),(1,4)}
      gets 4, (3,0) keeps 15 and {(3,2),(3,3),(3,4)} gets 17. */
  lemma ExampleLabeling()
    ensures Labeling(ExampleImage) == ExampleLabels
  {
    var image := ExampleImage;
    ExampleInitLabels();
    ExampleFirstPass();
    ChangedIff(ExampleInit, ExamplePass1);
    assert ExamplePass1[1][1] < ExampleInit[1][1];
    PropagateStep(image, ExampleInit);
    ExampleSecondPass();
    ChangedIff(ExamplePass1, ExampleLabels);
    assert ExampleLabels[1][0] < ExamplePass1[1][0];
    PropagateStep(image, ExamplePass1);
    ExampleConverged();
    PropagateFixpoint(image, ExampleLabels);
  }
}
