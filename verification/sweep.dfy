/** One synchronous (Jacobi) pass of minimum-label propagation: every
    foreground cell takes the least of its own label and the labels of its
    in-bounds foreground 4-neighbours, all read from the previous grid. */
module LabelSweep {
  import opened Base
  import opened Grid
  import opened Partition

  /** (p, q) is an in-bounds foreground 4-neighbour of (i, j). */
  predicate FgNeighbour(image: Matrix, i: int, j: int, p: int, q: int)
  {
    Adjacent(Cell(i, j), Cell(p, q)) && Fg(image, Cell(p, q))
  }

  /** The least of the cell's own label and its foreground neighbours'
      labels, visiting top, left, bottom and right in turn. */
  function NeighbourMin(image: Matrix, L: Matrix, i: int, j: int): (m: int)
    requires Fits(image, L) && 0 <= i < |image| && 0 <= j < Width(image)
    ensures m <= L[i][j]
  {
    var own := L[i][j];
    var top := if i > 0 && image[i - 1][j] == 1 then Min(own, L[i - 1][j]) else own;
    var left := if j > 0 && image[i][j - 1] == 1 then Min(top, L[i][j - 1]) else top;
    var bottom := if i < |image| - 1 && image[i + 1][j] == 1 then Min(left, L[i + 1][j]) else left;
    if j < Width(image) - 1 && image[i][j + 1] == 1 then Min(bottom, L[i][j + 1]) else bottom
  }

  /** The neighbourhood minimum as a chain of running-minimum steps. */
  lemma NeighbourMinPicks(image: Matrix, L: Matrix, i: int, j: int)
    requires Fits(image, L) && 0 <= i < |image| && 0 <= j < Width(image)
    ensures NeighbourMin(image, L, i, j) ==
            Pick(j < Width(image) - 1 && image[i][j + 1] == 1,
              Pick(i < |image| - 1 && image[i + 1][j] == 1,
                Pick(j > 0 && image[i][j - 1] == 1,
                  Pick(i > 0 && image[i - 1][j] == 1, L[i][j], At(L, i - 1, j)),
                  At(L, i, j - 1)),
                At(L, i + 1, j)),
              At(L, i, j + 1))
  {
  }

  /** The neighbourhood minimum is a lower bound of the cell's and every
      foreground neighbour's label, and is one of those labels. */
  lemma NeighbourMinIsMinimum(image: Matrix, L: Matrix, i: int, j: int)
    requires Fits(image, L) && 0 <= i < |image| && 0 <= j < Width(image)
    ensures forall p, q :: FgNeighbour(image, i, j, p, q) ==> NeighbourMin(image, L, i, j) <= L[p][q]
    ensures NeighbourMin(image, L, i, j) == L[i][j]
            || exists p, q :: FgNeighbour(image, i, j, p, q) && NeighbourMin(image, L, i, j) == L[p][q]
  {
    var m := NeighbourMin(image, L, i, j);
    if m != L[i][j] {
      if i > 0 && image[i - 1][j] == 1 && m == L[i - 1][j] {
        assert FgNeighbour(image, i, j, i - 1, j);
      } else if j > 0 && image[i][j - 1] == 1 && m == L[i][j - 1] {
        assert FgNeighbour(image, i, j, i, j - 1);
      } else if i < |image| - 1 && image[i + 1][j] == 1 && m == L[i + 1][j] {
        assert FgNeighbour(image, i, j, i + 1, j);
      } else {
        assert FgNeighbour(image, i, j, i, j + 1);
      }
    }
  }

  /** The sequential rule: a foreground cell's copy is overwritten only when
      a smaller label is found; every other cell keeps its label. */
  function CellUpdate(image: Matrix, L: Matrix, i: int, j: int): (u: int)
    requires Fits(image, L) && 0 <= i < |image| && 0 <= j < Width(image)
    ensures u <= L[i][j]
    ensures image[i][j] != 1 ==> u == L[i][j]
    ensures image[i][j] == 1 ==> u == NeighbourMin(image, L, i, j)
  {
    if image[i][j] == 1 then
      var m := NeighbourMin(image, L, i, j);
      if m < L[i][j] then m else L[i][j]
    else L[i][j]
  }

  function SweepRow(image: Matrix, L: Matrix, i: int): (r: seq<int>)
    requires Fits(image, L) && 0 <= i < |image|
    ensures |r| == Width(image)
  {
    seq(Width(image), j requires 0 <= j < Width(image) => CellUpdate(image, L, i, j))
  }

  /** One whole-grid pass, reading only `L`. */
  function Sweep(image: Matrix, L: Matrix): (N: Matrix)
    requires Fits(image, L)
    ensures Fits(image, N)
    ensures forall i, j :: 0 <= i < |image| && 0 <= j < Width(image) ==>
              N[i][j] <= L[i][j] && (image[i][j] != 1 ==> N[i][j] == L[i][j])
  {
    seq(|image|, i requires 0 <= i < |image| => SweepRow(image, L, i))
  }

  /** Declarative reading of one pass: a foreground cell's new label is the
      minimum of its own and its foreground neighbours' old labels. */
  lemma SweepIsNeighbourhoodMin(image: Matrix, L: Matrix, i: int, j: int)
    requires Fits(image, L) && 0 <= i < |image| && 0 <= j < Width(image) && image[i][j] == 1
    ensures Sweep(image, L)[i][j] <= L[i][j]
    ensures forall p, q :: FgNeighbour(image, i, j, p, q) ==> Sweep(image, L)[i][j] <= L[p][q]
    ensures Sweep(image, L)[i][j] == L[i][j]
            || exists p, q :: FgNeighbour(image, i, j, p, q) && Sweep(image, L)[i][j] == L[p][q]
  {
    NeighbourMinIsMinimum(image, L, i, j);
  }

  /** A pass only ever copies existing labels, so non-negative labels stay
      non-negative. */
  lemma SweepNonNeg(image: Matrix, L: Matrix)
    requires Fits(image, L) && NonNeg(L)
    ensures NonNeg(Sweep(image, L))
  {
    var N := Sweep(image, L);
    forall i, j | 0 <= i < |N| && 0 <= j < |N[i]|
      ensures N[i][j] >= 0
    {
      if image[i][j] == 1 {
        NeighbourMinIsMinimum(image, L, i, j);
      }
    }
  }

  /** Cells of row `i` whose label dropped. */
  predicate RowDecreased(L: Matrix, N: Matrix, i: int)
    requires 0 <= i < |L| && 0 <= i < |N|
  {
    exists j :: 0 <= j < |L[i]| && j < |N[i]| && N[i][j] < L[i][j]
  }

  function DecreasedFlags(L: Matrix, N: Matrix): (flags: seq<bool>)
    requires |L| == |N|
    ensures |flags| == |L|
  {
    seq(|L|, i requires 0 <= i < |L| => RowDecreased(L, N, i))
  }

  /** The change flag: OR over rows of "some label in the row dropped". */
  function Changed(L: Matrix, N: Matrix): bool
    requires |L| == |N|
  {
    OrReduce(DecreasedFlags(L, N))
  }

  /** The flag is raised exactly when some cell's label dropped. */
  lemma ChangedIff(L: Matrix, N: Matrix)
    requires |L| == |N|
    ensures Changed(L, N) <==>
            exists i, j :: 0 <= i < |L| && 0 <= j < |L[i]| && j < |N[i]| && N[i][j] < L[i][j]
  {
    OrReduceIff(DecreasedFlags(L, N));
    if Changed(L, N) {
      var i :| 0 <= i < |L| && DecreasedFlags(L, N)[i];
      var j :| 0 <= j < |L[i]| && j < |N[i]| && N[i][j] < L[i][j];
    }
    if i, j :| 0 <= i < |L| && 0 <= j < |L[i]| && j < |N[i]| && N[i][j] < L[i][j] {
      assert DecreasedFlags(L, N)[i];
    }
  }

  /** Sum of every label in the grid. */
  function SumGrid(L: Matrix): int
  {
    Sum(seq(|L|, i requires 0 <= i < |L| => Sum(L[i])))
  }

  lemma SumGridNonNeg(L: Matrix)
    requires NonNeg(L)
    ensures SumGrid(L) >= 0
  {
    var rows := seq(|L|, i requires 0 <= i < |L| => Sum(L[i]));
    forall i | 0 <= i < |L|
      ensures rows[i] >= 0
    {
      SumNonNeg(L[i]);
    }
    SumNonNeg(rows);
  }

  /** If no label grows, the total does not grow, and it strictly drops when
      the change flag is raised. */
  lemma SumGridDecreases(L: Matrix, N: Matrix, cols: nat)
    requires IsMatrix(L, |L|, cols) && IsMatrix(N, |L|, cols)
    requires forall i, j :: 0 <= i < |L| && 0 <= j < cols ==> N[i][j] <= L[i][j]
    ensures SumGrid(N) <= SumGrid(L)
    ensures Changed(L, N) ==> SumGrid(N) < SumGrid(L)
  {
    var rl := seq(|L|, i requires 0 <= i < |L| => Sum(L[i]));
    var rn := seq(|N|, i requires 0 <= i < |N| => Sum(N[i]));
    forall i | 0 <= i < |L|
      ensures rn[i] <= rl[i]
      ensures RowDecreased(L, N, i) ==> rn[i] < rl[i]
    {
      SumMono(N[i], L[i]);
    }
    SumMono(rn, rl);
    ChangedIff(L, N);
    if Changed(L, N) {
      var i, j :| 0 <= i < |L| && 0 <= j < |L[i]| && j < |N[i]| && N[i][j] < L[i][j];
      assert RowDecreased(L, N, i);
    }
  }

  /** A pass that lowers nothing leaves the grid as it was. */
  lemma UnchangedIsIdentity(L: Matrix, N: Matrix, cols: nat)
    requires IsMatrix(L, |L|, cols) && IsMatrix(N, |L|, cols)
    requires forall i, j :: 0 <= i < |L| && 0 <= j < cols ==> N[i][j] <= L[i][j]
    requires !Changed(L, N)
    ensures N == L
  {
    ChangedIff(L, N);
    forall i | 0 <= i < |L|
      ensures N[i] == L[i]
    {
    }
  }
}
