/** Binary images and label grids over the same rows × cols shape, their
    cells, 4-adjacency, and connectivity through foreground cells. */
module Grid {
  import opened Base

  /** Number of columns: the width of the first row, 0 for no rows. */
  function Width(g: Matrix): nat
  {
    if |g| == 0 then 0 else |g[0]|
  }

  /** Every row is as wide as the first. */
  predicate Rect(g: Matrix)
  {
    IsMatrix(g, |g|, Width(g))
  }

  /** `L` is a grid over the same rows and columns as `image`. */
  predicate Fits(image: Matrix, L: Matrix)
  {
    Rect(image) && IsMatrix(L, |image|, Width(image))
  }

  predicate NonNeg(L: Matrix)
  {
    forall i, j :: 0 <= i < |L| && 0 <= j < |L[i]| ==> L[i][j] >= 0
  }

  /** Entry (i, j), or 0 outside the grid. */
  function At(L: Matrix, i: int, j: int): int
  {
    if 0 <= i < |L| && 0 <= j < |L[i]| then L[i][j] else 0
  }

  datatype Cell = Cell(row: int, col: int)

  predicate InBounds(g: Matrix, c: Cell)
  {
    0 <= c.row < |g| && 0 <= c.col < |g[c.row]|
  }

  /** A foreground cell: in bounds and holding 1. */
  predicate Fg(image: Matrix, c: Cell)
  {
    InBounds(image, c) && image[c.row][c.col] == 1
  }

  /** The cells share an edge. */
  predicate Adjacent(a: Cell, b: Cell)
  {
    || (a.row == b.row && (a.col == b.col + 1 || b.col == a.col + 1))
    || (a.col == b.col && (a.row == b.row + 1 || b.row == a.row + 1))
  }

  /** Row-major linear index of a cell in a grid `cols` wide. */
  function Index(cols: int, c: Cell): int
  {
    c.row * cols + c.col
  }

  /** In a grid with at least one column, index 0 belongs to cell (0, 0) only. */
  lemma IndexZero(cols: int, c: Cell)
    requires 0 <= c.row && 0 <= c.col < cols
    ensures Index(cols, c) >= 0
    ensures Index(cols, c) == 0 <==> c == Cell(0, 0)
  {
    if c.row > 0 {
      MulMono(1, c.row, cols);
    }
  }

  /** Consecutive cells are adjacent and every cell is foreground. */
  ghost predicate IsPath(image: Matrix, p: seq<Cell>)
  {
    && |p| > 0
    && (forall k :: 0 <= k < |p| ==> Fg(image, p[k]))
    && (forall k :: 0 <= k < |p| - 1 ==> Adjacent(p[k], p[k + 1]))
  }

  /** `b` is reachable from `a` through 4-adjacent foreground cells. */
  ghost predicate Connected(image: Matrix, a: Cell, b: Cell)
  {
    exists p :: IsPath(image, p) && p[0] == a && p[|p| - 1] == b
  }

  lemma ConnectedRefl(image: Matrix, a: Cell)
    requires Fg(image, a)
    ensures Connected(image, a, a)
  {
    assert IsPath(image, [a]);
  }

  /** A foreground cell next to `n` reaches whatever `n` reaches. */
  lemma ConnectedStep(image: Matrix, a: Cell, n: Cell, b: Cell)
    requires Fg(image, a) && Adjacent(a, n) && Connected(image, n, b)
    ensures Connected(image, a, b)
  {
    var p :| IsPath(image, p) && p[0] == n && p[|p| - 1] == b;
    var q := [a] + p;
    assert forall k :: 1 <= k < |q| ==> q[k] == p[k - 1];
    assert IsPath(image, q);
  }

  /** Connection runs both ways. */
  lemma {:induction false} ConnectedSym(image: Matrix, a: Cell, b: Cell)
    requires Connected(image, a, b)
    ensures Connected(image, b, a)
  {
    var p :| IsPath(image, p) && p[0] == a && p[|p| - 1] == b;
    var r := seq(|p|, k requires 0 <= k < |p| => p[|p| - 1 - k]);
    forall k | 0 <= k < |r| - 1
      ensures Adjacent(r[k], r[k + 1])
    {
      var m := |p| - 2 - k;
      assert r[k] == p[m + 1] && r[k + 1] == p[m];
      assert Adjacent(p[m], p[m + 1]);
    }
    assert IsPath(image, r);
  }

  /** Reachability composes. */
  lemma ConnectedTrans(image: Matrix, a: Cell, b: Cell, c: Cell)
    requires Connected(image, a, b) && Connected(image, b, c)
    ensures Connected(image, a, c)
  {
    var p :| IsPath(image, p) && p[0] == a && p[|p| - 1] == b;
    var q :| IsPath(image, q) && q[0] == b && q[|q| - 1] == c;
    var r := p + q[1..];
    forall k | 0 <= k < |r| - 1
      ensures Adjacent(r[k], r[k + 1])
    {
      if k < |p| - 1 {
        assert r[k] == p[k] && r[k + 1] == p[k + 1];
      } else {
        assert r[k] == q[k - |p| + 1] && r[k + 1] == q[k - |p| + 2];
      }
    }
    assert IsPath(image, r);
  }
}
