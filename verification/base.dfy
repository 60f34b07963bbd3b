/** Shared vocabulary: optional and error results, integer helpers, and
    row-major matrices as sequences of rows. */
module Base {

  datatype Option<T> = None | Some(value: T)

  /** The value of a computation, or the reason it was refused. */
  datatype Result<T, E> = Ok(value: T) | Err(error: E)

  function Min(a: int, b: int): int
  {
    if a <= b then a else b
  }

  /** One step of a running minimum: `m` lowered to `x` when `c` holds. */
  function Pick(c: bool, m: int, x: int): int
  {
    if c then Min(m, x) else m
  }

  /** Sum of a sequence, accumulated left to right. */
  function Sum(s: seq<int>): int
  {
    if |s| == 0 then 0 else Sum(s[..|s| - 1]) + s[|s| - 1]
  }

  lemma {:induction false} SumMono(a: seq<int>, b: seq<int>)
    requires |a| == |b|
    requires forall k :: 0 <= k < |a| ==> a[k] <= b[k]
    ensures Sum(a) <= Sum(b)
    ensures (exists k :: 0 <= k < |a| && a[k] < b[k]) ==> Sum(a) < Sum(b)
    decreases |a|
  {
    if |a| > 0 {
      var n := |a| - 1;
      SumMono(a[..n], b[..n]);
      if k :| 0 <= k < |a| && a[k] < b[k] {
        if k < n {
          assert a[..n][k] < b[..n][k];
        }
      }
    }
  }

  lemma {:induction false} SumNonNeg(a: seq<int>)
    requires forall k :: 0 <= k < |a| ==> a[k] >= 0
    ensures Sum(a) >= 0
    decreases |a|
  {
    if |a| > 0 {
      SumNonNeg(a[..|a| - 1]);
    }
  }

  /** A freshly sized buffer: `n` zeros, as `std::vector<int>(n)` or `resize`
      from empty gives. */
  function Zeros(n: nat): (z: seq<int>)
    ensures |z| == n && forall i :: 0 <= i < n ==> z[i] == 0
  {
    seq(n, i => 0)
  }

  /** Concatenation of a sequence of pieces, in order. */
  function Concat<T>(parts: seq<seq<T>>): seq<T>
  {
    if |parts| == 0 then [] else Concat(parts[..|parts| - 1]) + parts[|parts| - 1]
  }

  type Matrix = seq<seq<int>>

  /** `m` has `rows` rows, each of `cols` entries. */
  predicate IsMatrix(m: Matrix, rows: int, cols: int)
  {
    |m| == rows && forall i :: 0 <= i < |m| ==> |m[i]| == cols
  }

  /** Row-major layout of a matrix in one flat sequence. */
  function Flatten(m: Matrix): seq<int>
  {
    Concat(m)
  }

  lemma MulMono(a: int, b: int, c: int)
    requires a <= b && 0 <= c
    ensures a * c <= b * c
  {
  }

  /** Position `i*cols + j` of a row-major `rows × cols` layout lies in `[0, rows*cols)`. */
  lemma RowMajorBound(i: int, j: int, rows: int, cols: int)
    requires 0 <= i < rows && 0 <= j < cols
    ensures 0 <= i * cols + j < rows * cols
    ensures (i + 1) * cols <= rows * cols
  {
    MulMono(i + 1, rows, cols);
  }

  /** Two row-major positions coincide only for the same (row, column). */
  lemma RowMajorUnique(i: int, j: int, i': int, j': int, cols: int)
    requires 0 <= i && 0 <= i' && 0 <= j < cols && 0 <= j' < cols
    requires i * cols + j == i' * cols + j'
    ensures i == i' && j == j'
  {
    if i < i' {
      MulMono(i + 1, i', cols);
      assert false;
    } else if i' < i {
      MulMono(i' + 1, i, cols);
      assert false;
    }
  }

  /** Entries `args[offset .. offset + rows*cols]`, read row by row into a
      `rows × cols` matrix: entry (i, j) is `args[offset + i*cols + j]`. */
  function FillRowMajor(args: seq<int>, offset: nat, rows: nat, cols: nat): (m: Matrix)
    requires offset + rows * cols <= |args|
    ensures IsMatrix(m, rows, cols)
  {
    seq(rows, i requires 0 <= i < rows =>
      seq(cols, j requires 0 <= j < cols =>
        RowMajorBound(i, j, rows, cols);
        args[offset + i * cols + j]))
  }

  lemma {:induction false} ConcatAppend<T>(a: seq<seq<T>>, b: seq<seq<T>>)
    ensures Concat(a + b) == Concat(a) + Concat(b)
    decreases |b|
  {
    if |b| == 0 {
      assert a + b == a;
    } else {
      assert (a + b)[..|a + b| - 1] == a + b[..|b| - 1];
      ConcatAppend(a, b[..|b| - 1]);
    }
  }

  /** The flat layout of a `rows × cols` matrix has `rows*cols` entries. */
  lemma {:induction false} FlattenLength(m: Matrix, rows: nat, cols: nat)
    requires IsMatrix(m, rows, cols)
    ensures |Flatten(m)| == rows * cols
    decreases rows
  {
    if rows > 0 {
      var init := m[..rows - 1];
      assert m[..|m| - 1] == init;
      FlattenLength(init, rows - 1, cols);
      assert (rows - 1) * cols + cols == rows * cols;
    }
  }

  /** The flat layout holds entry (i, j) at position `i*cols + j`. */
  lemma {:induction false} FlattenAt(m: Matrix, rows: nat, cols: nat, i: nat, j: nat)
    requires IsMatrix(m, rows, cols) && i < rows && j < cols
    ensures |Flatten(m)| == rows * cols
    ensures 0 <= i * cols + j < rows * cols && Flatten(m)[i * cols + j] == m[i][j]
    decreases rows
  {
    FlattenLength(m, rows, cols);
    RowMajorBound(i, j, rows, cols);
    var init := m[..rows - 1];
    assert m[..|m| - 1] == init;
    FlattenLength(init, rows - 1, cols);
    assert Flatten(m) == Flatten(init) + m[rows - 1];
    if i < rows - 1 {
      FlattenAt(init, rows - 1, cols, i, j);
      assert m[i] == init[i];
    } else {
      assert i * cols + j == (rows - 1) * cols + j;
    }
  }

  /** Reading a flat sequence row by row and laying it out again gives the
      same entries back. */
  lemma FlattenFillRowMajor(args: seq<int>, offset: nat, rows: nat, cols: nat)
    requires offset + rows * cols <= |args|
    ensures Flatten(FillRowMajor(args, offset, rows, cols)) == args[offset .. offset + rows * cols]
  {
    var m := FillRowMajor(args, offset, rows, cols);
    FlattenLength(m, rows, cols);
    var f := Flatten(m);
    var s := args[offset .. offset + rows * cols];
    forall k | 0 <= k < rows * cols
      ensures f[k] == s[k]
    {
      if cols == 0 {
        assert false;
      }
      var i, j := k / cols, k % cols;
      assert k == i * cols + j;
      if i >= rows {
        MulMono(rows, i, cols);
        assert false;
      }
      FlattenAt(m, rows, cols, i, j);
    }
  }

  /** Laying out a matrix and reading it back row by row gives the matrix. */
  lemma FillRowMajorFlatten(m: Matrix, rows: nat, cols: nat)
    requires IsMatrix(m, rows, cols)
    ensures |Flatten(m)| == rows * cols
    ensures FillRowMajor(Flatten(m), 0, rows, cols) == m
  {
    FlattenLength(m, rows, cols);
    var back := FillRowMajor(Flatten(m), 0, rows, cols);
    forall i | 0 <= i < rows
      ensures back[i] == m[i]
    {
      forall j | 0 <= j < cols
        ensures back[i][j] == m[i][j]
      {
        FlattenAt(m, rows, cols, i, j);
      }
    }
  }

  lemma MulSubDistrib(a: int, b: int, c: int)
    ensures (b - a) * c == b * c - a * c
  {
  }

  /** A contiguous block of rows occupies the matching contiguous block of the
      flat layout. */
  lemma FlattenSlice(m: Matrix, cols: nat, lo: nat, hi: nat)
    requires IsMatrix(m, |m|, cols) && lo <= hi <= |m|
    ensures |Flatten(m)| == |m| * cols
    ensures lo * cols <= hi * cols <= |m| * cols
    ensures Flatten(m)[lo * cols .. hi * cols] == Flatten(m[lo..hi])
  {
    FlattenLength(m, |m|, cols);
    MulMono(lo, hi, cols);
    MulMono(hi, |m|, cols);
    var x, y, z := m[..lo], m[lo..hi], m[hi..];
    assert m == x + y + z;
    ConcatAppend(x + y, z);
    ConcatAppend(x, y);
    FlattenLength(x, lo, cols);
    FlattenLength(y, hi - lo, cols);
    MulSubDistrib(lo, hi, cols);
    var fx, fy, fz := Flatten(x), Flatten(y), Flatten(z);
    assert Flatten(m) == fx + fy + fz;
    var a, b := lo * cols, hi * cols;
    assert |fx| == a && |fx| + |fy| == b;
    assert (fx + fy + fz)[a .. b] == fy;
  }

  /** Entry (i, j) of a flat row-major layout with `cols` columns, or 0 when
      the position falls outside the sequence. */
  function FlatAt(s: seq<int>, i: int, j: int, cols: int): int
  {
    if 0 <= i * cols + j < |s| then s[i * cols + j] else 0
  }

  /** Filling from a window of a longer sequence reads the window. */
  lemma FillFromSlice(args: seq<int>, offset: nat, w: seq<int>, rows: nat, cols: nat)
    requires offset + rows * cols <= |args| && |w| == rows * cols
    requires args[offset .. offset + rows * cols] == w
    ensures FillRowMajor(args, offset, rows, cols) == FillRowMajor(w, 0, rows, cols)
  {
    var x, y := FillRowMajor(args, offset, rows, cols), FillRowMajor(w, 0, rows, cols);
    forall i | 0 <= i < rows
      ensures x[i] == y[i]
    {
      forall j | 0 <= j < cols
        ensures x[i][j] == y[i][j]
      {
        RowMajorBound(i, j, rows, cols);
        assert w[i * cols + j] == args[offset + i * cols + j];
      }
    }
  }
}
