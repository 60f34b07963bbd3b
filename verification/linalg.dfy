/** Integer vectors and matrices: dot product, matrix–vector and
    matrix–matrix products, entrywise sum and transpose. These are the
    reference definitions the variants are compared with. The laws proved
    here include ones the comparisons do not use (commutativity of the sum,
    the transpose of a transpose and of a product), stated to pin the
    definitions down. */
module LinAlg {
  import opened Base

  /** `a[0]*b[0] + ... + a[n-1]*b[n-1]`, accumulated left to right as the
      source's `+=` loops do. */
  function Dot(a: seq<int>, b: seq<int>): (d: int)
    requires |a| == |b|
  {
    if |a| == 0 then 0 else Dot(a[..|a| - 1], b[..|b| - 1]) + a[|a| - 1] * b[|b| - 1]
  }

  /** One more step of the accumulation loop. */
  lemma DotStep(a: seq<int>, b: seq<int>, j: int)
    requires |a| == |b| && 0 <= j < |a|
    ensures Dot(a[..j + 1], b[..j + 1]) == Dot(a[..j], b[..j]) + a[j] * b[j]
  {
    assert a[..j + 1][..j] == a[..j];
    assert b[..j + 1][..j] == b[..j];
  }

  /** The dot product does not depend on the order of its arguments. */
  lemma {:induction false} DotComm(a: seq<int>, b: seq<int>)
    requires |a| == |b|
    ensures Dot(a, b) == Dot(b, a)
    decreases |a|
  {
    if |a| > 0 {
      DotComm(a[..|a| - 1], b[..|b| - 1]);
    }
  }

  /** A dot product with an all-zero left operand is 0. */
  lemma {:induction false} DotZeros(a: seq<int>, b: seq<int>)
    requires |a| == |b| && forall k :: 0 <= k < |a| ==> a[k] == 0
    ensures Dot(a, b) == 0
    decreases |a|
  {
    if |a| > 0 {
      DotZeros(a[..|a| - 1], b[..|b| - 1]);
    }
  }

  /** Column `j` of a matrix whose rows all have more than `j` entries. */
  function Column(m: Matrix, j: int): (col: seq<int>)
    requires 0 <= j && forall k :: 0 <= k < |m| ==> j < |m[k]|
    ensures |col| == |m|
  {
    seq(|m|, k requires 0 <= k < |m| => m[k][j])
  }

  /** Entrywise sum of two `rows × cols` matrices. */
  function Add(a: Matrix, b: Matrix, rows: nat, cols: nat): (s: Matrix)
    requires IsMatrix(a, rows, cols) && IsMatrix(b, rows, cols)
    ensures IsMatrix(s, rows, cols)
  {
    seq(rows, i requires 0 <= i < rows =>
      seq(cols, j requires 0 <= j < cols => a[i][j] + b[i][j]))
  }

  /** Matrix addition is commutative. */
  lemma AddComm(a: Matrix, b: Matrix, rows: nat, cols: nat)
    requires IsMatrix(a, rows, cols) && IsMatrix(b, rows, cols)
    ensures Add(a, b, rows, cols) == Add(b, a, rows, cols)
  {
    var x, y := Add(a, b, rows, cols), Add(b, a, rows, cols);
    forall i | 0 <= i < rows
      ensures x[i] == y[i]
    {
    }
  }

  /** The `rows × cols` matrix `a` turned into a `cols × rows` one. */
  function Transpose(a: Matrix, rows: nat, cols: nat): (t: Matrix)
    requires IsMatrix(a, rows, cols)
    ensures IsMatrix(t, cols, rows)
  {
    seq(cols, j requires 0 <= j < cols =>
      seq(rows, i requires 0 <= i < rows => a[i][j]))
  }

  /** Transposing twice gives the matrix back. */
  lemma TransposeInvolution(a: Matrix, rows: nat, cols: nat)
    requires IsMatrix(a, rows, cols)
    ensures Transpose(Transpose(a, rows, cols), cols, rows) == a
  {
    var t := Transpose(Transpose(a, rows, cols), cols, rows);
    forall i | 0 <= i < rows
      ensures t[i] == a[i]
    {
    }
  }

  /** Row `j` of the transpose is column `j` of the matrix. */
  lemma TransposeRowIsColumn(a: Matrix, rows: nat, cols: nat, j: nat)
    requires IsMatrix(a, rows, cols) && j < cols
    ensures Transpose(a, rows, cols)[j] == Column(a, j)
  {
  }

  /** The `r1 × c2` product of an `r1 × c1` and a `c1 × c2` matrix: entry
      (i, j) is the dot product of row `i` of `a` with column `j` of `b`. */
  function Multiply(a: Matrix, b: Matrix, r1: nat, c1: nat, c2: nat): (p: Matrix)
    requires IsMatrix(a, r1, c1) && IsMatrix(b, c1, c2)
    ensures IsMatrix(p, r1, c2)
  {
    seq(r1, i requires 0 <= i < r1 =>
      seq(c2, j requires 0 <= j < c2 => Dot(a[i], Column(b, j))))
  }

  /** The transpose of a product is the product of the transposes in the
      other order. */
  lemma TransposeOfProduct(a: Matrix, b: Matrix, r1: nat, c1: nat, c2: nat)
    requires IsMatrix(a, r1, c1) && IsMatrix(b, c1, c2)
    ensures Transpose(Multiply(a, b, r1, c1, c2), r1, c2)
         == Multiply(Transpose(b, c1, c2), Transpose(a, r1, c1), c2, c1, r1)
  {
    var at, bt := Transpose(a, r1, c1), Transpose(b, c1, c2);
    var x, y := Transpose(Multiply(a, b, r1, c1, c2), r1, c2), Multiply(bt, at, c2, c1, r1);
    forall j | 0 <= j < c2
      ensures x[j] == y[j]
    {
      forall i | 0 <= i < r1
        ensures x[j][i] == y[j][i]
      {
        assert bt[j] == Column(b, j);
        assert Column(at, i) == a[i];
        DotComm(a[i], Column(b, j));
      }
    }
  }

  /** The matrix–vector product: entry `i` is row `i` of `a` dotted with `v`. */
  function MatVec(a: Matrix, v: seq<int>): (r: seq<int>)
    requires forall i :: 0 <= i < |a| ==> |a[i]| == |v|
    ensures |r| == |a|
  {
    seq(|a|, i requires 0 <= i < |a| => Dot(a[i], v))
  }

  /** A band of rows of the product is the product of that band of rows:
      entry `i` depends only on row `i` of the matrix and on the vector. */
  lemma MatVecRows(a: Matrix, v: seq<int>, lo: int, hi: int)
    requires forall i :: 0 <= i < |a| ==> |a[i]| == |v|
    requires 0 <= lo <= hi <= |a|
    ensures MatVec(a[lo..hi], v) == MatVec(a, v)[lo..hi]
  {
  }

  /** A vector as an `n × 1` matrix. */
  function ColumnMatrix(v: seq<int>): (m: Matrix)
    ensures IsMatrix(m, |v|, 1)
  {
    seq(|v|, k requires 0 <= k < |v| => [v[k]])
  }

  /** The matrix–vector product is the matrix product with the vector as a
      single column. */
  lemma MatVecIsMultiply(a: Matrix, v: seq<int>, rows: nat)
    requires IsMatrix(a, rows, |v|)
    ensures Multiply(a, ColumnMatrix(v), rows, |v|, 1) == ColumnMatrix(MatVec(a, v))
  {
    var x, y := Multiply(a, ColumnMatrix(v), rows, |v|, 1), ColumnMatrix(MatVec(a, v));
    assert Column(ColumnMatrix(v), 0) == v;
    forall i | 0 <= i < rows
      ensures x[i] == y[i]
    {
    }
  }
}
