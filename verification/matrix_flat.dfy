/** The MPI matrix-operations program (matrix_op_openmpi.cpp): matrices
    travel as flat row-major sequences.  Rank 0 checks the arguments and
    adds, rank 1 multiplies and reports through the `mul_possible` flag
    whether a product follows, rank 2 transposes.  The kernels index the
    flat layout directly; the model shows that each writes the row-major
    layout of the two-dimensional result. */
module FlatMatrixOps {
  import opened Base
  import opened LinAlg
  import opened MatrixOps

  // ---------------------------------------------------------------------------
  // Kernels on the flat layout.

  /** `addResult[i] = A[i] + B[i]` for every position. */
  function FlatAdd(fa: seq<int>, fb: seq<int>): (s: seq<int>)
    requires |fa| == |fb|
    ensures |s| == |fa|
  {
    seq(|fa|, i requires 0 <= i < |fa| => fa[i] + fb[i])
  }

  /** Position-wise addition of the layouts is the layout of the sum. */
  lemma FlatAddAgrees(a: Matrix, b: Matrix, rows: nat, cols: nat)
    requires IsMatrix(a, rows, cols) && IsMatrix(b, rows, cols)
    ensures |Flatten(a)| == |Flatten(b)| == rows * cols
    ensures FlatAdd(Flatten(a), Flatten(b)) == Flatten(Add(a, b, rows, cols))
  {
    var fa, fb, s := Flatten(a), Flatten(b), Add(a, b, rows, cols);
    FlattenLength(a, rows, cols);
    FlattenLength(b, rows, cols);
    FlattenLength(s, rows, cols);
    var x, y := FlatAdd(fa, fb), Flatten(s);
    forall k | 0 <= k < rows * cols
      ensures x[k] == y[k]
    {
      var i, j := RowMajorSplit(k, rows, cols);
      FlattenAt(a, rows, cols, i, j);
      FlattenAt(b, rows, cols, i, j);
      FlattenAt(s, rows, cols, i, j);
    }
  }

  /** Every position of a `rows × cols` layout is `i*cols + j` for one cell. */
  lemma RowMajorSplit(k: int, rows: nat, cols: nat) returns (i: nat, j: nat)
    requires 0 <= k < rows * cols
    ensures i < rows && j < cols && k == i * cols + j
  {
    if cols == 0 {
      assert false;
    }
    i, j := k / cols, k % cols;
    if i >= rows {
      MulMono(rows, i, cols);
      assert false;
    }
  }

  /** The product of the `r1 × c1` and `c1 × c2` matrices laid out in `fa`
      and `fb`, laid out again. */
  function FlatProduct(fa: seq<int>, fb: seq<int>, r1: nat, c1: nat, c2: nat): (p: seq<int>)
    requires |fa| == r1 * c1 && |fb| == c1 * c2
  {
    Flatten(Multiply(FillRowMajor(fa, 0, r1, c1), FillRowMajor(fb, 0, c1, c2), r1, c1, c2))
  }

  /** Rank 1's loop: `mulResult[i*c2 + j] = Σ_k A[i*c1 + k] * B[k*c2 + j]`,
      every index in bounds. */
  method FlatProductLoop(fa: seq<int>, fb: seq<int>, r1: nat, c1: nat, c2: nat) returns (mul: seq<int>)
    requires |fa| == r1 * c1 && |fb| == c1 * c2
    ensures |mul| == r1 * c2
    ensures forall i, j :: 0 <= i < r1 && 0 <= j < c2 ==>
              FlatAt(mul, i, j, c2) == Dot(FillRowMajor(fa, 0, r1, c1)[i], Column(FillRowMajor(fb, 0, c1, c2), j))
    ensures mul == FlatProduct(fa, fb, r1, c1, c2)
  {
    var a, b := FillRowMajor(fa, 0, r1, c1), FillRowMajor(fb, 0, c1, c2);
    var m := Multiply(a, b, r1, c1, c2);
    mul := seq(r1 * c2, _ => 0);
    for i := 0 to r1
      invariant |mul| == r1 * c2
      invariant forall p, q :: 0 <= p < i && 0 <= q < c2 ==> FlatAt(mul, p, q, c2) == m[p][q]
    {
      for j := 0 to c2
        invariant |mul| == r1 * c2
        invariant forall p, q :: 0 <= p < i && 0 <= q < c2 ==> FlatAt(mul, p, q, c2) == m[p][q]
        invariant forall q :: 0 <= q < j ==> FlatAt(mul, i, q, c2) == m[i][q]
      {
        var col := Column(b, j);
        var sum := 0;
        for k := 0 to c1
          invariant sum == Dot(a[i][..k], col[..k])
        {
          RowMajorBound(i, k, r1, c1);
          RowMajorBound(k, j, c1, c2);
          assert fa[i * c1 + k] == a[i][k] && fb[k * c2 + j] == col[k];
          DotStep(a[i], col, k);
          sum := sum + fa[i * c1 + k] * fb[k * c2 + j];
        }
        assert a[i][..c1] == a[i] && col[..c1] == col;
        RowMajorBound(i, j, r1, c2);
        mul := WriteCell(mul, i, j, c2, sum);
      }
    }
    FlatLayoutIs(mul, m, r1, c2);
  }

  /** Writing cell (i, j) of a flat layout leaves every other cell alone. */
  function WriteCell(s: seq<int>, i: nat, j: nat, cols: nat, x: int): (s': seq<int>)
    requires j < cols && i * cols + j < |s|
    ensures |s'| == |s| && FlatAt(s', i, j, cols) == x
    ensures forall p, q :: 0 <= p && 0 <= q < cols && (p != i || q != j) ==> FlatAt(s', p, q, cols) == FlatAt(s, p, q, cols)
  {
    var s' := s[i * cols + j := x];
    forall p, q | 0 <= p && 0 <= q < cols && (p != i || q != j)
      ensures FlatAt(s', p, q, cols) == FlatAt(s, p, q, cols)
    {
      if p * cols + q == i * cols + j {
        RowMajorUnique(p, q, i, j, cols);
      }
    }
    s'
  }

  /** A flat sequence of the right length whose every cell matches the
      matrix is the matrix's layout. */
  lemma FlatLayoutIs(s: seq<int>, m: Matrix, rows: nat, cols: nat)
    requires IsMatrix(m, rows, cols) && |s| == rows * cols
    requires forall i, j :: 0 <= i < rows && 0 <= j < cols ==> FlatAt(s, i, j, cols) == m[i][j]
    ensures s == Flatten(m)
  {
    FlattenLength(m, rows, cols);
    forall k | 0 <= k < rows * cols
      ensures s[k] == Flatten(m)[k]
    {
      var i, j := RowMajorSplit(k, rows, cols);
      FlattenAt(m, rows, cols, i, j);
      assert FlatAt(s, i, j, cols) == m[i][j];
    }
  }

  /** The flat product of two layouts is the layout of the product. */
  lemma FlatProductAgrees(a: Matrix, b: Matrix, r1: nat, c1: nat, c2: nat)
    requires IsMatrix(a, r1, c1) && IsMatrix(b, c1, c2)
    ensures |Flatten(a)| == r1 * c1 && |Flatten(b)| == c1 * c2
    ensures FlatProduct(Flatten(a), Flatten(b), r1, c1, c2) == Flatten(Multiply(a, b, r1, c1, c2))
  {
    FillRowMajorFlatten(a, r1, c1);
    FillRowMajorFlatten(b, c1, c2);
  }

  /** The transpose of the `r1 × c1` matrix laid out in `fa`, laid out again. */
  function FlatTranspose(fa: seq<int>, r1: nat, c1: nat): (t: seq<int>)
    requires |fa| == r1 * c1
  {
    Flatten(Transpose(FillRowMajor(fa, 0, r1, c1), r1, c1))
  }

  /** Rank 2's loop: `transResult[j*r1 + i] = A[i*c1 + j]`. */
  method FlatTransposeLoop(fa: seq<int>, r1: nat, c1: nat) returns (t: seq<int>)
    requires |fa| == r1 * c1
    ensures |t| == r1 * c1
    ensures forall i, j :: 0 <= i < r1 && 0 <= j < c1 ==> FlatAt(t, j, i, r1) == FlatAt(fa, i, j, c1)
    ensures t == FlatTranspose(fa, r1, c1)
  {
    var a := FillRowMajor(fa, 0, r1, c1);
    var tr := Transpose(a, r1, c1);
    t := seq(r1 * c1, _ => 0);
    assert r1 * c1 == c1 * r1;
    for i := 0 to r1
      invariant |t| == c1 * r1
      invariant forall p, q :: 0 <= p < i && 0 <= q < c1 ==> FlatAt(t, q, p, r1) == a[p][q]
    {
      for j := 0 to c1
        invariant |t| == c1 * r1
        invariant forall p, q :: 0 <= p < i && 0 <= q < c1 ==> FlatAt(t, q, p, r1) == a[p][q]
        invariant forall q :: 0 <= q < j ==> FlatAt(t, q, i, r1) == a[i][q]
      {
        RowMajorBound(i, j, r1, c1);
        RowMajorBound(j, i, c1, r1);
        assert fa[i * c1 + j] == a[i][j];
        t := WriteCell(t, j, i, r1, fa[i * c1 + j]);
      }
    }
    forall i, j | 0 <= i < r1 && 0 <= j < c1
      ensures FlatAt(t, j, i, r1) == FlatAt(fa, i, j, c1)
    {
      RowMajorBound(i, j, r1, c1);
    }
    FlatLayoutIs(t, tr, c1, r1);
  }

  /** The flat transpose of a layout is the layout of the transpose. */
  lemma FlatTransposeAgrees(a: Matrix, r1: nat, c1: nat)
    requires IsMatrix(a, r1, c1)
    ensures |Flatten(a)| == r1 * c1
    ensures FlatTranspose(Flatten(a), r1, c1) == Flatten(Transpose(a, r1, c1))
  {
    FillRowMajorFlatten(a, r1, c1);
  }

  /** Where the transpose puts entry (i, j) of an `r1`-row matrix. */
  function TransposedPos(i: int, j: int, r1: int): int
  {
    j * r1 + i
  }

  /** The cell the transpose stores at position `k`. */
  function TransposedCell(k: int, r1: int): (ij: (int, int))
  {
    if r1 <= 0 then (0, 0) else (k % r1, k / r1)
  }

  /** The transpose's index map sends the cells of an `r1 × c1` matrix
      one-to-one onto `[0, r1*c1)`, so the loop writes every position of
      `transResult` exactly once. */
  lemma TransposeIndexBijection(r1: nat, c1: nat)
    ensures forall i, j :: 0 <= i < r1 && 0 <= j < c1 ==> 0 <= TransposedPos(i, j, r1) < r1 * c1
    ensures forall i, j, i', j' ::
              0 <= i < r1 && 0 <= j < c1 && 0 <= i' < r1 && 0 <= j' < c1
              && TransposedPos(i, j, r1) == TransposedPos(i', j', r1)
              ==> i == i' && j == j'
    ensures forall k :: 0 <= k < r1 * c1 ==> TransposedCellOk(k, r1, c1)
  {
    forall i, j | 0 <= i < r1 && 0 <= j < c1
      ensures 0 <= TransposedPos(i, j, r1) < r1 * c1
    {
      RowMajorBound(j, i, c1, r1);
    }
    forall i, j, i', j' | 0 <= i < r1 && 0 <= j < c1 && 0 <= i' < r1 && 0 <= j' < c1
        && TransposedPos(i, j, r1) == TransposedPos(i', j', r1)
      ensures i == i' && j == j'
    {
      RowMajorUnique(j, i, j', i', r1);
    }
    forall k | 0 <= k < r1 * c1
      ensures TransposedCellOk(k, r1, c1)
    {
      TransposedCellInverts(k, r1, c1);
    }
  }

  /** Position `k` holds a cell of the matrix, stored at `k`. */
  predicate TransposedCellOk(k: int, r1: int, c1: int)
  {
    var (i, j) := TransposedCell(k, r1);
    0 <= i < r1 && 0 <= j < c1 && TransposedPos(i, j, r1) == k
  }

  lemma TransposedCellInverts(k: int, r1: nat, c1: nat)
    requires 0 <= k < r1 * c1
    ensures TransposedCellOk(k, r1, c1)
  {
    var j, i := RowMajorSplit(k, c1, r1);
    assert r1 > 0 by {
      if r1 == 0 { assert false; }
    }
    assert TransposedCell(k, r1) == (k % r1, k / r1);
  }

  // ---------------------------------------------------------------------------
  // The program.

  /** Why the program stops early: too few processes (every rank returns 1),
      or rank 0 aborting on its arguments. */
  datatype MpiError = TooFewProcesses | Aborted(e: ArgError)

  /** The messages rank 1 sends rank 0: the `mul_possible` flag (tag 100),
      then the product (tag 101) only when the flag is 1. */
  datatype Message = Flag(possible: int) | Payload(data: seq<int>)

  function Rank1Messages(c1: int, r2: int, product: seq<int>): (msgs: seq<Message>)
    ensures 1 <= |msgs| <= 2 && msgs[0].Flag?
    ensures msgs[0].possible != 0 <==> c1 == r2
    ensures |msgs| == 2 <==> c1 == r2
    ensures |msgs| == 2 ==> msgs[1] == Payload(product)
  {
    var possible := if c1 == r2 then 1 else 0;
    [Flag(possible)] + (if possible != 0 then [Payload(product)] else [])
  }

  /** Rank 0's receives: first the flag, then, if the flag is set, `count`
      entries of product.  The result is what rank 0 holds for the product
      and how many messages it took, or `None` when the messages do not
      match what it waits for. */
  function Rank0Receives(msgs: seq<Message>, count: int): (r: Option<(Option<seq<int>>, nat)>)
    ensures r.Some? ==> 1 <= r.value.1 <= |msgs| && msgs[0].Flag?
    ensures r.Some? ==> (r.value.0.Some? <==> msgs[0].possible != 0)
    ensures r.Some? && r.value.0.Some? ==>
              r.value.1 == 2 && msgs[1] == Payload(r.value.0.value) && |r.value.0.value| == count
  {
    if |msgs| == 0 || !msgs[0].Flag? then None
    else if msgs[0].possible == 0 then Some((None, 1))
    else if |msgs| < 2 || !msgs[1].Payload? || |msgs[1].data| != count then None
    else Some((Some(msgs[1].data), 2))
  }

  /** The flag protocol matches: rank 0 takes every message rank 1 sends,
      and holds the product exactly when `c1 == r2`. */
  lemma ProductProtocol(c1: int, r2: int, product: seq<int>, count: int)
    requires c1 == r2 ==> |product| == count
    ensures Rank0Receives(Rank1Messages(c1, r2, product), count).Some?
    ensures var (got, taken) := Rank0Receives(Rank1Messages(c1, r2, product), count).value;
      && taken == |Rank1Messages(c1, r2, product)|
      && (got.Some? <==> c1 == r2)
      && (got.Some? ==> got.value == product)
  {
  }

  /** What rank 0 prints, every matrix in its flat layout. */
  datatype FlatReport = FlatReport(sum: Option<seq<int>>, product: Option<seq<int>>, transpose: seq<int>)

  /** What ranks 1 and 2 compute on.  As the program is written
      (`ZeroFilled`), rank 0's sends of A and B (tags 10, 11 and 20) are
      never received: ranks 1 and 2 only `resize` their vectors, which fills
      them with zeros.  With the matching receives (`Received`), they compute
      on rank 0's A and B. */
  datatype Delivery = ZeroFilled | Received

  /** The whole program on `size` processes: the process-count check, rank
      0's argument checks, the three ranks' kernels on the flat row-major
      buffers each rank holds, and the flag protocol between ranks 1 and 0. */
  function MpiMatrixOps(delivery: Delivery, size: int, args: seq<int>): (r: Result<FlatReport, MpiError>)
    ensures size < 3 ==> r == Err(TooFewProcesses)
    ensures size >= 3 ==> (r.Ok? <==> ParseOperands(args).Ok?)
    ensures size >= 3 && r.Err? ==> r == Err(Aborted(ParseOperands(args).error))
  {
    if size < 3 then Err(TooFewProcesses)
    else match ParseOperands(args)
      case Err(e) => Err(Aborted(e))
      case Ok(o) =>
        var n1, n2 := o.r1 * o.c1, o.r2 * o.c2;
        // Rank 0 reads A and B from the command line.
        var fa, fb := args[4 .. 4 + n1], args[4 + n1 .. 4 + n1 + n2];
        // Ranks 1 and 2 hold these.
        var ga := if delivery == Received then fa else Zeros(n1);
        var gb := if delivery == Received then fb else Zeros(n2);
        // Rank 0.
        var sum := if o.r1 == o.r2 && o.c1 == o.c2 then Some(FlatAdd(fa, fb)) else None;
        // Rank 1, received by rank 0.
        var product := if o.c1 == o.r2 then FlatProduct(ga, gb, o.r1, o.c1, o.c2) else [];
        var received := Rank0Receives(Rank1Messages(o.c1, o.r2, product), o.r1 * o.c2);
        var mul := if received.Some? then received.value.0 else None;
        // Rank 2.
        Ok(FlatReport(sum, mul, FlatTranspose(ga, o.r1, o.c1)))
  }

  /** The product of two zero layouts is a zero layout. */
  lemma FlatProductZeros(r1: nat, c1: nat, c2: nat)
    ensures FlatProduct(Zeros(r1 * c1), Zeros(c1 * c2), r1, c1, c2) == Zeros(r1 * c2)
  {
    var a, b := FillRowMajor(Zeros(r1 * c1), 0, r1, c1), FillRowMajor(Zeros(c1 * c2), 0, c1, c2);
    var m := Multiply(a, b, r1, c1, c2);
    forall i, j | 0 <= i < r1 && 0 <= j < c2
      ensures FlatAt(Zeros(r1 * c2), i, j, c2) == m[i][j]
    {
      RowMajorBound(i, j, r1, c2);
      forall k | 0 <= k < c1
        ensures a[i][k] == 0
      {
        RowMajorBound(i, k, r1, c1);
      }
      DotZeros(a[i], Column(b, j));
    }
    FlatLayoutIs(Zeros(r1 * c2), m, r1, c2);
  }

  /** The transpose of a zero layout is a zero layout. */
  lemma FlatTransposeZeros(r1: nat, c1: nat)
    ensures FlatTranspose(Zeros(r1 * c1), r1, c1) == Zeros(r1 * c1)
  {
    var a := FillRowMajor(Zeros(r1 * c1), 0, r1, c1);
    var t := Transpose(a, r1, c1);
    assert r1 * c1 == c1 * r1;
    forall j, i | 0 <= j < c1 && 0 <= i < r1
      ensures FlatAt(Zeros(c1 * r1), j, i, r1) == t[j][i]
    {
      RowMajorBound(j, i, c1, r1);
      RowMajorBound(i, j, r1, c1);
    }
    FlatLayoutIs(Zeros(c1 * r1), t, c1, r1);
  }

  /** As written, with three or more processes the program refuses the same
      arguments as the sequential one; it reports the sequential sum, but a
      product of zeros whenever a product is possible and a transpose of
      zeros, whatever A and B are. */
  lemma MpiAsWrittenReport(size: int, args: seq<int>)
    requires size >= 3
    ensures MpiMatrixOps(ZeroFilled, size, args).Ok? <==> SequentialMatrixOps(args).Ok?
    ensures MpiMatrixOps(ZeroFilled, size, args).Ok? ==>
              var o := ParseOperands(args).value;
              var p, q := MpiMatrixOps(ZeroFilled, size, args).value, SequentialMatrixOps(args).value;
              && (p.sum.Some? <==> q.sum.Some?)
              && (p.sum.Some? ==> p.sum.value == Flatten(q.sum.value))
              && (p.product.Some? <==> q.product.Some?)
              && (p.product.Some? ==> p.product.value == Zeros(o.r1 * o.c2))
              && p.transpose == Zeros(o.r1 * o.c1)
  {
    if ParseOperands(args).Ok? {
      var o := ParseOperands(args).value;
      MpiSumIsSequential(ZeroFilled, size, args);
      FlatTransposeZeros(o.r1, o.c1);
      if o.c1 == o.r2 {
        FlatProductZeros(o.r1, o.c1, o.c2);
        ProductProtocol(o.c1, o.r2, Zeros(o.r1 * o.c2), o.r1 * o.c2);
      } else {
        ProductProtocol(o.c1, o.r2, [], o.r1 * o.c2);
      }
    }
  }

  /** As written, on three processes the program prints the sum 5 but the
      product 0 and the transpose 0 for `1 1 1 1 2 3`. */
  lemma MpiZeroOperandsExample()
    ensures MpiMatrixOps(ZeroFilled, 3, [1, 1, 1, 1, 2, 3]) == Ok(FlatReport(Some([5]), Some([0]), [0]))
  {
    ExampleOperands();
    MpiAsWrittenReport(3, [1, 1, 1, 1, 2, 3]);
    assert Flatten([[5]]) == [5];
    assert Zeros(1) == [0];
  }

  /** With the operands received, the MPI program prints what the
      sequential one does for `1 1 1 1 2 3`. */
  lemma MpiReceivedExample()
    ensures MpiMatrixOps(Received, 3, [1, 1, 1, 1, 2, 3]) == Ok(FlatReport(Some([5]), Some([6]), [2]))
  {
    ExampleOperands();
    MpiIsSequential(3, [1, 1, 1, 1, 2, 3]);
    assert Flatten([[5]]) == [5];
    assert Flatten([[6]]) == [6];
    assert Flatten([[2]]) == [2];
  }

  /** The discrepancy: on `1 1 1 1 2 3` and three processes the program as
      written reports a product and a transpose different from the
      sequential program's, and the program with the receives does not. */
  lemma MpiZeroOperandsCounterexample()
    ensures MpiMatrixOps(ZeroFilled, 3, [1, 1, 1, 1, 2, 3]).value.product
         != Some(Flatten(SequentialMatrixOps([1, 1, 1, 1, 2, 3]).value.product.value))
    ensures MpiMatrixOps(ZeroFilled, 3, [1, 1, 1, 1, 2, 3]).value.transpose
         != Flatten(SequentialMatrixOps([1, 1, 1, 1, 2, 3]).value.transpose1)
    ensures MpiMatrixOps(Received, 3, [1, 1, 1, 1, 2, 3]).value.product
         == Some(Flatten(SequentialMatrixOps([1, 1, 1, 1, 2, 3]).value.product.value))
  {
    var q := SequentialMatrixOps([1, 1, 1, 1, 2, 3]);
    ExampleOperands();
    assert q.value.product.value == [[6]] && q.value.transpose1 == [[2]];
    assert Flatten([[6]]) == [6] && Flatten([[2]]) == [2];
    MpiZeroOperandsExample();
    MpiReceivedExample();
  }

  /** With the operands received and three or more processes, the MPI
      program refuses the same arguments as the sequential one and otherwise
      reports the flat layouts of the sequential sum, product and transpose
      of A. */
  lemma MpiIsSequential(size: int, args: seq<int>)
    requires size >= 3
    ensures MpiMatrixOps(Received, size, args).Ok? <==> SequentialMatrixOps(args).Ok?
    ensures MpiMatrixOps(Received, size, args).Err? ==>
              MpiMatrixOps(Received, size, args) == Err(Aborted(SequentialMatrixOps(args).error))
    ensures MpiMatrixOps(Received, size, args).Ok? ==>
              var p, q := MpiMatrixOps(Received, size, args).value, SequentialMatrixOps(args).value;
              && (p.sum.Some? <==> q.sum.Some?)
              && (p.sum.Some? ==> p.sum.value == Flatten(q.sum.value))
              && (p.product.Some? <==> q.product.Some?)
              && (p.product.Some? ==> p.product.value == Flatten(q.product.value))
              && p.transpose == Flatten(q.transpose1)
  {
    if ParseOperands(args).Ok? {
      MpiSumIsSequential(Received, size, args);
      MpiProductIsSequential(size, args);
      MpiTransposeIsSequential(size, args);
    }
  }

  /** The two slices of the command line rank 0 reads are the row-major
      layouts of A and B. */
  lemma MpiOperandSlices(args: seq<int>)
    requires ParseOperands(args).Ok?
    ensures var o := ParseOperands(args).value;
      var n1, n2 := o.r1 * o.c1, o.r2 * o.c2;
      && |args| == 4 + n1 + n2
      && args[4 .. 4 + n1] == Flatten(o.a)
      && args[4 + n1 .. 4 + n1 + n2] == Flatten(o.b)
  {
    var o := ParseOperands(args).value;
    FlattenFillRowMajor(args, 4, o.r1, o.c1);
    FlattenFillRowMajor(args, 4 + o.r1 * o.c1, o.r2, o.c2);
  }

  /** Rank 0 adds its own A and B, so the sum is right however the other
      ranks come by the operands. */
  lemma MpiSumIsSequential(delivery: Delivery, size: int, args: seq<int>)
    requires size >= 3 && ParseOperands(args).Ok?
    ensures var p, q := MpiMatrixOps(delivery, size, args).value, SequentialMatrixOps(args).value;
      && (p.sum.Some? <==> q.sum.Some?)
      && (p.sum.Some? ==> p.sum.value == Flatten(q.sum.value))
  {
    var o := ParseOperands(args).value;
    MpiOperandSlices(args);
    if o.r1 == o.r2 && o.c1 == o.c2 {
      FlatAddAgrees(o.a, o.b, o.r1, o.c1);
    }
  }

  lemma MpiProductIsSequential(size: int, args: seq<int>)
    requires size >= 3 && ParseOperands(args).Ok?
    ensures var p, q := MpiMatrixOps(Received, size, args).value, SequentialMatrixOps(args).value;
      && (p.product.Some? <==> q.product.Some?)
      && (p.product.Some? ==> p.product.value == Flatten(q.product.value))
  {
    var o := ParseOperands(args).value;
    MpiOperandSlices(args);
    if o.c1 == o.r2 {
      FlatProductAgrees(o.a, o.b, o.r1, o.c1, o.c2);
      var m := Multiply(o.a, o.b, o.r1, o.c1, o.c2);
      FlattenLength(m, o.r1, o.c2);
      ProductProtocol(o.c1, o.r2, Flatten(m), o.r1 * o.c2);
    } else {
      ProductProtocol(o.c1, o.r2, [], o.r1 * o.c2);
    }
  }

  lemma MpiTransposeIsSequential(size: int, args: seq<int>)
    requires size >= 3 && ParseOperands(args).Ok?
    ensures MpiMatrixOps(Received, size, args).value.transpose == Flatten(SequentialMatrixOps(args).value.transpose1)
  {
    var o := ParseOperands(args).value;
    MpiOperandSlices(args);
    FlatTransposeAgrees(o.a, o.r1, o.c1);
  }
}
