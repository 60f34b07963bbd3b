/** The matrix–vector programs (ExerciseI): `rows cols`, the matrix
    row-major and then the vector are read from the command line, and the
    product `A·v` is computed sequentially, by an OpenMP loop over rows, by
    four pthreads over row chunks, and by MPI ranks over scattered row
    blocks.  The command line is the integers `atoi` gives for `argv[1..]`,
    so `argc` is one more than its length. */
module MatVecPrograms {
  import opened Base
  import opened LinAlg
  import opened Partition

  // ---------------------------------------------------------------------------
  // Reading the problem.

  /** A matrix–vector problem: A is `rows × cols` and v has `cols` entries. */
  datatype Problem = Problem(rows: nat, cols: nat, a: Matrix, v: seq<int>)

  predicate WellShaped(x: Problem)
  {
    IsMatrix(x.a, x.rows, x.cols) && |x.v| == x.cols
  }

  /** The dimensions are non-negative and every entry the reading loops
      consume is present.  The OpenMP, pthreads and MPI programs check
      only `argc >= 4`, and the sequential program checks nothing; reading
      past `argv[argc-1]` is undefined. */
  predicate Supplies(args: seq<int>)
  {
    && |args| >= 2 && args[0] >= 0 && args[1] >= 0
    && |args| >= 2 + args[0] * args[1] + args[1]
  }

  /** The reading loops: A row-major from `argv[3]`, then v. */
  function ReadProblem(args: seq<int>): (x: Problem)
    requires Supplies(args)
    ensures WellShaped(x)
  {
    var rows, cols := args[0], args[1];
    var n := rows * cols;
    Problem(rows, cols, FillRowMajor(args, 2, rows, cols), args[2 + n .. 2 + n + cols])
  }

  /** The command line that describes a problem. */
  function EncodeProblem(x: Problem): (args: seq<int>)
  {
    [x.rows, x.cols] + Flatten(x.a) + x.v
  }

  /** Reading the command line of a well-shaped problem, whatever follows
      it, gives the problem back. */
  lemma ReadEncode(x: Problem, extra: seq<int>)
    requires WellShaped(x)
    ensures Supplies(EncodeProblem(x) + extra)
    ensures ReadProblem(EncodeProblem(x) + extra) == x
  {
    var args := EncodeProblem(x) + extra;
    var n := x.rows * x.cols;
    FlattenLength(x.a, x.rows, x.cols);
    assert args[..2] == [x.rows, x.cols];
    assert args[2 .. 2 + n] == Flatten(x.a);
    assert args[2 + n .. 2 + n + x.cols] == x.v;
    FillRowMajorFlatten(x.a, x.rows, x.cols);
    FillFromSlice(args, 2, Flatten(x.a), x.rows, x.cols);
  }

  /** What is read is exactly the encoding of the arguments it uses. */
  lemma EncodeRead(args: seq<int>)
    requires Supplies(args)
    ensures EncodeProblem(ReadProblem(args)) == args[.. 2 + args[0] * args[1] + args[1]]
  {
    var x := ReadProblem(args);
    var n := x.rows * x.cols;
    FlattenFillRowMajor(args, 2, x.rows, x.cols);
    assert args[.. 2 + n + x.cols] == args[..2] + args[2 .. 2 + n] + args[2 + n .. 2 + n + x.cols];
  }

  /** `argc < 4` is the only argument check, in every variant but the
      sequential one. */
  datatype MvError = Usage

  // ---------------------------------------------------------------------------
  // sequential_mult.cpp

  /** `Ax` starts at zero and row `i` accumulates `A[i][j] * v[j]`. */
  method SequentialMult(args: seq<int>) returns (ax: seq<int>)
    requires Supplies(args)
    ensures |ax| == args[0]
    ensures forall i :: 0 <= i < |ax| ==> ax[i] == Dot(ReadProblem(args).a[i], ReadProblem(args).v)
    ensures ax == MatVec(ReadProblem(args).a, ReadProblem(args).v)
  {
    var x := ReadProblem(args);
    ax := seq(x.rows, _ => 0);
    for i := 0 to x.rows
      invariant |ax| == x.rows
      invariant forall p :: 0 <= p < i ==> ax[p] == Dot(x.a[p], x.v)
      invariant forall p :: i <= p < x.rows ==> ax[p] == 0
    {
      for j := 0 to x.cols
        invariant |ax| == x.rows
        invariant forall p :: 0 <= p < i ==> ax[p] == Dot(x.a[p], x.v)
        invariant forall p :: i < p < x.rows ==> ax[p] == 0
        invariant ax[i] == Dot(x.a[i][..j], x.v[..j])
      {
        DotStep(x.a[i], x.v, j);
        ax := ax[i := ax[i] + x.a[i][j] * x.v[j]];
      }
      assert x.a[i][..x.cols] == x.a[i] && x.v[..x.cols] == x.v;
    }
  }

  /** Entry `i` of the product depends on row `i` of A and on v alone:
      matrices that share that row give the same entry. */
  lemma ProductEntryIsLocal(a: Matrix, a': Matrix, v: seq<int>, i: int)
    requires forall k :: 0 <= k < |a| ==> |a[k]| == |v|
    requires forall k :: 0 <= k < |a'| ==> |a'[k]| == |v|
    requires 0 <= i < |a| && 0 <= i < |a'| && a[i] == a'[i]
    ensures MatVec(a, v)[i] == MatVec(a', v)[i]
  {
    MatVecRows(a, v, i, i + 1);
    MatVecRows(a', v, i, i + 1);
    assert a[i..i + 1] == a'[i..i + 1];
  }

  // ---------------------------------------------------------------------------
  // openmp_mult.cpp

  /** The inner loop: `temp` accumulates `row[j] * v[j]`. */
  method RowDot(row: seq<int>, v: seq<int>) returns (temp: int)
    requires |row| == |v|
    ensures temp == Dot(row, v)
  {
    temp := 0;
    for j := 0 to |v|
      invariant temp == Dot(row[..j], v[..j])
    {
      DotStep(row, v, j);
      temp := temp + row[j] * v[j];
    }
    assert row[..|v|] == row && v[..|v|] == v;
  }

  /** The OpenMP program.  `result` is allocated uninitialised (its contents
      are `result0`), and the row loop's iterations run in the order
      `order`, each writing only `result[i]`, which stands for any schedule
      of the parallel loop.  Whatever the schedule, the result is the
      product. */
  method OmpMult(args: seq<int>, result0: seq<int>, order: seq<int>) returns (r: Result<seq<int>, MvError>)
    requires |args| >= 3 ==> Supplies(args) && |result0| == args[0] && Covers(order, args[0])
    ensures r.Err? <==> |args| < 3
    ensures r.Err? ==> r.error == Usage
    ensures r.Ok? ==> r.value == MatVec(ReadProblem(args).a, ReadProblem(args).v)
  {
    if |args| < 3 {
      return Err(Usage);
    }
    var x := ReadProblem(args);
    var result := result0;
    for k := 0 to |order|
      invariant |result| == x.rows
      invariant forall i :: 0 <= i < x.rows ==>
                  result[i] == if i in order[..k] then Dot(x.a[i], x.v) else result0[i]
    {
      var i := order[k];
      var temp := RowDot(x.a[i], x.v);
      result := result[i := temp];
      assert order[..k + 1] == order[..k] + [i];
    }
    assert order[..|order|] == order;
    return Ok(result);
  }

  // ---------------------------------------------------------------------------
  // pthreads_mult.cpp

  const NumThreads: nat := 4

  /** `thread_multiply` for thread `t`: rows `[t*(rows/4), end)`, the last
      thread running to `rows`; each row is zeroed and accumulated in place.
      Nothing outside the thread's rows changes. */
  method ThreadMultiply(a: Matrix, v: seq<int>, result: seq<int>, t: nat) returns (written: seq<int>)
    requires IsMatrix(a, |result|, |v|) && t < NumThreads
    ensures |written| == |result|
    ensures forall i :: 0 <= i < |result| ==>
              written[i] == if ChunkStart(|result|, NumThreads, t) <= i < ChunkEnd(|result|, NumThreads, t)
                            then Dot(a[i], v) else result[i]
  {
    var rows := |result|;
    ChunkStep(rows, NumThreads, t);
    var lo, hi := ChunkStart(rows, NumThreads, t), ChunkEnd(rows, NumThreads, t);
    written := result;
    for i := lo to hi
      invariant |written| == rows
      invariant forall p :: 0 <= p < rows ==> written[p] == if lo <= p < i then Dot(a[p], v) else result[p]
    {
      written := written[i := 0];
      for j := 0 to |v|
        invariant |written| == rows
        invariant forall p :: 0 <= p < rows && p != i ==>
                    written[p] == if lo <= p < i then Dot(a[p], v) else result[p]
        invariant written[i] == Dot(a[i][..j], v[..j])
      {
        DotStep(a[i], v, j);
        written := written[i := written[i] + a[i][j] * v[j]];
      }
      assert a[i][..|v|] == a[i] && v[..|v|] == v;
    }
  }

  /** The pthreads program: four threads over the uninitialised `result`
      (contents `result0`).  The threads' row ranges are disjoint, so running
      them one after another gives what any interleaving gives; after the
      joins the result is the product, whatever `result0` held. */
  method PthreadsMult(args: seq<int>, result0: seq<int>) returns (r: Result<seq<int>, MvError>)
    requires |args| >= 3 ==> Supplies(args) && |result0| == args[0]
    ensures r.Err? <==> |args| < 3
    ensures r.Err? ==> r.error == Usage
    ensures r.Ok? ==> r.value == MatVec(ReadProblem(args).a, ReadProblem(args).v)
  {
    if |args| < 3 {
      return Err(Usage);
    }
    var x := ReadProblem(args);
    var product := MatVec(x.a, x.v);
    var b := ChunkBounds(x.rows, NumThreads);
    ChunkTiles(x.rows, NumThreads);
    var result := result0;
    for t := 0 to NumThreads
      invariant result == WriteTiles(result0, b, product, t)
    {
      var next := ThreadMultiply(x.a, x.v, result, t);
      var w := WriteRange(result, b[t], b[t + 1], product);
      assert |next| == |w| && forall i :: 0 <= i < |w| ==> next[i] == w[i];
      result := next;
    }
    WriteTilesAll(result0, b, product);
    return Ok(result);
  }

  // ---------------------------------------------------------------------------
  // openmpi_mult.cpp

  /** `sendcounts`: rank `k` gets `rows/p` rows, one more when
      `k < rows % p`, `cols` entries each. */
  function SendCounts(rows: nat, cols: nat, p: nat): (counts: seq<int>)
    requires p > 0
    ensures |counts| == p
    ensures forall k :: 0 <= k < p ==>
              counts[k] == (rows / p) * cols || counts[k] == (rows / p + 1) * cols
  {
    seq(p, k requires 0 <= k < p => BlockRows(rows, p, k) * cols)
  }

  /** The send counts share out the whole matrix, and `displs`, their
      running sum, puts rank `k`'s block at row `BlockStart(k)`. */
  lemma SendCountsTile(rows: nat, cols: nat, p: nat)
    requires p > 0
    ensures Sum(SendCounts(rows, cols, p)) == rows * cols
    ensures forall k :: 0 <= k < p ==> Displacements(SendCounts(rows, cols, p))[k] == BlockStart(rows, p, k) * cols
  {
    var counts := SendCounts(rows, cols, p);
    forall k | 0 <= k < p
      ensures Displacements(counts)[k] == BlockStart(rows, p, k) * cols
    {
      BlockDisplacements(rows, p, cols, k);
    }
    BlockStep(rows, p, p - 1);
    BlockLast(rows, p);
    assert Sum(counts) == Displacements(counts)[p - 1] + counts[p - 1];
    assert BlockStart(rows, p, p) * cols == BlockStart(rows, p, p - 1) * cols + BlockRows(rows, p, p - 1) * cols;
  }

  /** `local_rows = sendcounts[k] / cols`; the division is exact, so rank
      `k` holds its block's row count. */
  function LocalRows(rows: nat, cols: nat, p: nat, k: nat): (n: int)
    requires p > 0 && k < p && cols > 0
    ensures n == BlockRows(rows, p, k)
  {
    MulDivCancel(BlockRows(rows, p, k), cols);
    SendCounts(rows, cols, p)[k] / cols
  }

  /** `recvcounts[i] = sendcounts[i] / cols`, one result per row. */
  function RecvCounts(rows: nat, cols: nat, p: nat): (counts: seq<int>)
    requires p > 0 && cols > 0
    ensures |counts| == p
    ensures forall k :: 0 <= k < p ==> counts[k] == BlockRows(rows, p, k)
  {
    seq(p, k requires 0 <= k < p => LocalRows(rows, cols, p, k))
  }

  /** Each receive count is the rank's row count, they add up to `rows`,
      and `recvdispls` puts rank `k`'s results at its first row. */
  lemma RecvCountsTile(rows: nat, cols: nat, p: nat)
    requires p > 0 && cols > 0
    ensures RecvCounts(rows, cols, p) == BlockRowsSeq(rows, p)
    ensures Sum(RecvCounts(rows, cols, p)) == rows
    ensures forall k :: 0 <= k < p ==> Displacements(RecvCounts(rows, cols, p))[k] == BlockStart(rows, p, k)
  {
    var rc := RecvCounts(rows, cols, p);
    BlockRowsSum(rows, p);
    assert rc == seq(p, j requires 0 <= j < p => BlockRows(rows, p, j) * 1);
    forall k | 0 <= k < p
      ensures Displacements(rc)[k] == BlockStart(rows, p, k)
    {
      BlockDisplacements(rows, p, 1, k);
    }
  }

  /** Rank `k`'s block of the flat matrix lies inside it. */
  lemma BlockInside(rows: nat, cols: nat, p: nat, k: nat)
    requires p > 0 && k < p
    ensures BlockStart(rows, p, k) + BlockRows(rows, p, k) <= rows
    ensures BlockStart(rows, p, k) * cols + BlockRows(rows, p, k) * cols <= rows * cols
  {
    var s, n := BlockStart(rows, p, k), BlockRows(rows, p, k);
    BlockStep(rows, p, k);
    BlockTiles(rows, p);
    TilesSorted(BlockBounds(rows, p), rows, k + 1, p);
    assert s + n <= rows;
    MulMono(s + n, rows, cols);
    assert (s + n) * cols == s * cols + n * cols;
  }

  /** The local loop: `local_result[i]` accumulates
      `local_matrix[i*cols + j] * vec[j]` over the flat local block. */
  method LocalProduct(local: seq<int>, localRows: nat, cols: nat, vec: seq<int>) returns (res: seq<int>)
    requires |local| == localRows * cols && |vec| == cols
    ensures |res| == localRows
    ensures res == MatVec(FillRowMajor(local, 0, localRows, cols), vec)
  {
    var m := FillRowMajor(local, 0, localRows, cols);
    res := seq(localRows, _ => 0);
    for i := 0 to localRows
      invariant |res| == localRows
      invariant forall p :: 0 <= p < i ==> res[p] == Dot(m[p], vec)
    {
      res := res[i := 0];
      for j := 0 to cols
        invariant |res| == localRows
        invariant forall p :: 0 <= p < i ==> res[p] == Dot(m[p], vec)
        invariant res[i] == Dot(m[i][..j], vec[..j])
      {
        RowMajorBound(i, j, localRows, cols);
        assert local[i * cols + j] == m[i][j];
        DotStep(m[i], vec, j);
        res := res[i := res[i] + local[i * cols + j] * vec[j]];
      }
      assert m[i][..cols] == m[i] && vec[..cols] == vec;
    }
  }

  /** What rank `k` sends back: the product of its scattered block of the
      flat matrix (`sendcounts[k]` entries from `displs[k]`) with the
      broadcast vector. */
  function RankResult(flat: seq<int>, vec: seq<int>, rows: nat, cols: nat, p: nat, k: nat): (res: seq<int>)
    requires p > 0 && k < p && cols > 0
    requires |flat| == rows * cols && |vec| == cols
    ensures |res| == BlockRows(rows, p, k)
  {
    var counts := SendCounts(rows, cols, p);
    SendCountsTile(rows, cols, p);
    BlockInside(rows, cols, p, k);
    var lo := Displacements(counts)[k];
    var localRows := LocalRows(rows, cols, p, k);
    MatVec(FillRowMajor(flat[lo .. lo + counts[k]], 0, localRows, cols), vec)
  }

  /** The MPI program on `p` ranks: rank 0 aborts on `argc < 4`; otherwise
      the matrix is read flat, scattered by rows, multiplied locally, and
      gathered at `recvdispls` in rank order.  The division by `cols` needs
      `cols > 0`. */
  function MpiMatVec(args: seq<int>, p: nat): (r: Result<seq<int>, MvError>)
    requires p > 0
    requires |args| >= 3 ==> Supplies(args) && args[1] > 0
    ensures r.Err? <==> |args| < 3
  {
    if |args| < 3 then Err(Usage)
    else
      var rows, cols := args[0], args[1];
      var n := rows * cols;
      var flat, vec := args[2 .. 2 + n], args[2 + n .. 2 + n + cols];
      Ok(Concat(seq(p, k requires 0 <= k < p => RankResult(flat, vec, rows, cols, p, k))))
  }

  /** On a flattened matrix, rank `k` multiplies exactly its band of rows. */
  lemma RankResultIsBand(m: Matrix, vec: seq<int>, rows: nat, cols: nat, p: nat, k: nat)
    requires p > 0 && k < p && cols > 0 && IsMatrix(m, rows, cols) && |vec| == cols
    ensures |Flatten(m)| == rows * cols
    ensures BlockStart(rows, p, k) + BlockRows(rows, p, k) <= rows
    ensures RankResult(Flatten(m), vec, rows, cols, p, k)
         == MatVec(m[BlockStart(rows, p, k) .. BlockStart(rows, p, k) + BlockRows(rows, p, k)], vec)
  {
    FlattenLength(m, rows, cols);
    var lo := BlockStart(rows, p, k);
    var hi := lo + BlockRows(rows, p, k);
    SendCountsTile(rows, cols, p);
    BlockInside(rows, cols, p, k);
    FlattenSlice(m, cols, lo, hi);
    MulSubDistrib(lo, hi, cols);
    assert lo * cols + BlockRows(rows, p, k) * cols == hi * cols;
    FillRowMajorFlatten(m[lo..hi], hi - lo, cols);
  }

  /** Rank `k`'s results are rows `[BlockStart(k), BlockStart(k+1))` of the
      product. */
  lemma RankResultIsBlock(args: seq<int>, p: nat, k: nat)
    requires p > 0 && k < p && Supplies(args) && args[1] > 0
    ensures BlockStart(args[0], p, k) + BlockRows(args[0], p, k) <= args[0]
    ensures var x := ReadProblem(args);
      var lo := BlockStart(x.rows, p, k);
      RankResult(args[2 .. 2 + x.rows * x.cols], x.v, x.rows, x.cols, p, k)
        == MatVec(x.a, x.v)[lo .. lo + BlockRows(x.rows, p, k)]
  {
    var x := ReadProblem(args);
    var lo := BlockStart(x.rows, p, k);
    var hi := lo + BlockRows(x.rows, p, k);
    FlattenFillRowMajor(args, 2, x.rows, x.cols);
    RankResultIsBand(x.a, x.v, x.rows, x.cols, p, k);
    MatVecRows(x.a, x.v, lo, hi);
  }

  /** The gathered result is the product, for every number of ranks. */
  lemma MpiIsProduct(args: seq<int>, p: nat)
    requires p > 0 && |args| >= 3 && Supplies(args) && args[1] > 0
    ensures MpiMatVec(args, p) == Ok(MatVec(ReadProblem(args).a, ReadProblem(args).v))
  {
    var x := ReadProblem(args);
    var n := x.rows * x.cols;
    var flat := args[2 .. 2 + n];
    var parts := seq(p, k requires 0 <= k < p => RankResult(flat, x.v, x.rows, x.cols, p, k));
    var mv := MatVec(x.a, x.v);
    BlockTiles(x.rows, p);
    var b := BlockBounds(x.rows, p);
    forall k | 0 <= k < p
      ensures parts[k] == Slices(mv, b)[k]
    {
      RankResultIsBlock(args, p, k);
      assert b[k] == BlockStart(x.rows, p, k) && b[k + 1] == b[k] + BlockRows(x.rows, p, k);
    }
    assert parts == Slices(mv, b);
    ConcatSlices(mv, b);
  }
}
