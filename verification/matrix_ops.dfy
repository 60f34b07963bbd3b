/** The matrix-operations programs (ExerciseIII) on two-dimensional
    matrices: reading `r1 c1 r2 c2` and the entries of A and B from the
    command line, the sum when the shapes agree, the product when the inner
    dimensions agree, and transposes.  The sequential program runs the
    kernels one after another; the OpenMP program runs them as three
    `omp section`s and the pthreads program as three threads over one
    shared `ThreadData`.  The command line is taken as the integers `atoi`
    gives for `argv[1..]`, so `argc` is one more than its length. */
module MatrixOps {
  import opened Base
  import opened LinAlg

  // ---------------------------------------------------------------------------
  // Arguments.

  datatype ArgError =
    | Usage                               // fewer than four dimension arguments
    | WrongCount(expected: int, got: int) // the entry count disagrees with the dimensions
    | NegativeDimension                   // a dimension the vector constructor rejects

  /** The parsed operands: A is `r1 × c1`, B is `r2 × c2`. */
  datatype Operands = Operands(r1: nat, c1: nat, r2: nat, c2: nat, a: Matrix, b: Matrix)

  predicate WellShaped(o: Operands)
  {
    IsMatrix(o.a, o.r1, o.c1) && IsMatrix(o.b, o.r2, o.c2)
  }

  /** The programs' argument handling: a usage error for `argc < 5`, an
      error unless `argc == 5 + r1*c1 + r2*c2`, then A filled row-major from
      `argv[5]` and B right after it. */
  function ParseOperands(args: seq<int>): (r: Result<Operands, ArgError>)
    ensures r.Ok? ==> WellShaped(r.value)
  {
    if |args| + 1 < 5 then Err(Usage)
    else
      var r1, c1, r2, c2 := args[0], args[1], args[2], args[3];
      var expected := 1 + 4 + r1 * c1 + r2 * c2;
      if |args| + 1 != expected then Err(WrongCount(expected - 1, |args|))
      else if r1 < 0 || c1 < 0 || r2 < 0 || c2 < 0 then Err(NegativeDimension)
      else Ok(Operands(r1, c1, r2, c2,
                       FillRowMajor(args, 4, r1, c1),
                       FillRowMajor(args, 4 + r1 * c1, r2, c2)))
  }

  /** The command line that describes given operands. */
  function EncodeOperands(o: Operands): (args: seq<int>)
  {
    [o.r1, o.c1, o.r2, o.c2] + Flatten(o.a) + Flatten(o.b)
  }

  /** Reading back the command line of well-shaped operands gives them. */
  lemma ParseEncode(o: Operands)
    requires WellShaped(o)
    ensures ParseOperands(EncodeOperands(o)) == Ok(o)
  {
    var args := EncodeOperands(o);
    var fa, fb := Flatten(o.a), Flatten(o.b);
    var n1, n2 := o.r1 * o.c1, o.r2 * o.c2;
    FlattenLength(o.a, o.r1, o.c1);
    FlattenLength(o.b, o.r2, o.c2);
    assert args[..4] == [o.r1, o.c1, o.r2, o.c2];
    assert args[4 .. 4 + n1] == fa;
    assert args[4 + n1 .. 4 + n1 + n2] == fb;
    FlattenFillRowMajor(args, 4, o.r1, o.c1);
    FlattenFillRowMajor(args, 4 + n1, o.r2, o.c2);
    FillRowMajorFlatten(o.a, o.r1, o.c1);
    FillRowMajorFlatten(o.b, o.r2, o.c2);
    FillFromSlice(args, 4, fa, o.r1, o.c1);
    FillFromSlice(args, 4 + n1, fb, o.r2, o.c2);
  }

  /** Accepted arguments are exactly the encoding of what was read. */
  lemma EncodeParse(args: seq<int>)
    requires ParseOperands(args).Ok?
    ensures EncodeOperands(ParseOperands(args).value) == args
  {
    var o := ParseOperands(args).value;
    var n1, n2 := o.r1 * o.c1, o.r2 * o.c2;
    FlattenFillRowMajor(args, 4, o.r1, o.c1);
    FlattenFillRowMajor(args, 4 + n1, o.r2, o.c2);
    assert args == args[..4] + args[4 .. 4 + n1] + args[4 + n1 .. 4 + n1 + n2];
  }

  /** The three ways arguments are refused, and nothing else. */
  lemma ParseErrors(args: seq<int>)
    ensures ParseOperands(args) == Err(Usage) <==> |args| < 4
    ensures (ParseOperands(args).Err? && ParseOperands(args).error.WrongCount?) <==>
              |args| >= 4 && |args| != 4 + args[0] * args[1] + args[2] * args[3]
    ensures ParseOperands(args) == Err(NegativeDimension) <==>
              |args| >= 4 && |args| == 4 + args[0] * args[1] + args[2] * args[3]
              && (args[0] < 0 || args[1] < 0 || args[2] < 0 || args[3] < 0)
  {
  }

  // ---------------------------------------------------------------------------
  // The sequential kernels, as the loops that compute them.

  /** `sum[i][j] = mat1[i][j] + mat2[i][j]`, row by row. */
  method SumLoop(a: Matrix, b: Matrix, rows: nat, cols: nat) returns (sum: Matrix)
    requires IsMatrix(a, rows, cols) && IsMatrix(b, rows, cols)
    ensures IsMatrix(sum, rows, cols)
    ensures forall i, j :: 0 <= i < rows && 0 <= j < cols ==> sum[i][j] == a[i][j] + b[i][j]
    ensures sum == Add(a, b, rows, cols)
  {
    sum := seq(rows, i => seq(cols, j => 0));
    for i := 0 to rows
      invariant IsMatrix(sum, rows, cols)
      invariant forall p, q :: 0 <= p < i && 0 <= q < cols ==> sum[p][q] == a[p][q] + b[p][q]
    {
      for j := 0 to cols
        invariant IsMatrix(sum, rows, cols)
        invariant forall p, q :: 0 <= p < i && 0 <= q < cols ==> sum[p][q] == a[p][q] + b[p][q]
        invariant forall q :: 0 <= q < j ==> sum[i][q] == a[i][q] + b[i][q]
      {
        sum := sum[i := sum[i][j := a[i][j] + b[i][j]]];
      }
    }
    var s := Add(a, b, rows, cols);
    forall i | 0 <= i < rows
      ensures sum[i] == s[i]
    {
    }
  }

  /** `product[i][j] += mat1[i][k] * mat2[k][j]` for k in order, starting
      from a zero matrix. */
  method ProductLoop(a: Matrix, b: Matrix, r1: nat, c1: nat, c2: nat) returns (product: Matrix)
    requires IsMatrix(a, r1, c1) && IsMatrix(b, c1, c2)
    ensures IsMatrix(product, r1, c2)
    ensures forall i, j :: 0 <= i < r1 && 0 <= j < c2 ==> product[i][j] == Dot(a[i], Column(b, j))
    ensures product == Multiply(a, b, r1, c1, c2)
  {
    product := seq(r1, i => seq(c2, j => 0));
    for i := 0 to r1
      invariant IsMatrix(product, r1, c2)
      invariant forall p, q :: 0 <= p < i && 0 <= q < c2 ==> product[p][q] == Dot(a[p], Column(b, q))
      invariant forall p, q :: i <= p < r1 && 0 <= q < c2 ==> product[p][q] == 0
    {
      for j := 0 to c2
        invariant IsMatrix(product, r1, c2)
        invariant forall p, q :: 0 <= p < i && 0 <= q < c2 ==> product[p][q] == Dot(a[p], Column(b, q))
        invariant forall p, q :: i < p < r1 && 0 <= q < c2 ==> product[p][q] == 0
        invariant forall q :: 0 <= q < j ==> product[i][q] == Dot(a[i], Column(b, q))
        invariant forall q :: j <= q < c2 ==> product[i][q] == 0
      {
        var col := Column(b, j);
        for k := 0 to c1
          invariant IsMatrix(product, r1, c2)
          invariant forall p, q :: 0 <= p < i && 0 <= q < c2 ==> product[p][q] == Dot(a[p], Column(b, q))
          invariant forall p, q :: i < p < r1 && 0 <= q < c2 ==> product[p][q] == 0
          invariant forall q :: 0 <= q < j ==> product[i][q] == Dot(a[i], Column(b, q))
          invariant forall q :: j < q < c2 ==> product[i][q] == 0
          invariant product[i][j] == Dot(a[i][..k], col[..k])
        {
          DotStep(a[i], col, k);
          product := product[i := product[i][j := product[i][j] + a[i][k] * b[k][j]]];
        }
        assert a[i][..c1] == a[i] && col[..c1] == col;
      }
    }
    var m := Multiply(a, b, r1, c1, c2);
    forall i | 0 <= i < r1
      ensures product[i] == m[i]
    {
    }
  }

  /** `transpose[j][i] = mat[i][j]` over the rows of `mat`. */
  method TransposeLoop(a: Matrix, rows: nat, cols: nat) returns (t: Matrix)
    requires IsMatrix(a, rows, cols)
    ensures IsMatrix(t, cols, rows)
    ensures forall i, j :: 0 <= i < rows && 0 <= j < cols ==> t[j][i] == a[i][j]
    ensures t == Transpose(a, rows, cols)
  {
    t := seq(cols, j => seq(rows, i => 0));
    for i := 0 to rows
      invariant IsMatrix(t, cols, rows)
      invariant forall p, q :: 0 <= p < i && 0 <= q < cols ==> t[q][p] == a[p][q]
    {
      for j := 0 to cols
        invariant IsMatrix(t, cols, rows)
        invariant forall p, q :: 0 <= p < i && 0 <= q < cols ==> t[q][p] == a[p][q]
        invariant forall q :: 0 <= q < j ==> t[q][i] == a[i][q]
      {
        t := t[j := t[j][i := a[i][j]]];
      }
    }
    var x := Transpose(a, rows, cols);
    forall j | 0 <= j < cols
      ensures t[j] == x[j]
    {
    }
  }

  // ---------------------------------------------------------------------------
  // The sequential program.

  /** What the sequential program prints: the sum and the product when they
      are defined, and the transposes of both matrices. */
  datatype SeqReport = SeqReport(sum: Option<Matrix>, product: Option<Matrix>,
                                 transpose1: Matrix, transpose2: Matrix)

  function SumIfDefined(o: Operands): (s: Option<Matrix>)
    requires WellShaped(o)
    ensures s.Some? <==> o.r1 == o.r2 && o.c1 == o.c2
  {
    if o.r1 == o.r2 && o.c1 == o.c2 then Some(Add(o.a, o.b, o.r1, o.c1)) else None
  }

  function ProductIfDefined(o: Operands): (p: Option<Matrix>)
    requires WellShaped(o)
    ensures p.Some? <==> o.c1 == o.r2
    ensures p.Some? ==> IsMatrix(p.value, o.r1, o.c2)
  {
    if o.c1 == o.r2 then Some(Multiply(o.a, o.b, o.r1, o.c1, o.c2)) else None
  }

  function SequentialMatrixOps(args: seq<int>): (r: Result<SeqReport, ArgError>)
    ensures r.Ok? <==> ParseOperands(args).Ok?
  {
    match ParseOperands(args)
    case Err(e) => Err(e)
    case Ok(o) =>
      Ok(SeqReport(SumIfDefined(o), ProductIfDefined(o),
                   Transpose(o.a, o.r1, o.c1), Transpose(o.b, o.r2, o.c2)))
  }

  /** The sum is reported exactly when the shapes agree, with entrywise sums;
      the product exactly when `c1 == r2`, as an `r1 × c2` matrix of row–column
      dot products; each transpose swaps the indices of its matrix. */
  lemma SequentialReport(args: seq<int>)
    requires SequentialMatrixOps(args).Ok?
    ensures var o, rep := ParseOperands(args).value, SequentialMatrixOps(args).value;
      && (rep.sum.Some? <==> o.r1 == o.r2 && o.c1 == o.c2)
      && (rep.sum.Some? ==>
            && IsMatrix(rep.sum.value, o.r1, o.c1)
            && forall i, j :: 0 <= i < o.r1 && 0 <= j < o.c1 ==> rep.sum.value[i][j] == o.a[i][j] + o.b[i][j])
      && (rep.product.Some? <==> o.c1 == o.r2)
      && (rep.product.Some? ==>
            && IsMatrix(rep.product.value, o.r1, o.c2)
            && forall i, j :: 0 <= i < o.r1 && 0 <= j < o.c2 ==>
                 rep.product.value[i][j] == Dot(o.a[i], Column(o.b, j)))
      && IsMatrix(rep.transpose1, o.c1, o.r1)
      && (forall i, j :: 0 <= i < o.r1 && 0 <= j < o.c1 ==> rep.transpose1[j][i] == o.a[i][j])
      && IsMatrix(rep.transpose2, o.c2, o.r2)
      && (forall i, j :: 0 <= i < o.r2 && 0 <= j < o.c2 ==> rep.transpose2[j][i] == o.b[i][j])
  {
  }

  // ---------------------------------------------------------------------------
  // Three independent tasks: OpenMP sections and pthreads.

  /** The kernels the parallel programs run concurrently. */
  datatype Task = Addition | Multiplication | Transposition

  /** The variables the tasks share: the dimensions, A and B, and one result
      per task, each starting empty (`ThreadData` in the pthreads program;
      the locals `addResult`, `mulResult` and `transResult` around the
      sections in the OpenMP program). */
  datatype TaskState = TaskState(r1: nat, c1: nat, r2: nat, c2: nat, a: Matrix, b: Matrix,
                                 addResult: Matrix, mulResult: Matrix, transResult: Matrix)

  predicate Inputs(s: TaskState)
  {
    IsMatrix(s.a, s.r1, s.c1) && IsMatrix(s.b, s.r2, s.c2)
  }

  /** The state the programs start the tasks from. */
  function StartState(o: Operands): (s: TaskState)
    requires WellShaped(o)
    ensures Inputs(s)
  {
    TaskState(o.r1, o.c1, o.r2, o.c2, o.a, o.b, [], [], [])
  }

  /** What a task writes into its own result: the sum only when the shapes
      agree, the product only when `c1 == r2`, the transpose always. */
  function TaskValue(t: Task, s: TaskState): (m: Option<Matrix>)
    requires Inputs(s)
  {
    match t
    case Addition =>
      if s.r1 == s.r2 && s.c1 == s.c2 then Some(Add(s.a, s.b, s.r1, s.c1)) else None
    case Multiplication =>
      if s.c1 == s.r2 then Some(Multiply(s.a, s.b, s.r1, s.c1, s.c2)) else None
    case Transposition => Some(Transpose(s.a, s.r1, s.c1))
  }

  /** One task run to completion: it writes its own result variable, when
      it writes at all, and leaves the dimensions, A, B and the other
      results as they were. */
  function RunTask(t: Task, s: TaskState): (s': TaskState)
    requires Inputs(s)
    ensures Inputs(s')
    ensures s'.r1 == s.r1 && s'.c1 == s.c1 && s'.r2 == s.r2 && s'.c2 == s.c2
    ensures s'.a == s.a && s'.b == s.b
    ensures t != Addition ==> s'.addResult == s.addResult
    ensures t != Multiplication ==> s'.mulResult == s.mulResult
    ensures t != Transposition ==> s'.transResult == s.transResult
  {
    match TaskValue(t, s)
    case None => s
    case Some(m) =>
      match t
      case Addition => s.(addResult := m)
      case Multiplication => s.(mulResult := m)
      case Transposition => s.(transResult := m)
  }

  /** Tasks run one after another in `order`. */
  function RunTasks(order: seq<Task>, s: TaskState): (s': TaskState)
    requires Inputs(s)
    ensures Inputs(s')
    decreases |order|
  {
    if |order| == 0 then s else RunTasks(order[1..], RunTask(order[0], s))
  }

  /** The result a task leaves once it has run, or the starting value if it
      never ran or wrote nothing. */
  function Expected(t: Task, order: seq<Task>, s: TaskState, initial: Matrix): Matrix
    requires Inputs(s)
  {
    if t in order && TaskValue(t, s).Some? then TaskValue(t, s).value else initial
  }

  /** Whatever order the tasks run in, each result is what its own task
      computes from the unchanged inputs, and A, B and the dimensions are
      never modified. */
  lemma {:induction false} RunTasksResults(order: seq<Task>, s: TaskState)
    requires Inputs(s)
    ensures var s' := RunTasks(order, s);
      && s'.r1 == s.r1 && s'.c1 == s.c1 && s'.r2 == s.r2 && s'.c2 == s.c2 && s'.a == s.a && s'.b == s.b
      && s'.addResult == Expected(Addition, order, s, s.addResult)
      && s'.mulResult == Expected(Multiplication, order, s, s.mulResult)
      && s'.transResult == Expected(Transposition, order, s, s.transResult)
    decreases |order|
  {
    if |order| > 0 {
      var s1 := RunTask(order[0], s);
      RunTasksResults(order[1..], s1);
      assert TaskValue(Addition, s1) == TaskValue(Addition, s);
      assert TaskValue(Multiplication, s1) == TaskValue(Multiplication, s);
      assert TaskValue(Transposition, s1) == TaskValue(Transposition, s);
      assert forall t :: t in order <==> t == order[0] || t in order[1..];
    }
  }

  /** Running two tasks in either order gives the same state. */
  lemma TasksCommute(t1: Task, t2: Task, s: TaskState)
    requires Inputs(s)
    ensures RunTask(t1, RunTask(t2, s)) == RunTask(t2, RunTask(t1, s))
  {
    RunTasksResults([t1, t2], s);
    RunTasksResults([t2, t1], s);
    assert RunTasks([t1, t2], s) == RunTask(t2, RunTask(t1, s)) by {
      assert [t1, t2][1..] == [t2] && [t2][1..] == [];
    }
    assert RunTasks([t2, t1], s) == RunTask(t1, RunTask(t2, s)) by {
      assert [t2, t1][1..] == [t1] && [t1][1..] == [];
    }
  }

  /** What the parallel programs print: the sum and product when their
      guards hold, and the transpose of A. */
  datatype Report = Report(sum: Option<Matrix>, product: Option<Matrix>, transpose: Matrix)

  /** A schedule of the three tasks: each of them runs. */
  predicate AllTasks(order: seq<Task>)
  {
    Addition in order && Multiplication in order && Transposition in order
  }

  /** The printing code's view of the final state: a result is printed only
      under the same guard its task used. */
  function ReportOf(s: TaskState): Report
  {
    Report(if s.r1 == s.r2 && s.c1 == s.c2 then Some(s.addResult) else None,
           if s.c1 == s.r2 then Some(s.mulResult) else None,
           s.transResult)
  }

  /** The OpenMP and pthreads programs: parse, run the three tasks in the
      order the runtime picks, and report. */
  function ParallelMatrixOps(args: seq<int>, order: seq<Task>): (r: Result<Report, ArgError>)
    ensures r.Ok? <==> ParseOperands(args).Ok?
  {
    match ParseOperands(args)
    case Err(e) => Err(e)
    case Ok(o) => Ok(ReportOf(RunTasks(order, StartState(o))))
  }

  /** In whatever order the sections or threads run, the parallel programs
      report the sequential program's sum, product and transpose of A. */
  lemma ParallelIsSequential(args: seq<int>, order: seq<Task>)
    requires AllTasks(order)
    ensures ParallelMatrixOps(args, order).Ok? <==> SequentialMatrixOps(args).Ok?
    ensures ParallelMatrixOps(args, order).Err? ==>
              ParallelMatrixOps(args, order).error == SequentialMatrixOps(args).error
    ensures ParallelMatrixOps(args, order).Ok? ==>
              var p, q := ParallelMatrixOps(args, order).value, SequentialMatrixOps(args).value;
              p.sum == q.sum && p.product == q.product && p.transpose == q.transpose1
  {
    if ParseOperands(args).Ok? {
      RunTasksResults(order, StartState(ParseOperands(args).value));
    }
  }

  /** The command line `1 1 1 1 2 3`: A = [[2]] and B = [[3]], whose sum,
      product and transposes the sequential program prints as 5, 6, 2 and 3. */
  lemma ExampleOperands()
    ensures ParseOperands([1, 1, 1, 1, 2, 3]) == Ok(Operands(1, 1, 1, 1, [[2]], [[3]]))
    ensures SequentialMatrixOps([1, 1, 1, 1, 2, 3]) == Ok(SeqReport(Some([[5]]), Some([[6]]), [[2]], [[3]]))
  {
    var o := Operands(1, 1, 1, 1, [[2]], [[3]]);
    assert EncodeOperands(o) == [1, 1, 1, 1, 2, 3];
    ParseEncode(o);
    assert Dot([2], [3]) == 6;
    assert Column([[3]], 0) == [3];
    var m, s, t, u := Multiply([[2]], [[3]], 1, 1, 1), Add([[2]], [[3]], 1, 1),
                      Transpose([[2]], 1, 1), Transpose([[3]], 1, 1);
    assert m[0][0] == 6 && s[0][0] == 5 && t[0][0] == 2 && u[0][0] == 3;
    assert m[0] == [6] && s[0] == [5] && t[0] == [2] && u[0] == [3];
    assert m == [[6]] && s == [[5]] && t == [[2]] && u == [[3]];
  }
}
