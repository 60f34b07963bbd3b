/** MPI component labelling (component_label_mpi.cpp).  Rank `k` of `P`
    receives a contiguous block of rows (the first `rows % P` ranks one row
    more), labels it with global indices, and iterates: it swaps boundary
    label rows with the ranks above and below, updates every local cell
    from its local neighbours and the received halo rows, and joins a
    logical-OR all-reduce of its local change flag.  At the end the blocks
    are gathered on rank 0.

    Across a rank boundary the source decides whether the neighbour is
    foreground by testing the received LABEL for 0, not the image.  A
    foreground cell can carry label 0 (cell (0, 0) and everything that has
    joined its component), so label 0 never crosses a rank boundary.  Both
    tests are modelled: `LabelNonZero` as written and `NeighbourImage`
    testing the neighbour's image value, as the in-rank test does. */
module MpiLabeling {
  import opened Base
  import opened Grid
  import opened Partition
  import opened LabelSweep
  import opened SeqLabeling

  /** How a rank decides that a halo cell is a foreground neighbour. */
  datatype HaloRule = LabelNonZero | NeighbourImage

  predicate HaloUsable(rule: HaloRule, neighbourImage: int, neighbourLabel: int)
  {
    match rule
    case LabelNonZero => neighbourLabel != 0
    case NeighbourImage => neighbourImage == 1
  }

  // ---------------------------------------------------------------------------
  // One rank's view and its local update.

  /** What a rank holds during one iteration: its rows of the image and of
      the labels, and for each side whether a neighbour rank exists and the
      boundary row received from it. */
  datatype View = View(image: Matrix, labels: Matrix,
                       hasTop: bool, topImage: seq<int>, topLabels: seq<int>,
                       hasBottom: bool, bottomImage: seq<int>, bottomLabels: seq<int>)

  predicate ViewOk(v: View, cols: nat)
  {
    && |v.image| > 0
    && IsMatrix(v.image, |v.image|, cols) && IsMatrix(v.labels, |v.image|, cols)
    && |v.topImage| == cols && |v.topLabels| == cols
    && |v.bottomImage| == cols && |v.bottomLabels| == cols
  }

  /** Every label the rank can read is non-negative. */
  predicate ViewNonNeg(v: View)
  {
    && NonNeg(v.labels)
    && (forall j :: 0 <= j < |v.topLabels| ==> v.topLabels[j] >= 0)
    && (forall j :: 0 <= j < |v.bottomLabels| ==> v.bottomLabels[j] >= 0)
  }

  /** Whether the cell above local cell (i, j) is used: on the first local
      row the halo decides, by the rule; elsewhere the local image. */
  predicate TopCond(rule: HaloRule, v: View, cols: nat, i: int, j: int)
    requires ViewOk(v, cols) && 0 <= i < |v.image| && 0 <= j < cols
  {
    if i == 0 then v.hasTop && HaloUsable(rule, v.topImage[j], v.topLabels[j]) else v.image[i - 1][j] == 1
  }

  function TopValue(v: View, cols: nat, i: int, j: int): int
    requires ViewOk(v, cols) && 0 <= i < |v.image| && 0 <= j < cols
  {
    if i == 0 then v.topLabels[j] else v.labels[i - 1][j]
  }

  /** Whether the cell below is used: on the last local row the halo
      decides, by the rule; elsewhere the local image. */
  predicate BottomCond(rule: HaloRule, v: View, cols: nat, i: int, j: int)
    requires ViewOk(v, cols) && 0 <= i < |v.image| && 0 <= j < cols
  {
    if i == |v.image| - 1 then v.hasBottom && HaloUsable(rule, v.bottomImage[j], v.bottomLabels[j])
    else v.image[i + 1][j] == 1
  }

  function BottomValue(v: View, cols: nat, i: int, j: int): int
    requires ViewOk(v, cols) && 0 <= i < |v.image| && 0 <= j < cols
  {
    if i == |v.image| - 1 then v.bottomLabels[j] else v.labels[i + 1][j]
  }

  /** The local rule, neighbours in the source's order: left, right, top,
      bottom.  A background cell is written 0. */
  function LocalCell(rule: HaloRule, v: View, cols: nat, i: int, j: int): (r: int)
    requires ViewOk(v, cols) && 0 <= i < |v.image| && 0 <= j < cols
    ensures v.image[i][j] == 1 ==> r <= v.labels[i][j]
    ensures v.image[i][j] != 1 ==> r == 0
    ensures ViewNonNeg(v) ==> r >= 0
  {
    if v.image[i][j] == 1 then
      var current := v.labels[i][j];
      var left := Pick(j > 0 && v.image[i][j - 1] == 1, current, At(v.labels, i, j - 1));
      var right := Pick(j < cols - 1 && v.image[i][j + 1] == 1, left, At(v.labels, i, j + 1));
      var top := Pick(TopCond(rule, v, cols, i, j), right, TopValue(v, cols, i, j));
      Pick(BottomCond(rule, v, cols, i, j), top, BottomValue(v, cols, i, j))
    else 0
  }

  function LocalUpdate(rule: HaloRule, v: View, cols: nat): (N: Matrix)
    requires ViewOk(v, cols)
    ensures IsMatrix(N, |v.image|, cols)
  {
    seq(|v.image|, i requires 0 <= i < |v.image| =>
      seq(cols, j requires 0 <= j < cols => LocalCell(rule, v, cols, i, j)))
  }

  /** The rank's `localChanged`: some foreground cell found a smaller label. */
  predicate LocalChanged(v: View, N: Matrix, cols: nat)
    requires ViewOk(v, cols) && IsMatrix(N, |v.image|, cols)
  {
    exists i, j :: 0 <= i < |v.image| && 0 <= j < cols && v.image[i][j] == 1 && N[i][j] < v.labels[i][j]
  }

  /** Every foreground cell carries a non-zero label. */
  predicate FgNonZero(image: Matrix, L: Matrix)
    requires Fits(image, L)
  {
    forall i, j :: 0 <= i < |image| && 0 <= j < Width(image) && image[i][j] == 1 ==> L[i][j] != 0
  }

  /** Across the cut between rows `g - 1` and `g`, two vertically adjacent
      foreground cells both carry non-zero labels. */
  predicate EdgeNonZero(image: Matrix, L: Matrix, g: int)
    requires Fits(image, L)
  {
    forall j :: 0 <= j < Width(image) && 0 < g < |image| && image[g - 1][j] == 1 && image[g][j] == 1 ==>
      L[g - 1][j] != 0 && L[g][j] != 0
  }

  /** The halo test is sound at the cuts above row `s` and below row `e - 1`
      of a band: always with the image test, and with the label test when
      no label 0 sits on a foreground pair across either cut. */
  predicate BandHaloSafe(rule: HaloRule, image: Matrix, L: Matrix, s: int, e: int)
    requires Fits(image, L)
  {
    rule == NeighbourImage || (EdgeNonZero(image, L, s) && EdgeNonZero(image, L, e))
  }

  /** The same at every cut between the blocks of a layout. */
  predicate HaloSafe(rule: HaloRule, image: Matrix, L: Matrix, b: seq<int>)
    requires Fits(image, L)
  {
    rule == NeighbourImage || forall k :: 0 < k < |b| - 1 ==> EdgeNonZero(image, L, b[k])
  }

  /** A layout's safe cuts make each block's band safe: the cut above
      block 0 and the cut below the last block are the grid's edges. */
  lemma HaloSafeBand(rule: HaloRule, image: Matrix, L: Matrix, b: seq<int>, k: int)
    requires Fits(image, L) && Layout(b, |image|) && 0 <= k < |b| - 1
    requires HaloSafe(rule, image, L, b)
    ensures BandHaloSafe(rule, image, L, b[k], b[k + 1])
  {
    LayoutEdges(b, |image|, k);
    assert b[0] == 0;
  }

  /** Non-zero foreground labels make every cut safe. */
  lemma FgNonZeroHaloSafe(rule: HaloRule, image: Matrix, L: Matrix, b: seq<int>)
    requires Fits(image, L) && FgNonZero(image, L)
    ensures HaloSafe(rule, image, L, b)
  {
  }

  /** Running minima taken in a different order agree. */
  lemma PickReorder(own: int, tc: bool, tv: int, lc: bool, lv: int, bc: bool, bv: int, rc: bool, rv: int)
    ensures Pick(rc, Pick(bc, Pick(lc, Pick(tc, own, tv), lv), bv), rv)
         == Pick(bc, Pick(tc, Pick(rc, Pick(lc, own, lv), rv), tv), bv)
  {
  }

  /** The view's own rows are rows `s..` of the global image and labels. */
  ghost predicate HoldsBand(image: Matrix, L: Matrix, v: View, s: int)
    requires Fits(image, L)
  {
    && ViewOk(v, Width(image))
    && 0 <= s && s + |v.image| <= |image|
    && (forall r :: 0 <= r < |v.image| ==> v.image[r] == image[s + r] && v.labels[r] == L[s + r])
  }

  /** The rows a rank holds are rows `[s, s + |v.image|)` of the global
      image and labels, and its halos are the rows just outside, present
      exactly when those rows exist. */
  ghost predicate HoldsRows(image: Matrix, L: Matrix, v: View, s: int)
    requires Fits(image, L)
  {
    && HoldsBand(image, L, v, s)
    && (v.hasTop <==> s > 0)
    && (v.hasTop ==> v.topImage == image[s - 1] && v.topLabels == L[s - 1])
    && (v.hasBottom <==> s + |v.image| < |image|)
    && (v.hasBottom ==> v.bottomImage == image[s + |v.image|] && v.bottomLabels == L[s + |v.image|])
  }

  /** The halo test picks out foreground neighbours: always with the image
      test, and with the label test when background is 0 and the neighbour,
      if foreground, is not. */
  lemma HaloTestAgrees(rule: HaloRule, image: Matrix, L: Matrix, g: int, j: int)
    requires Fits(image, L) && 0 <= g < |image| && 0 <= j < Width(image)
    requires BackgroundZero(image, L)
    requires rule == NeighbourImage || image[g][j] != 1 || L[g][j] != 0
    ensures HaloUsable(rule, image[g][j], L[g][j]) <==> image[g][j] == 1
  {
  }

  lemma TopAgrees(rule: HaloRule, image: Matrix, L: Matrix, v: View, s: int, i: int, j: int)
    requires Fits(image, L) && HoldsRows(image, L, v, s)
    requires 0 <= i < |v.image| && 0 <= j < Width(image) && image[s + i][j] == 1
    requires BackgroundZero(image, L) && BandHaloSafe(rule, image, L, s, s + |v.image|)
    ensures TopCond(rule, v, Width(image), i, j) == (s + i > 0 && image[s + i - 1][j] == 1)
    ensures TopCond(rule, v, Width(image), i, j) ==> TopValue(v, Width(image), i, j) == At(L, s + i - 1, j)
  {
    if i > 0 {
      assert v.image[i - 1] == image[s + i - 1] && v.labels[i - 1] == L[s + i - 1];
    } else if s > 0 {
      assert v.image[0] == image[s];
      HaloTestAgrees(rule, image, L, s - 1, j);
    }
  }

  lemma BottomAgrees(rule: HaloRule, image: Matrix, L: Matrix, v: View, s: int, i: int, j: int)
    requires Fits(image, L) && HoldsRows(image, L, v, s)
    requires 0 <= i < |v.image| && 0 <= j < Width(image) && image[s + i][j] == 1
    requires BackgroundZero(image, L) && BandHaloSafe(rule, image, L, s, s + |v.image|)
    ensures BottomCond(rule, v, Width(image), i, j) == (s + i < |image| - 1 && image[s + i + 1][j] == 1)
    ensures BottomCond(rule, v, Width(image), i, j) ==> BottomValue(v, Width(image), i, j) == At(L, s + i + 1, j)
  {
    if i < |v.image| - 1 {
      assert v.image[i + 1] == image[s + i + 1] && v.labels[i + 1] == L[s + i + 1];
    } else if s + i < |image| - 1 {
      HaloTestAgrees(rule, image, L, s + i + 1, j);
    }
  }

  /** A rank holding a band of rows computes the sequential pass on them —
      with the image test always, and with the label test whenever no
      foreground pair across the band's cuts carries label 0. */
  lemma CellAgrees(rule: HaloRule, image: Matrix, L: Matrix, v: View, s: int, i: int, j: int)
    requires Fits(image, L) && HoldsRows(image, L, v, s)
    requires 0 <= i < |v.image| && 0 <= j < Width(image)
    requires BackgroundZero(image, L) && BandHaloSafe(rule, image, L, s, s + |v.image|)
    ensures LocalCell(rule, v, Width(image), i, j) == Sweep(image, L)[s + i][j]
  {
    var g := s + i;
    assert v.image[i] == image[g] && v.labels[i] == L[g];
    if image[g][j] == 1 {
      TopAgrees(rule, image, L, v, s, i, j);
      BottomAgrees(rule, image, L, v, s, i, j);
      FgCellAgrees(rule, image, L, v, s, i, j);
    }
  }

  /** A foreground cell whose halo tests pick out its foreground
      neighbours computes the sequential pass's value. */
  lemma FgCellAgrees(rule: HaloRule, image: Matrix, L: Matrix, v: View, s: int, i: int, j: int)
    requires Fits(image, L) && HoldsBand(image, L, v, s)
    requires 0 <= i < |v.image| && 0 <= j < Width(image) && image[s + i][j] == 1
    requires TopCond(rule, v, Width(image), i, j) == (s + i > 0 && image[s + i - 1][j] == 1)
    requires TopCond(rule, v, Width(image), i, j) ==> TopValue(v, Width(image), i, j) == At(L, s + i - 1, j)
    requires BottomCond(rule, v, Width(image), i, j) == (s + i < |image| - 1 && image[s + i + 1][j] == 1)
    requires BottomCond(rule, v, Width(image), i, j) ==> BottomValue(v, Width(image), i, j) == At(L, s + i + 1, j)
    ensures LocalCell(rule, v, Width(image), i, j) == Sweep(image, L)[s + i][j]
  {
    var cols := Width(image);
    var g := s + i;
    assert v.image[i] == image[g] && v.labels[i] == L[g];
    NeighbourMinPicks(image, L, g, j);
    PickReorder(L[g][j], g > 0 && image[g - 1][j] == 1, At(L, g - 1, j),
                j > 0 && image[g][j - 1] == 1, At(L, g, j - 1),
                g < |image| - 1 && image[g + 1][j] == 1, At(L, g + 1, j),
                j < cols - 1 && image[g][j + 1] == 1, At(L, g, j + 1));
  }

  // ---------------------------------------------------------------------------
  // Distribution of rows over ranks.

  /** Boundaries of contiguous, non-empty row blocks, one per rank: rank `k`
      holds rows `[b[k], b[k + 1])`. */
  predicate Layout(b: seq<int>, rows: int)
  {
    Tiles(b, rows) && forall k :: 0 <= k < |b| - 1 ==> Gap(b, k) > 0
  }

  /** Number of rows of block `k`. */
  function Gap(b: seq<int>, k: int): int
    requires 0 <= k < |b| - 1
  {
    b[k + 1] - b[k]
  }

  /** The source's partition — `rows / P` rows each, one more for the first
      `rows % P` ranks, rank `k` starting at the closed-form `startRow` — is
      such a layout when there are at least as many rows as ranks. */
  lemma BlockLayout(rows: nat, P: nat)
    requires 0 < P <= rows
    ensures Layout(BlockBounds(rows, P), rows)
    ensures forall k :: 0 <= k < P ==> BlockBounds(rows, P)[k] == BlockStart(rows, P, k)
    ensures forall k :: 0 <= k < P ==> BlockBounds(rows, P)[k + 1] - BlockBounds(rows, P)[k] == BlockRows(rows, P, k)
  {
    BlockTiles(rows, P);
    forall k | 0 <= k < P
      ensures Gap(BlockBounds(rows, P), k) > 0
    {
      BlockRowsPositive(rows, P, k);
    }
  }

  /** A rank has a rank above exactly when its block does not start at row
      0, and one below exactly when its block does not end at the last row. */
  lemma LayoutEdges(b: seq<int>, rows: int, k: int)
    requires Layout(b, rows) && 0 <= k < |b| - 1
    ensures 0 <= b[k] < b[k + 1] <= rows
    ensures k > 0 <==> b[k] > 0
    ensures k < |b| - 2 <==> b[k + 1] < rows
  {
    assert Gap(b, k) > 0;
    TilesSorted(b, rows, 0, k);
    TilesSorted(b, rows, k + 1, |b| - 1);
    if k > 0 {
      assert Gap(b, k - 1) > 0;
      TilesSorted(b, rows, 0, k - 1);
    }
    if k < |b| - 2 {
      assert Gap(b, k + 1) > 0;
      TilesSorted(b, rows, k + 2, |b| - 1);
    }
  }

  /** Local label blocks of the right shape for every rank. */
  predicate Distributed(image: Matrix, b: seq<int>, locals: seq<Matrix>)
  {
    && Rect(image) && Layout(b, |image|) && |locals| == |b| - 1
    && forall k :: 0 <= k < |locals| ==> IsMatrix(locals[k], b[k + 1] - b[k], Width(image))
  }

  predicate LocalsNonNeg(locals: seq<Matrix>)
  {
    forall k :: 0 <= k < |locals| ==> NonNeg(locals[k])
  }

  /** Scattered labels have the distributed shape, and stay non-negative. */
  lemma ScatterDistributed(image: Matrix, L: Matrix, b: seq<int>)
    requires Fits(image, L) && Layout(b, |image|)
    ensures Distributed(image, b, Slices(L, b))
    ensures NonNeg(L) ==> LocalsNonNeg(Slices(L, b))
  {
    forall k | 0 <= k < |b| - 1
      ensures IsMatrix(Slices(L, b)[k], b[k + 1] - b[k], Width(image))
      ensures NonNeg(L) ==> NonNeg(Slices(L, b)[k])
    {
      LayoutEdges(b, |image|, k);
      SlicesAt(L, b, k, 0);
      forall r | 0 <= r < b[k + 1] - b[k]
        ensures Slices(L, b)[k][r] == L[b[k] + r]
      {
        SlicesAt(L, b, k, r);
      }
    }
  }

  /** Every rank holds at least one row, of image and of labels alike. */
  lemma DistributedRows(image: Matrix, b: seq<int>, locals: seq<Matrix>)
    requires Distributed(image, b, locals)
    ensures Distributed(image, b, Slices(image, b))
    ensures forall k :: 0 <= k < |locals| ==> |locals[k]| > 0 && |Slices(image, b)[k]| == |locals[k]|
  {
    ScatterDistributed(image, image, b);
    forall k | 0 <= k < |locals|
      ensures |locals[k]| > 0
    {
      assert Gap(b, k) > 0;
    }
  }

  /** The row received from the rank above: its last local row.  Rank 0
      keeps the zero buffer it allocated. */
  function TopHalo(blocks: seq<Matrix>, k: nat, cols: nat): (h: seq<int>)
    requires k < |blocks|
    requires k > 0 ==> |blocks[k - 1]| > 0 && IsMatrix(blocks[k - 1], |blocks[k - 1]|, cols)
    ensures |h| == cols
    ensures k > 0 ==> h == blocks[k - 1][|blocks[k - 1]| - 1]
    ensures k == 0 ==> h == Zeros(cols)
  {
    if k > 0 then blocks[k - 1][|blocks[k - 1]| - 1] else Zeros(cols)
  }

  /** The row received from the rank below: its first local row.  The last
      rank keeps the zero buffer. */
  function BottomHalo(blocks: seq<Matrix>, k: nat, cols: nat): (h: seq<int>)
    requires k < |blocks|
    requires k < |blocks| - 1 ==> |blocks[k + 1]| > 0 && IsMatrix(blocks[k + 1], |blocks[k + 1]|, cols)
    ensures |h| == cols
    ensures k < |blocks| - 1 ==> h == blocks[k + 1][0]
    ensures k == |blocks| - 1 ==> h == Zeros(cols)
  {
    if k < |blocks| - 1 then blocks[k + 1][0] else Zeros(cols)
  }

  /** Rank `k`'s view in an iteration where the ranks hold `locals`: its
      scattered image rows, its labels, and the halo rows exchanged with
      `MPI_Sendrecv`.  The image halo is what the corrected test reads. */
  function RankView(image: Matrix, b: seq<int>, locals: seq<Matrix>, k: nat): (v: View)
    requires Distributed(image, b, locals) && k < |locals|
    ensures ViewOk(v, Width(image)) && v.labels == locals[k]
    ensures LocalsNonNeg(locals) ==> ViewNonNeg(v)
  {
    var cols := Width(image);
    var imgs := Slices(image, b);
    DistributedRows(image, b, locals);
    View(imgs[k], locals[k],
         k > 0, TopHalo(imgs, k, cols), TopHalo(locals, k, cols),
         k < |locals| - 1, BottomHalo(imgs, k, cols), BottomHalo(locals, k, cols))
  }

  // ---------------------------------------------------------------------------
  // Iterations.

  /** Every rank's local update, from the halos of the same iteration. */
  function Step(rule: HaloRule, image: Matrix, b: seq<int>, locals: seq<Matrix>): (N: seq<Matrix>)
    requires Distributed(image, b, locals)
    ensures Distributed(image, b, N)
  {
    seq(|locals|, k requires 0 <= k < |locals| => LocalUpdate(rule, RankView(image, b, locals, k), Width(image)))
  }

  /** The ranks' `localChanged` flags after an iteration producing `N`. */
  function LocalFlags(image: Matrix, b: seq<int>, locals: seq<Matrix>, N: seq<Matrix>): (flags: seq<bool>)
    requires Distributed(image, b, locals) && Distributed(image, b, N)
    ensures |flags| == |locals|
  {
    seq(|locals|, k requires 0 <= k < |locals| => LocalChanged(RankView(image, b, locals, k), N[k], Width(image)))
  }

  /** `MPI_Allreduce` with `MPI_LOR` over the ranks' `localChanged`. */
  function Flag(rule: HaloRule, image: Matrix, b: seq<int>, locals: seq<Matrix>): bool
    requires Distributed(image, b, locals)
  {
    OrReduce(LocalFlags(image, b, locals, Step(rule, image, b, locals)))
  }

  /** Sum of every label on every rank. */
  function LocalsSum(locals: seq<Matrix>): int
  {
    Sum(seq(|locals|, k requires 0 <= k < |locals| => SumGrid(locals[k])))
  }

  /** One rank's update never raises a label, keeps labels non-negative,
      and lowers the rank's total when its flag is raised. */
  lemma LocalDecreases(rule: HaloRule, v: View, cols: nat)
    requires ViewOk(v, cols) && ViewNonNeg(v)
    ensures NonNeg(LocalUpdate(rule, v, cols))
    ensures 0 <= SumGrid(LocalUpdate(rule, v, cols)) <= SumGrid(v.labels)
    ensures LocalChanged(v, LocalUpdate(rule, v, cols), cols) ==>
              SumGrid(LocalUpdate(rule, v, cols)) < SumGrid(v.labels)
  {
    var N := LocalUpdate(rule, v, cols);
    SumGridDecreases(v.labels, N, cols);
    SumGridNonNeg(N);
    if LocalChanged(v, N, cols) {
      var i, j :| 0 <= i < |v.image| && 0 <= j < cols && v.image[i][j] == 1 && N[i][j] < v.labels[i][j];
      ChangedIff(v.labels, N);
    }
  }

  /** An iteration never raises a label, keeps labels non-negative, and
      lowers the total whenever the all-reduced flag is raised. */
  lemma StepDecreases(rule: HaloRule, image: Matrix, b: seq<int>, locals: seq<Matrix>)
    requires Distributed(image, b, locals) && LocalsNonNeg(locals)
    ensures LocalsNonNeg(Step(rule, image, b, locals))
    ensures 0 <= LocalsSum(Step(rule, image, b, locals)) <= LocalsSum(locals)
    ensures Flag(rule, image, b, locals) ==> LocalsSum(Step(rule, image, b, locals)) < LocalsSum(locals)
  {
    var cols := Width(image);
    var N := Step(rule, image, b, locals);
    var n := |locals|;
    var before := seq(n, k requires 0 <= k < n => SumGrid(locals[k]));
    var after := seq(n, k requires 0 <= k < n => SumGrid(N[k]));
    var flags := LocalFlags(image, b, locals, N);
    forall k | 0 <= k < n
      ensures NonNeg(N[k]) && 0 <= after[k] <= before[k]
      ensures flags[k] ==> after[k] < before[k]
    {
      LocalDecreases(rule, RankView(image, b, locals, k), cols);
    }
    SumMono(after, before);
    SumNonNeg(after);
    OrReduceIff(flags);
    if Flag(rule, image, b, locals) {
      var k :| 0 <= k < n && flags[k];
      assert after[k] < before[k];
    }
  }

  /** The iteration loop: repeat until the all-reduced flag is clear; the
      ranks then hold the labels of the last iteration. */
  function Run(rule: HaloRule, image: Matrix, b: seq<int>, locals: seq<Matrix>): (R: seq<Matrix>)
    requires Distributed(image, b, locals) && LocalsNonNeg(locals)
    ensures Distributed(image, b, R)
    decreases LocalsSum(locals)
  {
    var N := Step(rule, image, b, locals);
    StepDecreases(rule, image, b, locals);
    if Flag(rule, image, b, locals) then Run(rule, image, b, N) else N
  }

  /** A rank's initial labels: the global index `(startRow + i)*cols + j`
      of each foreground cell, 0 elsewhere. */
  function LocalInit(localImage: Matrix, startRow: nat, cols: nat): (L: Matrix)
    requires IsMatrix(localImage, |localImage|, cols)
    ensures IsMatrix(L, |localImage|, cols)
  {
    seq(|localImage|, i requires 0 <= i < |localImage| =>
      seq(cols, j requires 0 <= j < cols =>
        if localImage[i][j] == 1 then (startRow + i) * cols + j else 0))
  }

  /** Every rank labels its scattered rows, starting at its first row. */
  function InitLocals(image: Matrix, b: seq<int>): (locals: seq<Matrix>)
    requires Rect(image) && Layout(b, |image|)
    ensures |locals| == |b| - 1
  {
    ScatterDistributed(image, image, b);
    var imgs := Slices(image, b);
    seq(|b| - 1, k requires 0 <= k < |b| - 1 =>
      LayoutEdges(b, |image|, k);
      LocalInit(imgs[k], b[k], Width(image)))
  }

  /** Each rank's initial labels are its rows of the global initial labels. */
  lemma InitLocalsIsScatter(image: Matrix, b: seq<int>)
    requires Rect(image) && Layout(b, |image|)
    ensures InitLocals(image, b) == Slices(InitLabels(image), b)
  {
    var I := InitLabels(image);
    var A, B := InitLocals(image, b), Slices(I, b);
    ScatterDistributed(image, I, b);
    ScatterDistributed(image, image, b);
    forall k | 0 <= k < |b| - 1
      ensures A[k] == B[k]
    {
      forall r | 0 <= r < b[k + 1] - b[k]
        ensures A[k][r] == B[k][r]
      {
        InitRowAgrees(image, b, k, r);
      }
    }
  }

  lemma InitRowAgrees(image: Matrix, b: seq<int>, k: int, r: int)
    requires Rect(image) && Layout(b, |image|) && 0 <= k < |b| - 1 && 0 <= r < b[k + 1] - b[k]
    ensures |InitLocals(image, b)[k]| == |Slices(InitLabels(image), b)[k]| == b[k + 1] - b[k]
    ensures InitLocals(image, b)[k][r] == Slices(InitLabels(image), b)[k][r]
  {
    var I := InitLabels(image);
    SlicesAt(image, b, k, r);
    SlicesAt(I, b, k, r);
    var g, cols := b[k] + r, Width(image);
    var localImage := Slices(image, b)[k];
    assert localImage[r] == image[g];
    var row := InitLocals(image, b)[k][r];
    assert row == seq(cols, j requires 0 <= j < cols => if localImage[r][j] == 1 then g * cols + j else 0);
    assert I[g] == seq(cols, j requires 0 <= j < cols => if image[g][j] == 1 then g * cols + j else 0);
  }

  /** The scattered labels start out distributed and non-negative. */
  lemma InitLocalsDistributed(image: Matrix, b: seq<int>)
    requires Rect(image) && Layout(b, |image|)
    ensures Distributed(image, b, InitLocals(image, b)) && LocalsNonNeg(InitLocals(image, b))
  {
    InitLocalsIsScatter(image, b);
    ScatterDistributed(image, InitLabels(image), b);
  }

  /** The whole program on `P` ranks: scatter, initialise, iterate, gather
      on rank 0. */
  function MpiComponentLabeling(rule: HaloRule, image: Matrix, P: nat): (R: Matrix)
    requires Rect(image) && 0 < P <= |image|
    ensures Fits(image, R)
  {
    var b := BlockBounds(|image|, P);
    BlockLayout(|image|, P);
    InitLocalsDistributed(image, b);
    var locals := Run(rule, image, b, InitLocals(image, b));
    GatherFits(image, b, locals);
    Concat(locals)
  }

  /** Gathering distributed blocks in rank order gives a grid of the image's
      shape. */
  lemma GatherFits(image: Matrix, b: seq<int>, locals: seq<Matrix>)
    requires Distributed(image, b, locals)
    ensures Fits(image, Concat(locals))
  {
    ConcatPrefixShape(locals, b, Width(image), |locals|);
    assert locals[..|locals|] == locals;
  }

  // ---------------------------------------------------------------------------
  // Agreement with the sequential labelling.

  lemma ViewRows(image: Matrix, L: Matrix, b: seq<int>, k: nat)
    requires Fits(image, L) && Layout(b, |image|) && k < |b| - 1
    ensures Distributed(image, b, Slices(L, b))
    ensures 0 <= b[k] < b[k + 1] <= |image|
    ensures HoldsBand(image, L, RankView(image, b, Slices(L, b), k), b[k])
  {
    ScatterDistributed(image, L, b);
    var v := RankView(image, b, Slices(L, b), k);
    LayoutEdges(b, |image|, k);
    SlicesAt(image, b, k, 0);
    forall r | 0 <= r < |v.image|
      ensures v.image[r] == image[b[k] + r] && v.labels[r] == L[b[k] + r]
    {
      SlicesAt(image, b, k, r);
      SlicesAt(L, b, k, r);
    }
  }

  lemma ViewTop(image: Matrix, L: Matrix, b: seq<int>, k: nat)
    requires Fits(image, L) && Layout(b, |image|) && k < |b| - 1
    ensures Distributed(image, b, Slices(L, b))
    ensures 0 <= b[k] < b[k + 1] <= |image|
    ensures var v := RankView(image, b, Slices(L, b), k);
      && (v.hasTop <==> b[k] > 0)
      && (v.hasTop ==> v.topImage == image[b[k] - 1] && v.topLabels == L[b[k] - 1])
  {
    ScatterDistributed(image, L, b);
    LayoutEdges(b, |image|, k);
    if k > 0 {
      LayoutEdges(b, |image|, k - 1);
      var last := b[k] - b[k - 1] - 1;
      SlicesAt(image, b, k - 1, last);
      SlicesAt(L, b, k - 1, last);
    }
  }

  lemma ViewBottom(image: Matrix, L: Matrix, b: seq<int>, k: nat)
    requires Fits(image, L) && Layout(b, |image|) && k < |b| - 1
    ensures Distributed(image, b, Slices(L, b))
    ensures 0 <= b[k] < b[k + 1] <= |image|
    ensures var v := RankView(image, b, Slices(L, b), k);
      && |v.image| == b[k + 1] - b[k]
      && (v.hasBottom <==> b[k + 1] < |image|)
      && (v.hasBottom ==> v.bottomImage == image[b[k + 1]] && v.bottomLabels == L[b[k + 1]])
  {
    ScatterDistributed(image, L, b);
    LayoutEdges(b, |image|, k);
    SlicesAt(image, b, k, 0);
    if k < |b| - 2 {
      LayoutEdges(b, |image|, k + 1);
      SlicesAt(image, b, k + 1, 0);
      SlicesAt(L, b, k + 1, 0);
    }
  }

  /** Scattered labels give every rank a view of its band of rows. */
  lemma ViewHoldsRows(image: Matrix, L: Matrix, b: seq<int>, k: nat)
    requires Fits(image, L) && Layout(b, |image|) && k < |b| - 1
    ensures Distributed(image, b, Slices(L, b))
    ensures HoldsRows(image, L, RankView(image, b, Slices(L, b), k), b[k])
  {
    ViewRows(image, L, b, k);
    ViewTop(image, L, b, k);
    ViewBottom(image, L, b, k);
  }

  /** Each rank's update of scattered labels is its block of the
      sequential pass. */
  lemma LocalIsBlockOfSweep(rule: HaloRule, image: Matrix, L: Matrix, b: seq<int>, k: nat)
    requires Fits(image, L) && Layout(b, |image|) && k < |b| - 1
    requires BackgroundZero(image, L) && HaloSafe(rule, image, L, b)
    ensures Distributed(image, b, Slices(L, b))
    ensures LocalUpdate(rule, RankView(image, b, Slices(L, b), k), Width(image)) == Slices(Sweep(image, L), b)[k]
  {
    ViewHoldsRows(image, L, b, k);
    ViewBottom(image, L, b, k);
    var v := RankView(image, b, Slices(L, b), k);
    assert b[k] + |v.image| == b[k + 1];
    HaloSafeBand(rule, image, L, b, k);
    var S := Sweep(image, L);
    BlockAgrees(rule, image, L, v, b[k]);
    assert Slices(S, b)[k] == S[b[k]..b[k + 1]];
  }

  /** A rank holding a band of rows computes the band of the sequential
      pass. */
  lemma BlockAgrees(rule: HaloRule, image: Matrix, L: Matrix, v: View, s: int)
    requires Fits(image, L) && HoldsRows(image, L, v, s)
    requires BackgroundZero(image, L) && BandHaloSafe(rule, image, L, s, s + |v.image|)
    ensures 0 <= s <= s + |v.image| <= |image|
    ensures LocalUpdate(rule, v, Width(image)) == Sweep(image, L)[s..s + |v.image|]
  {
    var A, B := LocalUpdate(rule, v, Width(image)), Sweep(image, L)[s..s + |v.image|];
    forall r | 0 <= r < |v.image|
      ensures A[r] == B[r]
    {
      RowAgrees(rule, image, L, v, s, r);
    }
  }

  /** A rank holding a band of rows computes each of its rows of the
      sequential pass. */
  lemma RowAgrees(rule: HaloRule, image: Matrix, L: Matrix, v: View, s: int, r: int)
    requires Fits(image, L) && HoldsRows(image, L, v, s) && 0 <= r < |v.image|
    requires BackgroundZero(image, L) && BandHaloSafe(rule, image, L, s, s + |v.image|)
    ensures 0 <= s + r < |image|
    ensures LocalUpdate(rule, v, Width(image))[r] == Sweep(image, L)[s + r]
  {
    var row := LocalUpdate(rule, v, Width(image))[r];
    forall j | 0 <= j < Width(image)
      ensures row[j] == Sweep(image, L)[s + r][j]
    {
      CellAgrees(rule, image, L, v, s, r, j);
    }
  }

  /** A rank's `localChanged` after computing its band of the sequential
      pass is the OR of the change flags of the band's rows. */
  lemma BandChanged(image: Matrix, L: Matrix, v: View, s: int, e: int, band: Matrix)
    requires Fits(image, L) && HoldsBand(image, L, v, s) && e == s + |v.image|
    requires band == Sweep(image, L)[s..e]
    ensures LocalChanged(v, band, Width(image)) == OrReduce(DecreasedFlags(L, Sweep(image, L))[s..e])
  {
    var S := Sweep(image, L);
    if LocalChanged(v, band, Width(image)) {
      BandChangedSound(image, L, S, v, s, e, band);
    }
    if OrReduce(DecreasedFlags(L, S)[s..e]) {
      BandChangedComplete(image, L, S, v, s, e, band);
    }
  }

  /** `S` lowers labels of foreground cells only, as a pass does. */
  predicate LowersForegroundOnly(image: Matrix, L: Matrix, S: Matrix)
    requires Fits(image, L) && Fits(image, S)
  {
    forall i, j :: 0 <= i < |image| && 0 <= j < Width(image) && S[i][j] < L[i][j] ==> image[i][j] == 1
  }

  lemma BandChangedSound(image: Matrix, L: Matrix, S: Matrix, v: View, s: int, e: int, band: Matrix)
    requires Fits(image, L) && Fits(image, S) && HoldsBand(image, L, v, s) && e == s + |v.image|
    requires band == S[s..e]
    requires LocalChanged(v, band, Width(image))
    ensures OrReduce(DecreasedFlags(L, S)[s..e])
  {
    var flags := DecreasedFlags(L, S)[s..e];
    var i, j :| 0 <= i < |v.image| && 0 <= j < Width(image) && v.image[i][j] == 1 && band[i][j] < v.labels[i][j];
    assert band[i] == S[s + i];
    RowDecreasedAt(L, S, v.labels[i], s + i, j);
    assert flags[i];
    OrReduceIff(flags);
  }

  lemma RowDecreasedAt(L: Matrix, S: Matrix, row: seq<int>, g: int, j: int)
    requires 0 <= g < |L| == |S| && row == L[g] && 0 <= j < |row| && j < |S[g]| && S[g][j] < row[j]
    ensures RowDecreased(L, S, g)
  {
  }

  lemma BandChangedComplete(image: Matrix, L: Matrix, S: Matrix, v: View, s: int, e: int, band: Matrix)
    requires Fits(image, L) && Fits(image, S) && HoldsBand(image, L, v, s) && e == s + |v.image|
    requires LowersForegroundOnly(image, L, S)
    requires band == S[s..e]
    requires OrReduce(DecreasedFlags(L, S)[s..e])
    ensures LocalChanged(v, band, Width(image))
  {
    var flags := DecreasedFlags(L, S)[s..e];
    OrReduceIff(flags);
    var i :| 0 <= i < |flags| && flags[i];
    assert RowDecreased(L, S, s + i);
    var j :| 0 <= j < |L[s + i]| && j < |S[s + i]| && S[s + i][j] < L[s + i][j];
    assert v.image[i] == image[s + i] && v.labels[i] == L[s + i] && band[i] == S[s + i];
    assert v.image[i][j] == 1 && band[i][j] < v.labels[i][j];
  }

  /** One iteration on scattered labels is the scattered sequential pass. */
  lemma StepIsSweep(rule: HaloRule, image: Matrix, L: Matrix, b: seq<int>)
    requires Fits(image, L) && Layout(b, |image|)
    requires BackgroundZero(image, L) && HaloSafe(rule, image, L, b)
    ensures Distributed(image, b, Slices(L, b))
    ensures Step(rule, image, b, Slices(L, b)) == Slices(Sweep(image, L), b)
  {
    ScatterDistributed(image, L, b);
    var N := Step(rule, image, b, Slices(L, b));
    forall k | 0 <= k < |b| - 1
      ensures N[k] == Slices(Sweep(image, L), b)[k]
    {
      LocalIsBlockOfSweep(rule, image, L, b, k);
    }
  }

  /** Each rank's `localChanged` is the OR of the sequential change flags
      of its rows. */
  lemma LocalFlagsAreRanges(rule: HaloRule, image: Matrix, L: Matrix, b: seq<int>)
    requires Fits(image, L) && Layout(b, |image|)
    requires BackgroundZero(image, L) && HaloSafe(rule, image, L, b)
    ensures Distributed(image, b, Slices(L, b))
    ensures LocalFlags(image, b, Slices(L, b), Step(rule, image, b, Slices(L, b)))
            == RangeFlags(DecreasedFlags(L, Sweep(image, L)), b)
  {
    StepIsSweep(rule, image, L, b);
    var S := Sweep(image, L);
    var F := LocalFlags(image, b, Slices(L, b), Slices(S, b));
    var G := RangeFlags(DecreasedFlags(L, S), b);
    forall k | 0 <= k < |b| - 1
      ensures F[k] == G[k]
    {
      RankChanged(image, L, b, k);
    }
  }

  lemma RankChanged(image: Matrix, L: Matrix, b: seq<int>, k: nat)
    requires Fits(image, L) && Layout(b, |image|) && k < |b| - 1
    ensures Distributed(image, b, Slices(L, b)) && Distributed(image, b, Slices(Sweep(image, L), b))
    ensures 0 <= b[k] <= b[k + 1] <= |image|
    ensures LocalChanged(RankView(image, b, Slices(L, b), k), Slices(Sweep(image, L), b)[k], Width(image))
            == OrReduce(DecreasedFlags(L, Sweep(image, L))[b[k]..b[k + 1]])
  {
    var S := Sweep(image, L);
    ViewRows(image, L, b, k);
    var v := RankView(image, b, Slices(L, b), k);
    ViewBottom(image, L, b, k);
    ScatterDistributed(image, S, b);
    SlicesAt(S, b, k, 0);
    BandChanged(image, L, v, b[k], b[k + 1], Slices(S, b)[k]);
  }

  /** The all-reduced flag is the sequential change flag. */
  lemma FlagIsChanged(rule: HaloRule, image: Matrix, L: Matrix, b: seq<int>)
    requires Fits(image, L) && Layout(b, |image|)
    requires BackgroundZero(image, L) && HaloSafe(rule, image, L, b)
    ensures Distributed(image, b, Slices(L, b))
    ensures Flag(rule, image, b, Slices(L, b)) == Changed(L, Sweep(image, L))
  {
    LocalFlagsAreRanges(rule, image, L, b);
    OrReduceTiles(DecreasedFlags(L, Sweep(image, L)), b);
  }

  /** With background 0 and the first cell background, every foreground
      label is the index of a cell other than (0, 0), hence non-zero. */
  lemma InvariantFgNonZero(image: Matrix, L: Matrix)
    requires Invariant(image, L) && !Fg(image, Cell(0, 0))
    ensures FgNonZero(image, L)
  {
    var cols := Width(image);
    forall i, j | 0 <= i < |image| && 0 <= j < cols && image[i][j] == 1
      ensures L[i][j] != 0
    {
      var c :| Connected(image, Cell(i, j), c) && L[i][j] == Index(cols, c);
      var path :| IsPath(image, path) && path[0] == Cell(i, j) && path[|path| - 1] == c;
      assert Fg(image, path[|path| - 1]);
      IndexZero(cols, c);
    }
  }

  /** A foreground cell labelled 0 reaches cell (0, 0): its label is the
      index of a cell it reaches, and only (0, 0) has index 0. */
  lemma ZeroLabelReachesOrigin(image: Matrix, L: Matrix, i: int, j: int)
    requires Invariant(image, L) && 0 <= i < |image| && 0 <= j < Width(image) && image[i][j] == 1
    ensures L[i][j] == 0 ==> Connected(image, Cell(i, j), Cell(0, 0))
  {
    var cols := Width(image);
    var c :| Connected(image, Cell(i, j), c) && L[i][j] == Index(cols, c);
    ConnectedEndsFg(image, Cell(i, j), c);
    IndexZero(cols, c);
  }

  /** Whatever a path reaches is foreground. */
  lemma ConnectedEndsFg(image: Matrix, a: Cell, c: Cell)
    ensures Connected(image, a, c) ==> Fg(image, c)
  {
    if Connected(image, a, c) {
      var path :| IsPath(image, path) && path[0] == a && path[|path| - 1] == c;
      assert Fg(image, path[|path| - 1]);
    }
  }

  /** Two adjacent foreground cells reach the same cells. */
  lemma AdjacentReachSame(image: Matrix, a: Cell, n: Cell, c: Cell)
    requires Fg(image, a) && Fg(image, n) && Adjacent(a, n)
    ensures Connected(image, a, c) <==> Connected(image, n, c)
  {
    if Connected(image, n, c) {
      ConnectedStep(image, a, n, c);
    }
    if Connected(image, a, c) {
      assert Adjacent(n, a);
      ConnectedStep(image, n, a, c);
    }
  }

  /** The cut between rows `g - 1` and `g` does not split the component of
      cell (0, 0): no column has cells on both sides of it that reach (0, 0). */
  ghost predicate CutAvoidsOrigin(image: Matrix, g: int)
  {
    forall j :: 0 <= j < Width(image) ==>
      !(Connected(image, Cell(g - 1, j), Cell(0, 0)) && Connected(image, Cell(g, j), Cell(0, 0)))
  }

  /** The component of cell (0, 0) lies within one block of the layout. */
  ghost predicate OriginInsideBlock(image: Matrix, b: seq<int>)
  {
    forall k :: 0 < k < |b| - 1 ==> CutAvoidsOrigin(image, b[k])
  }

  /** A background cell (0, 0) has no component to split. */
  lemma BackgroundOriginInsideBlock(image: Matrix, b: seq<int>)
    requires !Fg(image, Cell(0, 0))
    ensures OriginInsideBlock(image, b)
  {
    forall k | 0 < k < |b| - 1
      ensures CutAvoidsOrigin(image, b[k])
    {
      forall j | 0 <= j < Width(image)
        ensures !Connected(image, Cell(b[k], j), Cell(0, 0))
      {
        ConnectedEndsFg(image, Cell(b[k], j), Cell(0, 0));
      }
    }
  }

  /** Under the invariant, label 0 sits only on the component of (0, 0), so
      a cut that component does not cross has no foreground pair with a
      label 0. */
  lemma InvariantEdgeNonZero(image: Matrix, L: Matrix, g: int)
    requires Invariant(image, L) && CutAvoidsOrigin(image, g)
    ensures EdgeNonZero(image, L, g)
  {
    forall j | 0 <= j < Width(image) && 0 < g < |image| && image[g - 1][j] == 1 && image[g][j] == 1
      ensures L[g - 1][j] != 0 && L[g][j] != 0
    {
      PairNonZero(image, L, g, j);
    }
  }

  /** One column of such a cut. */
  lemma PairNonZero(image: Matrix, L: Matrix, g: int, j: int)
    requires Invariant(image, L) && 0 < g < |image| && 0 <= j < Width(image)
    requires image[g - 1][j] == 1 && image[g][j] == 1
    requires !(Connected(image, Cell(g - 1, j), Cell(0, 0)) && Connected(image, Cell(g, j), Cell(0, 0)))
    ensures L[g - 1][j] != 0 && L[g][j] != 0
  {
    ZeroLabelReachesOrigin(image, L, g - 1, j);
    ZeroLabelReachesOrigin(image, L, g, j);
    AdjacentReachSame(image, Cell(g - 1, j), Cell(g, j), Cell(0, 0));
  }

  /** Under the invariant, every cut is safe for the image test, and for the
      label test when the component of (0, 0) stays inside one block. */
  lemma InvariantHaloSafe(rule: HaloRule, image: Matrix, L: Matrix, b: seq<int>)
    requires Invariant(image, L) && (rule == NeighbourImage || OriginInsideBlock(image, b))
    ensures HaloSafe(rule, image, L, b)
  {
    if rule == LabelNonZero {
      forall k | 0 < k < |b| - 1
        ensures EdgeNonZero(image, L, b[k])
      {
        InvariantEdgeNonZero(image, L, b[k]);
      }
    }
  }

  /** Iterating from scattered labels that satisfy the invariant reaches the
      scattered fixpoint of the sequential loop. */
  lemma {:induction false} RunIsPropagate(rule: HaloRule, image: Matrix, L: Matrix, b: seq<int>)
    requires Invariant(image, L) && Layout(b, |image|)
    requires rule == NeighbourImage || OriginInsideBlock(image, b)
    ensures Distributed(image, b, Slices(L, b)) && LocalsNonNeg(Slices(L, b))
    ensures Run(rule, image, b, Slices(L, b)) == Slices(Propagate(image, L), b)
    decreases SumGrid(L)
  {
    ScatterDistributed(image, L, b);
    InvariantHaloSafe(rule, image, L, b);
    var N := Sweep(image, L);
    StepIsSweep(rule, image, L, b);
    FlagIsChanged(rule, image, L, b);
    SweepInvariant(image, L);
    SumGridNonNeg(L);
    SumGridDecreases(L, N, Width(image));
    if Changed(L, N) {
      RunIsPropagate(rule, image, N, b);
    } else {
      UnchangedIsIdentity(L, N, Width(image));
    }
  }

  /** Scatter, iterate and gather over any layout reproduce the sequential
      labelling, under the halo test's condition. */
  lemma {:induction false} GatherIsLabeling(rule: HaloRule, image: Matrix, b: seq<int>)
    requires Rect(image) && Layout(b, |image|)
    requires rule == NeighbourImage || OriginInsideBlock(image, b)
    ensures Distributed(image, b, InitLocals(image, b)) && LocalsNonNeg(InitLocals(image, b))
    ensures Concat(Run(rule, image, b, InitLocals(image, b))) == Labeling(image)
  {
    InitLocalsDistributed(image, b);
    InitLocalsIsScatter(image, b);
    InitInvariant(image);
    RunIsPropagate(rule, image, InitLabels(image), b);
    ConcatSlices(Labeling(image), b);
  }

  /** With the image test at rank boundaries the MPI program computes the
      sequential labelling for every image and every rank count up to the
      number of rows. */
  lemma MpiCorrected(image: Matrix, P: nat)
    requires Rect(image) && 0 < P <= |image|
    ensures MpiComponentLabeling(NeighbourImage, image, P) == Labeling(image)
  {
    BlockLayout(|image|, P);
    GatherIsLabeling(NeighbourImage, image, BlockBounds(|image|, P));
  }

  /** The label test as written agrees with the sequential labelling
      whenever the component of cell (0, 0) stays inside one rank's block. */
  lemma MpiAsWrittenOriginInside(image: Matrix, P: nat)
    requires Rect(image) && 0 < P <= |image| && OriginInsideBlock(image, BlockBounds(|image|, P))
    ensures MpiComponentLabeling(LabelNonZero, image, P) == Labeling(image)
  {
    BlockLayout(|image|, P);
    GatherIsLabeling(LabelNonZero, image, BlockBounds(|image|, P));
  }

  /** In particular whenever cell (0, 0) is background. */
  lemma MpiAsWrittenAgrees(image: Matrix, P: nat)
    requires Rect(image) && 0 < P <= |image| && !Fg(image, Cell(0, 0))
    ensures MpiComponentLabeling(LabelNonZero, image, P) == Labeling(image)
  {
    BackgroundOriginInsideBlock(image, BlockBounds(|image|, P));
    MpiAsWrittenOriginInside(image, P);
  }

  // ---------------------------------------------------------------------------
  // The label test as written, on an image whose first cell is foreground.

  /** One column, two foreground rows: a single component containing (0, 0). */
  const HaloImage: Matrix := [[1], [1]]

  /** Two one-column grids agree when their cells do. */
  lemma SameColumn(A: Matrix, B: Matrix)
    requires IsMatrix(A, 2, 1) && IsMatrix(B, 2, 1) && A[0][0] == B[0][0] && A[1][0] == B[1][0]
    ensures A == B
  {
    assert A[0] == B[0] && A[1] == B[1];
  }

  /** The sequential labelling of `HaloImage`: one pass lowers the second
      cell to 0, and the next pass changes nothing. */
  lemma HaloImageLabeling()
    ensures Rect(HaloImage) && Labeling(HaloImage) == [[0], [0]]
  {
    var image := HaloImage;
    var L0: Matrix, L1: Matrix := [[0], [1]], [[0], [0]];
    SameColumn(InitLabels(image), L0);
    assert CellUpdate(image, L0, 0, 0) == 0 && CellUpdate(image, L0, 1, 0) == 0;
    SameColumn(Sweep(image, L0), L1);
    assert CellUpdate(image, L1, 0, 0) == 0 && CellUpdate(image, L1, 1, 0) == 0;
    SameColumn(Sweep(image, L1), L1);
    PropagateFixpoint(image, L1);
    ChangedIff(L0, L1);
    assert L1[1][0] < L0[1][0];
  }

  /** Two ranks get one row each: rank 0 labels its cell 0, rank 1 its
      cell 1. */
  lemma HaloInit()
    ensures BlockBounds(2, 2) == [0, 1, 2] && Layout([0, 1, 2], |HaloImage|)
    ensures Rect(HaloImage) && InitLocals(HaloImage, [0, 1, 2]) == [[[0]], [[1]]]
  {
    var image, b := HaloImage, [0, 1, 2];
    assert BlockBounds(2, 2) == b;
    BlockLayout(2, 2);
    ScatterDistributed(image, image, b);
    assert Slices(image, b)[0] == image[0..1] == [[1]];
    assert Slices(image, b)[1] == image[1..2] == [[1]];
    var locals := InitLocals(image, b);
    assert locals[0] == LocalInit([[1]], 0, 1);
    assert locals[1] == LocalInit([[1]], 1, 1);
    assert LocalInit([[1]], 0, 1)[0] == [0] && LocalInit([[1]], 1, 1)[0] == [1];
    assert LocalInit([[1]], 0, 1) == [[0]] && LocalInit([[1]], 1, 1) == [[1]];
  }

  /** What each rank sees: rank 0 receives rank 1's row and label 1, rank 1
      receives rank 0's row and label 0. */
  lemma HaloViews()
    ensures Layout([0, 1, 2], |HaloImage|) && Distributed(HaloImage, [0, 1, 2], [[[0]], [[1]]])
    ensures RankView(HaloImage, [0, 1, 2], [[[0]], [[1]]], 0) == View([[1]], [[0]], false, [0], [0], true, [1], [1])
    ensures RankView(HaloImage, [0, 1, 2], [[[0]], [[1]]], 1) == View([[1]], [[1]], true, [1], [0], false, [0], [0])
  {
    var image, b := HaloImage, [0, 1, 2];
    HaloInit();
    InitLocalsDistributed(image, b);
    ScatterDistributed(image, image, b);
    assert Slices(image, b)[0] == image[0..1] == [[1]];
    assert Slices(image, b)[1] == image[1..2] == [[1]];
    assert Zeros(1) == [0];
  }

  /** Rank 0's pass on its view keeps label 0; rank 1's pass discards the
      halo label 0 under the label test and keeps label 1. */
  lemma HaloLocalUpdates()
    ensures ViewOk(View([[1]], [[0]], false, [0], [0], true, [1], [1]), 1)
    ensures ViewOk(View([[1]], [[1]], true, [1], [0], false, [0], [0]), 1)
    ensures LocalUpdate(LabelNonZero, View([[1]], [[0]], false, [0], [0], true, [1], [1]), 1) == [[0]]
    ensures LocalUpdate(LabelNonZero, View([[1]], [[1]], true, [1], [0], false, [0], [0]), 1) == [[1]]
  {
    var v0 := View([[1]], [[0]], false, [0], [0], true, [1], [1]);
    var v1 := View([[1]], [[1]], true, [1], [0], false, [0], [0]);
    assert LocalCell(LabelNonZero, v0, 1, 0, 0) == 0;
    assert LocalCell(LabelNonZero, v1, 1, 0, 0) == 1;
    assert LocalUpdate(LabelNonZero, v0, 1)[0] == [0];
    assert LocalUpdate(LabelNonZero, v1, 1)[0] == [1];
  }

  /** Rank 1 receives label 0 from rank 0 and the label test discards it,
      so no label drops. */
  lemma HaloStep()
    ensures Layout([0, 1, 2], |HaloImage|) && Distributed(HaloImage, [0, 1, 2], [[[0]], [[1]]])
    ensures Step(LabelNonZero, HaloImage, [0, 1, 2], [[[0]], [[1]]]) == [[[0]], [[1]]]
  {
    var image, b, locals: seq<Matrix> := HaloImage, [0, 1, 2], [[[0]], [[1]]];
    HaloViews();
    HaloLocalUpdates();
    var N := Step(LabelNonZero, image, b, locals);
    assert N[0] == [[0]] && N[1] == [[1]];
  }

  /** Since no label drops, every rank's flag and their reduction stay
      clear. */
  lemma HaloFlag()
    ensures Layout([0, 1, 2], |HaloImage|) && Distributed(HaloImage, [0, 1, 2], [[[0]], [[1]]])
    ensures !Flag(LabelNonZero, HaloImage, [0, 1, 2], [[[0]], [[1]]])
  {
    var image, b, locals: seq<Matrix> := HaloImage, [0, 1, 2], [[[0]], [[1]]];
    HaloStep();
    var flags := LocalFlags(image, b, locals, locals);
    assert !flags[0] && !flags[1];
    OrReduceIff(flags);
  }

  /** With the label test the first iteration already reports no change,
      so rank 1 keeps label 1 and the gathered labels are 0 and 1. */
  lemma HaloRun()
    ensures Rect(HaloImage) && 2 <= |HaloImage|
    ensures MpiComponentLabeling(LabelNonZero, HaloImage, 2) == [[0], [1]]
  {
    var locals: seq<Matrix> := [[[0]], [[1]]];
    HaloInit();
    HaloStep();
    HaloFlag();
    assert LocalsNonNeg(locals);
    assert Run(LabelNonZero, HaloImage, [0, 1, 2], locals) == locals;
    assert Concat(locals) == [[0], [1]];
  }

  /** With the label test the gathered labels split the single component
      into 0 and 1; the sequential labelling gives both cells 0, and so does
      the image test. */
  lemma MpiHaloCounterexample()
    ensures Rect(HaloImage) && 2 <= |HaloImage| && Fg(HaloImage, Cell(0, 0))
    ensures MpiComponentLabeling(LabelNonZero, HaloImage, 2) == [[0], [1]]
    ensures Labeling(HaloImage) == [[0], [0]]
    ensures MpiComponentLabeling(NeighbourImage, HaloImage, 2) == Labeling(HaloImage)
  {
    HaloRun();
    HaloImageLabeling();
    MpiCorrected(HaloImage, 2);
  }
}
