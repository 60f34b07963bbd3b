# Parallel labelling and matrix kernels, modelled in Dafny

This project models the core of a set of small parallel-programming
exercises. Each exercise is written four times: a sequential C++ program,
an OpenMP version, a pthreads version and an MPI version.

* **Connected-component labelling** (`src/CompLabel`). A binary image
  (1 = foreground) gets labels. Every foreground pixel first takes its
  row-major index `i*cols + j` as its label. Jacobi sweeps then lower each
  label to the minimum over its 4-neighbours that are also foreground.
  The sweeps stop once a sweep changes nothing. Background pixels keep
  label 0.
  - OpenMP splits each sweep's rows across threads and combines the change
    flag with an OR.
  - pthreads splits the rows proportionally. Each round has three phases
    separated by barriers, and the change flag is shared under a mutex.
  - MPI scatters blocks of rows, with the remainder going to the first
    ranks. Neighbouring ranks exchange halo rows. The change flag is
    combined with an `Allreduce(LOR)`, and the labels are gathered on
    rank 0.
* **Matrix–vector product** (`src/ExerciseI`). `rows cols A… v…` is read
  from the command line and `A·v` is computed.
  - OpenMP runs a parallel loop over the rows.
  - pthreads uses equal chunks, and the last thread also takes the
    remainder.
  - MPI uses `Scatterv` / `Gatherv`, with counts and displacements for a
    block distribution.
* **Matrix operations** (`src/ExerciseIII`). `r1 c1 r2 c2 A… B…` is read.
  The sum is computed when the shapes agree, the product when `c1 == r2`,
  and the transposes are computed.
  - OpenMP runs the three kernels as sections; pthreads runs them as three
    threads.
  - MPI spreads them over three ranks, which use flat row-major buffers
    and report to rank 0.

The model has these parts:

* **Data.** Images and label grids are `seq<seq<int>>` (module `Grid`).
* **Sweep.** One sweep is a pure function, `LabelSweep.Sweep`. The
  sequential labelling is iteration to a fixpoint, with the sum of all
  labels as its termination measure (`SeqLabeling.Propagate`).
* **Correctness of the labelling.** The result is proved to give every
  foreground pixel the smallest initial label of its 4-connected
  component. So two foreground pixels share a label exactly when they are
  connected.
* **Parallel variants.** Each is modelled as the data movement it performs:
  - row ranges and their tiling, in module `Partition`;
  - per-rank views with halos, in `MpiLabeling`;
  - three tasks over shared state, in `MatrixOps`;
  - flat buffers and rank-1 messages, in `FlatMatrixOps`.

  The OpenMP and pthreads variants of all three exercises, and the MPI
  matrix–vector product, are proved to equal the sequential result. The
  two other MPI programs do not, as written (see "## Findings"):
  - The MPI labelling skips a halo label of 0. It equals the sequential
    labelling whenever the component of pixel (0, 0) stays inside one
    rank's block (in particular when that pixel is background), and always
    once the halo test checks the neighbouring pixel instead.
  - In the MPI matrix program, ranks 1 and 2 never receive A and B, so
    they multiply and transpose zero-filled buffers. Only its sum equals
    the sequential one. With the receives added, the whole report does.
* **Schedules.** The choices a runtime makes are parameters, and the
  results hold for every admissible choice: the order of OpenMP
  iterations, the order in which sections or threads finish, and the
  number of ranks.

## Model

| member | source | states |
|---|---|---|
| Grid.IndexZero | src/CompLabel/component_label_seq.cpp:15-22 | the initial label `i*cols+j` of an in-range cell is non-negative, and it is 0 only for the top-left cell |
| Grid.ConnectedSym | src/CompLabel/component_label_seq.cpp:36-46 | 4-connectivity through foreground pixels is symmetric |
| Grid.ConnectedTrans | src/CompLabel/component_label_seq.cpp:36-46 | 4-connectivity is transitive |
| Grid.ConnectedStep | src/CompLabel/component_label_seq.cpp:36-46 | a foreground neighbour of a cell connected to `b` is itself connected to `b` |
| LabelSweep.NeighbourMin | src/CompLabel/component_label_seq.cpp:34-47 | the candidate label never exceeds the pixel's own label |
| LabelSweep.NeighbourMinIsMinimum | src/CompLabel/component_label_seq.cpp:36-46 | the candidate is at most the label of every foreground 4-neighbour, and it is the pixel's own label or the label of one of those neighbours |
| LabelSweep.CellUpdate | src/CompLabel/component_label_seq.cpp:32-53 | the guarded write never raises a label and leaves a background pixel alone; on a foreground pixel it always stores the neighbourhood minimum, since that minimum never exceeds the pixel's own label |
| LabelSweep.Sweep | src/CompLabel/component_label_seq.cpp:28-55 | a sweep keeps the grid's shape, never raises a label, and leaves background cells as they were |
| LabelSweep.SweepIsNeighbourhoodMin | src/CompLabel/component_label_seq.cpp:32-52 | a swept foreground label is at most its old label and at most every foreground neighbour's old label |
| LabelSweep.SweepNonNeg | src/CompLabel/component_label_seq.cpp:28-55 | a sweep keeps all labels non-negative |
| LabelSweep.ChangedIff | src/CompLabel/component_label_seq.cpp:49-52 | the `changed` flag is set exactly when some cell got a strictly smaller label |
| LabelSweep.SumGridNonNeg | src/CompLabel/component_label_seq.cpp:24-58 | the sum of non-negative labels, the loop's termination measure, is non-negative |
| LabelSweep.SumGridDecreases | src/CompLabel/component_label_seq.cpp:24-58 | a sweep never raises the sum of labels, and lowers it strictly whenever `changed` is set |
| LabelSweep.UnchangedIsIdentity | src/CompLabel/component_label_seq.cpp:24-58 | a sweep that changes nothing returns the same grid, so the loop has reached a fixpoint |
| SeqLabeling.InitLabels | src/CompLabel/component_label_seq.cpp:15-22 | the initial labels fit the image and are non-negative |
| SeqLabeling.InitInvariant | src/CompLabel/component_label_seq.cpp:15-22 | the initial labels satisfy the labelling invariant: background is 0, each label is some connected pixel's index and at most the pixel's own index, and distinct foreground pixels get distinct labels |
| SeqLabeling.SweepInvariant | src/CompLabel/component_label_seq.cpp:28-55 | one sweep preserves the labelling invariant |
| SeqLabeling.Propagate | src/CompLabel/component_label_seq.cpp:24-58 | iterating sweeps until nothing changes terminates in a grid of the image's shape that the next sweep leaves unchanged |
| SeqLabeling.PropagateInvariant | src/CompLabel/component_label_seq.cpp:24-58 | the fixpoint iteration preserves the labelling invariant |
| SeqLabeling.PropagateFixpoint | src/CompLabel/component_label_seq.cpp:24-58 | from a fixpoint the loop stops at once, because no cell changes |
| SeqLabeling.FixpointNeighboursEqual | src/CompLabel/component_label_seq.cpp:36-52 | at a fixpoint, foreground 4-neighbours carry equal labels |
| SeqLabeling.FixpointConstantOnPath | src/CompLabel/component_label_seq.cpp:36-52 | at a fixpoint, labels are constant along a foreground path |
| SeqLabeling.FixpointConstantOnComponent | src/CompLabel/component_label_seq.cpp:36-52 | at a fixpoint, connected foreground pixels share a label |
| SeqLabeling.FixpointIsComponentMinimum | src/CompLabel/component_label_seq.cpp:24-58 | an invariant fixpoint labels each foreground pixel with the least index in its component, and background with 0 |
| SeqLabeling.Labeling | src/CompLabel/component_label_seq.cpp:7-60 | the labelling of an image fits the image, and an empty image gives an empty result |
| SeqLabeling.SequentialComponentLabeling | src/CompLabel/component_label_seq.cpp:7-60 | the loop program returns the labelling, whose labels are component minima |
| SeqLabeling.LabelingIsComponentMinimum | src/CompLabel/component_label_seq.cpp:7-60 | every foreground label is the least row-major index of its 4-connected component |
| SeqLabeling.LabelsIdentifyComponents | src/CompLabel/component_label_seq.cpp:7-60 | two foreground pixels get the same label if and only if they are 4-connected |
| SeqLabeling.SoundSameLabelConnected | src/CompLabel/component_label_seq.cpp:28-55 | under labels that always name a cell reachable from the labelled one, two foreground cells that share a label are 4-connected |
| SeqLabeling.ExampleInitLabels | src/CompLabel/component_label_seq.cpp:65-70 | the example image's initial labels |
| SeqLabeling.ExampleFirstPass | src/CompLabel/component_label_seq.cpp:65-70 | the example image's grid after the first sweep |
| SeqLabeling.ExampleSecondPass | src/CompLabel/component_label_seq.cpp:65-70 | the example image's grid after the second sweep |
| SeqLabeling.ExampleConverged | src/CompLabel/component_label_seq.cpp:65-70 | a third sweep changes nothing on the example |
| SeqLabeling.ExampleLabeling | src/CompLabel/component_label_seq.cpp:63-84 | the labelling the example program prints |
| Partition.TilesSorted | src/CompLabel/component_label_pthr.cpp:32-33 | range boundaries that tile `[0, total)` are sorted and lie within it |
| Partition.TilesCoverOnce | src/CompLabel/component_label_pthr.cpp:32-33 | every row belongs to exactly one range of a tiling |
| Partition.BlockStep | src/CompLabel/component_label_mpi.cpp:69-74 | the closed-form start row of the next rank is this rank's start plus its row count |
| Partition.BlockRows | src/CompLabel/component_label_mpi.cpp:41-44 | a rank's row count is the even share `rows/P` or one more |
| Partition.BlockStart | src/CompLabel/component_label_mpi.cpp:69-74 | the closed-form start row of every rank up to `P` lies within the rows |
| Partition.BlockLast | src/CompLabel/component_label_mpi.cpp:41-44 | the blocks end exactly at the last row |
| Partition.BlockStartIsPrefixSum | src/CompLabel/component_label_mpi.cpp:69-74 | a rank's start row is the sum of the row counts of the ranks before it |
| Partition.BlockRowsSum | src/CompLabel/component_label_mpi.cpp:41-44 | the row counts add up to the number of rows |
| Partition.BlockTiles | src/CompLabel/component_label_mpi.cpp:41-44 | the block boundaries tile the rows, and each block has its rank's row count |
| Partition.BlockRowsPositive | src/CompLabel/component_label_mpi.cpp:41-44 | with no more ranks than rows, every rank gets at least one row |
| Partition.DisplacementsStep | src/CompLabel/component_label_mpi.cpp:51-56 | displacements are the running sum of the counts, starting at 0 |
| Partition.BlockDisplacements | src/CompLabel/component_label_mpi.cpp:47-56 | the scatter displacement of rank `k` is its start row times `cols` |
| Partition.EvenTiles | src/CompLabel/component_label_pthr.cpp:32-33 | the proportional ranges `rows*t/n` tile the rows, and the first range is empty when there are fewer rows than threads |
| Partition.EvenBounds | src/CompLabel/component_label_pthr.cpp:32-33 | the proportional bounds start at row 0 and end at `rows`; no row is lost to the truncating division |
| Partition.ChunkStep | src/ExerciseI/pthreads_mult.cpp:18-22 | each thread's chunk lies within the rows and ends where the next thread's starts |
| Partition.ChunkStart | src/ExerciseI/pthreads_mult.cpp:18-19 | from thread `t`'s start, the remaining threads' even shares still fit in the rows |
| Partition.ChunkEnd | src/ExerciseI/pthreads_mult.cpp:20-22 | a thread's end row is at least its start row and at most `rows` |
| Partition.ChunkTiles | src/ExerciseI/pthreads_mult.cpp:18-22 | the equal chunks, with the remainder on the last thread, tile the rows |
| Partition.ChunkFewRows | src/ExerciseI/pthreads_mult.cpp:18-22 | with fewer rows than threads, only the last thread has work, and it takes every row |
| Partition.WriteRange | src/ExerciseI/pthreads_mult.cpp:24-29 | a thread's writes change exactly its own range of the shared buffer |
| Partition.WriteTilesPrefix | src/ExerciseI/pthreads_mult.cpp:65-83 | after the first `t` threads have run, exactly their rows hold the new values |
| Partition.WriteTilesAll | src/ExerciseI/pthreads_mult.cpp:65-83 | once every thread of a tiling has written its range, the buffer is the full result, whatever it held before |
| Partition.ApplyInOrderSlots | src/CompLabel/component_label_omp.cpp:33-60 | after the scheduled iterations, a row holds the new value exactly when it was scheduled |
| Partition.ApplyInOrderAll | src/CompLabel/component_label_omp.cpp:33-60 | any schedule that runs every row yields the full result |
| Partition.ConcatSlicesPrefix | src/CompLabel/component_label_mpi.cpp:167-173 | concatenating the first `k` blocks gives the rows up to block `k`'s start |
| Partition.SlicesAt | src/CompLabel/component_label_mpi.cpp:65-66 | row `r` of block `k` is global row `b[k]+r` |
| Partition.ConcatSlices | src/CompLabel/component_label_mpi.cpp:167-173 | gathering the scattered blocks in rank order rebuilds the whole grid |
| Partition.ConcatPrefixShape | src/CompLabel/component_label_mpi.cpp:171-173 | gathering the first `n` blocks of widths `cols`, in rank order, gives `b[n]` rows of width `cols` |
| Partition.OrReduceIff | src/CompLabel/component_label_mpi.cpp:157-160 | the logical-OR reduction is true if and only if some flag is true |
| Partition.RangeFlagsSound | src/CompLabel/component_label_pthr.cpp:69-73 | a thread reports a change only if some row changed |
| Partition.RangeFlagsComplete | src/CompLabel/component_label_pthr.cpp:69-73 | a changed row is reported by some thread |
| Partition.OrReduceTiles | src/CompLabel/component_label_omp.cpp:33-63 | OR-ing per-range flags equals OR-ing the per-row flags |
| OmpLabeling.OmpPass | src/CompLabel/component_label_omp.cpp:33-60 | a parallel-for pass, under any schedule that covers the rows, computes exactly the sequential sweep |
| OmpLabeling.OmpFlag | src/CompLabel/component_label_omp.cpp:30-63 | the `reduction(||)` flag is set exactly when some scheduled row has a label that dropped |
| OmpLabeling.OmpFlagIsChanged | src/CompLabel/component_label_omp.cpp:54-57 | the flag the threads set under any covering schedule is the sequential `changed` |
| OmpLabeling.OmpComponentLabeling | src/CompLabel/component_label_omp.cpp:8-64 | under any covering schedule in each round, the OpenMP program returns the sequential labelling: component minima |
| PthreadsLabeling.PthrGrid | src/CompLabel/component_label_pthr.cpp:39-66 | phase 1 yields a grid of the image's shape |
| PthreadsLabeling.PthrCell | src/CompLabel/component_label_pthr.cpp:41-64 | a foreground pixel's unconditional `newLabel` write equals the sequential guarded update; a background pixel is written 0 |
| PthreadsLabeling.PthrGridIsSweep | src/CompLabel/component_label_pthr.cpp:39-66 | when background labels are 0, phase 1's writes (background written as 0) equal the sequential sweep |
| PthreadsLabeling.RowFlagsAreDecreased | src/CompLabel/component_label_pthr.cpp:41-60 | a row's local `changed` is set exactly when a label in it decreased |
| PthreadsLabeling.Round | src/CompLabel/component_label_pthr.cpp:36-102 | a barrier-separated round keeps the shared state well formed |
| PthreadsLabeling.RoundIsPass | src/CompLabel/component_label_pthr.cpp:39-101 | one round leaves both grids equal to the sweep, sets `done` exactly when nothing changed, and resets the shared flag |
| PthreadsLabeling.ZeroGrid | src/CompLabel/component_label_pthr.cpp:125-133 | `newLabels` starts as a zero grid of the image's shape |
| PthreadsLabeling.PthreadsComponentLabeling | src/CompLabel/component_label_pthr.cpp:28-157 | with any positive thread count, the pthreads program returns the sequential labelling: component minima |
| PthreadsLabeling.PthreadsExample | src/CompLabel/component_label_pthr.cpp:110-170 | the example image run with 4 threads gives the example's labels |
| Base.Zeros | src/CompLabel/component_label_mpi.cpp:91 | a freshly sized buffer has the requested length and holds only zeros; this covers the edge halos here and the `resize`d vectors of src/ExerciseIII/matrix_op_openmpi.cpp:73-78 |
| MpiLabeling.LocalCell | src/CompLabel/component_label_mpi.cpp:112-154 | a rank's new label is at most the old one for foreground, 0 for background, and never negative |
| MpiLabeling.LocalUpdate | src/CompLabel/component_label_mpi.cpp:112-154 | a rank's pass yields a block of its own shape |
| MpiLabeling.HaloTestAgrees | src/CompLabel/component_label_mpi.cpp:128-141 | when background labels are 0 and the neighbouring pixel, if foreground, has a non-zero label, testing the halo label for 0 is the same as testing the neighbour's pixel |
| MpiLabeling.CellAgrees | src/CompLabel/component_label_mpi.cpp:112-154 | a rank computes the global sweep's value for each of its cells, including through halos: always with the image test, and with the label test when no vertically adjacent foreground pair across its block's edges carries label 0 |
| MpiLabeling.FgCellAgrees | src/CompLabel/component_label_mpi.cpp:112-154 | a foreground cell whose top and bottom tests pick out exactly its foreground vertical neighbours, with their labels, computes the global sweep's value: the source's left, right, top, bottom order gives the same minimum |
| MpiLabeling.BlockLayout | src/CompLabel/component_label_mpi.cpp:41-74 | with `0 < P <= rows`, the block distribution has non-empty blocks starting at the closed-form rows |
| MpiLabeling.LayoutEdges | src/CompLabel/component_label_mpi.cpp:99-109 | a block has an upper neighbour exactly when it starts after row 0, and a lower one exactly when it ends before the last row |
| MpiLabeling.ScatterDistributed | src/CompLabel/component_label_mpi.cpp:65-66 | scattering a grid gives each rank its block of rows |
| MpiLabeling.TopHalo | src/CompLabel/component_label_mpi.cpp:99-109 | the received top halo has one entry per column |
| MpiLabeling.BottomHalo | src/CompLabel/component_label_mpi.cpp:99-109 | the received bottom halo has one entry per column |
| MpiLabeling.RankView | src/CompLabel/component_label_mpi.cpp:91-109 | a rank sees its own block with its labels and halos of the right width |
| MpiLabeling.Step | src/CompLabel/component_label_mpi.cpp:112-154 | one exchange-and-update step keeps the distribution shape |
| MpiLabeling.LocalDecreases | src/CompLabel/component_label_mpi.cpp:112-154 | a rank's pass never raises its label sum, and lowers it when its flag is set |
| MpiLabeling.StepDecreases | src/CompLabel/component_label_mpi.cpp:91-160 | the total label sum falls whenever the reduced flag is set, so the loop terminates |
| MpiLabeling.Run | src/CompLabel/component_label_mpi.cpp:89-161 | the distributed loop keeps the distribution shape |
| MpiLabeling.LocalInit | src/CompLabel/component_label_mpi.cpp:78-88 | local initial labels have the block's shape |
| MpiLabeling.InitLocalsIsScatter | src/CompLabel/component_label_mpi.cpp:78-88 | each rank's local initialisation with global indices is the scattered global initial labelling |
| MpiLabeling.InitLocalsDistributed | src/CompLabel/component_label_mpi.cpp:78-88 | the initial local labels are a valid non-negative distribution |
| MpiLabeling.LocalIsBlockOfSweep | src/CompLabel/component_label_mpi.cpp:91-154 | each rank's update is its block of the global sweep |
| MpiLabeling.BlockAgrees | src/CompLabel/component_label_mpi.cpp:112-154 | a view holding rows `s..` updates to that band of the global sweep |
| MpiLabeling.BandChangedSound | src/CompLabel/component_label_mpi.cpp:147-152 | a rank's flag is set only if a row in its band decreased |
| MpiLabeling.BandChangedComplete | src/CompLabel/component_label_mpi.cpp:147-152 | a decrease in a rank's band sets its flag |
| MpiLabeling.StepIsSweep | src/CompLabel/component_label_mpi.cpp:91-163 | one distributed step on a scattered grid is the scattered sweep |
| MpiLabeling.FlagIsChanged | src/CompLabel/component_label_mpi.cpp:157-160 | the `Allreduce(LOR)` flag equals the sequential `changed` |
| MpiLabeling.InvariantFgNonZero | src/CompLabel/component_label_mpi.cpp:128-141 | when pixel (0,0) is background, every foreground label is non-zero |
| MpiLabeling.RunIsPropagate | src/CompLabel/component_label_mpi.cpp:89-161 | the distributed loop is the scattered sequential fixpoint iteration |
| MpiLabeling.GatherIsLabeling | src/CompLabel/component_label_mpi.cpp:78-173 | gathering the blocks after the loop gives the sequential labelling |
| MpiLabeling.GatherFits | src/CompLabel/component_label_mpi.cpp:171-173 | gathering distributed blocks gives a grid of the image's shape |
| MpiLabeling.MpiComponentLabeling | src/CompLabel/component_label_mpi.cpp:40-173 | the whole program, under either halo rule, returns a label grid of the image's shape |
| MpiLabeling.MpiCorrected | src/CompLabel/component_label_mpi.cpp:128-141 | with the halo test on the neighbour's pixel, the MPI program equals the sequential labelling for any `0 < P <= rows` |
| MpiLabeling.ZeroLabelReachesOrigin | src/CompLabel/component_label_mpi.cpp:128-141 | under the labelling invariant, a foreground pixel labelled 0 is 4-connected to pixel (0,0) |
| MpiLabeling.AdjacentReachSame | src/CompLabel/component_label_mpi.cpp:128-141 | two adjacent foreground pixels reach exactly the same pixels |
| MpiLabeling.BackgroundOriginInsideBlock | src/CompLabel/component_label_mpi.cpp:128-141 | when pixel (0,0) is background, its component crosses no cut between blocks |
| MpiLabeling.InvariantEdgeNonZero | src/CompLabel/component_label_mpi.cpp:128-141 | under the invariant, a cut the component of (0,0) does not cross has no vertically adjacent foreground pair with a label 0 |
| MpiLabeling.InvariantHaloSafe | src/CompLabel/component_label_mpi.cpp:128-141 | under the invariant, the image test is sound at every cut, and the label test is sound at every cut when the component of (0,0) stays inside one block |
| MpiLabeling.HaloSafeBand | src/CompLabel/component_label_mpi.cpp:99-110 | safety at the cuts between blocks covers each block's own edges, since the outer edges are the grid's |
| MpiLabeling.MpiAsWrittenOriginInside | src/CompLabel/component_label_mpi.cpp:40-173 | the halo test as written gives the sequential labelling whenever the component of pixel (0,0) lies within one rank's block |
| MpiLabeling.MpiAsWrittenAgrees | src/CompLabel/component_label_mpi.cpp:128-141 | in particular, the halo test as written is correct whenever pixel (0,0) is background |
| MpiLabeling.MpiHaloCounterexample | src/CompLabel/component_label_mpi.cpp:128-141 | on `[[1],[1]]` with 2 ranks the halo test as written gives `[[0],[1]]`, while the sequential labelling and the corrected test give `[[0],[0]]` |
| LinAlg.DotComm | src/ExerciseIII/matrix_op_sequential.cpp:66-75 | the dot product is symmetric in its arguments |
| LinAlg.DotZeros | src/ExerciseIII/matrix_op_openmpi.cpp:110-118 | a dot product whose left operand is all zeros is 0 |
| LinAlg.AddComm | src/ExerciseIII/matrix_op_sequential.cpp:46-53 | matrix addition is commutative |
| LinAlg.TransposeInvolution | src/ExerciseIII/matrix_op_sequential.cpp:89-95 | transposing twice gives the matrix back |
| LinAlg.TransposeRowIsColumn | src/ExerciseIII/matrix_op_sequential.cpp:89-95 | row `j` of the transpose is column `j` |
| LinAlg.TransposeOfProduct | src/ExerciseIII/matrix_op_sequential.cpp:66-95 | the transpose of a product is the product of the transposes in reverse order |
| LinAlg.MatVecRows | src/ExerciseI/openmpi_mult.cpp:82-88 | the product of a band of rows is the same band of the full product |
| LinAlg.MatVecIsMultiply | src/ExerciseI/sequential_mult.cpp:24-30 | the matrix–vector product is the matrix product with the vector as one column |
| MatrixOps.ParseOperands | src/ExerciseIII/matrix_op_sequential.cpp:8-44 | accepted arguments give an `r1 × c1` matrix and an `r2 × c2` matrix |
| MatrixOps.ParseEncode | src/ExerciseIII/matrix_op_sequential.cpp:22-44 | reading back the command line of well-shaped operands returns them |
| MatrixOps.EncodeParse | src/ExerciseIII/matrix_op_sequential.cpp:22-44 | accepted arguments are exactly the encoding of the operands read |
| MatrixOps.ParseErrors | src/ExerciseIII/matrix_op_sequential.cpp:8-27 | a usage error exactly when there are fewer than four numbers, a count error exactly when the count is wrong, and a dimension error exactly for a negative dimension |
| MatrixOps.SumLoop | src/ExerciseIII/matrix_op_sequential.cpp:46-53 | the loops compute the entrywise sum |
| MatrixOps.ProductLoop | src/ExerciseIII/matrix_op_sequential.cpp:66-75 | the accumulating triple loop computes each entry as a row–column dot product |
| MatrixOps.TransposeLoop | src/ExerciseIII/matrix_op_sequential.cpp:89-95 | the loops put `a[i][j]` at `t[j][i]` |
| MatrixOps.SumIfDefined | src/ExerciseIII/matrix_op_sequential.cpp:46-53 | a sum is produced if and only if the shapes agree |
| MatrixOps.ProductIfDefined | src/ExerciseIII/matrix_op_sequential.cpp:60-75 | a product is produced if and only if `c1 == r2`, and it is `r1 × c2` |
| MatrixOps.SequentialMatrixOps | src/ExerciseIII/matrix_op_sequential.cpp:6-122 | the program reports results exactly when the arguments are accepted |
| MatrixOps.SequentialReport | src/ExerciseIII/matrix_op_sequential.cpp:46-111 | the report's sum, product and transposes are present under the source's guards, with their entries |
| MatrixOps.ExampleOperands | src/ExerciseIII/matrix_op_sequential.cpp:6-122 | for `1 1 1 1 2 3` the sequential program prints sum 5, product 6 and transposes 2 and 3 |
| MatrixOps.StartState | src/ExerciseIII/matrix_op_pthreads.cpp:106-109 | the shared data holds well-shaped inputs |
| MatrixOps.RunTask | src/ExerciseIII/matrix_op_pthreads.cpp:20-63 | a task writes only its own result and leaves the dimensions, inputs and other results as they were |
| MatrixOps.RunTasksResults | src/ExerciseIII/matrix_op_openmp.cpp:55-97 | in any order, each result is what its own task computes from the unchanged inputs |
| MatrixOps.TasksCommute | src/ExerciseIII/matrix_op_pthreads.cpp:115-136 | running two tasks in either order gives the same state |
| MatrixOps.ParallelMatrixOps | src/ExerciseIII/matrix_op_openmp.cpp:8-140 | the parallel programs report exactly when the arguments are accepted |
| MatrixOps.ParallelIsSequential | src/ExerciseIII/matrix_op_pthreads.cpp:65-178 | in any order that runs all three tasks, the OpenMP and pthreads programs report what the sequential program reports, and fail with the same error |
| FlatMatrixOps.FlatAdd | src/ExerciseIII/matrix_op_openmpi.cpp:94-101 | the flat sum has the operands' length |
| FlatMatrixOps.FlatAddAgrees | src/ExerciseIII/matrix_op_openmpi.cpp:94-101 | the flat sum of the flattened matrices is the flattened matrix sum |
| FlatMatrixOps.RowMajorSplit | src/ExerciseIII/matrix_op_openmpi.cpp:107-119 | every flat index below `rows*cols` is `i*cols+j` for one in-range cell |
| FlatMatrixOps.FlatProductLoop | src/ExerciseIII/matrix_op_openmpi.cpp:107-119 | the flat triple loop puts the row–column dot product at `i*c2+j` |
| FlatMatrixOps.WriteCell | src/ExerciseIII/matrix_op_openmpi.cpp:107-119 | writing one flat cell sets it and leaves every other cell as it was |
| FlatMatrixOps.FlatLayoutIs | src/ExerciseIII/matrix_op_openmpi.cpp:53-61 | a flat buffer with the cells of a matrix at `i*cols+j` is that matrix flattened |
| FlatMatrixOps.FlatProductAgrees | src/ExerciseIII/matrix_op_openmpi.cpp:107-119 | the flat product of flattened operands is the flattened matrix product |
| FlatMatrixOps.FlatTransposeLoop | src/ExerciseIII/matrix_op_openmpi.cpp:129-134 | the flat loop puts `a[i][j]` at `j*r1+i` |
| FlatMatrixOps.FlatTransposeAgrees | src/ExerciseIII/matrix_op_openmpi.cpp:129-134 | the flat transpose of a flattened matrix is the flattened transpose |
| FlatMatrixOps.TransposeIndexBijection | src/ExerciseIII/matrix_op_openmpi.cpp:129-134 | `(i,j) ↦ j*r1+i` maps the cells one-to-one onto the flat buffer |
| FlatMatrixOps.Rank1Messages | src/ExerciseIII/matrix_op_openmpi.cpp:105-125 | rank 1 sends a flag that is set exactly when `c1 == r2`, then the product only when it is set |
| FlatMatrixOps.Rank0Receives | src/ExerciseIII/matrix_op_openmpi.cpp:155-161 | rank 0 holds a product only after a set flag and a payload of exactly `r1*c2` entries, and never takes more messages than were sent |
| FlatMatrixOps.ProductProtocol | src/ExerciseIII/matrix_op_openmpi.cpp:105-161 | rank 0 receives exactly rank 1's messages, and gets the product if and only if `c1 == r2` |
| FlatMatrixOps.MpiMatrixOps | src/ExerciseIII/matrix_op_openmpi.cpp:16-185 | fewer than three processes is an error; otherwise the program runs exactly when the arguments parse, and aborts with the parse error when they do not |
| FlatMatrixOps.FlatProductZeros | src/ExerciseIII/matrix_op_openmpi.cpp:110-118 | rank 1's product of two zero-filled buffers is all zeros |
| FlatMatrixOps.FlatTransposeZeros | src/ExerciseIII/matrix_op_openmpi.cpp:129-134 | rank 2's transpose of a zero-filled buffer is all zeros |
| FlatMatrixOps.MpiAsWrittenReport | src/ExerciseIII/matrix_op_openmpi.cpp:73-185 | as written, with three or more processes, the program refuses exactly the arguments the sequential one refuses, and reports the sequential sum. Whenever a product is possible it reports a product of `r1*c2` zeros, and its transpose is `r1*c1` zeros, whatever A and B are |
| FlatMatrixOps.MpiZeroOperandsExample | src/ExerciseIII/matrix_op_openmpi.cpp:73-185 | as written, for `1 1 1 1 2 3` on three processes, the program prints sum 5, product 0 and transpose 0 |
| FlatMatrixOps.MpiReceivedExample | src/ExerciseIII/matrix_op_openmpi.cpp:80-185 | with the operands received, the same run prints sum 5, product 6 and transpose 2 |
| FlatMatrixOps.MpiZeroOperandsCounterexample | src/ExerciseIII/matrix_op_openmpi.cpp:73-86 | on that input, the product and transpose as written differ from the sequential ones, while with the receives the product matches |
| FlatMatrixOps.MpiIsSequential | src/ExerciseIII/matrix_op_openmpi.cpp:80-185 | with ranks 1 and 2 receiving A and B, and three or more processes, the program fails exactly when the sequential one does, and otherwise reports the flattened sequential sum, product and transpose of A |
| FlatMatrixOps.MpiOperandSlices | src/ExerciseIII/matrix_op_openmpi.cpp:28-61 | the two flat buffers rank 0 fills from the command line are the row-major layouts of A and B |
| FlatMatrixOps.MpiSumIsSequential | src/ExerciseIII/matrix_op_openmpi.cpp:95-102 | rank 0 adds its own A and B, so under either delivery the sum is reported exactly when the sequential one is, and is its flat layout |
| FlatMatrixOps.MpiProductIsSequential | src/ExerciseIII/matrix_op_openmpi.cpp:104-169 | with the operands received, the product rank 0 receives from rank 1 is present exactly when the sequential product is, and is its flat layout |
| FlatMatrixOps.MpiTransposeIsSequential | src/ExerciseIII/matrix_op_openmpi.cpp:127-137 | with A received, rank 2's transpose is the flat layout of the sequential transpose of A |
| MatVecPrograms.ReadProblem | src/ExerciseI/sequential_mult.cpp:7-22 | the arguments give a `rows × cols` matrix and a `cols` vector |
| MatVecPrograms.ReadEncode | src/ExerciseI/sequential_mult.cpp:7-22 | reading back an encoded problem returns it, whatever follows on the line |
| MatVecPrograms.EncodeRead | src/ExerciseI/sequential_mult.cpp:7-22 | the numbers read are exactly the prefix of the arguments the problem occupies |
| MatVecPrograms.SequentialMult | src/ExerciseI/sequential_mult.cpp:24-30 | the zero-initialised accumulating loops compute `A·v` |
| MatVecPrograms.ProductEntryIsLocal | src/ExerciseI/openmp_mult.cpp:36-43 | entry `i` of the product depends only on row `i` and the vector |
| MatVecPrograms.RowDot | src/ExerciseI/openmp_mult.cpp:37-41 | the inner loop computes the row's dot product with the vector |
| MatVecPrograms.OmpMult | src/ExerciseI/openmp_mult.cpp:8-43 | usage error if and only if there are fewer than three arguments; otherwise, under any covering schedule and from an uninitialised buffer, the result is `A·v` |
| MatVecPrograms.ThreadMultiply | src/ExerciseI/pthreads_mult.cpp:16-32 | a thread writes the dot products of exactly its chunk of rows and leaves the others |
| MatVecPrograms.PthreadsMult | src/ExerciseI/pthreads_mult.cpp:34-83 | usage error if and only if there are fewer than three arguments; otherwise the four threads together compute `A·v` from an uninitialised buffer |
| MatVecPrograms.SendCountsTile | src/ExerciseI/openmpi_mult.cpp:59-69 | the scatter counts add up to the matrix size, and the displacements are the block start rows times `cols` |
| MatVecPrograms.SendCounts | src/ExerciseI/openmpi_mult.cpp:59-65 | each rank's scatter count is a whole number of rows: the even share `rows/p` of rows, or one row more, times `cols` |
| MatVecPrograms.LocalRows | src/ExerciseI/openmpi_mult.cpp:71 | the division `sendcounts[rank]/cols` is exact: it gives the rank's block row count |
| MatVecPrograms.RecvCountsTile | src/ExerciseI/openmpi_mult.cpp:91-99 | the gather counts are the row counts, they add up to `rows`, and the displacements are the block start rows |
| MatVecPrograms.RecvCounts | src/ExerciseI/openmpi_mult.cpp:91-95 | each gather count is the rank's row count, as the division of the scatter count by `cols` is exact |
| MatVecPrograms.BlockInside | src/ExerciseI/openmpi_mult.cpp:59-69 | each rank's block of rows, and of matrix entries, lies within the matrix |
| MatVecPrograms.LocalProduct | src/ExerciseI/openmpi_mult.cpp:82-88 | a rank's flat loop computes the product of its rows with the vector |
| MatVecPrograms.RankResult | src/ExerciseI/openmpi_mult.cpp:77-88 | a rank returns one entry per row it holds |
| MatVecPrograms.RankResultIsBlock | src/ExerciseI/openmpi_mult.cpp:59-88 | a rank's result is its block of rows of `A·v` |
| MatVecPrograms.RankResultIsBand | src/ExerciseI/openmpi_mult.cpp:59-88 | on the row-major layout of a matrix, a rank multiplies exactly its band of rows |
| MatVecPrograms.MpiMatVec | src/ExerciseI/openmpi_mult.cpp:19-25 | usage error if and only if there are fewer than three arguments |
| MatVecPrograms.MpiIsProduct | src/ExerciseI/openmpi_mult.cpp:47-104 | for any positive number of ranks, the gathered result is `A·v` |

## Left out

- Printing, timing (`omp_get_wtime`, `MPI_Wtime`, `clock`) and the example `main`s' output formatting are not modelled. The results they would print are what the model returns.
- `atoi`: the command line is modelled as the integers `atoi` would return for `argv[1..]`. Non-numeric text is not modelled.
- 32-bit `int` overflow of labels, indices, sums and products is not modelled; integers are unbounded.
- Threads, barriers, the mutex, OpenMP runtime scheduling and MPI transport are modelled as pure functions. Their effects are modelled, not their timing:
  - an OpenMP loop runs in any order covering its iterations, given as a parameter;
  - pthreads workers run one after another over disjoint ranges, which gives the same result because the ranges do not overlap;
  - MPI ranks are computed side by side, and collectives become concatenation or OR.
- MPI deadlock and progress behaviour is not modelled; neither are `MPI_Init` and `MPI_Finalize`.
- The heat-plate programs (`src/ExerciseII`) and the input generators (`aio_generator*.cpp`) are not part of this model.
- MpiLabeling.MpiAsWrittenOriginInside: the condition that the component of (0,0) stays inside one block is sufficient, not necessary. The exact set of images on which the label test goes wrong is not characterised; MpiHaloCounterexample gives one.
- MpiLabeling.MpiCorrected: requires `0 < P <= rows`. With more ranks than rows, some rank gets no rows, and the source reads row `-1` of its empty block (component_label_mpi.cpp:106); that undefined behaviour is not modelled.
- Non-rectangular images: every labelling member requires `Rect(image)`, meaning every row is as wide as the first. The sources take `cols` from `image[0].size()` (component_label_seq.cpp:10) and accept longer later rows, whose extra pixels they ignore. Every image the programs build is rectangular.
- PthreadsLabeling.PthreadsComponentLabeling: requires at least one row, because the source reads `image[0]` to get the width (component_label_pthr.cpp:121).
- MatVecPrograms.SequentialMult: requires that the arguments supply every number. The source indexes `argv` without checking `argc`; it is the only variant without a usage check.
- MatVecPrograms.OmpMult, MatVecPrograms.PthreadsMult and MatVecPrograms.MpiMatVec: when there are at least three arguments, they require non-negative dimensions and all `rows*cols + cols` numbers. Otherwise the sources throw from `new[]` or read past `argv`.
- MatVecPrograms.MpiMatVec: requires `cols > 0`, because the source divides by `cols` (openmpi_mult.cpp:71). The `Gatherv` placement is modelled as concatenation in rank order, which RecvCountsTile justifies.
- MatrixOps.ParseOperands: a negative dimension that passes the count check is reported as an error value. In the source, `std::vector` throws `length_error` there.
- FlatMatrixOps.MpiMatrixOps: a negative dimension that passes the count check is reported as `Aborted(NegativeDimension)`, as in the other variants. The MPI source has no such check. A `resize` to a negative size (one negative factor times a positive one) throws `length_error`. A negative factor times 0 gives an empty buffer: `-1 0 0 0` passes the count check, every buffer is empty, and the program runs to completion, printing that addition is not possible and no product or transpose entries. When both factors are negative, the product is positive and it carries on: rank 0's flat addition loop over `r1*c1` entries still runs when the shapes agree, while every loop bounded by a negative `r1`, `c1` or `c2` runs zero times.
- FlatMatrixOps.MpiMatrixOps: rank 0's sends of A and B (tags 10, 11 and 20) have no matching receives. The model assumes these sends complete, as small standard-mode sends do under eager buffering. Whether a large unmatched send would block forever is not modelled.
- FlatMatrixOps.ProductProtocol: a receive whose count does not match the message is modelled as a failed receive (`None`). MPI's truncation error is not modelled further.
- Uninitialised result buffers (`openmp_mult.cpp:21`, `pthreads_mult.cpp:49`) are a parameter with any contents; the proofs show that every entry is overwritten.

## Findings

| source | as written | input that shows it | evidently intended | confidence | as-written member | corrected member |
|---|---|---|---|---|---|---|
| src/CompLabel/component_label_mpi.cpp:128-141 | a halo neighbour is used only when its label is non-zero (`recvTopHalo[j] != 0`, `recvBottomHalo[j] != 0`), but label 0 is also the legitimate label of the pixel at (0,0) | image `[[1],[1]]` on 2 ranks: the MPI program returns `[[0],[1]]`, while the sequential program returns `[[0],[0]]` | use the halo neighbour when the neighbouring pixel is foreground, as the sequential program does | not executed | MpiLabeling.MpiHaloCounterexample | MpiLabeling.MpiCorrected |
| src/ExerciseIII/matrix_op_openmpi.cpp:73-86 | ranks 1 and 2 only `resize` A and B, which fills them with zeros. Rank 0's `MPI_Send`s of A and B (tags 10, 11 and 20) have no matching `MPI_Recv`, so the product (:110-118) and the transpose (:129-134) are computed on zeros | `1 1 1 1 2 3` on 3 processes: the MPI program prints sum 5, product 0 and transpose 0, while the sequential program prints 5, 6 and 2 | ranks 1 and 2 receive A and B (`MPI_Recv` with tags 10, 11 and 20) before computing | not executed | FlatMatrixOps.MpiZeroOperandsCounterexample | FlatMatrixOps.MpiIsSequential |
