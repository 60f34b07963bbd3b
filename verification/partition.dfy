/** Static row partitions shared by every parallel variant: a partition is a
    list of boundaries `b[0] = 0 <= b[1] <= ... <= b[n] = total`, worker `k`
    owning the half-open range `[b[k], b[k+1])`.  The three splitting schemes
    of the repository are instances; the lemmas say that each range is owned
    once, that writes confined to the ranges rebuild the whole result, and
    that an OR of per-range flags is the OR over all rows. */
module Partition {
  import opened Base

  predicate Tiles(b: seq<int>, total: int)
  {
    && |b| >= 1
    && b[0] == 0
    && b[|b| - 1] == total
    && forall k :: 0 <= k < |b| - 1 ==> b[k] <= b[k + 1]
  }

  /** Range `k` of partition `b` holds position `i`. */
  predicate InRange(b: seq<int>, k: int, i: int)
  {
    0 <= k < |b| - 1 && b[k] <= i < b[k + 1]
  }

  lemma {:induction false} TilesMono(b: seq<int>, total: int, k1: int, k2: int)
    requires Tiles(b, total) && 0 <= k1 <= k2 < |b|
    ensures b[k1] <= b[k2]
    decreases k2 - k1
  {
    if k1 < k2 {
      TilesMono(b, total, k1 + 1, k2);
    }
  }

  lemma TilesSorted(b: seq<int>, total: int, k1: int, k2: int)
    requires Tiles(b, total) && 0 <= k1 <= k2 < |b|
    ensures 0 <= b[k1] <= b[k2] <= total
  {
    TilesMono(b, total, 0, k1);
    TilesMono(b, total, k1, k2);
    TilesMono(b, total, k2, |b| - 1);
  }

  lemma {:induction false} FindRange(b: seq<int>, total: int, i: int, k: int) returns (r: int)
    requires Tiles(b, total) && 0 <= k < |b| - 1 && b[k] <= i < total
    ensures InRange(b, r, i)
    decreases |b| - k
  {
    if i < b[k + 1] {
      r := k;
    } else {
      if k + 1 == |b| - 1 {
        assert false;
      }
      r := FindRange(b, total, i, k + 1);
    }
  }

  /** Every position of `[0, total)` lies in exactly one range. */
  lemma TilesCoverOnce(b: seq<int>, total: int, i: int)
    requires Tiles(b, total) && 0 <= i < total
    ensures exists k :: InRange(b, k, i)
    ensures forall k1, k2 :: InRange(b, k1, i) && InRange(b, k2, i) ==> k1 == k2
  {
    var k := FindRange(b, total, i, 0);
    forall k1, k2 | InRange(b, k1, i) && InRange(b, k2, i)
      ensures k1 == k2
    {
      if k1 < k2 {
        TilesSorted(b, total, k1 + 1, k2);
      } else if k2 < k1 {
        TilesSorted(b, total, k2 + 1, k1);
      }
    }
  }

  // ---------------------------------------------------------------------------
  // Block partition with remainder: the first `total % p` workers get one row
  // more than the others (component_label_mpi.cpp, openmpi_mult.cpp).

  function BlockRows(total: nat, p: nat, k: nat): (n: nat)
    requires p > 0
    ensures total / p <= n <= total / p + 1
  {
    if k < total % p then total / p + 1 else total / p
  }

  /** First row of worker `k`, in the closed form the MPI labelling uses. */
  function BlockStart(total: nat, p: nat, k: nat): (s: nat)
    requires p > 0
    ensures k <= p ==> s <= total
  {
    var base, rem := total / p, total % p;
    assert k <= p ==> k * base <= p * base by {
      if k <= p {
        MulMono(k, p, base);
      }
    }
    assert k * (base + 1) == k * base + k;
    assert rem * (base + 1) + (k - rem) * base == k * base + rem;
    if k < rem then k * (base + 1) else rem * (base + 1) + (k - rem) * base
  }

  lemma BlockStep(total: nat, p: nat, k: nat)
    requires p > 0 && k < p
    ensures BlockStart(total, p, k + 1) == BlockStart(total, p, k) + BlockRows(total, p, k)
  {
    var base, rem := total / p, total % p;
    if k + 1 < rem {
      assert (k + 1) * (base + 1) == k * (base + 1) + (base + 1);
    } else if k < rem {
      assert k + 1 == rem;
      assert rem * (base + 1) == k * (base + 1) + (base + 1);
    } else {
      assert (k + 1 - rem) * base == (k - rem) * base + base;
    }
  }

  lemma BlockLast(total: nat, p: nat)
    requires p > 0
    ensures BlockStart(total, p, p) == total
  {
    var base, rem := total / p, total % p;
    assert total == p * base + rem;
    assert rem * (base + 1) + (p - rem) * base == p * base + rem;
  }

  /** Row counts of all `p` workers. */
  function BlockRowsSeq(total: nat, p: nat): (s: seq<int>)
    requires p > 0
    ensures |s| == p
  {
    seq(p, k requires 0 <= k < p => BlockRows(total, p, k))
  }

  /** A worker's first row is the number of rows owned by all lower ranks. */
  lemma {:induction false} BlockStartIsPrefixSum(total: nat, p: nat, k: nat)
    requires p > 0 && k <= p
    ensures BlockStart(total, p, k) == Sum(BlockRowsSeq(total, p)[..k])
    decreases k
  {
    var s := BlockRowsSeq(total, p);
    if k > 0 {
      BlockStartIsPrefixSum(total, p, k - 1);
      assert s[..k][..k - 1] == s[..k - 1];
      BlockStep(total, p, k - 1);
    }
  }

  /** The row counts of all workers add up to the number of rows. */
  lemma BlockRowsSum(total: nat, p: nat)
    requires p > 0
    ensures Sum(BlockRowsSeq(total, p)) == total
  {
    BlockStartIsPrefixSum(total, p, p);
    assert BlockRowsSeq(total, p)[..p] == BlockRowsSeq(total, p);
    BlockLast(total, p);
  }

  function BlockBounds(total: nat, p: nat): (b: seq<int>)
    requires p > 0
    ensures |b| == p + 1
  {
    seq(p + 1, k requires 0 <= k <= p => BlockStart(total, p, k))
  }

  /** The block ranges tile `[0, total)`; range `k` has `BlockRows(k)` rows. */
  lemma BlockTiles(total: nat, p: nat)
    requires p > 0
    ensures Tiles(BlockBounds(total, p), total)
    ensures forall k :: 0 <= k < p ==>
              BlockBounds(total, p)[k + 1] - BlockBounds(total, p)[k] == BlockRows(total, p, k)
  {
    BlockLast(total, p);
    forall k | 0 <= k < p
      ensures BlockStart(total, p, k + 1) == BlockStart(total, p, k) + BlockRows(total, p, k)
    {
      BlockStep(total, p, k);
    }
  }

  /** With no more workers than rows every worker owns at least one row. */
  lemma BlockRowsPositive(total: nat, p: nat, k: nat)
    requires 0 < p <= total
    ensures BlockRows(total, p, k) >= 1
  {
    assert total / p >= 1;
  }

  /** Offsets computed by accumulating counts in rank order: entry `k` is the
      sum of the counts of ranks below `k`. */
  function Displacements(counts: seq<int>): (d: seq<int>)
    ensures |d| == |counts|
  {
    seq(|counts|, k requires 0 <= k < |counts| => Sum(counts[..k]))
  }

  /** The accumulation recurrence: the first offset is 0 and each next one
      adds the previous count. */
  lemma DisplacementsStep(counts: seq<int>, k: nat)
    requires k + 1 < |counts|
    ensures Displacements(counts)[0] == 0
    ensures Displacements(counts)[k + 1] == Displacements(counts)[k] + counts[k]
  {
    assert counts[..k + 1][..k] == counts[..k];
  }

  /** Counts `BlockRows(k) * cols` accumulate to offsets `BlockStart(k) * cols`. */
  lemma {:induction false} BlockDisplacements(total: nat, p: nat, cols: nat, k: nat)
    requires p > 0 && k < p
    ensures Displacements(seq(p, j requires 0 <= j < p => BlockRows(total, p, j) * cols))[k]
            == BlockStart(total, p, k) * cols
    decreases k
  {
    var counts := seq(p, j requires 0 <= j < p => BlockRows(total, p, j) * cols);
    if k > 0 {
      BlockDisplacements(total, p, cols, k - 1);
      DisplacementsStep(counts, k - 1);
      BlockStep(total, p, k - 1);
      assert (BlockStart(total, p, k - 1) + BlockRows(total, p, k - 1)) * cols
          == BlockStart(total, p, k - 1) * cols + BlockRows(total, p, k - 1) * cols;
    }
  }

  // ---------------------------------------------------------------------------
  // Proportional split `[total*t/n, total*(t+1)/n)` (component_label_pthr.cpp).

  lemma DivMono(a: int, b: int, n: int)
    requires 0 <= a <= b && n > 0
    ensures a / n <= b / n
  {
    if a / n > b / n {
      MulMono(b / n + 1, a / n, n);
      assert false;
    }
  }

  function EvenBounds(total: nat, n: nat): (b: seq<int>)
    requires n > 0
    ensures |b| == n + 1
    ensures b[0] == 0 && b[n] == total
  {
    MulDivCancel(total, n);
    seq(n + 1, t requires 0 <= t <= n => total * t / n)
  }

  lemma MulDivCancel(a: nat, n: nat)
    requires n > 0
    ensures a * n / n == a
  {
    var q, r := a * n / n, a * n % n;
    assert a * n == n * q + r && 0 <= r < n;
    if q < a {
      MulMono(q + 1, a, n);
      assert false;
    } else if q > a {
      MulMono(a + 1, q, n);
      assert false;
    }
  }

  lemma EvenStep(total: nat, n: nat, t: nat)
    requires n > 0
    ensures total * t / n <= total * (t + 1) / n
  {
    var x, y := total * t, total * (t + 1);
    assert x <= y by {
      MulMono(t, t + 1, total);
    }
    DivMono(x, y, n);
  }

  /** The proportional ranges tile `[0, total)`; when there are fewer rows
      than threads the first range is empty. */
  lemma EvenTiles(total: nat, n: nat)
    requires n > 0
    ensures Tiles(EvenBounds(total, n), total)
    ensures total < n ==> EvenBounds(total, n)[1] == 0
  {
    var b := EvenBounds(total, n);
    forall t | 0 <= t < n
      ensures b[t] <= b[t + 1]
    {
      EvenStep(total, n, t);
    }
  }

  // ---------------------------------------------------------------------------
  // Equal chunks with the remainder on the last thread (pthreads_mult.cpp).

  /** First row of thread `t`. */
  function ChunkStart(total: nat, n: nat, t: nat): (s: nat)
    requires n > 0
    ensures t <= n ==> s + (n - t) * (total / n) <= total
  {
    assert t * (total / n) + (n - t) * (total / n) == n * (total / n);
    t * (total / n)
  }

  /** End of thread `t`'s rows: the last thread runs to the end. */
  function ChunkEnd(total: nat, n: nat, t: nat): (e: nat)
    requires n > 0
    ensures t < n ==> ChunkStart(total, n, t) <= e <= total
  {
    assert t < n ==> total / n <= (n - t) * (total / n) by {
      if t < n {
        MulMono(1, n - t, total / n);
      }
    }
    if t == n - 1 then total else ChunkStart(total, n, t) + total / n
  }

  function ChunkBounds(total: nat, n: nat): (b: seq<int>)
    requires n > 0
    ensures |b| == n + 1
  {
    seq(n + 1, t requires 0 <= t <= n => if t == n then total else ChunkStart(total, n, t))
  }

  lemma ChunkStep(total: nat, n: nat, t: nat)
    requires n > 0 && t < n
    ensures ChunkStart(total, n, t) <= ChunkEnd(total, n, t) <= total
    ensures t < n - 1 ==> ChunkEnd(total, n, t) == ChunkStart(total, n, t + 1)
  {
    var q := total / n;
    assert (t + 1) * q == t * q + q;
    MulMono(t + 1, n, q);
    assert n * q <= total;
  }

  /** The chunk ranges tile `[0, total)`, range `t` being `[ChunkStart, ChunkEnd)`. */
  lemma ChunkTiles(total: nat, n: nat)
    requires n > 0
    ensures Tiles(ChunkBounds(total, n), total)
    ensures forall t :: 0 <= t < n ==>
              ChunkBounds(total, n)[t] == ChunkStart(total, n, t) &&
              ChunkBounds(total, n)[t + 1] == ChunkEnd(total, n, t)
  {
    var b := ChunkBounds(total, n);
    assert b[0] == 0 && b[n] == total;
    forall t | 0 <= t < n
      ensures b[t] == ChunkStart(total, n, t)
      ensures b[t] <= b[t + 1] && b[t + 1] == ChunkEnd(total, n, t)
    {
      ChunkStep(total, n, t);
    }
  }

  /** With fewer rows than threads every thread but the last gets nothing and
      the last takes all rows. */
  lemma ChunkFewRows(total: nat, n: nat, t: nat)
    requires 0 < n && total < n && t < n
    ensures t < n - 1 ==> ChunkStart(total, n, t) == ChunkEnd(total, n, t) == 0
    ensures t == n - 1 ==> ChunkStart(total, n, t) == 0 && ChunkEnd(total, n, t) == total
  {
    assert total / n == 0;
  }

  // ---------------------------------------------------------------------------
  // Writes confined to the ranges.

  /** `buf` after a worker writes its range `[lo, hi)` with its own values. */
  function WriteRange<T>(buf: seq<T>, lo: int, hi: int, vals: seq<T>): (r: seq<T>)
    requires 0 <= lo <= hi <= |buf| == |vals|
    ensures |r| == |buf|
    ensures forall i :: 0 <= i < |r| ==> r[i] == if lo <= i < hi then vals[i] else buf[i]
  {
    buf[..lo] + vals[lo..hi] + buf[hi..]
  }

  /** `buf` after workers `0 .. t-1` have each written their own range. */
  function WriteTiles<T>(buf: seq<T>, b: seq<int>, vals: seq<T>, t: nat): (r: seq<T>)
    requires Tiles(b, |buf|) && |vals| == |buf| && t < |b|
    ensures |r| == |buf|
  {
    if t == 0 then buf
    else
      TilesSorted(b, |buf|, t - 1, t);
      TilesSorted(b, |buf|, t, |b| - 1);
      WriteRange(WriteTiles(buf, b, vals, t - 1), b[t - 1], b[t], vals)
  }

  lemma {:induction false} WriteTilesPrefix<T>(buf: seq<T>, b: seq<int>, vals: seq<T>, t: nat)
    requires Tiles(b, |buf|) && |vals| == |buf| && t < |b|
    ensures forall i :: 0 <= i < |buf| ==>
              WriteTiles(buf, b, vals, t)[i] == if i < b[t] then vals[i] else buf[i]
    decreases t
  {
    if t > 0 {
      WriteTilesPrefix(buf, b, vals, t - 1);
    }
  }

  /** Once every worker has written its range, the buffer holds exactly the
      values, whatever it held before. */
  lemma {:induction false} WriteTilesAll<T>(buf: seq<T>, b: seq<int>, vals: seq<T>)
    requires Tiles(b, |buf|) && |vals| == |buf|
    ensures WriteTiles(buf, b, vals, |b| - 1) == vals
  {
    var r := WriteTiles(buf, b, vals, |b| - 1);
    WriteTilesPrefix(buf, b, vals, |b| - 1);
    assert |r| == |vals|;
    forall i | 0 <= i < |r|
      ensures r[i] == vals[i]
    {
      assert i < b[|b| - 1];
    }
  }

  /** A schedule of a parallel loop over rows: every iteration is a row index and every
      row is run at least once. */
  predicate Covers(order: seq<int>, rows: int)
  {
    && (forall k :: 0 <= k < |order| ==> 0 <= order[k] < rows)
    && (forall i :: 0 <= i < rows ==> i in order)
  }

  /** `buf` after loop iterations run in `order`, iteration `i` writing only
      slot `i` with its value `vals[i]`. */
  function ApplyInOrder<T>(buf: seq<T>, order: seq<int>, vals: seq<T>): (r: seq<T>)
    requires |vals| == |buf|
    requires forall k :: 0 <= k < |order| ==> 0 <= order[k] < |buf|
    ensures |r| == |buf|
    decreases |order|
  {
    if |order| == 0 then buf
    else ApplyInOrder(buf[order[0] := vals[order[0]]], order[1..], vals)
  }

  lemma {:induction false} ApplyInOrderSlots<T>(buf: seq<T>, order: seq<int>, vals: seq<T>)
    requires |vals| == |buf|
    requires forall k :: 0 <= k < |order| ==> 0 <= order[k] < |buf|
    ensures forall i :: 0 <= i < |buf| ==>
              ApplyInOrder(buf, order, vals)[i] == if i in order then vals[i] else buf[i]
    decreases |order|
  {
    if |order| > 0 {
      var buf' := buf[order[0] := vals[order[0]]];
      ApplyInOrderSlots(buf', order[1..], vals);
      forall i | 0 <= i < |buf|
        ensures ApplyInOrder(buf, order, vals)[i] == if i in order then vals[i] else buf[i]
      {
        assert i in order <==> i == order[0] || i in order[1..];
      }
    }
  }

  /** Iterations that together visit every slot leave exactly the values in
      the buffer, in whatever order they ran. */
  lemma ApplyInOrderAll<T>(buf: seq<T>, order: seq<int>, vals: seq<T>)
    requires |vals| == |buf|
    requires forall k :: 0 <= k < |order| ==> 0 <= order[k] < |buf|
    requires forall i :: 0 <= i < |buf| ==> i in order
    ensures ApplyInOrder(buf, order, vals) == vals
  {
    ApplyInOrderSlots(buf, order, vals);
  }

  // ---------------------------------------------------------------------------
  // Scatter and gather by ranges, and the OR reduction.

  /** The pieces of `s` owned by each worker. */
  function Slices<T>(s: seq<T>, b: seq<int>): (parts: seq<seq<T>>)
    requires Tiles(b, |s|)
    ensures |parts| == |b| - 1
  {
    seq(|b| - 1, k requires 0 <= k < |b| - 1 =>
      TilesSorted(b, |s|, k, k + 1);
      s[b[k]..b[k + 1]])
  }

  lemma {:induction false} ConcatSlicesPrefix<T>(s: seq<T>, b: seq<int>, k: nat)
    requires Tiles(b, |s|) && k < |b|
    ensures 0 <= b[k] <= |s|
    ensures Concat(Slices(s, b)[..k]) == s[..b[k]]
    decreases k
  {
    TilesSorted(b, |s|, k, |b| - 1);
    if k > 0 {
      var parts := Slices(s, b);
      ConcatSlicesPrefix(s, b, k - 1);
      assert parts[..k][..k - 1] == parts[..k - 1];
      TilesSorted(b, |s|, k - 1, k);
      assert s[..b[k - 1]] + s[b[k - 1]..b[k]] == s[..b[k]];
    }
  }

  /** Position `r` of piece `k` is position `b[k] + r` of the whole. */
  lemma SlicesAt<T>(s: seq<T>, b: seq<int>, k: int, r: int)
    requires Tiles(b, |s|) && 0 <= k < |b| - 1 && 0 <= r < b[k + 1] - b[k]
    ensures |Slices(s, b)[k]| == b[k + 1] - b[k]
    ensures 0 <= b[k] + r < |s| && Slices(s, b)[k][r] == s[b[k] + r]
  {
    TilesSorted(b, |s|, k, k + 1);
  }

  /** Gathering every worker's piece in rank order rebuilds the sequence. */
  lemma ConcatSlices<T>(s: seq<T>, b: seq<int>)
    requires Tiles(b, |s|)
    ensures Concat(Slices(s, b)) == s
  {
    ConcatSlicesPrefix(s, b, |b| - 1);
    assert Slices(s, b)[..|b| - 1] == Slices(s, b);
  }

  /** Gathering blocks of `b[k+1] - b[k]` rows of width `cols`, in rank
      order, gives `b[n]` rows of that width after `n` blocks. */
  lemma {:induction false} ConcatPrefixShape(parts: seq<Matrix>, b: seq<int>, cols: int, n: nat)
    requires |parts| == |b| - 1 && n <= |parts| && b[0] == 0
    requires forall k :: 0 <= k < |parts| ==> IsMatrix(parts[k], b[k + 1] - b[k], cols)
    ensures IsMatrix(Concat(parts[..n]), b[n], cols)
    decreases n
  {
    if n > 0 {
      ConcatPrefixShape(parts, b, cols, n - 1);
      assert parts[..n][..n - 1] == parts[..n - 1];
      assert Concat(parts[..n]) == Concat(parts[..n - 1]) + parts[n - 1];
    }
  }

  /** Logical-OR reduction of a sequence of flags. */
  function OrReduce(flags: seq<bool>): bool
  {
    if |flags| == 0 then false else OrReduce(flags[..|flags| - 1]) || flags[|flags| - 1]
  }

  lemma {:induction false} OrReduceIff(flags: seq<bool>)
    ensures OrReduce(flags) <==> exists k :: 0 <= k < |flags| && flags[k]
    decreases |flags|
  {
    if |flags| > 0 {
      var init := flags[..|flags| - 1];
      OrReduceIff(init);
      if OrReduce(init) {
        var k :| 0 <= k < |init| && init[k];
        assert flags[k];
      }
      if k :| 0 <= k < |flags| && flags[k] {
        if k < |flags| - 1 {
          assert init[k];
        }
      }
    }
  }

  /** Each worker's OR over its own range. */
  function RangeFlags(flags: seq<bool>, b: seq<int>): (per: seq<bool>)
    requires Tiles(b, |flags|)
    ensures |per| == |b| - 1
  {
    seq(|b| - 1, t requires 0 <= t < |b| - 1 =>
      TilesSorted(b, |flags|, t, t + 1);
      OrReduce(flags[b[t]..b[t + 1]]))
  }

  lemma RangeFlagsSound(flags: seq<bool>, b: seq<int>, t: int)
    requires Tiles(b, |flags|) && 0 <= t < |b| - 1 && RangeFlags(flags, b)[t]
    ensures exists i :: 0 <= i < |flags| && flags[i]
  {
    TilesSorted(b, |flags|, t, t + 1);
    var piece := flags[b[t]..b[t + 1]];
    OrReduceIff(piece);
    var k :| 0 <= k < |piece| && piece[k];
    assert flags[b[t] + k];
  }

  lemma RangeFlagsComplete(flags: seq<bool>, b: seq<int>, i: int)
    requires Tiles(b, |flags|) && 0 <= i < |flags| && flags[i]
    ensures exists t :: 0 <= t < |b| - 1 && RangeFlags(flags, b)[t]
  {
    TilesCoverOnce(b, |flags|, i);
    var t :| InRange(b, t, i);
    TilesSorted(b, |flags|, t, t + 1);
    var piece := flags[b[t]..b[t + 1]];
    OrReduceIff(piece);
    assert piece[i - b[t]];
    assert RangeFlags(flags, b)[t];
  }

  /** OR-reducing the per-worker ORs of their own ranges gives the OR over
      every position. */
  lemma OrReduceTiles(flags: seq<bool>, b: seq<int>)
    requires Tiles(b, |flags|)
    ensures OrReduce(RangeFlags(flags, b)) == OrReduce(flags)
  {
    var per := RangeFlags(flags, b);
    OrReduceIff(flags);
    OrReduceIff(per);
    if OrReduce(per) {
      var t :| 0 <= t < |per| && per[t];
      RangeFlagsSound(flags, b, t);
    }
    if OrReduce(flags) {
      var i :| 0 <= i < |flags| && flags[i];
      RangeFlagsComplete(flags, b, i);
    }
  }
}
