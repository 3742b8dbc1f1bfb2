/**
 * The class blocks of m_scatter (src/lda.c).
 *
 * The training images are the columns of the projected data, and
 * `entries[k].class` is the class of column k.  m_scatter cuts the columns
 * into c contiguous blocks: block i starts where block i - 1 ended and runs
 * up to the first column whose class differs from the class of its first
 * column.  Nothing checks that the images of one class are adjacent or
 * that there are c of them; this module says exactly when the c blocks are
 * the c classes.
 */
module Partition {

  /** database_entry_t: only the class takes part in the model; the name is carried along. */
  datatype Entry = Entry(classId: int, name: string)

  /** The classes of the first n entries. */
  function Classes(entries: seq<Entry>, n: nat): (cls: seq<int>)
    requires n <= |entries|
    ensures |cls| == n && forall k | 0 <= k < n :: cls[k] == entries[k].classId
  {
    seq(n, k requires 0 <= k < n => entries[k].classId)
  }

  /** All of cls[j..k] carry the class of cls[j]. */
  predicate Uniform(cls: seq<int>, j: nat, k: nat)
    requires j <= k <= |cls|
  {
    forall t | j <= t < k :: cls[t] == cls[j]
  }

  /** The scan `for (k = j; k < cols; k++) if (class[k] != class[j]) break;`, resumed at k. */
  function Scan(cls: seq<int>, j: nat, k: nat): nat
    requires j <= k <= |cls|
    decreases |cls| - k
  {
    if k == |cls| || cls[k] != cls[j] then k else Scan(cls, j, k + 1)
  }

  /**
   * The end of the block starting at column j: the first column at or after
   * j whose class differs from that of column j, or the number of columns.
   */
  function RunEnd(cls: seq<int>, j: nat): (k: nat)
    requires j <= |cls|
    ensures j <= k <= |cls|
    ensures j < |cls| ==> j < k
    ensures Uniform(cls, j, k)
    ensures k < |cls| ==> cls[k] != cls[j]
  {
    ScanFinds(cls, j, j);
    Scan(cls, j, j)
  }

  lemma {:induction false} ScanFinds(cls: seq<int>, j: nat, k: nat)
    requires j <= k <= |cls| && Uniform(cls, j, k)
    ensures k <= Scan(cls, j, k) <= |cls|
    ensures Uniform(cls, j, Scan(cls, j, k))
    ensures Scan(cls, j, k) < |cls| ==> cls[Scan(cls, j, k)] != cls[j]
    decreases |cls| - k
  {
    if k == |cls| || cls[k] != cls[j] {
    } else {
      ScanFinds(cls, j, k + 1);
    }
  }

  /** The block end is the only end a uniform stretch followed by a class change can have. */
  lemma RunEndUnique(cls: seq<int>, j: nat, k: nat)
    requires j <= k <= |cls| && Uniform(cls, j, k)
    requires k == |cls| || cls[k] != cls[j]
    ensures k == RunEnd(cls, j)
  {
  }

  /** Where block i starts; block i is [BlockStart(cls, i), BlockStart(cls, i + 1)). */
  function BlockStart(cls: seq<int>, i: nat): (j: nat)
    ensures j <= |cls|
  {
    if i == 0 then 0 else RunEnd(cls, BlockStart(cls, i - 1))
  }

  /** The number of columns in block i (X_class->cols). */
  function Width(cls: seq<int>, i: nat): nat
  {
    assert BlockStart(cls, i) <= BlockStart(cls, i + 1);
    BlockStart(cls, i + 1) - BlockStart(cls, i)
  }

  // ---------------------------------------------------------------------
  // Counting maximal runs

  /** The number of class changes cls[t - 1] != cls[t] with lo < t < hi. */
  function Changes(cls: seq<int>, lo: nat, hi: nat): nat
    requires lo <= hi <= |cls|
    decreases hi
  {
    if hi <= lo + 1 then 0
    else Changes(cls, lo, hi - 1) + (if cls[hi - 1] != cls[hi - 2] then 1 else 0)
  }

  /** The number of maximal equal-class runs in cls[j..]. */
  function RunsFrom(cls: seq<int>, j: nat): nat
    requires j <= |cls|
  {
    if j == |cls| then 0 else 1 + Changes(cls, j, |cls|)
  }

  /** The number of maximal equal-class runs: the number of classes when each class is contiguous. */
  function Runs(cls: seq<int>): nat
  {
    RunsFrom(cls, 0)
  }

  lemma {:induction false} ChangesSplit(cls: seq<int>, lo: nat, mid: nat, hi: nat)
    requires lo <= mid <= hi <= |cls|
    ensures Changes(cls, lo, hi) ==
      Changes(cls, lo, mid) + (if lo < mid < hi && cls[mid] != cls[mid - 1] then 1 else 0) + Changes(cls, mid, hi)
    decreases hi
  {
    if hi <= mid + 1 {
      if hi == mid + 1 && lo < mid {
        assert Changes(cls, lo, hi) == Changes(cls, lo, mid) + (if cls[mid] != cls[mid - 1] then 1 else 0);
      }
    } else {
      ChangesSplit(cls, lo, mid, hi - 1);
    }
  }

  lemma {:induction false} ChangesUniform(cls: seq<int>, j: nat, k: nat)
    requires j <= k <= |cls| && Uniform(cls, j, k)
    ensures Changes(cls, j, k) == 0
    decreases k
  {
    if k > j + 1 {
      ChangesUniform(cls, j, k - 1);
      assert cls[k - 1] == cls[j] && cls[k - 2] == cls[j];
    }
  }

  /** Moving from a block start to its end passes exactly one run. */
  lemma RunsFromStep(cls: seq<int>, j: nat)
    requires j < |cls|
    ensures RunsFrom(cls, RunEnd(cls, j)) + 1 == RunsFrom(cls, j)
  {
    var e := RunEnd(cls, j);
    ChangesUniform(cls, j, e);
    ChangesSplit(cls, j, e, |cls|);
    if e < |cls| {
      assert cls[e - 1] == cls[j];
    }
  }

  /** After i blocks, max(0, Runs(cls) - i) runs remain. */
  lemma {:induction false} RunsRemaining(cls: seq<int>, i: nat)
    ensures RunsFrom(cls, BlockStart(cls, i)) == if i <= Runs(cls) then Runs(cls) - i else 0
  {
    if i > 0 {
      RunsRemaining(cls, i - 1);
      var b := BlockStart(cls, i - 1);
      if b < |cls| {
        RunsFromStep(cls, b);
      }
    }
  }

  // ---------------------------------------------------------------------
  // Properties of the blocks

  /** Blocks are laid out left to right. */
  lemma {:induction false} BlockStartMonotone(cls: seq<int>, i: nat, i': nat)
    requires i <= i'
    ensures BlockStart(cls, i) <= BlockStart(cls, i')
    decreases i'
  {
    if i < i' {
      BlockStartMonotone(cls, i, i' - 1);
    }
  }

  /** Every column of block i has the class of the block's first column. */
  lemma BlockUniform(cls: seq<int>, i: nat, t: nat)
    requires BlockStart(cls, i) <= t < BlockStart(cls, i + 1)
    ensures cls[t] == cls[BlockStart(cls, i)]
  {
  }

  /** A block that does not reach the last column is followed by a column of another class. */
  lemma BlockMaximal(cls: seq<int>, i: nat)
    requires BlockStart(cls, i + 1) < |cls|
    ensures cls[BlockStart(cls, i + 1)] != cls[BlockStart(cls, i)]
  {
  }

  /** No column lies in two blocks. */
  lemma BlocksDisjoint(cls: seq<int>, i: nat, i': nat, t: nat)
    requires BlockStart(cls, i) <= t < BlockStart(cls, i + 1)
    requires BlockStart(cls, i') <= t < BlockStart(cls, i' + 1)
    ensures i == i'
  {
    if i < i' {
      BlockStartMonotone(cls, i + 1, i');
    } else if i' < i {
      BlockStartMonotone(cls, i' + 1, i);
    }
  }

  /** Block i holds at least one column exactly when there are more than i runs. */
  lemma BlockNonEmpty(cls: seq<int>, i: nat)
    ensures BlockStart(cls, i) < BlockStart(cls, i + 1) <==> i < Runs(cls)
  {
    RunsRemaining(cls, i);
  }

  /** The first c blocks reach the last column exactly when there are at most c runs. */
  lemma BlocksReachEnd(cls: seq<int>, c: nat)
    ensures BlockStart(cls, c) == |cls| <==> Runs(cls) <= c
  {
    RunsRemaining(cls, c);
  }

  /**
   * The c blocks are non-empty and together cover every column exactly when
   * the classes form exactly c maximal runs.
   */
  lemma {:induction false} CoverageExactly(cls: seq<int>, c: nat)
    ensures (BlockStart(cls, c) == |cls| && forall i | 0 <= i < c :: Width(cls, i) > 0) <==> Runs(cls) == c
  {
    BlocksReachEnd(cls, c);
    if Runs(cls) == c {
      forall i | 0 <= i < c
        ensures Width(cls, i) > 0
      {
        BlockNonEmpty(cls, i);
      }
    } else if Runs(cls) < c {
      BlockNonEmpty(cls, Runs(cls));
      assert Width(cls, Runs(cls)) == 0;
    }
  }
}
