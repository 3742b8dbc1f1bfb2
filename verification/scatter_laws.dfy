/**
 * Properties of the scatter matrices of m_scatter (src/lda.c): both stay
 * symmetric, S_w vanishes when every class consists of identical images,
 * the uninitialised grand-mean buffer shifts the grand mean, and, when the
 * blocks are exactly the classes, S_w + S_b is the total scatter about u.
 */
module ScatterLaws {
  import opened MatrixSpec
  import opened Partition
  import opened ScatterSpec

  predicate Symmetric(m: Mat)
  {
    m.Wf() && m.rows == m.cols &&
    forall a, b | 0 <= a < m.rows && 0 <= b < m.rows :: m.cells[a][b] == m.cells[b][a]
  }

  // ---------------------------------------------------------------------
  // The blocks and their means

  /** Row a of b is row[j .. k]. */
  predicate Stretch(b: Mat, row: seq<real>, j: nat, k: nat, a: nat)
  {
    j <= k <= |row| && a < |b.cells| && b.cells[a] == row[j..k]
  }

  /**
   * Matrices whose rows a are the consecutive stretches row[starts[t] ..
   * starts[t + 1]] join up to the prefix of row before the last start.
   */
  lemma {:induction false} JoinStretches(bs: seq<Mat>, row: seq<real>, starts: seq<nat>, a: nat)
    requires |starts| == |bs| + 1 && starts[0] == 0
    requires forall t | 0 <= t < |bs| :: Stretch(bs[t], row, starts[t], starts[t + 1], a)
    ensures starts[|bs|] <= |row| && JoinedRow(bs, a) == row[..starts[|bs|]]
  {
    var n := |bs|;
    if n > 0 {
      var front, fronts := bs[..n - 1], starts[..n];
      JoinStretches(front, row, fronts, a);
      assert Stretch(bs[n - 1], row, starts[n - 1], starts[n], a);
      JoinSnoc(bs, front, row, starts[n - 1], starts[n], a);
    }
  }

  lemma JoinSnoc(bs: seq<Mat>, front: seq<Mat>, row: seq<real>, j: nat, k: nat, a: nat)
    requires |bs| > 0 && front == bs[..|bs| - 1] && Stretch(bs[|bs| - 1], row, j, k, a)
    requires JoinedRow(front, a) == row[..j]
    ensures JoinedRow(bs, a) == row[..k]
  {
    assert row[..k] == row[..j] + row[j..k];
  }

  /** Row a of block i is the stretch of row a of x the block covers. */
  lemma BlockRow(x: Mat, cls: seq<int>, i: nat, a: nat)
    requires x.Wf() && |cls| == x.cols && a < x.rows
    ensures Stretch(Block(x, cls, i), x.cells[a], BlockStart(cls, i), BlockStart(cls, i + 1), a)
  {
    BlockStartMonotone(cls, i, i + 1);
  }

  /** Row a of the first c blocks, side by side, is row a of x up to the start of block c. */
  lemma BlocksJoinRow(x: Mat, cls: seq<int>, c: nat, a: nat)
    requires x.Wf() && |cls| == x.cols && a < x.rows
    ensures JoinedRow(Blocks(x, cls, c), a) == x.cells[a][..BlockStart(cls, c)]
  {
    var bs := Blocks(x, cls, c);
    var starts := seq(c + 1, t requires 0 <= t <= c => BlockStart(cls, t));
    assert forall s | 0 <= s <= c :: starts[s] == BlockStart(cls, s);
    forall t | 0 <= t < c
      ensures Stretch(bs[t], x.cells[a], starts[t], starts[t + 1], a)
    {
      BlockStretch(x, cls, bs, starts, t, a);
    }
    JoinStretches(bs, x.cells[a], starts, a);
  }

  lemma BlockStretch(x: Mat, cls: seq<int>, bs: seq<Mat>, starts: seq<nat>, t: nat, a: nat)
    requires x.Wf() && |cls| == x.cols && a < x.rows && t < |bs| && |starts| == |bs| + 1
    requires bs == Blocks(x, cls, |bs|) && forall s | 0 <= s <= |bs| :: starts[s] == BlockStart(cls, s)
    ensures Stretch(bs[t], x.cells[a], starts[t], starts[t + 1], a)
  {
    var t' := t + 1;
    assert bs[t] == Block(x, cls, t) && starts[t] == BlockStart(cls, t) && starts[t'] == BlockStart(cls, t');
    BlockRow(x, cls, t, a);
  }

  /**
   * X_classes, put back side by side, is x again once the c blocks reach
   * the last column, which is when there are at most c runs; every column
   * of block i has the class of the block's first column.
   */
  lemma BlocksReassemble(x: Mat, cls: seq<int>, c: nat)
    requires x.Wf() && |cls| == x.cols && Runs(cls) <= c
    ensures forall a | 0 <= a < x.rows :: JoinedRow(Blocks(x, cls, c), a) == x.cells[a]
    ensures forall i, t | 0 <= i < c && BlockStart(cls, i) <= t < BlockStart(cls, i + 1) :: cls[t] == cls[BlockStart(cls, i)]
  {
    BlocksReachEnd(cls, c);
    forall a | 0 <= a < x.rows
      ensures JoinedRow(Blocks(x, cls, c), a) == x.cells[a]
    {
      BlocksJoinRow(x, cls, c, a);
    }
    forall i, t | 0 <= i < c && BlockStart(cls, i) <= t < BlockStart(cls, i + 1)
      ensures cls[t] == cls[BlockStart(cls, i)]
    {
      BlockUniform(cls, i, t);
    }
  }

  /**
   * Entry a of U[i] is the average of entry a over the columns of block i,
   * read straight from x; block i is never empty here.
   */
  lemma ClassMeanEntry(x: Mat, cls: seq<int>, c: nat, i: nat, a: nat)
    requires x.Wf() && |cls| == x.cols && i < c <= Runs(cls) && a < x.rows
    ensures BlockStart(cls, i) < BlockStart(cls, i + 1) <= x.cols
    ensures ClassMeans(x, cls, c)[i].cells[a][0]
      == Sum(x.cells[a][BlockStart(cls, i) .. BlockStart(cls, i + 1)]) / Width(cls, i) as real
  {
    BlockNonEmpty(cls, i);
    BlockRow(x, cls, i, a);
    assert ClassMeans(x, cls, c)[i] == ClassMean(x, cls, i);
  }

  // ---------------------------------------------------------------------
  // Sums over vectors

  /** Every entry of s minus r. */
  function Shift(s: seq<real>, r: real): (t: seq<real>)
    ensures |t| == |s| && forall k | 0 <= k < |s| :: t[k] == s[k] - r
  {
    seq(|s|, k requires 0 <= k < |s| => s[k] - r)
  }

  lemma {:induction false} DotSymmetric(v: seq<real>, w: seq<real>)
    requires |v| == |w|
    ensures Dot(v, w) == Dot(w, v)
  {
    if |v| > 0 {
      DotSymmetric(v[..|v| - 1], w[..|w| - 1]);
    }
  }

  lemma {:induction false} DotAppend(v1: seq<real>, v2: seq<real>, w1: seq<real>, w2: seq<real>)
    requires |v1| == |w1| && |v2| == |w2|
    ensures Dot(v1 + v2, w1 + w2) == Dot(v1, w1) + Dot(v2, w2)
    decreases |v2|
  {
    if |v2| == 0 {
      assert v1 + v2 == v1 && w1 + w2 == w1;
    } else {
      var v, w := v1 + v2, w1 + w2;
      assert v[..|v| - 1] == v1 + v2[..|v2| - 1];
      assert w[..|w| - 1] == w1 + w2[..|w2| - 1];
      DotAppend(v1, v2[..|v2| - 1], w1, w2[..|w2| - 1]);
    }
  }

  lemma {:induction false} SumConstant(s: seq<real>, v: real)
    requires forall k | 0 <= k < |s| :: s[k] == v
    ensures Sum(s) == |s| as real * v
  {
    if |s| > 0 {
      SumConstant(s[..|s| - 1], v);
    }
  }

  lemma {:induction false} DotZero(v: seq<real>, w: seq<real>)
    requires |v| == |w| && forall k | 0 <= k < |v| :: v[k] == 0.0
    ensures Dot(v, w) == 0.0
  {
    if |v| > 0 {
      DotZero(v[..|v| - 1], w[..|w| - 1]);
    }
  }

  /** a is b with c added to every entry. */
  predicate Offset(a: seq<real>, b: seq<real>, c: real)
  {
    |a| == |b| && forall k | 0 <= k < |a| :: a[k] == b[k] + c
  }

  lemma OffsetFront(a: seq<real>, b: seq<real>, c: real)
    requires Offset(a, b, c) && |a| > 0
    ensures Offset(a[..|a| - 1], b[..|b| - 1], c)
  {
  }

  // The arithmetic steps below are done on plain reals: the solver does not
  // multiply an equation between sums by a factor by itself.

  lemma MulSplit(a: real, b: real, c: real, w: real)
    requires a == b + c
    ensures a * w == b * w + c * w
  {
  }

  lemma CountStep(n: real, n': real, c: real)
    requires n == n' + 1.0
    ensures n * c == n' * c + c
  {
  }

  /** Adding c to every entry of one factor adds c times the sum of the other. */
  lemma {:induction false} DotOffset(a: seq<real>, b: seq<real>, c: real, w: seq<real>)
    requires Offset(a, b, c) && |w| == |a|
    ensures Dot(a, w) == Dot(b, w) + c * Sum(w)
  {
    if |a| > 0 {
      OffsetFront(a, b, c);
      DotOffset(a[..|a| - 1], b[..|b| - 1], c, w[..|w| - 1]);
      MulSplit(a[|a| - 1], b[|b| - 1], c, w[|w| - 1]);
      MulSplit(Sum(w), Sum(w[..|w| - 1]), w[|w| - 1], c);
    }
  }

  /** Adding c to each of the n entries adds n c to the sum. */
  lemma {:induction false} SumOffset(a: seq<real>, b: seq<real>, c: real, n: real)
    requires Offset(a, b, c) && n == |a| as real
    ensures Sum(a) == Sum(b) + n * c
  {
    if |a| > 0 {
      var n' := (|a| - 1) as real;
      OffsetFront(a, b, c);
      SumOffset(a[..|a| - 1], b[..|b| - 1], c, n');
      CountStep(n, n', c);
    }
  }

  lemma MeanTimesCount(sx: real, n: real, p: real)
    requires n != 0.0 && p == sx / n
    ensures sx == n * p
  {
  }

  /** Centring on the mean leaves entries that sum to zero. */
  lemma CentredSum(x: seq<real>, p: real, n: real)
    requires n == |x| as real && Sum(x) == n * p
    ensures Sum(Shift(x, p)) == 0.0
  {
    assert Offset(x, Shift(x, p), p);
    SumOffset(x, Shift(x, p), p, n);
  }

  lemma ShiftedSum(y: seq<real>, s: real, n: real)
    requires n == |y| as real
    ensures Sum(Shift(y, s)) == Sum(y) - n * s
  {
    assert Offset(y, Shift(y, s), s);
    SumOffset(y, Shift(y, s), s, n);
  }

  /** Moving the centre of the left factor from p to r adds (p - r) times the sum sw of the right one. */
  lemma ShiftedDot(x: seq<real>, w: seq<real>, r: real, p: real, sw: real)
    requires |x| == |w| && sw == Sum(w)
    ensures Dot(Shift(x, r), w) == Dot(Shift(x, p), w) + (p - r) * sw
  {
    assert Offset(Shift(x, r), Shift(x, p), p - r);
    DotOffset(Shift(x, r), Shift(x, p), p - r, w);
  }

  /** (p - r)(q - s) n: the cross term of two means p, q against centres r, s over n columns. */
  function Deviation(p: real, q: real, r: real, s: real, n: real): real
  {
    (p - r) * (q - s) * n
  }

  /** Centred on s, n entries with mean q sum to (q - s) n. */
  lemma ShiftedSumMean(y: seq<real>, q: real, s: real, n: real)
    requires n == |y| as real && Sum(y) == n * q
    ensures Sum(Shift(y, s)) == (q - s) * n
  {
    ShiftedSum(y, s, n);
  }

  /** Against a factor whose entries sum to zero, the centre of the other factor does not matter. */
  lemma ShiftedDotCentred(x: seq<real>, y: seq<real>, p: real, q: real, s: real)
    requires |x| == |y| && Sum(Shift(x, p)) == 0.0
    ensures Dot(Shift(y, s), Shift(x, p)) == Dot(Shift(y, q), Shift(x, p))
  {
    var sp := Sum(Shift(x, p));
    ShiftedDot(y, Shift(x, p), s, q, sp);
  }

  lemma CentredDotRight(x: seq<real>, y: seq<real>, p: real, q: real, s: real, n: real)
    requires |x| == |y| && n == |x| as real && Sum(x) == n * p
    ensures Dot(Shift(x, p), Shift(y, s)) == Dot(Shift(x, p), Shift(y, q))
  {
    CentredSum(x, p, n);
    ShiftedDotCentred(x, y, p, q, s);
    DotSymmetric(Shift(x, p), Shift(y, s));
    DotSymmetric(Shift(x, p), Shift(y, q));
  }

  /** Moving the left centre from p to r when the right factor sums to (q - s) n. */
  lemma ShiftedDotAt(x: seq<real>, w: seq<real>, p: real, q: real, r: real, s: real, n: real)
    requires |x| == |w| && Sum(w) == (q - s) * n
    ensures Dot(Shift(x, r), w) == Dot(Shift(x, p), w) + Deviation(p, q, r, s, n)
  {
    ShiftedDot(x, w, r, p, Sum(w));
  }

  /**
   * For vectors x, y of length n with means p, q and any r, s: the products
   * centred on the means plus n (p - r)(q - s) are the products centred on r, s.
   */
  lemma CentredSplit(x: seq<real>, y: seq<real>, p: real, q: real, r: real, s: real, n: real)
    requires |x| == |y| && n == |x| as real && Sum(x) == n * p && Sum(y) == n * q
    ensures Dot(Shift(x, p), Shift(y, q)) + Deviation(p, q, r, s, n) == Dot(Shift(x, r), Shift(y, s))
  {
    ShiftedSumMean(y, q, s, n);
    ShiftedDotAt(x, Shift(y, s), p, q, r, s, n);
    CentredDotRight(x, y, p, q, s, n);
  }

  // ---------------------------------------------------------------------
  // Entries of the scatter terms

  lemma GramEntry(d: Mat, a: nat, b: nat)
    requires d.Wf() && a < d.rows && b < d.rows
    ensures Gram(d).cells[a][b] == Dot(d.cells[a], d.cells[b])
  {
    assert Col(Transpose(d), b) == d.cells[b];
  }

  lemma CentredRow(m: Mat, u: Mat, a: nat)
    requires m.Wf() && IsColumnFor(u, m) && a < m.rows
    ensures SubtractColumn(m, u).cells[a] == Shift(m.cells[a], u.cells[a][0])
  {
  }

  lemma DotSingle(v: seq<real>, w: seq<real>)
    requires |v| == 1 && |w| == 1
    ensures Dot(v, w) == v[0] * w[0]
  {
    assert v[..0] == [] && w[..0] == [];
  }

  lemma OuterEntry(v: Mat, a: nat, b: nat)
    requires v.Wf() && v.cols == 1 && a < v.rows && b < v.rows
    ensures Outer(v).cells[a][b] == v.cells[a][0] * v.cells[b][0]
  {
    var col := Col(Transpose(v), b);
    assert col[0] == v.cells[b][0];
    DotSingle(v.cells[a], col);
  }

  lemma BetweenTermEntry(mean: Mat, u: Mat, n: nat, a: nat, b: nat)
    requires mean.Wf() && u.Wf() && SameShape(mean, u) && u.cols == 1 && a < u.rows && b < u.rows
    ensures BetweenTermOf(mean, u, n).cells[a][b] ==
      (mean.cells[a][0] - u.cells[a][0]) * (mean.cells[b][0] - u.cells[b][0]) * n as real
  {
    OuterEntry(DotSubtract(mean, u), a, b);
  }

  // ---------------------------------------------------------------------
  // Symmetry

  lemma GramSymmetric(d: Mat)
    requires d.Wf()
    ensures Symmetric(Gram(d))
  {
    forall a, b | 0 <= a < d.rows && 0 <= b < d.rows
      ensures Gram(d).cells[a][b] == Gram(d).cells[b][a]
    {
      GramEntry(d, a, b);
      GramEntry(d, b, a);
      DotSymmetric(d.cells[a], d.cells[b]);
    }
  }

  lemma BetweenTermSymmetric(mean: Mat, u: Mat, n: nat)
    requires mean.Wf() && u.Wf() && SameShape(mean, u) && u.cols == 1
    ensures Symmetric(BetweenTermOf(mean, u, n))
  {
    forall a, b | 0 <= a < u.rows && 0 <= b < u.rows
      ensures BetweenTermOf(mean, u, n).cells[a][b] == BetweenTermOf(mean, u, n).cells[b][a]
    {
      BetweenTermEntry(mean, u, n, a, b);
      BetweenTermEntry(mean, u, n, b, a);
    }
  }

  lemma AddSymmetric(p: Mat, q: Mat)
    requires Symmetric(p) && Symmetric(q) && SameShape(p, q)
    ensures Symmetric(DotAdd(p, q))
  {
  }

  /** Adding the term of class i - 1 keeps S_b symmetric. */
  lemma BetweenScatterSymmetricStep(sb: Mat, x: Mat, cls: seq<int>, u: Mat, i: nat)
    requires x.Wf() && |cls| == x.cols && 0 < i <= Runs(cls)
    requires sb.Wf() && sb.rows == x.rows && sb.cols == x.rows
    requires u.Wf() && u.rows == x.rows && u.cols == 1
    requires Symmetric(BetweenScatter(sb, x, cls, u, i - 1))
    ensures Symmetric(BetweenScatter(sb, x, cls, u, i))
  {
    var mean, n := ClassMean(x, cls, i - 1), Width(cls, i - 1);
    BetweenTermSymmetric(mean, u, n);
    AddSymmetric(BetweenScatter(sb, x, cls, u, i - 1), BetweenTermOf(mean, u, n));
  }

  /** S_b stays symmetric when it starts symmetric. */
  lemma {:induction false} BetweenScatterSymmetric(sb: Mat, x: Mat, cls: seq<int>, u: Mat, i: nat)
    requires x.Wf() && |cls| == x.cols && i <= Runs(cls)
    requires sb.Wf() && sb.rows == x.rows && sb.cols == x.rows
    requires u.Wf() && u.rows == x.rows && u.cols == 1
    requires Symmetric(sb)
    ensures Symmetric(BetweenScatter(sb, x, cls, u, i))
  {
    if i > 0 {
      BetweenScatterSymmetric(sb, x, cls, u, i - 1);
      BetweenScatterSymmetricStep(sb, x, cls, u, i);
    }
  }

  /** Adding the term of class i - 1 keeps S_w symmetric. */
  lemma WithinScatterSymmetricStep(sw: Mat, x: Mat, cls: seq<int>, i: nat)
    requires x.Wf() && |cls| == x.cols && 0 < i <= Runs(cls)
    requires sw.Wf() && sw.rows == x.rows && sw.cols == x.rows
    requires Symmetric(WithinScatter(sw, x, cls, i - 1))
    ensures Symmetric(WithinScatter(sw, x, cls, i))
  {
    var b, mean := Block(x, cls, i - 1), ClassMean(x, cls, i - 1);
    GramSymmetric(SubtractColumn(b, mean));
    AddSymmetric(WithinScatter(sw, x, cls, i - 1), WithinTermOf(b, mean));
  }

  /** S_w stays symmetric when it starts symmetric. */
  lemma {:induction false} WithinScatterSymmetric(sw: Mat, x: Mat, cls: seq<int>, i: nat)
    requires x.Wf() && |cls| == x.cols && i <= Runs(cls)
    requires sw.Wf() && sw.rows == x.rows && sw.cols == x.rows
    requires Symmetric(sw)
    ensures Symmetric(WithinScatter(sw, x, cls, i))
  {
    if i > 0 {
      WithinScatterSymmetric(sw, x, cls, i - 1);
      WithinScatterSymmetricStep(sw, x, cls, i);
    }
  }

  // ---------------------------------------------------------------------
  // Classes of identical images

  /** Every column of b equals its first column. */
  predicate IdenticalColumns(b: Mat)
    requires b.Wf()
  {
    forall a, t | 0 <= a < b.rows && 0 <= t < b.cols :: b.cells[a][t] == b.cells[a][0]
  }

  /** A block of identical columns contributes nothing to S_w. */
  lemma IdenticalBlockScatter(b: Mat)
    requires b.Wf() && b.cols > 0 && IdenticalColumns(b)
    ensures WithinTermOf(b, MeanColumn(b)) == Zeros(b.rows, b.rows)
  {
    var d := SubtractColumn(b, MeanColumn(b));
    forall a | 0 <= a < b.rows
      ensures forall t | 0 <= t < b.cols :: d.cells[a][t] == 0.0
    {
      SumConstant(b.cells[a], b.cells[a][0]);
    }
    forall a, a' | 0 <= a < b.rows && 0 <= a' < b.rows
      ensures Gram(d).cells[a][a'] == 0.0
    {
      GramEntry(d, a, a');
      DotZero(d.cells[a], d.cells[a']);
    }
    Ext(Gram(d), Zeros(b.rows, b.rows));
  }

  /** If every class consists of identical images, m_scatter leaves S_w as it found it (zero from LDA). */
  lemma {:induction false} WithinScatterOfIdentical(sw: Mat, x: Mat, cls: seq<int>, c: nat)
    requires x.Wf() && |cls| == x.cols && c <= Runs(cls)
    requires sw.Wf() && sw.rows == x.rows && sw.cols == x.rows
    requires forall i | 0 <= i < c :: IdenticalColumns(Block(x, cls, i))
    ensures WithinScatter(sw, x, cls, c) == sw
  {
    if c > 0 {
      var last := c - 1;
      WithinScatterOfIdentical(sw, x, cls, last);
      BlockNonEmpty(cls, last);
      IdenticalBlockScatter(Block(x, cls, last));
      Ext(DotAdd(sw, Zeros(x.rows, x.rows)), sw);
    }
  }

  // ---------------------------------------------------------------------
  // The grand mean

  /**
   * `u` starts with whatever m_initialize's malloc left in it: the grand mean
   * m_scatter computes is the intended average plus u0 / c.
   */
  lemma DivideSum(e: real, x: real, s: real, n: real)
    requires n != 0.0 && e == x + s
    ensures e / n == s / n + x / n
  {
  }

  lemma MeanFromEntry(u0: Mat, us: seq<Mat>, a: nat)
    requires u0.Wf() && u0.cols == 1 && AreColumns(us, u0.rows) && |us| > 0 && a < u0.rows
    ensures MeanFrom(u0, us).cells[a][0] == Average(us, u0.rows).cells[a][0] + u0.cells[a][0] / |us| as real
  {
    var n := |us| as real;
    var e, x, s := AddUp(u0, us).cells[a][0], u0.cells[a][0], Sum(EntryOfEach(us, u0.rows, a));
    DivideSum(e, x, s, n);
  }

  lemma MeanFromShifted(u0: Mat, us: seq<Mat>)
    requires u0.Wf() && u0.cols == 1 && AreColumns(us, u0.rows) && |us| > 0
    ensures MeanFrom(u0, us) == DotAdd(Average(us, u0.rows), DivideByConst(u0, |us| as real))
  {
    forall a | 0 <= a < u0.rows
      ensures MeanFrom(u0, us).cells[a][0] == Average(us, u0.rows).cells[a][0] + u0.cells[a][0] / |us| as real
    {
      MeanFromEntry(u0, us, a);
    }
    Ext(MeanFrom(u0, us), DotAdd(Average(us, u0.rows), DivideByConst(u0, |us| as real)));
  }

  /** Any non-zero garbage entry in the buffer makes that entry of the grand mean wrong. */
  lemma UninitialisedMeanDiffers(u0: Mat, us: seq<Mat>, a: nat)
    requires u0.Wf() && u0.cols == 1 && AreColumns(us, u0.rows) && |us| > 0
    requires a < u0.rows && u0.cells[a][0] != 0.0
    ensures MeanFrom(u0, us).cells[a][0] != Average(us, u0.rows).cells[a][0]
  {
    MeanFromShifted(u0, us);
  }

  // ---------------------------------------------------------------------
  // S_w + S_b is the total scatter

  /** The total scatter about u of the first k columns of x. */
  function PrefixScatter(x: Mat, u: Mat, k: nat): (t: Mat)
    requires x.Wf() && IsColumnFor(u, x) && k <= x.cols
    ensures t.Wf() && t.rows == x.rows && t.cols == x.rows
  {
    WithinTermOf(CopyColumns(x, 0, k), u)
  }

  lemma PrefixScatterEmpty(x: Mat, u: Mat)
    requires x.Wf() && IsColumnFor(u, x)
    ensures PrefixScatter(x, u, 0) == Zeros(x.rows, x.rows)
  {
    Ext(PrefixScatter(x, u, 0), Zeros(x.rows, x.rows));
  }

  /** Entry (a, a') of the scatter of the columns of b about u. */
  lemma WithinTermEntry(b: Mat, u: Mat, a: nat, a': nat)
    requires b.Wf() && IsColumnFor(u, b) && a < b.rows && a' < b.rows
    ensures WithinTermOf(b, u).cells[a][a'] == Dot(Shift(b.cells[a], u.cells[a][0]), Shift(b.cells[a'], u.cells[a'][0]))
  {
    GramEntry(SubtractColumn(b, u), a, a');
    CentredRow(b, u, a);
    CentredRow(b, u, a');
  }

  lemma ShiftAppend(s: seq<real>, t: seq<real>, r: real)
    ensures Shift(s + t, r) == Shift(s, r) + Shift(t, r)
  {
  }

  /** Products over columns j .. k' - 1 split at k. */
  lemma RowsAppend(xa: seq<real>, xb: seq<real>, j: nat, k: nat, k': nat, r: real, s: real)
    requires j <= k <= k' <= |xa| && |xa| == |xb|
    ensures Dot(Shift(xa[j..k'], r), Shift(xb[j..k'], s)) ==
      Dot(Shift(xa[j..k], r), Shift(xb[j..k], s)) + Dot(Shift(xa[k..k'], r), Shift(xb[k..k'], s))
  {
    assert xa[j..k'] == xa[j..k] + xa[k..k'];
    assert xb[j..k'] == xb[j..k] + xb[k..k'];
    ShiftAppend(xa[j..k], xa[k..k'], r);
    ShiftAppend(xb[j..k], xb[k..k'], s);
    DotAppend(Shift(xa[j..k], r), Shift(xa[k..k'], r), Shift(xb[j..k], s), Shift(xb[k..k'], s));
  }

  lemma CrossColumnsEntry(x: Mat, u: Mat, j: nat, k: nat, k': nat, a: nat, b: nat)
    requires x.Wf() && IsColumnFor(u, x) && j <= k <= k' <= x.cols && a < x.rows && b < x.rows
    ensures Cross(CopyColumns(x, j, k'), u).cells[a][b] ==
      Cross(CopyColumns(x, j, k), u).cells[a][b] + Cross(CopyColumns(x, k, k'), u).cells[a][b]
  {
    RowsAppend(x.cells[a], x.cells[b], j, k, k', u.cells[a][0], u.cells[b][0]);
  }

  /** The products over columns j .. k' - 1 are those over j .. k - 1 plus those over k .. k' - 1. */
  lemma CrossColumns(x: Mat, u: Mat, j: nat, k: nat, k': nat)
    requires x.Wf() && IsColumnFor(u, x) && j <= k <= k' <= x.cols
    ensures Cross(CopyColumns(x, j, k'), u) == DotAdd(Cross(CopyColumns(x, j, k), u), Cross(CopyColumns(x, k, k'), u))
  {
    forall a, b | 0 <= a < x.rows && 0 <= b < x.rows
      ensures Cross(CopyColumns(x, j, k'), u).cells[a][b] ==
        Cross(CopyColumns(x, j, k), u).cells[a][b] + Cross(CopyColumns(x, k, k'), u).cells[a][b]
    {
      CrossColumnsEntry(x, u, j, k, k', a, b);
    }
    Ext(Cross(CopyColumns(x, j, k'), u), DotAdd(Cross(CopyColumns(x, j, k), u), Cross(CopyColumns(x, k, k'), u)));
  }

  /** The scatter of the first k' columns is that of the first k plus that of the columns k .. k' - 1. */
  lemma PrefixScatterStep(x: Mat, u: Mat, k: nat, k': nat)
    requires x.Wf() && IsColumnFor(u, x) && k <= k' <= x.cols
    ensures PrefixScatter(x, u, k') == DotAdd(PrefixScatter(x, u, k), WithinTermOf(CopyColumns(x, k, k'), u))
  {
    WithinTermCross(CopyColumns(x, 0, k'), u);
    WithinTermCross(CopyColumns(x, 0, k), u);
    WithinTermCross(CopyColumns(x, k, k'), u);
    CrossColumns(x, u, 0, k, k');
  }

  /** The matrix of products of the rows of b, each row centred on its entry of u. */
  function Cross(b: Mat, u: Mat): (c: Mat)
    requires b.Wf() && IsColumnFor(u, b)
    ensures c.Wf() && c.rows == b.rows && c.cols == b.rows
    ensures forall a, a' | 0 <= a < b.rows && 0 <= a' < b.rows ::
      c.cells[a][a'] == Dot(Shift(b.cells[a], u.cells[a][0]), Shift(b.cells[a'], u.cells[a'][0]))
  {
    Mat(b.rows, b.rows, seq(b.rows, a requires 0 <= a < b.rows =>
      seq(b.rows, a' requires 0 <= a' < b.rows => Dot(Shift(b.cells[a], u.cells[a][0]), Shift(b.cells[a'], u.cells[a'][0])))))
  }

  /** The matrix n (m_a - u_a)(m_a' - u_a'). */
  function Spread(m: Mat, u: Mat, n: real): (c: Mat)
    requires m.Wf() && u.Wf() && SameShape(m, u) && u.cols == 1
    ensures c.Wf() && c.rows == u.rows && c.cols == u.rows
    ensures forall a, a' | 0 <= a < u.rows && 0 <= a' < u.rows ::
      c.cells[a][a'] == Deviation(m.cells[a][0], m.cells[a'][0], u.cells[a][0], u.cells[a'][0], n)
  {
    Mat(u.rows, u.rows, seq(u.rows, a requires 0 <= a < u.rows =>
      seq(u.rows, a' requires 0 <= a' < u.rows => Deviation(m.cells[a][0], m.cells[a'][0], u.cells[a][0], u.cells[a'][0], n))))
  }

  lemma WithinTermCross(b: Mat, u: Mat)
    requires b.Wf() && IsColumnFor(u, b)
    ensures WithinTermOf(b, u) == Cross(b, u)
  {
    forall a, a' | 0 <= a < b.rows && 0 <= a' < b.rows
      ensures WithinTermOf(b, u).cells[a][a'] == Cross(b, u).cells[a][a']
    {
      WithinTermEntry(b, u, a, a');
    }
    Ext(WithinTermOf(b, u), Cross(b, u));
  }

  lemma BetweenTermSpread(m: Mat, u: Mat, n: nat)
    requires m.Wf() && u.Wf() && SameShape(m, u) && u.cols == 1
    ensures BetweenTermOf(m, u, n) == Spread(m, u, n as real)
  {
    forall a, a' | 0 <= a < u.rows && 0 <= a' < u.rows
      ensures BetweenTermOf(m, u, n).cells[a][a'] == Spread(m, u, n as real).cells[a][a']
    {
      BetweenTermEntry(m, u, n, a, a');
    }
    Ext(BetweenTermOf(m, u, n), Spread(m, u, n as real));
  }

  /** CentredSplit for rows a and a' of a block and its mean column. */
  lemma CrossSplitEntry(b: Mat, u: Mat, a: nat, a': nat)
    requires b.Wf() && b.cols > 0 && IsColumnFor(u, b) && u.cols == 1 && a < b.rows && a' < b.rows
    ensures Cross(b, MeanColumn(b)).cells[a][a'] + Spread(MeanColumn(b), u, b.cols as real).cells[a][a'] == Cross(b, u).cells[a][a']
  {
    var n := b.cols as real;
    var xa, xb := b.cells[a], b.cells[a'];
    var p, q, r, s := MeanColumn(b).cells[a][0], MeanColumn(b).cells[a'][0], u.cells[a][0], u.cells[a'][0];
    RowsSplit(xa, xb, p, q, r, s, n);
  }

  /** CentredSplit with the means given as quotients. */
  lemma RowsSplit(xa: seq<real>, xb: seq<real>, p: real, q: real, r: real, s: real, n: real)
    requires |xa| == |xb| && n == |xa| as real && n != 0.0 && p == Sum(xa) / n && q == Sum(xb) / n
    ensures Dot(Shift(xa, p), Shift(xb, q)) + Deviation(p, q, r, s, n) == Dot(Shift(xa, r), Shift(xb, s))
  {
    MeanTimesCount(Sum(xa), n, p);
    MeanTimesCount(Sum(xb), n, q);
    CentredSplit(xa, xb, p, q, r, s, n);
  }

  lemma CrossSplit(b: Mat, u: Mat)
    requires b.Wf() && b.cols > 0 && IsColumnFor(u, b) && u.cols == 1
    ensures DotAdd(Cross(b, MeanColumn(b)), Spread(MeanColumn(b), u, b.cols as real)) == Cross(b, u)
  {
    forall a, a' | 0 <= a < b.rows && 0 <= a' < b.rows
      ensures Cross(b, MeanColumn(b)).cells[a][a'] + Spread(MeanColumn(b), u, b.cols as real).cells[a][a'] == Cross(b, u).cells[a][a']
    {
      CrossSplitEntry(b, u, a, a');
    }
    Ext(DotAdd(Cross(b, MeanColumn(b)), Spread(MeanColumn(b), u, b.cols as real)), Cross(b, u));
  }

  /** One block: its within term plus its between term is its scatter about u. */
  lemma BlockDecomposition(b: Mat, u: Mat)
    requires b.Wf() && b.cols > 0 && IsColumnFor(u, b) && u.cols == 1
    ensures DotAdd(WithinTermOf(b, MeanColumn(b)), BetweenTermOf(MeanColumn(b), u, b.cols)) == WithinTermOf(b, u)
  {
    WithinTermCross(b, MeanColumn(b));
    WithinTermCross(b, u);
    BetweenTermSpread(MeanColumn(b), u, b.cols);
    CrossSplit(b, u);
  }

  lemma AddInterchange(p: Mat, q: Mat, r: Mat, s: Mat)
    requires p.Wf() && q.Wf() && r.Wf() && s.Wf() && SameShape(p, q) && SameShape(p, r) && SameShape(p, s)
    ensures DotAdd(DotAdd(p, q), DotAdd(r, s)) == DotAdd(DotAdd(p, r), DotAdd(q, s))
  {
    Ext(DotAdd(DotAdd(p, q), DotAdd(r, s)), DotAdd(DotAdd(p, r), DotAdd(q, s)));
  }

  /** S_w + S_b after the first i classes, both accumulated from zero. */
  function Decomposed(x: Mat, cls: seq<int>, u: Mat, i: nat): (s: Mat)
    requires x.Wf() && |cls| == x.cols && i <= Runs(cls)
    requires u.Wf() && u.rows == x.rows && u.cols == 1
  {
    DotAdd(WithinScatter(Zeros(x.rows, x.rows), x, cls, i), BetweenScatter(Zeros(x.rows, x.rows), x, cls, u, i))
  }

  /** Class i - 1 adds its within term plus its between term: its scatter about u. */
  lemma DecompositionStep(x: Mat, cls: seq<int>, u: Mat, i: nat)
    requires x.Wf() && |cls| == x.cols && 0 < i <= Runs(cls)
    requires u.Wf() && u.rows == x.rows && u.cols == 1
    ensures Decomposed(x, cls, u, i) == DotAdd(Decomposed(x, cls, u, i - 1), WithinTermOf(Block(x, cls, i - 1), u))
  {
    var z := Zeros(x.rows, x.rows);
    BlockNonEmpty(cls, i - 1);
    var b, mean := Block(x, cls, i - 1), ClassMean(x, cls, i - 1);
    AddInterchange(WithinScatter(z, x, cls, i - 1), WithinTermOf(b, mean),
                   BetweenScatter(z, x, cls, u, i - 1), BetweenTermOf(mean, u, Width(cls, i - 1)));
    BlockDecomposition(b, u);
  }

  /** The columns up to the end of block i - 1 are those up to its start followed by the block. */
  lemma PrefixScatterBlock(x: Mat, cls: seq<int>, u: Mat, i: nat)
    requires x.Wf() && |cls| == x.cols && 0 < i
    requires u.Wf() && u.rows == x.rows && u.cols == 1
    ensures PrefixScatter(x, u, BlockStart(cls, i)) == DotAdd(PrefixScatter(x, u, BlockStart(cls, i - 1)), WithinTermOf(Block(x, cls, i - 1), u))
  {
    BlockStartMonotone(cls, i - 1, i);
    PrefixScatterStep(x, u, BlockStart(cls, i - 1), BlockStart(cls, i));
  }

  /** Before any class, S_w + S_b is zero, as is the scatter of no columns. */
  lemma DecompositionStart(x: Mat, cls: seq<int>, u: Mat)
    requires x.Wf() && |cls| == x.cols
    requires u.Wf() && u.rows == x.rows && u.cols == 1
    ensures Decomposed(x, cls, u, 0) == PrefixScatter(x, u, BlockStart(cls, 0))
  {
    var z := Zeros(x.rows, x.rows);
    PrefixScatterEmpty(x, u);
    Ext(DotAdd(z, z), z);
  }

  /** If the decomposition holds after i - 1 classes, it holds after i. */
  lemma DecompositionNext(x: Mat, cls: seq<int>, u: Mat, i: nat)
    requires x.Wf() && |cls| == x.cols && 0 < i <= Runs(cls)
    requires u.Wf() && u.rows == x.rows && u.cols == 1
    requires Decomposed(x, cls, u, i - 1) == PrefixScatter(x, u, BlockStart(cls, i - 1))
    ensures Decomposed(x, cls, u, i) == PrefixScatter(x, u, BlockStart(cls, i))
  {
    DecompositionStep(x, cls, u, i);
    PrefixScatterBlock(x, cls, u, i);
  }

  /** After i classes, S_w + S_b (both from zero) is the scatter about u of the columns seen so far. */
  lemma {:induction false} DecompositionUpTo(x: Mat, cls: seq<int>, u: Mat, i: nat)
    requires x.Wf() && |cls| == x.cols && i <= Runs(cls)
    requires u.Wf() && u.rows == x.rows && u.cols == 1
    ensures Decomposed(x, cls, u, i) == PrefixScatter(x, u, BlockStart(cls, i))
  {
    if i == 0 {
      DecompositionStart(x, cls, u);
    } else {
      DecompositionUpTo(x, cls, u, i - 1);
      DecompositionNext(x, cls, u, i);
    }
  }

  /**
   * When the classes form exactly c runs, S_w + S_b computed from zero is
   * the sum over all columns y of (y - u)(y - u)', for any u: the cross
   * terms cancel because each block is centred on its own mean.
   */
  lemma ScatterDecomposition(x: Mat, cls: seq<int>, c: nat, u: Mat)
    requires x.Wf() && |cls| == x.cols && Runs(cls) == c
    requires u.Wf() && u.rows == x.rows && u.cols == 1
    ensures DotAdd(WithinScatter(Zeros(x.rows, x.rows), x, cls, c), BetweenScatter(Zeros(x.rows, x.rows), x, cls, u, c))
            == TotalScatter(x, u)
  {
    DecompositionUpTo(x, cls, u, c);
    BlocksReachEnd(cls, c);
    PrefixScatterAll(x, u);
  }

  lemma PrefixScatterAll(x: Mat, u: Mat)
    requires x.Wf() && IsColumnFor(u, x)
    ensures PrefixScatter(x, u, x.cols) == TotalScatter(x, u)
  {
    Ext(CopyColumns(x, 0, x.cols), x);
  }
}
