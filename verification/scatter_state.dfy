/**
 * The bookkeeping of m_scatter's loops (src/lda.c): which matrix object
 * holds which value, and which buffers are distinct.
 */
module ScatterState {
  import opened MatrixSpec
  import opened MatrixLib
  import opened Partition
  import opened ScatterSpec

  /** The buffer of M holds the matrix v. */
  predicate Holds(M: Matrix, v: Mat)
    reads M.data
  {
    M.Valid() && M.Value() == v
  }

  /** Every matrix of Ms from index lo on holds the matching value of vs. */
  predicate HoldFrom(Ms: seq<Matrix>, vs: seq<Mat>, lo: nat)
    reads set k | lo <= k < |Ms| :: Ms[k].data
  {
    |Ms| <= |vs| && forall k | lo <= k < |Ms| :: Holds(Ms[k], vs[k])
  }

  lemma HoldFromAppend(Ms: seq<Matrix>, vs: seq<Mat>, M: Matrix)
    requires HoldFrom(Ms, vs, 0) && |Ms| < |vs| && Holds(M, vs[|Ms|])
    ensures HoldFrom(Ms + [M], vs, 0)
  {
  }

  lemma HoldFromNext(Ms: seq<Matrix>, vs: seq<Mat>, lo: nat)
    requires HoldFrom(Ms, vs, lo) && lo < |Ms|
    ensures Holds(Ms[lo], vs[lo]) && HoldFrom(Ms, vs, lo + 1)
  {
  }

  /** No buffer of Xc is shared with another matrix of Xc or with one of U, and all of them are in Repr. */
  predicate Separate(Xc: seq<Matrix>, U: seq<Matrix>, Repr: set<array<real>>)
  {
    (forall a, b | 0 <= a < |Xc| && 0 <= b < |U| :: Xc[a].data != U[b].data)
    && (forall a, b | 0 <= a < b < |Xc| :: Xc[a].data != Xc[b].data)
    && (forall a | 0 <= a < |Xc| :: Xc[a].data in Repr)
    && (forall b | 0 <= b < |U| :: U[b].data in Repr)
  }

  lemma SeparateAppend(Xc: seq<Matrix>, U: seq<Matrix>, Repr: set<array<real>>, B: Matrix, m: Matrix)
    requires Separate(Xc, U, Repr) && |Xc| == |U|
    requires B.data !in Repr && m.data !in Repr && B.data != m.data
    ensures Separate(Xc + [B], U + [m], Repr + {B.data, m.data})
  {
  }

  /** bs[k] and ms[k] are block k of x and its mean column. */
  predicate ClassAt(bs: seq<Mat>, ms: seq<Mat>, x: Mat, cls: seq<int>, k: nat)
  {
    k < |bs| && k < |ms| && x.Wf() && |cls| == x.cols && k < Runs(cls)
    && bs[k] == Block(x, cls, k) && ms[k] == ClassMean(x, cls, k)
  }

  /** bs and ms are the first |bs| blocks of x and their mean columns. */
  predicate ClassesOf(bs: seq<Mat>, ms: seq<Mat>, x: Mat, cls: seq<int>)
  {
    |bs| == |ms| && forall k | 0 <= k < |bs| :: ClassAt(bs, ms, x, cls, k)
  }

  lemma BlocksAreClasses(x: Mat, cls: seq<int>, c: nat)
    requires x.Wf() && |cls| == x.cols && c <= Runs(cls)
    ensures ClassesOf(Blocks(x, cls, c), ClassMeans(x, cls, c), x, cls)
  {
  }

  /**
   * The class blocks `bs` and their mean columns `ms`, all with `rows`
   * rows, every block non-empty, and the grand mean `uval`.
   */
  predicate Shaped(bs: seq<Mat>, ms: seq<Mat>, uval: Mat, rows: nat)
  {
    |bs| == |ms| && uval.Wf() && uval.rows == rows && uval.cols == 1
    && forall k | 0 <= k < |bs| ::
         bs[k].Wf() && bs[k].rows == rows && bs[k].cols > 0 && ms[k].Wf() && ms[k].rows == rows && ms[k].cols == 1
  }

  /**
   * How the matrices of the accumulation loop (lines 56-83) relate: X_classes,
   * U and u hold matrices of the right shapes, and no two of the buffers
   * written or read are shared, the class matrices being the ones in Repr.
   */
  predicate Layout(Xc: seq<Matrix>, U: seq<Matrix>, u: Matrix, Sb: Matrix, Sw: Matrix,
                   bs: seq<Mat>, ms: seq<Mat>, uval: Mat, Repr: set<array<real>>)
  {
    |Xc| == |U| == |bs| && Shaped(bs, ms, uval, Sb.rows)
    && Separate(Xc, U, Repr) && u.data !in Repr && Sb.data !in Repr && Sw.data !in Repr
    && u.data != Sb.data && u.data != Sw.data && Sb.data != Sw.data
    && Sb.cols == Sb.rows && Sw.rows == Sb.rows && Sw.cols == Sb.rows
  }

  /** X_classes[i ..], U and u still hold the blocks, the class means and the grand mean. */
  predicate Holding(Xc: seq<Matrix>, U: seq<Matrix>, u: Matrix, bs: seq<Mat>, ms: seq<Mat>, uval: Mat, i: nat)
    reads (set k | i <= k < |Xc| :: Xc[k].data) + (set k | 0 <= k < |U| :: U[k].data) + {u.data}
  {
    HoldFrom(Xc, bs, i) && HoldFrom(U, ms, 0) && Holds(u, uval)
  }

  /** sbs[k + 1] is sbs[k] plus the between-class term of class k. */
  predicate BetweenLink(sbs: seq<Mat>, bs: seq<Mat>, ms: seq<Mat>, uval: Mat, k: nat)
  {
    k + 1 < |sbs| && k < |bs| && k < |ms|
    && uval.Wf() && uval.cols == 1 && ms[k].Wf() && SameShape(ms[k], uval)
    && sbs[k].Wf() && sbs[k].rows == uval.rows && sbs[k].cols == uval.rows
    && sbs[k + 1] == DotAdd(sbs[k], BetweenTermOf(ms[k], uval, bs[k].cols))
  }

  /** sws[k + 1] is sws[k] plus the within-class term of class k. */
  predicate WithinLink(sws: seq<Mat>, bs: seq<Mat>, ms: seq<Mat>, k: nat)
  {
    k + 1 < |sws| && k < |bs| && k < |ms|
    && bs[k].Wf() && IsColumnFor(ms[k], bs[k])
    && sws[k].Wf() && sws[k].rows == bs[k].rows && sws[k].cols == bs[k].rows
    && sws[k + 1] == DotAdd(sws[k], WithinTermOf(bs[k], ms[k]))
  }

  /** The running values of S_b, one per class boundary. */
  predicate BetweenChain(sbs: seq<Mat>, bs: seq<Mat>, ms: seq<Mat>, uval: Mat)
  {
    |sbs| == |bs| + 1 && forall k | 0 <= k < |bs| :: BetweenLink(sbs, bs, ms, uval, k)
  }

  /** The running values of S_w, one per class boundary. */
  predicate WithinChain(sws: seq<Mat>, bs: seq<Mat>, ms: seq<Mat>)
  {
    |sws| == |bs| + 1 && forall k | 0 <= k < |bs| :: WithinLink(sws, bs, ms, k)
  }

  /** BetweenScatter after 0, 1, ..., c classes. */
  function BetweenSums(sb: Mat, x: Mat, cls: seq<int>, u: Mat, c: nat): (sbs: seq<Mat>)
    requires x.Wf() && |cls| == x.cols && c <= Runs(cls)
    requires sb.Wf() && sb.rows == x.rows && sb.cols == x.rows
    requires u.Wf() && u.rows == x.rows && u.cols == 1
    ensures |sbs| == c + 1 && forall i | 0 <= i <= c :: sbs[i] == BetweenScatter(sb, x, cls, u, i)
  {
    seq(c + 1, i requires 0 <= i <= c => BetweenScatter(sb, x, cls, u, i))
  }

  /** WithinScatter after 0, 1, ..., c classes. */
  function WithinSums(sw: Mat, x: Mat, cls: seq<int>, c: nat): (sws: seq<Mat>)
    requires x.Wf() && |cls| == x.cols && c <= Runs(cls)
    requires sw.Wf() && sw.rows == x.rows && sw.cols == x.rows
    ensures |sws| == c + 1 && forall i | 0 <= i <= c :: sws[i] == WithinScatter(sw, x, cls, i)
  {
    seq(c + 1, i requires 0 <= i <= c => WithinScatter(sw, x, cls, i))
  }

  /** The blocks and class means of x have the shapes the accumulation loop needs. */
  lemma BlocksShaped(x: Mat, cls: seq<int>, c: nat, u: Mat)
    requires x.Wf() && |cls| == x.cols && c <= Runs(cls)
    requires u.Wf() && u.rows == x.rows && u.cols == 1
    ensures Shaped(Blocks(x, cls, c), ClassMeans(x, cls, c), u, x.rows)
  {
    forall k | 0 <= k < c
      ensures Width(cls, k) > 0
    {
      BlockNonEmpty(cls, k);
    }
  }

  /** Class k links BetweenScatter after k classes to BetweenScatter after k + 1. */
  lemma BetweenSumsLink(sb: Mat, x: Mat, cls: seq<int>, u: Mat, c: nat, k: nat)
    requires x.Wf() && |cls| == x.cols && k < c <= Runs(cls)
    requires sb.Wf() && sb.rows == x.rows && sb.cols == x.rows
    requires u.Wf() && u.rows == x.rows && u.cols == 1
    ensures BetweenLink(BetweenSums(sb, x, cls, u, c), Blocks(x, cls, c), ClassMeans(x, cls, c), u, k)
  {
    var sbs, bs, ms := BetweenSums(sb, x, cls, u, c), Blocks(x, cls, c), ClassMeans(x, cls, c);
    var j := k + 1;
    assert sbs[k] == BetweenScatter(sb, x, cls, u, k);
    assert sbs[j] == BetweenScatter(sb, x, cls, u, j);
    assert bs[k] == Block(x, cls, k) && ms[k] == ClassMean(x, cls, k);
  }

  /** The running values of S_b are linked class by class. */
  lemma BetweenSumsChain(sb: Mat, x: Mat, cls: seq<int>, u: Mat, c: nat)
    requires x.Wf() && |cls| == x.cols && c <= Runs(cls)
    requires sb.Wf() && sb.rows == x.rows && sb.cols == x.rows
    requires u.Wf() && u.rows == x.rows && u.cols == 1
    ensures BetweenChain(BetweenSums(sb, x, cls, u, c), Blocks(x, cls, c), ClassMeans(x, cls, c), u)
  {
    forall k | 0 <= k < c
      ensures BetweenLink(BetweenSums(sb, x, cls, u, c), Blocks(x, cls, c), ClassMeans(x, cls, c), u, k)
    {
      BetweenSumsLink(sb, x, cls, u, c, k);
    }
  }

  /** Class k links WithinScatter after k classes to WithinScatter after k + 1. */
  lemma WithinSumsLink(sw: Mat, x: Mat, cls: seq<int>, c: nat, k: nat)
    requires x.Wf() && |cls| == x.cols && k < c <= Runs(cls)
    requires sw.Wf() && sw.rows == x.rows && sw.cols == x.rows
    ensures WithinLink(WithinSums(sw, x, cls, c), Blocks(x, cls, c), ClassMeans(x, cls, c), k)
  {
    var sws, bs, ms := WithinSums(sw, x, cls, c), Blocks(x, cls, c), ClassMeans(x, cls, c);
    var j := k + 1;
    assert sws[k] == WithinScatter(sw, x, cls, k);
    assert sws[j] == WithinScatter(sw, x, cls, j);
    assert bs[k] == Block(x, cls, k) && ms[k] == ClassMean(x, cls, k);
  }

  /** The running values of S_w are linked class by class. */
  lemma WithinSumsChain(sw: Mat, x: Mat, cls: seq<int>, c: nat)
    requires x.Wf() && |cls| == x.cols && c <= Runs(cls)
    requires sw.Wf() && sw.rows == x.rows && sw.cols == x.rows
    ensures WithinChain(WithinSums(sw, x, cls, c), Blocks(x, cls, c), ClassMeans(x, cls, c))
  {
    forall k | 0 <= k < c
      ensures WithinLink(WithinSums(sw, x, cls, c), Blocks(x, cls, c), ClassMeans(x, cls, c), k)
    {
      WithinSumsLink(sw, x, cls, c, k);
    }
  }
}
