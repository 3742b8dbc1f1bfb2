/**
 * m_scatter and LDA of src/lda.c over the matrix objects of MatrixLib.
 *
 * m_scatter cuts the columns of X into c class blocks (Partition), copies
 * each block out and takes its mean column, averages the c means into u,
 * and then, class by class, adds n_i (u_i - u)(u_i - u)' into the caller's
 * S_b and (X_i - u_i)(X_i - u_i)' into the caller's S_w.  ScatterSpec says
 * what these sums are; ScatterLaws proves their properties.
 */
module Lda {
  import opened MatrixSpec
  import opened MatrixLib
  import opened Partition
  import opened ScatterSpec
  import opened ScatterState

  // ---------------------------------------------------------------------
  // Helpers lda.c calls that matrix.c does not define, given their
  // evident semantics

  /** m_copy_columns(X, j, k): a fresh matrix holding columns j .. k - 1 of X. */
  method CopyColumnsOf(X: Matrix, j: nat, k: nat) returns (B: Matrix)
    requires X.Valid() && j <= k <= X.cols
    ensures B.Valid() && fresh(B.data)
    ensures B.Value() == CopyColumns(X.Value(), j, k)
  {
    B := new Matrix.FromValue(CopyColumns(X.Value(), j, k));
  }

  /** m_add(A, B): A += B, entry by entry. */
  method AddInPlace(A: Matrix, B: Matrix)
    requires A.Valid() && B.Valid() && A.rows == B.rows && A.cols == B.cols
    modifies A.data
    ensures A.Value() == DotAdd(old(A.Value()), old(B.Value()))
  {
    A.Assign(DotAdd(A.Value(), B.Value()));
  }

  /** m_subtract(A, B): A -= B, entry by entry. */
  method SubtractInPlace(A: Matrix, B: Matrix)
    requires A.Valid() && B.Valid() && A.rows == B.rows && A.cols == B.cols
    modifies A.data
    ensures A.Value() == DotSubtract(old(A.Value()), old(B.Value()))
  {
    A.Assign(DotSubtract(A.Value(), B.Value()));
  }

  /** m_product(A, B): a fresh matrix holding the product A B. */
  method Multiply(A: Matrix, B: Matrix) returns (P: Matrix)
    requires A.Valid() && B.Valid() && A.cols == B.rows
    ensures P.Valid() && fresh(P.data)
    ensures P.Value() == Product(A.Value(), B.Value())
  {
    P := new Matrix.FromValue(Product(A.Value(), B.Value()));
  }

  /**
   * m_inverse(A): a fresh matrix for A^-1.  Its entries come from LAPACK,
   * outside this model; only the shape is kept.
   */
  method Inverse(A: Matrix) returns (B: Matrix)
    requires A.Valid() && A.rows == A.cols
    ensures B.Valid() && fresh(B.data) && B.rows == A.rows && B.cols == A.cols
  {
    B := new Matrix.Initialize(A.rows, A.cols);
  }

  /**
   * m_eigen(J, J_eval, J_evec): J_evec receives the eigenvectors of J,
   * which LAPACK computes; they are the parameter `evec` here, and the
   * eigenvalues in J_eval are not modelled.
   */
  method Eigen(J: Matrix, Jeval: Matrix, Jevec: Matrix, evec: Mat)
    requires J.Valid() && J.rows == J.cols && Jeval.Valid() && Jeval.rows == J.rows && Jeval.cols == 1
    requires Jevec.Valid() && Jevec.rows == J.rows && Jevec.cols == J.cols
    requires evec.Wf() && evec.rows == J.rows && evec.cols == J.cols
    modifies Jevec.data
    ensures Jevec.Value() == evec
  {
    Jevec.Assign(evec);
  }

  // ---------------------------------------------------------------------
  // m_scatter, one class at a time

  /** Lines 60-67 for one class: S_b += n (u_i - u)(u_i - u)', through a copy of u_i. */
  method AddBetweenTerm(Ui: Matrix, u: Matrix, n: nat, Sb: Matrix)
    requires Ui.Valid() && u.Valid() && Sb.Valid()
    requires Ui.cols == 1 && u.rows == Ui.rows && u.cols == 1 && Sb.rows == Ui.rows && Sb.cols == Ui.rows
    modifies Sb.data
    ensures Sb.Value() == DotAdd(old(Sb.Value()), BetweenTermOf(old(Ui.Value()), old(u.Value()), n))
  {
    var ui := new Matrix.Copy(Ui);
    SubtractInPlace(ui, u);
    var uiTr := ui.Transpose();
    var Sbi := Multiply(ui, uiTr);
    Sbi.ElemMult(n as real);
    AddInPlace(Sb, Sbi);
  }

  /** Lines 70-75 for one class: the block is centred on u_i in place, then S_w += X_i X_i'. */
  method AddWithinTerm(Xi: Matrix, Ui: Matrix, Sw: Matrix)
    requires Xi.Valid() && Ui.Valid() && Sw.Valid()
    requires Ui.rows == Xi.rows && Ui.cols == 1 && Sw.rows == Xi.rows && Sw.cols == Xi.rows
    requires Xi.data != Ui.data && Xi.data != Sw.data
    modifies Xi.data, Sw.data
    ensures Xi.Value() == SubtractColumn(old(Xi.Value()), old(Ui.Value()))
    ensures Sw.Value() == DotAdd(old(Sw.Value()), WithinTermOf(old(Xi.Value()), old(Ui.Value())))
  {
    Xi.NormalizeColumns(Ui);
    var XiTr := Xi.Transpose();
    var Swi := Multiply(Xi, XiTr);
    AddInPlace(Sw, Swi);
  }

  // ---------------------------------------------------------------------
  // m_scatter

  /**
   * Lines 28-33: the scan for the end of the block that starts at column j,
   * stopping at the first column whose class differs from that of column j.
   */
  method ScanBlock(entries: seq<Entry>, cols: nat, j: nat) returns (k: nat)
    requires cols <= |entries| && j <= cols
    ensures k == RunEnd(Classes(entries, cols), j)
  {
    ghost var cls := Classes(entries, cols);
    k := j;
    while k < cols && entries[k].classId == entries[j].classId
      invariant j <= k <= cols && Uniform(cls, j, k)
    {
      k := k + 1;
    }
    RunEndUnique(cls, j, k);
  }

  /**
   * Lines 28-39 for class i: X_classes[i] and U[i], and the start of block
   * i + 1; `bs` and `ms` name the blocks and their mean columns.
   */
  method NextClass(X: Matrix, entries: seq<Entry>, i: nat, j: nat, ghost bs: seq<Mat>, ghost ms: seq<Mat>)
      returns (B: Matrix, m: Matrix, k: nat)
    requires X.Valid() && X.cols <= |entries| && ClassesOf(bs, ms, X.Value(), Classes(entries, X.cols)) && i < |bs|
    requires j == BlockStart(Classes(entries, X.cols), i)
    ensures k == BlockStart(Classes(entries, X.cols), i + 1)
    ensures fresh(B.data) && fresh(m.data) && B.data != m.data
    ensures Holds(B, bs[i]) && Holds(m, ms[i])
  {
    assert ClassAt(bs, ms, X.Value(), Classes(entries, X.cols), i);
    BlockNonEmpty(Classes(entries, X.cols), i);
    k := ScanBlock(entries, X.cols, j);
    B := CopyColumnsOf(X, j, k);
    m := B.MeanColumn();
  }

  /**
   * Lines 26-40: the loop over the c classes, filling X_classes and U with
   * fresh matrices that hold the blocks `bs` and their means `ms`.
   */
  method SplitClasses(X: Matrix, c: nat, entries: seq<Entry>, ghost bs: seq<Mat>, ghost ms: seq<Mat>)
      returns (Xc: seq<Matrix>, U: seq<Matrix>, ghost Repr: set<array<real>>)
    requires X.Valid() && X.cols <= |entries| && |bs| == c && ClassesOf(bs, ms, X.Value(), Classes(entries, X.cols))
    ensures |Xc| == c && |U| == c
    ensures HoldFrom(Xc, bs, 0) && HoldFrom(U, ms, 0)
    ensures fresh(Repr) && Separate(Xc, U, Repr)
  {
    Xc, U, Repr := [], [], {};
    var i, j := 0, 0;
    while i < c
      invariant 0 <= i <= c && |Xc| == i && |U| == i
      invariant j == BlockStart(Classes(entries, X.cols), i)
      invariant HoldFrom(Xc, bs, 0) && HoldFrom(U, ms, 0)
      invariant fresh(Repr) && Separate(Xc, U, Repr)
    {
      var B, m, k := NextClass(X, entries, i, j, bs, ms);
      HoldFromAppend(Xc, bs, B);
      HoldFromAppend(U, ms, m);
      SeparateAppend(Xc, U, Repr, B, m);
      Xc, U, Repr := Xc + [B], U + [m], Repr + {B.data, m.data};
      i, j := i + 1, k;
    }
  }

  /** Line 47 for one class: elem(u, j, 0) += elem(U[i], j, 0) for every row j. */
  method AddColumnInto(u: Matrix, Ui: Matrix)
    requires u.Valid() && Ui.Valid() && u.cols == 1 && Ui.rows == u.rows && Ui.cols == 1 && u.data != Ui.data
    modifies u.data
    ensures u.Value() == DotAdd(old(u.Value()), Ui.Value())
  {
    ghost var u0 := u.Value();
    var j := 0;
    while j < u.rows
      invariant 0 <= j <= u.rows
      invariant forall a | 0 <= a < u.rows ::
        u.Value().cells[a][0] == if a < j then u0.cells[a][0] + Ui.Value().cells[a][0] else u0.cells[a][0]
    {
      u.Set(j, 0, u.Elem(j, 0) + Ui.Elem(j, 0));
      j := j + 1;
    }
    Ext(u.Value(), DotAdd(u0, Ui.Value()));
  }

  /**
   * Lines 45-52 as written: the class means are added onto whatever `u`
   * holds and the sum is divided by c.  m_scatter's `u` comes from
   * m_initialize, whose buffer is not cleared.
   */
  method AverageInto(u: Matrix, U: seq<Matrix>, ghost us: seq<Mat>)
    requires u.Valid() && u.cols == 1 && |U| == |us| > 0 && AreColumns(us, u.rows) && HoldFrom(U, us, 0)
    requires forall k | 0 <= k < |U| :: U[k].data != u.data
    modifies u.data
    ensures u.Value() == MeanFrom(old(u.Value()), us)
  {
    ghost var u0 := u.Value();
    var i := 0;
    while i < |U|
      invariant 0 <= i <= |U| && u.Value() == AddUp(u0, us[..i])
    {
      assert Holds(U[i], us[i]);
      AddColumnInto(u, U[i]);
      assert us[..i + 1][..i] == us[..i];
      i := i + 1;
    }
    assert us[..|U|] == us;
    u.ElemDivideByConst(|U| as real);
  }

  /** Lines 59-67 for class i: S_b receives the term of class i; the class matrices are left alone. */
  method ClassBetween(Xc: seq<Matrix>, U: seq<Matrix>, u: Matrix, Sb: Matrix, Sw: Matrix,
                      ghost bs: seq<Mat>, ghost ms: seq<Mat>, ghost uval: Mat, ghost Repr: set<array<real>>,
                      ghost sbs: seq<Mat>, i: nat)
    requires Layout(Xc, U, u, Sb, Sw, bs, ms, uval, Repr) && BetweenChain(sbs, bs, ms, uval) && i < |Xc|
    requires Holding(Xc, U, u, bs, ms, uval, i) && Sb.Valid() && Sb.Value() == sbs[i]
    modifies Sb.data
    ensures Holding(Xc, U, u, bs, ms, uval, i) && Sb.Valid() && Sb.Value() == sbs[i + 1]
  {
    HoldFromNext(Xc, bs, i);
    HoldFromNext(U, ms, i);
    assert BetweenLink(sbs, bs, ms, uval, i);
    AddBetweenTerm(U[i], u, Xc[i].cols, Sb);
  }

  /** Lines 69-75 for class i: X_classes[i] is centred and S_w receives the term of class i. */
  method ClassWithin(Xc: seq<Matrix>, U: seq<Matrix>, u: Matrix, Sb: Matrix, Sw: Matrix,
                     ghost bs: seq<Mat>, ghost ms: seq<Mat>, ghost uval: Mat, ghost Repr: set<array<real>>,
                     ghost sws: seq<Mat>, i: nat)
    requires Layout(Xc, U, u, Sb, Sw, bs, ms, uval, Repr) && WithinChain(sws, bs, ms) && i < |Xc|
    requires Holding(Xc, U, u, bs, ms, uval, i) && Sw.Valid() && Sw.Value() == sws[i]
    modifies Sw.data, Xc[i].data
    ensures Holding(Xc, U, u, bs, ms, uval, i + 1) && Sw.Valid() && Sw.Value() == sws[i + 1]
  {
    HoldFromNext(Xc, bs, i);
    HoldFromNext(U, ms, i);
    assert WithinLink(sws, bs, ms, i);
    AddWithinTerm(Xc[i], U[i], Sw);
  }

  /** Lines 56-83: the loop adding the terms of every class to S_b and S_w. */
  method AccumulateClasses(Xc: seq<Matrix>, U: seq<Matrix>, u: Matrix, Sb: Matrix, Sw: Matrix,
                           ghost bs: seq<Mat>, ghost ms: seq<Mat>, ghost uval: Mat, ghost Repr: set<array<real>>,
                           ghost sbs: seq<Mat>, ghost sws: seq<Mat>)
    requires Layout(Xc, U, u, Sb, Sw, bs, ms, uval, Repr)
    requires BetweenChain(sbs, bs, ms, uval) && WithinChain(sws, bs, ms)
    requires Holding(Xc, U, u, bs, ms, uval, 0)
    requires Sb.Valid() && Sb.Value() == sbs[0] && Sw.Valid() && Sw.Value() == sws[0]
    modifies Sb.data, Sw.data, Repr
    ensures Sb.Value() == sbs[|Xc|] && Sw.Value() == sws[|Xc|]
  {
    var i := 0;
    while i < |Xc|
      invariant 0 <= i <= |Xc|
      invariant Holding(Xc, U, u, bs, ms, uval, i)
      invariant Sb.Valid() && Sb.Value() == sbs[i] && Sw.Valid() && Sw.Value() == sws[i]
    {
      ClassBetween(Xc, U, u, Sb, Sw, bs, ms, uval, Repr, sbs, i);
      ClassWithin(Xc, U, u, Sb, Sw, bs, ms, uval, Repr, sws, i);
      i := i + 1;
    }
  }

  /**
   * Lines 43-83: u is allocated and filled with the average of the class
   * means, then every class adds its terms to S_b and S_w.  The buffer of u
   * starts out zeroed here, which the source leaves to malloc.
   */
  method AccumulateScatter(Xc: seq<Matrix>, U: seq<Matrix>, Sb: Matrix, Sw: Matrix,
                           ghost x: Mat, ghost cls: seq<int>, c: nat, ghost bs: seq<Mat>, ghost ms: seq<Mat>,
                           ghost Repr: set<array<real>>)
    requires x.Wf() && |cls| == x.cols && 0 < c <= Runs(cls) && bs == Blocks(x, cls, c) && ms == ClassMeans(x, cls, c)
    requires |Xc| == c && |U| == c && HoldFrom(Xc, bs, 0) && HoldFrom(U, ms, 0)
    requires Separate(Xc, U, Repr) && Sb.data !in Repr && Sw.data !in Repr && Sb.data != Sw.data
    requires Sb.Valid() && Sb.rows == x.rows && Sb.cols == x.rows
    requires Sw.Valid() && Sw.rows == x.rows && Sw.cols == x.rows
    modifies Sb.data, Sw.data, Repr
    ensures Sb.Value() == BetweenScatter(old(Sb.Value()), x, cls, GrandMean(x, cls, c), c)
    ensures Sw.Value() == WithinScatter(old(Sw.Value()), x, cls, c)
  {
    var u := new Matrix.Zeros(Sb.rows, 1);
    AverageInto(u, U, ms);
    ghost var uval := GrandMean(x, cls, c);
    BlocksShaped(x, cls, c, uval);
    BetweenSumsChain(Sb.Value(), x, cls, uval, c);
    WithinSumsChain(Sw.Value(), x, cls, c);
    AccumulateClasses(Xc, U, u, Sb, Sw, bs, ms, uval, Repr, BetweenSums(Sb.Value(), x, cls, uval, c), WithinSums(Sw.Value(), x, cls, c));
  }

  /**
   * Lines 43-83 as written: u comes from m_initialize, so the class means
   * are added onto whatever its fresh buffer holds (u0) before the division
   * by c, and S_b is taken about MeanFrom(u0, U), the average of the class
   * means plus u0 / c (ScatterLaws.MeanFromShifted).  S_w does not read u.
   */
  method AccumulateScatterAsWritten(Xc: seq<Matrix>, U: seq<Matrix>, Sb: Matrix, Sw: Matrix,
                                    ghost x: Mat, ghost cls: seq<int>, c: nat, ghost bs: seq<Mat>, ghost ms: seq<Mat>,
                                    ghost Repr: set<array<real>>)
    returns (ghost u0: Mat)
    requires x.Wf() && |cls| == x.cols && 0 < c <= Runs(cls) && bs == Blocks(x, cls, c) && ms == ClassMeans(x, cls, c)
    requires |Xc| == c && |U| == c && HoldFrom(Xc, bs, 0) && HoldFrom(U, ms, 0)
    requires Separate(Xc, U, Repr) && Sb.data !in Repr && Sw.data !in Repr && Sb.data != Sw.data
    requires Sb.Valid() && Sb.rows == x.rows && Sb.cols == x.rows
    requires Sw.Valid() && Sw.rows == x.rows && Sw.cols == x.rows
    modifies Sb.data, Sw.data, Repr
    ensures u0.Wf() && u0.rows == x.rows && u0.cols == 1
    ensures Sb.Value() == BetweenScatter(old(Sb.Value()), x, cls, MeanFrom(u0, ms), c)
    ensures Sw.Value() == WithinScatter(old(Sw.Value()), x, cls, c)
  {
    var u := new Matrix.Initialize(Sb.rows, 1);
    u0 := u.Value();
    AverageInto(u, U, ms);
    ghost var uval := MeanFrom(u0, ms);
    BlocksShaped(x, cls, c, uval);
    BetweenSumsChain(Sb.Value(), x, cls, uval, c);
    WithinSumsChain(Sw.Value(), x, cls, c);
    AccumulateClasses(Xc, U, u, Sb, Sw, bs, ms, uval, Repr, BetweenSums(Sb.Value(), x, cls, uval, c), WithinSums(Sw.Value(), x, cls, c));
  }

  /**
   * m_scatter: S_b and S_w receive, for each of the c blocks, the between-
   * and within-class terms about the grand mean u, the average of the c
   * class means.  X itself is never written: only its copies are centred.
   * With c = 0 nothing is added (the division by c at line 51 then only
   * touches `u`, which is never read).
   */
  method Scatter(X: Matrix, c: nat, entries: seq<Entry>, Sb: Matrix, Sw: Matrix)
    requires X.Valid() && X.cols <= |entries| && c <= Runs(Classes(entries, X.cols))
    requires Sb.Valid() && Sb.rows == X.rows && Sb.cols == X.rows
    requires Sw.Valid() && Sw.rows == X.rows && Sw.cols == X.rows
    requires Sb.data != Sw.data
    modifies Sb.data, Sw.data
    ensures c == 0 ==> Sb.Value() == old(Sb.Value())
    ensures c > 0 ==> Sb.Value() == BetweenScatter(old(Sb.Value()), old(X.Value()), Classes(entries, X.cols),
                                                    GrandMean(old(X.Value()), Classes(entries, X.cols), c), c)
    ensures Sw.Value() == WithinScatter(old(Sw.Value()), old(X.Value()), Classes(entries, X.cols), c)
    ensures X.data != Sb.data && X.data != Sw.data ==> X.Value() == old(X.Value())
  {
    ghost var x, cls := X.Value(), Classes(entries, X.cols);
    ghost var sb0, sw0 := Sb.Value(), Sw.Value();
    ghost var bs, ms := Blocks(x, cls, c), ClassMeans(x, cls, c);
    BlocksAreClasses(x, cls, c);
    var Xc, U, Repr := SplitClasses(X, c, entries, bs, ms);
    assert X.data !in Repr && Sb.data !in Repr && Sw.data !in Repr;
    if c == 0 {
      return;
    }
    AccumulateScatter(Xc, U, Sb, Sw, x, cls, c, bs, ms, Repr);
  }

  // ---------------------------------------------------------------------
  // LDA

  /**
   * LDA: the scatter matrices of the projected images P_pca, then W_fld,
   * the eigenvectors of S_w^-1 S_b (given as `evec`, since LAPACK computes
   * them), and finally W_lda' = W_fld' W_pca'.
   */
  method Lda(WpcaTr: Matrix, Ppca: Matrix, c: nat, entries: seq<Entry>, evec: Mat) returns (WldaTr: Matrix)
    requires WpcaTr.Valid() && Ppca.Valid() && WpcaTr.rows == Ppca.rows
    requires Ppca.cols <= |entries| && c <= Runs(Classes(entries, Ppca.cols))
    requires evec.Wf() && evec.rows == Ppca.rows && evec.cols == Ppca.rows
    ensures WldaTr.Valid() && fresh(WldaTr.data)
    ensures WldaTr.rows == Ppca.rows && WldaTr.cols == WpcaTr.cols
    ensures WldaTr.Value() == Product(MatrixSpec.Transpose(evec), WpcaTr.Value())
  {
    var Sb := new Matrix.Zeros(Ppca.rows, Ppca.rows);
    var Sw := new Matrix.Zeros(Ppca.rows, Ppca.rows);
    Scatter(Ppca, c, entries, Sb, Sw);
    var SwInv := Inverse(Sw);
    var J := Multiply(SwInv, Sb);
    var Jeval := new Matrix.Initialize(J.rows, 1);
    var Jevec := new Matrix.Initialize(J.rows, J.cols);
    Eigen(J, Jeval, Jevec, evec);
    var WfldTr := Jevec.Transpose();
    WldaTr := Multiply(WfldTr, WpcaTr);
  }
}
