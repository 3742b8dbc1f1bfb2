/**
 * The matrix objects of src/matrix.c and the operations that fill or
 * overwrite their buffers.
 *
 * A `Matrix` is `rows`, `cols` and a flat buffer of rows * cols entries
 * stored column-major with leading dimension `rows`: the library's
 * `elem(M, i, j)` is `data[j * rows + i]` (this is the layout the
 * CblasColMajor and LAPACK_COL_MAJOR calls are given).  `Value()` reads
 * the buffer back as a `Mat`, and every operation is specified by the
 * function of MatrixSpec or DeterminantSpec it computes.
 */
module MatrixLib {
  import opened IndexArith
  import opened MatrixSpec
  import opened MatrixLaws
  import opened DeterminantSpec

  // ---------------------------------------------------------------------
  // The column-major layout

  /** The rows-by-cols matrix whose entry (i, j) is s[j * rows + i]. */
  function ColumnMajor(s: seq<real>, rows: nat, cols: nat): (m: Mat)
    requires |s| == rows * cols
    ensures m.Wf() && m.rows == rows && m.cols == cols
  {
    Mat(rows, cols, seq(rows, i requires 0 <= i < rows => ColumnMajorRow(s, rows, cols, i)))
  }

  /** Row i of the column-major buffer s: entries i, rows + i, 2 * rows + i, ... */
  function ColumnMajorRow(s: seq<real>, rows: nat, cols: nat, i: nat): (row: seq<real>)
    requires |s| == rows * cols && i < rows
    ensures |row| == cols
  {
    seq(cols, j requires 0 <= j < cols => OffsetInRange(i, j, rows, cols); s[j * rows + i])
  }

  lemma ColumnMajorEntry(s: seq<real>, rows: nat, cols: nat, i: nat, j: nat)
    requires |s| == rows * cols && i < rows && j < cols
    ensures j * rows + i < |s| && ColumnMajor(s, rows, cols).cells[i][j] == s[j * rows + i]
  {
    OffsetInRange(i, j, rows, cols);
  }

  /** A buffer of zeros holds the zero matrix. */
  lemma ColumnMajorOfZeros(s: seq<real>, rows: nat, cols: nat)
    requires |s| == rows * cols && forall k | 0 <= k < |s| :: s[k] == 0.0
    ensures ColumnMajor(s, rows, cols) == Zeros(rows, cols)
  {
    forall a, b | 0 <= a < rows && 0 <= b < cols
      ensures ColumnMajor(s, rows, cols).cells[a][b] == 0.0
    {
      ColumnMajorEntry(s, rows, cols, a, b);
    }
    Ext(ColumnMajor(s, rows, cols), Zeros(rows, cols));
  }

  /** m with entry (i, j) replaced by x. */
  function SetEntry(m: Mat, i: nat, j: nat, x: real): (r: Mat)
    requires m.Wf() && i < m.rows && j < m.cols
    ensures r.Wf() && SameShape(r, m) && r.cells[i][j] == x
    ensures forall a, b | 0 <= a < m.rows && 0 <= b < m.cols && (a != i || b != j) :: r.cells[a][b] == m.cells[a][b]
  {
    Mat(m.rows, m.cols, m.cells[i := m.cells[i][j := x]])
  }

  /** Writing offset j * rows + i of the buffer changes entry (i, j) and no other. */
  lemma ColumnMajorUpdate(s: seq<real>, rows: nat, cols: nat, i: nat, j: nat, x: real)
    requires |s| == rows * cols && i < rows && j < cols
    ensures j * rows + i < |s|
    ensures ColumnMajor(s[j * rows + i := x], rows, cols) == SetEntry(ColumnMajor(s, rows, cols), i, j, x)
  {
    OffsetInRange(i, j, rows, cols);
    var k := j * rows + i;
    var t := s[k := x];
    var after, expected := ColumnMajor(t, rows, cols), SetEntry(ColumnMajor(s, rows, cols), i, j, x);
    forall a, b | 0 <= a < rows && 0 <= b < cols
      ensures after.cells[a][b] == expected.cells[a][b]
    {
      ColumnMajorEntry(t, rows, cols, a, b);
      ColumnMajorEntry(s, rows, cols, a, b);
      if (a != i || b != j) && b * rows + a == k {
        OffsetInjective(a, b, i, j, rows);
      }
    }
    Ext(after, expected);
  }

  /** The buffer that stores `v` column-major. */
  function ToColumnMajor(v: Mat): (s: seq<real>)
    requires v.Wf()
    ensures |s| == v.rows * v.cols
  {
    seq(v.rows * v.cols, k requires 0 <= k < v.rows * v.cols => ColumnMajorAt(v, k))
  }

  /** Offset k of the column-major buffer: row k % rows of column k / rows. */
  function ColumnMajorAt(v: Mat, k: nat): real
    requires v.Wf() && k < v.rows * v.cols
  {
    SplitOffset(k, v.rows, v.cols);
    v.cells[k % v.rows][k / v.rows]
  }

  /** Storing a matrix column-major and reading it back gives the matrix. */
  lemma ColumnMajorRoundTrip(v: Mat)
    requires v.Wf()
    ensures ColumnMajor(ToColumnMajor(v), v.rows, v.cols) == v
  {
    var s := ToColumnMajor(v);
    forall a, b | 0 <= a < v.rows && 0 <= b < v.cols
      ensures ColumnMajor(s, v.rows, v.cols).cells[a][b] == v.cells[a][b]
    {
      ColumnMajorEntry(s, v.rows, v.cols, a, b);
      DivModOfOffset(a, b, v.rows);
    }
    Ext(ColumnMajor(s, v.rows, v.cols), v);
  }

  /** Entry (a, b) is visited before entry (i, j) when the entries are visited row by row. */
  predicate Before(a: nat, b: nat, i: nat, j: nat)
  {
    a < i || (a == i && b < j)
  }

  /** v and t agree on every entry visited before (i, j). */
  predicate AgreeBefore(v: Mat, t: Mat, i: nat, j: nat)
    requires v.Wf() && t.Wf() && SameShape(v, t)
  {
    forall a, b | 0 <= a < v.rows && 0 <= b < v.cols && Before(a, b, i, j) :: v.cells[a][b] == t.cells[a][b]
  }

  /** Writing t's entry at the cursor extends the agreement by one entry. */
  lemma AgreeStep(v: Mat, t: Mat, i: nat, j: nat)
    requires v.Wf() && t.Wf() && SameShape(v, t) && i < v.rows && j < v.cols
    requires AgreeBefore(v, t, i, j)
    ensures AgreeBefore(SetEntry(v, i, j, t.cells[i][j]), t, i, j + 1)
  {
  }

  /** Agreement up to the end of row i is agreement up to the start of row i + 1. */
  lemma AgreeNextRow(v: Mat, t: Mat, i: nat)
    requires v.Wf() && t.Wf() && SameShape(v, t) && AgreeBefore(v, t, i, v.cols)
    ensures AgreeBefore(v, t, i + 1, 0)
  {
  }

  /** Agreement on every entry is equality. */
  lemma AgreeAll(v: Mat, t: Mat, i: nat, j: nat)
    requires v.Wf() && t.Wf() && SameShape(v, t) && AgreeBefore(v, t, i, j)
    requires v.rows <= i || v.cols == 0
    ensures v == t
  {
    Ext(v, t);
  }

  /** Entries visited before (i, j) are t's, the rest are still u's. */
  predicate Spliced(v: Mat, t: Mat, u: Mat, i: nat, j: nat)
    requires v.Wf() && t.Wf() && u.Wf() && SameShape(v, t) && SameShape(v, u)
  {
    forall a, b | 0 <= a < v.rows && 0 <= b < v.cols ::
      v.cells[a][b] == if Before(a, b, i, j) then t.cells[a][b] else u.cells[a][b]
  }

  /** Before the first write nothing has been replaced. */
  lemma SpliceStart(v: Mat, t: Mat)
    requires v.Wf() && t.Wf() && SameShape(v, t)
    ensures Spliced(v, t, v, 0, 0)
  {
  }

  /** Writing t's entry at the cursor moves the cursor one entry on. */
  lemma SpliceStep(v: Mat, t: Mat, u: Mat, i: nat, j: nat)
    requires v.Wf() && t.Wf() && u.Wf() && SameShape(v, t) && SameShape(v, u)
    requires i < v.rows && j < v.cols && Spliced(v, t, u, i, j)
    ensures v.cells[i][j] == u.cells[i][j]
    ensures Spliced(SetEntry(v, i, j, t.cells[i][j]), t, u, i, j + 1)
  {
  }

  /** The end of row i is the start of row i + 1. */
  lemma SpliceNextRow(v: Mat, t: Mat, u: Mat, i: nat)
    requires v.Wf() && t.Wf() && u.Wf() && SameShape(v, t) && SameShape(v, u)
    requires Spliced(v, t, u, i, v.cols)
    ensures Spliced(v, t, u, i + 1, 0)
  {
  }

  /** Once every entry has been visited, v is t. */
  lemma SpliceDone(v: Mat, t: Mat, u: Mat, i: nat)
    requires v.Wf() && t.Wf() && u.Wf() && SameShape(v, t) && SameShape(v, u)
    requires Spliced(v, t, u, i, 0) && v.rows <= i
    ensures v == t
  {
    Ext(v, t);
  }

  /** rows-by-1: the total of the first k entries of each row. */
  function PartialRowSums(m: Mat, k: nat): (r: Mat)
    requires m.Wf() && k <= m.cols
    ensures r.Wf() && r.rows == m.rows && r.cols == 1
    ensures forall i | 0 <= i < m.rows :: r.cells[i][0] == Sum(m.cells[i][..k])
  {
    Mat(m.rows, 1, seq(m.rows, i requires 0 <= i < m.rows => [Sum(m.cells[i][..k])]))
  }

  /** No entries added up is the zero column. */
  lemma PartialRowSumsStart(m: Mat)
    requires m.Wf()
    ensures PartialRowSums(m, 0) == Zeros(m.rows, 1)
  {
    var p := PartialRowSums(m, 0);
    forall i | 0 <= i < m.rows
      ensures p.cells[i][0] == 0.0
    {
      assert m.cells[i][..0] == [];
    }
    Ext(p, Zeros(m.rows, 1));
  }

  /** All entries added up gives the row totals. */
  lemma PartialRowSumsDone(m: Mat)
    requires m.Wf()
    ensures PartialRowSums(m, m.cols) == SumRows(m)
  {
    forall i | 0 <= i < m.rows
      ensures m.cells[i][..m.cols] == m.cells[i]
    {
    }
    Ext(PartialRowSums(m, m.cols), SumRows(m));
  }

  /** The mean column is the row totals divided by the number of columns. */
  lemma MeanColumnOfTotals(m: Mat)
    requires m.Wf() && m.cols > 0
    ensures MeanColumn(m) == DivideByConst(SumRows(m), m.cols as real)
  {
    Ext(MeanColumn(m), DivideByConst(SumRows(m), m.cols as real));
  }

  /** Every entry of m visited before (i, j) lies in [lo, hi]. */
  predicate WithinBefore(m: Mat, lo: real, hi: real, i: nat, j: nat)
    requires m.Wf()
  {
    forall a, b | 0 <= a < m.rows && 0 <= b < m.cols && Before(a, b, i, j) :: lo <= m.cells[a][b] <= hi
  }

  /** Widening the bounds to cover the entry at the cursor extends the scan by one entry. */
  lemma WithinStep(m: Mat, lo: real, hi: real, lo': real, hi': real, i: nat, j: nat)
    requires m.Wf() && i < m.rows && j < m.cols && WithinBefore(m, lo, hi, i, j)
    requires lo' <= lo && hi <= hi' && lo' <= m.cells[i][j] <= hi'
    ensures WithinBefore(m, lo', hi', i, j + 1)
  {
  }

  /** A scan that reached the end of row i has reached the start of row i + 1. */
  lemma WithinNextRow(m: Mat, lo: real, hi: real, i: nat)
    requires m.Wf() && WithinBefore(m, lo, hi, i, m.cols)
    ensures WithinBefore(m, lo, hi, i + 1, 0)
  {
  }

  /** Bounds over the whole matrix that are attained are its least and greatest entries. */
  lemma WithinAll(m: Mat, lo: real, hi: real, li: nat, lj: nat, hi_: nat, hj: nat)
    requires m.Wf() && WithinBefore(m, lo, hi, m.rows, 0)
    requires li < m.rows && lj < m.cols && m.cells[li][lj] == lo
    requires hi_ < m.rows && hj < m.cols && m.cells[hi_][hj] == hi
    ensures lo == MinEntry(m) && hi == MaxEntry(m)
  {
    assert IsMinEntry(m, lo) && IsMaxEntry(m, hi);
    MinEntryUnique(m, lo);
    MaxEntryUnique(m, hi);
  }

  /** A matrix whose every entry is the Ratio of m's entry is m rescaled. */
  lemma RescaleEntries(v: Mat, m: Mat, lo: real, hi: real)
    requires v.Wf() && m.Wf() && SameShape(v, m) && lo < hi
    requires forall a, b | 0 <= a < m.rows && 0 <= b < m.cols :: v.cells[a][b] == Ratio(m.cells[a][b], lo, hi)
    ensures v == Rescale(m, lo, hi)
  {
    Ext(v, Rescale(m, lo, hi));
  }

  /**
   * The state of m_flipCols at cursor (i, j): rows above i are mirrored,
   * row i is mirrored in its first j and last j columns, the rest is as in m.
   */
  predicate FlippedUpTo(v: Mat, m: Mat, i: nat, j: nat)
    requires v.Wf() && m.Wf() && SameShape(v, m)
  {
    forall a, b | 0 <= a < m.rows && 0 <= b < m.cols ::
      v.cells[a][b] == if a < i || (a == i && (b < j || b >= m.cols - j)) then FlipCols(m).cells[a][b] else m.cells[a][b]
  }

  /** One swap of m_flipCols extends the mirrored part of row i by one column at each end. */
  lemma FlipStep(v: Mat, m: Mat, i: nat, j: nat, k: nat)
    requires v.Wf() && m.Wf() && SameShape(v, m) && i < m.rows && j < m.cols / 2 && k == m.cols - j - 1
    requires FlippedUpTo(v, m, i, j)
    ensures FlippedUpTo(SetEntry(SetEntry(v, i, j, v.cells[i][k]), i, k, v.cells[i][j]), m, i, j + 1)
  {
    var n := m.cols;
    var w := SetEntry(SetEntry(v, i, j, v.cells[i][k]), i, k, v.cells[i][j]);
    assert v.cells[i][k] == m.cells[i][k] && v.cells[i][j] == m.cells[i][j];
    forall a, b | 0 <= a < m.rows && 0 <= b < n
      ensures w.cells[a][b] == if a < i || (a == i && (b < j + 1 || b >= n - (j + 1))) then FlipCols(m).cells[a][b] else m.cells[a][b]
    {
      if a == i && b == j {
        assert w.cells[a][b] == m.cells[i][k];
      } else if a == i && b == k {
        assert w.cells[a][b] == m.cells[i][j];
      } else {
        assert w.cells[a][b] == v.cells[a][b];
      }
    }
  }

  /** Once the swaps of row i reach the middle, row i is mirrored; an odd middle column is its own mirror. */
  lemma FlipRowDone(v: Mat, m: Mat, i: nat)
    requires v.Wf() && m.Wf() && SameShape(v, m) && FlippedUpTo(v, m, i, m.cols / 2)
    ensures FlippedUpTo(v, m, i + 1, 0)
  {
    var n := m.cols;
    forall a, b | 0 <= a < m.rows && 0 <= b < n
      ensures v.cells[a][b] == if a < i + 1 then FlipCols(m).cells[a][b] else m.cells[a][b]
    {
      if a == i && !(b < n / 2 || b >= n - n / 2) {
        assert b == n - 1 - b;
      }
    }
  }

  lemma FlipDone(v: Mat, m: Mat)
    requires v.Wf() && m.Wf() && SameShape(v, m) && FlippedUpTo(v, m, m.rows, 0)
    ensures v == FlipCols(m)
  {
    Ext(v, FlipCols(m));
  }

  /**
   * Step p of m_reshape's copy loop, with (r, c) the row-major position of p
   * in the new shape: p / nc and p % nc are r and c, and p + 1 is the next
   * position in row-by-row order.
   */
  lemma ReshapeCursor(nr: nat, nc: nat, p: nat, r: nat, c: nat)
    requires p < nr * nc && p == r * nc + c && c < nc
    ensures r < nr && p / nc == r && p % nc == c
    ensures p + 1 == (if c + 1 == nc then r + 1 else r) * nc + (if c + 1 == nc then 0 else c + 1)
  {
    SplitOffset(p, nc, nr);
    DivModOfOffset(c, r, nc);
    assert (r + 1) * nc == r * nc + nc;
  }

  /** One more entry of a row, scanned by m_findNonZeros. */
  lemma RowHitsStep(row: seq<real>, j: nat, tag: real)
    requires j < |row|
    ensures RowHits(row[..j + 1], tag) == RowHits(row[..j], tag) + (if row[j] != 0.0 then [tag] else [])
  {
    assert row[..j + 1][..j] == row[..j];
  }

  /** Fewer labels are found before cursor (i, j) than the matrix has entries. */
  lemma FoundBeforeCursor(m: Mat, i: nat, j: nat)
    requires m.Wf() && i < m.rows && j < m.cols
    ensures |Hits(m, i) + RowHits(m.cells[i][..j], (i + 1) as real)| < m.rows * m.cols
  {
    HitsBound(m, i);
    OffsetInRange(j, i, m.cols, m.rows);
  }

  /** Visiting entry (i, j) appends label i + 1 exactly when the entry is non-zero. */
  lemma FoundStep(m: Mat, i: nat, j: nat, found: seq<real>)
    requires m.Wf() && i < m.rows && j < m.cols
    requires found == Hits(m, i) + RowHits(m.cells[i][..j], (i + 1) as real)
    ensures (if m.cells[i][j] != 0.0 then found + [(i + 1) as real] else found)
      == Hits(m, i) + RowHits(m.cells[i][..j + 1], (i + 1) as real)
  {
    RowHitsStep(m.cells[i], j, (i + 1) as real);
  }

  /** After the last column of row i the labels found are those of rows 0..i. */
  lemma FoundRowDone(m: Mat, i: nat, found: seq<real>)
    requires m.Wf() && i < m.rows
    requires found == Hits(m, i) + RowHits(m.cells[i][..m.cols], (i + 1) as real)
    ensures found == Hits(m, i + 1)
  {
    assert m.cells[i][..m.cols] == m.cells[i];
  }

  /** With nothing found yet the padded column is all zeros. */
  lemma PaddedEmpty(n: nat)
    ensures PaddedColumn([], n) == Zeros(n, 1)
  {
    Ext(PaddedColumn([], n), Zeros(n, 1));
  }

  /** Writing x just past the found entries appends x to them. */
  lemma PaddedPush(h: seq<real>, n: nat, x: real)
    requires |h| < n
    ensures SetEntry(PaddedColumn(h, n), |h|, 0, x) == PaddedColumn(h + [x], n)
  {
    Ext(SetEntry(PaddedColumn(h, n), |h|, 0, x), PaddedColumn(h + [x], n));
  }

  /** v and t agree on every entry visited before (r, c) when the entries are visited column by column. */
  predicate AgreeColsBefore(v: Mat, t: Mat, c: nat, r: nat)
    requires v.Wf() && t.Wf() && SameShape(v, t)
  {
    forall a, b | 0 <= a < v.rows && 0 <= b < v.cols && Before(b, a, c, r) :: v.cells[a][b] == t.cells[a][b]
  }

  /** Writing t's entry at the cursor extends the agreement by one entry down the column. */
  lemma AgreeColsStep(v: Mat, t: Mat, c: nat, r: nat)
    requires v.Wf() && t.Wf() && SameShape(v, t) && r < v.rows && c < v.cols
    requires AgreeColsBefore(v, t, c, r)
    ensures AgreeColsBefore(SetEntry(v, r, c, t.cells[r][c]), t, c, r + 1)
  {
  }

  /** Agreement down to the bottom of column c is agreement up to the top of column c + 1. */
  lemma AgreeColsNext(v: Mat, t: Mat, c: nat)
    requires v.Wf() && t.Wf() && SameShape(v, t) && AgreeColsBefore(v, t, c, v.rows)
    ensures AgreeColsBefore(v, t, c + 1, 0)
  {
  }

  /** Agreement on every column is equality. */
  lemma AgreeColsAll(v: Mat, t: Mat, c: nat, r: nat)
    requires v.Wf() && t.Wf() && SameShape(v, t) && AgreeColsBefore(v, t, c, r)
    requires v.cols <= c || v.rows == 0
    ensures v == t
  {
    Ext(v, t);
  }

  /**
   * The sign of m_determinant and m_cofactor, 1 - 2 * ((i % 2) ^ (j % 2)),
   * is +1 when i and j have the same parity and -1 otherwise: multiplying by
   * it is Signed(i + j, .).
   */
  function ParitySign(i: nat, j: nat): (s: int)
    ensures s == 1 || s == -1
  {
    1 - 2 * (if i % 2 == j % 2 then 0 else 1)
  }

  lemma ParitySignIsSigned(i: nat, j: nat, x: real, d: real)
    ensures ParitySign(i, j) as real * x * d == Signed(i + j, x) * d
    ensures ParitySign(i, j) as real * d == Signed(i + j, d)
  {
    SignedMatchesParity(i, j, x);
    SignedMatchesParity(i, j, d);
  }

  /** Pass j of m_determinant's column loop adds ExpansionTerm(m, j) to the running total. */
  lemma ExpansionStep(m: Mat, j: nat, det: real, sign: int, i: nat, x: real, val: real)
    requires m.Wf() && Square(m) && 1 <= m.rows && j < m.cols && det == Expansion(m, j)
    requires i == m.rows && sign == ParitySign(i, j) && x == m.cells[0][j] && val == Det(Minor(m, 0, j))
    ensures det + sign as real * x * val == Expansion(m, j + 1)
  {
    ParitySignIsSigned(i, j, x, val);
  }

  /** Entry (r, c) outside row i and column j lands at (row, col) of the minor, counting only the rows and columns kept. */
  lemma MinorCursor(m: Mat, i: nat, j: nat, r: nat, c: nat, row: nat, col: nat)
    requires m.Wf() && Square(m) && i < m.rows && j < m.cols && r < m.rows && c < m.cols && r != i && c != j
    requires row == (if r <= i then r else r - 1) && col == (if c <= j then c else c - 1)
    ensures row < m.rows - 1 && col < m.cols - 1 && Minor(m, i, j).cells[row][col] == m.cells[r][c]
  {
    MinorEntry(m, i, j, row, col);
  }

  /** The signed determinant of minor (i, j) is the entry m_cofactor stores at (j, i). */
  lemma CofactorEntry(m: Mat, i: nat, j: nat, d: real, sign: int)
    requires m.Wf() && Square(m) && i < m.rows && j < m.cols
    requires d == Det(Minor(m, i, j)) && sign == ParitySign(i, j)
    ensures sign as real * d == DeterminantSpec.Cofactor(m).cells[j][i]
  {
    SignedMatchesParity(j, i, d);
  }

  // ---------------------------------------------------------------------
  // matrix_t

  class Matrix {
    const rows: nat
    const cols: nat
    const data: array<real>

    /** The buffer holds exactly rows * cols entries. */
    predicate Valid()
    {
      data.Length == rows * cols
    }

    /** The entries the buffer holds, as a matrix value. */
    function Value(): (m: Mat)
      requires Valid()
      reads data
      ensures m.Wf() && m.rows == rows && m.cols == cols
    {
      ColumnMajor(data[..], rows, cols)
    }

    /** elem(M, i, j), read. */
    function Elem(i: nat, j: nat): (x: real)
      requires Valid() && i < rows && j < cols
      reads data
      ensures x == Value().cells[i][j]
    {
      ColumnMajorEntry(data[..], rows, cols, i, j);
      data[j * rows + i]
    }

    /** elem(M, i, j) = x. */
    method Set(i: nat, j: nat, x: real)
      requires Valid() && i < rows && j < cols
      modifies data
      ensures Value() == SetEntry(old(Value()), i, j, x)
    {
      OffsetInRange(i, j, rows, cols);
      ColumnMajorUpdate(data[..], rows, cols, i, j, x);
      data[j * rows + i] := x;
      assert data[..] == old(data[..])[j * rows + i := x];
    }

    /**
     * Overwrites every entry with those of `v`: the effect of the helpers
     * this library calls but does not define (m_add, m_subtract and the
     * BLAS product), given their evident semantics.
     */
    method Assign(v: Mat)
      requires Valid() && v.Wf() && v.rows == rows && v.cols == cols
      modifies data
      ensures Value() == v
    {
      var s := ToColumnMajor(v);
      forall k | 0 <= k < data.Length {
        data[k] := s[k];
      }
      assert data[..] == s;
      ColumnMajorRoundTrip(v);
    }

    // -------------------------------------------------------------------
    // Constructors

    /** m_initialize: the buffer comes from malloc, so its entries are left unspecified. */
    constructor Initialize(rows: nat, cols: nat)
      ensures Valid() && this.rows == rows && this.cols == cols && fresh(data)
    {
      this.rows, this.cols := rows, cols;
      data := new real[rows * cols];
    }

    /** m_zeros: the buffer comes from calloc, so every entry is 0. */
    constructor Zeros(rows: nat, cols: nat)
      ensures Valid() && this.rows == rows && this.cols == cols && fresh(data)
      ensures Value() == MatrixSpec.Zeros(rows, cols)
    {
      this.rows, this.cols := rows, cols;
      data := new real[rows * cols](_ => 0.0);
      new;
      ColumnMajorOfZeros(data[..], rows, cols);
    }

    /** m_identity: a zero matrix with 1 written on the diagonal. */
    constructor Identity(n: nat)
      ensures Valid() && rows == n && cols == n && fresh(data)
      ensures Value() == MatrixSpec.Identity(n)
    {
      rows, cols := n, n;
      data := new real[n * n](_ => 0.0);
      new;
      forall a, b | 0 <= a < n && 0 <= b < n
        ensures Value().cells[a][b] == 0.0
      {
        ColumnMajorEntry(data[..], n, n, a, b);
      }
      var i := 0;
      while i < n
        invariant 0 <= i <= n
        invariant forall a, b | 0 <= a < n && 0 <= b < n ::
          Value().cells[a][b] == if a == b && a < i then 1.0 else 0.0
      {
        Set(i, i, 1.0);
        i := i + 1;
      }
      Ext(Value(), MatrixSpec.Identity(n));
    }

    /** m_copy: a fresh buffer with the same entries (memcpy). */
    constructor Copy(M: Matrix)
      requires M.Valid()
      ensures Valid() && rows == M.rows && cols == M.cols && fresh(data)
      ensures Value() == M.Value()
    {
      rows, cols := M.rows, M.cols;
      var d := new real[M.rows * M.cols];
      forall k | 0 <= k < d.Length {
        d[k] := M.data[k];
      }
      data := d;
      new;
      assert data[..] == M.data[..];
    }

    /** A fresh matrix holding `v`: the result of a helper this library calls but does not define. */
    constructor FromValue(v: Mat)
      requires v.Wf()
      ensures Valid() && rows == v.rows && cols == v.cols && fresh(data)
      ensures Value() == v
    {
      rows, cols := v.rows, v.cols;
      data := new real[v.rows * v.cols];
      new;
      Assign(v);
    }

    // -------------------------------------------------------------------
    // Shape

    /** m_transpose: a fresh cols-by-rows matrix T with T[i][j] = M[j][i]. */
    method Transpose() returns (T: Matrix)
      requires Valid()
      ensures T.Valid() && fresh(T.data)
      ensures T.Value() == MatrixSpec.Transpose(Value())
    {
      T := new Matrix.Initialize(cols, rows);
      var i := 0;
      while i < T.rows
        invariant 0 <= i <= T.rows
        invariant forall a, b | 0 <= a < i && 0 <= b < T.cols :: T.Value().cells[a][b] == Value().cells[b][a]
      {
        var j := 0;
        while j < T.cols
          invariant 0 <= j <= T.cols
          invariant forall a, b | 0 <= a < T.rows && 0 <= b < T.cols && (a < i || (a == i && b < j)) ::
            T.Value().cells[a][b] == Value().cells[b][a]
        {
          T.Set(i, j, Elem(j, i));
          j := j + 1;
        }
        i := i + 1;
      }
      Ext(T.Value(), MatrixSpec.Transpose(Value()));
    }

    /** m_flipCols: swaps M[i][j] with M[i][cols - 1 - j] for j < cols / 2, in place. */
    method FlipCols()
      requires Valid()
      modifies data
      ensures Value() == MatrixSpec.FlipCols(old(Value()))
    {
      ghost var m := Value();
      var i := 0;
      while i < rows
        invariant 0 <= i <= rows
        invariant FlippedUpTo(Value(), m, i, 0)
      {
        var j := 0;
        while j < cols / 2
          invariant 0 <= j <= cols / 2
          invariant FlippedUpTo(Value(), m, i, j)
        {
          ghost var v := Value();
          var k := cols - j - 1;
          FlipStep(v, m, i, j, k);
          var temp := Elem(i, j);
          Set(i, j, Elem(i, k));
          Set(i, k, temp);
          j := j + 1;
        }
        FlipRowDone(Value(), m, i);
        i := i + 1;
      }
      FlipDone(Value(), m);
    }

    /** m_reshape: step p copies M[p / cols][p % cols] to R[p / nc][p % nc]. */
    method Reshape(nr: nat, nc: nat) returns (R: Matrix)
      requires Valid() && rows * cols == nr * nc
      ensures R.Valid() && fresh(R.data) && R.rows == nr && R.cols == nc
      ensures R.Value() == MatrixSpec.Reshape(Value(), nr, nc)
    {
      ghost var m := Value();
      ghost var target := MatrixSpec.Reshape(m, nr, nc);
      R := new Matrix.Initialize(nr, nc);
      var p := 0;
      // (gr, gc) is (p / nc, p % nc), kept as a cursor so that the invariant stays linear
      ghost var gr, gc := 0, 0;
      while p < nr * nc
        invariant 0 <= p <= nr * nc
        invariant p == gr * nc + gc && (nc > 0 ==> gc < nc)
        invariant AgreeBefore(R.Value(), target, gr, gc)
      {
        ReshapeCursor(nr, nc, p, gr, gc);
        SplitOffset(p, cols, rows);
        var r1, c1, r2, c2 := p / nc, p % nc, p / cols, p % cols;
        ReshapeReadingOrder(m, nr, nc, p, r1, c1, r2, c2);
        AgreeStep(R.Value(), target, gr, gc);
        R.Set(r1, c1, Elem(r2, c2));
        if gc + 1 == nc {
          AgreeNextRow(R.Value(), target, gr);
        }
        p := p + 1;
        gr, gc := if gc + 1 == nc then gr + 1 else gr, if gc + 1 == nc then 0 else gc + 1;
      }
      if nc > 0 {
        OffsetInjective(gc, gr, 0, nr, nc);
      }
      AgreeAll(R.Value(), target, gr, gc);
    }

    // -------------------------------------------------------------------
    // Element-wise operations in place

    /** The loop every m_elem_* operation runs: entry (i, j) becomes f(entry), row by row. */
    method Apply(f: real --> real)
      requires Valid()
      requires forall i, j | 0 <= i < rows && 0 <= j < cols :: f.requires(Value().cells[i][j])
      modifies data
      ensures forall i, j | 0 <= i < rows && 0 <= j < cols :: Value().cells[i][j] == f(old(Value()).cells[i][j])
    {
      ghost var m := Value();
      var i := 0;
      while i < rows
        invariant 0 <= i <= rows
        invariant forall a, b | 0 <= a < rows && 0 <= b < cols :: f.requires(m.cells[a][b])
        invariant forall a, b | 0 <= a < rows && 0 <= b < cols ::
          Value().cells[a][b] == if a < i then f(m.cells[a][b]) else m.cells[a][b]
      {
        var j := 0;
        while j < cols
          invariant 0 <= j <= cols
          invariant forall a, b | 0 <= a < rows && 0 <= b < cols ::
            Value().cells[a][b] == if Before(a, b, i, j) then f(m.cells[a][b]) else m.cells[a][b]
        {
          Set(i, j, f(Elem(i, j)));
          j := j + 1;
        }
        i := i + 1;
      }
    }

    /** m_elem_negate. */
    method ElemNegate()
      requires Valid()
      modifies data
      ensures Value() == Negate(old(Value()))
    {
      ghost var m := Value();
      Apply(v => -v);
      Ext(Value(), Negate(m));
    }

    /** m_elem_mult: every entry times x. */
    method ElemMult(x: real)
      requires Valid()
      modifies data
      ensures Value() == Scale(old(Value()), x)
    {
      ghost var m := Value();
      Apply(v => v * x);
      Ext(Value(), Scale(m, x));
    }

    /** m_elem_add: x added to every entry. */
    method ElemAdd(x: real)
      requires Valid()
      modifies data
      ensures Value() == AddScalar(old(Value()), x)
    {
      ghost var m := Value();
      Apply(v => v + x);
      Ext(Value(), AddScalar(m, x));
    }

    /** m_elem_divideByConst: every entry divided by x. */
    method ElemDivideByConst(x: real)
      requires Valid() && x != 0.0
      modifies data
      ensures Value() == DivideByConst(old(Value()), x)
    {
      ghost var m := Value();
      Apply(v => v / x);
      Ext(Value(), DivideByConst(m, x));
    }

    /** m_elem_divideByMatrix: num divided by every entry. */
    method ElemDivideByMatrix(num: real)
      requires Valid() && NoZeroEntry(Value())
      modifies data
      ensures Value() == DivideByMatrix(old(Value()), num)
    {
      ghost var m := Value();
      Apply(v requires v != 0.0 => num / v);
      Ext(Value(), DivideByMatrix(m, num));
    }

    /** m_elem_truncate: every entry cast to int and back. */
    method ElemTruncate()
      requires Valid()
      modifies data
      ensures Value() == Truncate(old(Value()))
    {
      ghost var m := Value();
      Apply(Trunc);
      Ext(Value(), Truncate(m));
    }

    // -------------------------------------------------------------------
    // Element-wise operations into a fresh matrix

    /** The loop every m_dot_* operation runs: R[i][j] = f(A[i][j], B[i][j]) into a fresh R. */
    method Combine(B: Matrix, f: (real, real) --> real) returns (R: Matrix)
      requires Valid() && B.Valid() && rows == B.rows && cols == B.cols
      requires forall i, j | 0 <= i < rows && 0 <= j < cols :: f.requires(Value().cells[i][j], B.Value().cells[i][j])
      ensures R.Valid() && fresh(R.data) && R.rows == rows && R.cols == cols
      ensures forall i, j | 0 <= i < rows && 0 <= j < cols ::
        R.Value().cells[i][j] == f(Value().cells[i][j], B.Value().cells[i][j])
    {
      R := new Matrix.Initialize(rows, cols);
      var i := 0;
      while i < rows
        invariant 0 <= i <= rows
        invariant forall a, b | 0 <= a < i && 0 <= b < cols ::
          R.Value().cells[a][b] == f(Value().cells[a][b], B.Value().cells[a][b])
      {
        var j := 0;
        while j < cols
          invariant 0 <= j <= cols
          invariant forall a, b | 0 <= a < rows && 0 <= b < cols && Before(a, b, i, j) ::
            R.Value().cells[a][b] == f(Value().cells[a][b], B.Value().cells[a][b])
        {
          R.Set(i, j, f(Elem(i, j), B.Elem(i, j)));
          j := j + 1;
        }
        i := i + 1;
      }
    }

    /** m_dot_add: a fresh A + B; A and B are left unchanged. */
    method DotAdd(B: Matrix) returns (R: Matrix)
      requires Valid() && B.Valid() && rows == B.rows && cols == B.cols
      ensures R.Valid() && fresh(R.data)
      ensures R.Value() == MatrixSpec.DotAdd(Value(), B.Value())
    {
      R := Combine(B, (x, y) => x + y);
      Ext(R.Value(), MatrixSpec.DotAdd(Value(), B.Value()));
    }

    /** m_dot_subtract: a fresh A - B; A and B are left unchanged. */
    method DotSubtract(B: Matrix) returns (R: Matrix)
      requires Valid() && B.Valid() && rows == B.rows && cols == B.cols
      ensures R.Valid() && fresh(R.data)
      ensures R.Value() == MatrixSpec.DotSubtract(Value(), B.Value())
    {
      R := Combine(B, (x, y) => x - y);
      Ext(R.Value(), MatrixSpec.DotSubtract(Value(), B.Value()));
    }

    /** m_dot_division: a fresh A ./ B; A and B are left unchanged. */
    method DotDivision(B: Matrix) returns (R: Matrix)
      requires Valid() && B.Valid() && rows == B.rows && cols == B.cols && NoZeroEntry(B.Value())
      ensures R.Valid() && fresh(R.data)
      ensures R.Value() == MatrixSpec.DotDivision(Value(), B.Value())
    {
      R := Combine(B, (x, y) requires y != 0.0 => x / y);
      Ext(R.Value(), MatrixSpec.DotDivision(Value(), B.Value()));
    }

    // -------------------------------------------------------------------
    // Row and column statistics

    /** The inner loop of m_sumCols: the entries of column j added top to bottom. */
    method ColumnSum(j: nat) returns (val: real)
      requires Valid() && j < cols
      ensures val == Sum(Col(Value(), j))
    {
      ghost var m := Value();
      val := 0.0;
      var i := 0;
      while i < rows
        invariant 0 <= i <= rows
        invariant val == Sum(Col(m, j)[..i])
      {
        SumPrefixStep(Col(m, j), i + 1);
        val := val + Elem(i, j);
        i := i + 1;
      }
      assert Col(m, j)[..rows] == Col(m, j);
    }

    /** The inner loop of m_sumRows: the entries of row i added left to right. */
    method RowSum(i: nat) returns (val: real)
      requires Valid() && i < rows
      ensures val == Sum(Value().cells[i])
    {
      ghost var m := Value();
      val := 0.0;
      var j := 0;
      while j < cols
        invariant 0 <= j <= cols
        invariant val == Sum(m.cells[i][..j])
      {
        SumPrefixStep(m.cells[i], j + 1);
        val := val + Elem(i, j);
        j := j + 1;
      }
      assert m.cells[i][..cols] == m.cells[i];
    }

    /** m_sumCols: a fresh 1-by-cols matrix of column totals. */
    method SumCols() returns (R: Matrix)
      requires Valid()
      ensures R.Valid() && fresh(R.data) && R.rows == 1 && R.cols == cols
      ensures R.Value() == MatrixSpec.SumCols(Value())
    {
      ghost var m := Value();
      ghost var target := MatrixSpec.SumCols(m);
      R := new Matrix.Initialize(1, cols);
      var j := 0;
      while j < cols
        invariant 0 <= j <= cols
        invariant AgreeBefore(R.Value(), target, 0, j)
      {
        var val := ColumnSum(j);
        AgreeStep(R.Value(), target, 0, j);
        R.Set(0, j, val);
        j := j + 1;
      }
      AgreeNextRow(R.Value(), target, 0);
      AgreeAll(R.Value(), target, 1, 0);
    }

    /** m_meanCols: the column totals, each divided by rows. */
    method MeanCols() returns (R: Matrix)
      requires Valid() && rows > 0
      ensures R.Valid() && fresh(R.data) && R.rows == 1 && R.cols == cols
      ensures R.Value() == MatrixSpec.MeanCols(Value())
    {
      ghost var m := Value();
      R := SumCols();
      var i := 0;
      while i < cols
        invariant 0 <= i <= cols
        invariant forall b | 0 <= b < cols ::
          R.Value().cells[0][b] == if b < i then Sum(Col(m, b)) / rows as real else Sum(Col(m, b))
      {
        R.Set(0, i, R.Elem(0, i) / rows as real);
        i := i + 1;
      }
      Ext(R.Value(), MatrixSpec.MeanCols(m));
    }

    /** m_sumRows: a fresh rows-by-1 matrix of row totals. */
    method SumRows() returns (R: Matrix)
      requires Valid()
      ensures R.Valid() && fresh(R.data) && R.rows == rows && R.cols == 1
      ensures R.Value() == MatrixSpec.SumRows(Value())
    {
      ghost var m := Value();
      ghost var target := MatrixSpec.SumRows(m);
      R := new Matrix.Initialize(rows, 1);
      var i := 0;
      while i < rows
        invariant 0 <= i <= rows
        invariant AgreeBefore(R.Value(), target, i, 0)
      {
        var val := RowSum(i);
        AgreeStep(R.Value(), target, i, 0);
        R.Set(i, 0, val);
        AgreeNextRow(R.Value(), target, i);
        i := i + 1;
      }
      AgreeAll(R.Value(), target, rows, 0);
    }

    /**
     * m_mean_column: a fresh rows-by-1 matrix, each row's total divided by
     * cols.  The closing loop over the rows of `a` is the loop of
     * m_elem_divideByConst on a one-column matrix.
     */
    method MeanColumn() returns (a: Matrix)
      requires Valid() && cols > 0
      ensures a.Valid() && fresh(a.data) && a.rows == rows && a.cols == 1
      ensures a.Value() == MatrixSpec.MeanColumn(Value())
    {
      a := new Matrix.Zeros(rows, 1);
      AddColumnsInto(a);
      a.ElemDivideByConst(cols as real);
      MeanColumnOfTotals(Value());
    }

    /** The accumulation of m_mean_column: column by column, entry (j, i) is added to a[j]. */
    method AddColumnsInto(a: Matrix)
      requires Valid() && a.Valid() && a.rows == rows && a.cols == 1 && a.data != data
      requires a.Value() == MatrixSpec.Zeros(rows, 1)
      modifies a.data
      ensures a.Value() == MatrixSpec.SumRows(Value())
    {
      ghost var m := Value();
      PartialRowSumsStart(m);
      var i := 0;
      while i < cols
        invariant 0 <= i <= cols
        invariant a.Value() == PartialRowSums(m, i)
      {
        ghost var before, after := PartialRowSums(m, i), PartialRowSums(m, i + 1);
        SpliceStart(a.Value(), after);
        var j := 0;
        while j < rows
          invariant 0 <= j <= rows
          invariant Spliced(a.Value(), after, before, j, 0)
        {
          SumPrefixStep(m.cells[j], i + 1);
          SpliceStep(a.Value(), after, before, j, 0);
          var total := a.Elem(j, 0) + Elem(j, i);
          assert total == after.cells[j][0];
          a.Set(j, 0, total);
          SpliceNextRow(a.Value(), after, before, j);
          j := j + 1;
        }
        SpliceDone(a.Value(), after, before, rows);
        i := i + 1;
      }
      PartialRowSumsDone(m);
    }

    /** m_normalize_columns: a[j] subtracted from every entry of row j, in place; `a` is only read. */
    method NormalizeColumns(a: Matrix)
      requires Valid() && a.Valid() && IsColumnFor(a.Value(), Value()) && a.data != data
      modifies data
      ensures Value() == SubtractColumn(old(Value()), a.Value())
    {
      ghost var m := Value();
      ghost var target := SubtractColumn(m, a.Value());
      var i := 0;
      while i < cols
        invariant 0 <= i <= cols
        invariant forall r, c | 0 <= r < rows && 0 <= c < cols ::
          Value().cells[r][c] == if c < i then target.cells[r][c] else m.cells[r][c]
      {
        var j := 0;
        while j < rows
          invariant 0 <= j <= rows
          invariant forall r, c | 0 <= r < rows && 0 <= c < cols ::
            Value().cells[r][c] == if Before(c, r, i, j) then target.cells[r][c] else m.cells[r][c]
        {
          Set(j, i, Elem(j, i) - a.Elem(j, 0));
          j := j + 1;
        }
        i := i + 1;
      }
      Ext(Value(), target);
    }

    // -------------------------------------------------------------------
    // Non-zero scan

    /**
     * m_findNonZeros: a fresh (rows * cols)-by-1 zero matrix whose first
     * entries receive i + 1 for every non-zero M[i][j], row by row.
     */
    method FindNonZeros() returns (R: Matrix)
      requires Valid()
      ensures R.Valid() && fresh(R.data) && R.rows == rows * cols && R.cols == 1
      ensures R.Value() == MatrixSpec.FindNonZeros(Value())
    {
      R := new Matrix.Zeros(rows * cols, 1);
      PaddedEmpty(rows * cols);
      var count := 0;
      var i := 0;
      while i < rows
        invariant 0 <= i <= rows
        invariant count == |Hits(Value(), i)|
        invariant R.Value() == PaddedColumn(Hits(Value(), i), rows * cols)
      {
        count := ScanRow(R, i, count);
        i := i + 1;
      }
    }

    /** Row i of m_findNonZeros: label i + 1 is written at R[count] for every non-zero entry. */
    method ScanRow(R: Matrix, i: nat, count: nat) returns (count': nat)
      requires Valid() && i < rows && R.Valid() && R.rows == rows * cols && R.cols == 1 && R.data != data
      requires count == |Hits(Value(), i)| && R.Value() == PaddedColumn(Hits(Value(), i), rows * cols)
      modifies R.data
      ensures count' == |Hits(Value(), i + 1)| && R.Value() == PaddedColumn(Hits(Value(), i + 1), rows * cols)
    {
      ghost var m := Value();
      ghost var found := Hits(m, i);
      assert m.cells[i][..0] == [];
      var tag := (i + 1) as real;
      count' := count;
      var j := 0;
      while j < cols
        invariant 0 <= j <= cols
        invariant found == Hits(m, i) + RowHits(m.cells[i][..j], tag) && count' == |found|
        invariant R.Value() == PaddedColumn(found, rows * cols)
      {
        FoundStep(m, i, j, found);
        var val := Elem(i, j);
        if val != 0.0 {
          FoundBeforeCursor(m, i, j);
          PaddedPush(found, rows * cols, tag);
          R.Set(count', 0, tag);
          found := found + [tag];
          count' := count' + 1;
        }
        j := j + 1;
      }
      FoundRowDone(m, i, found);
    }

    // -------------------------------------------------------------------
    // Min-max normalisation

    /** The first pass of m_normalize: the least and the greatest entry, starting from elem(M, 0, 0). */
    method Extremes() returns (min: real, max: real)
      requires Valid() && rows > 0 && cols > 0
      ensures min == MinEntry(Value()) && max == MaxEntry(Value())
    {
      ghost var m := Value();
      min := Elem(0, 0);
      max := min;
      ghost var li, lj, hi, hj := 0, 0, 0, 0;
      var i := 0;
      while i < rows
        invariant 0 <= i <= rows
        invariant li < rows && lj < cols && m.cells[li][lj] == min
        invariant hi < rows && hj < cols && m.cells[hi][hj] == max
        invariant WithinBefore(m, min, max, i, 0)
      {
        var j := 0;
        while j < cols
          invariant 0 <= j <= cols
          invariant li < rows && lj < cols && m.cells[li][lj] == min
          invariant hi < rows && hj < cols && m.cells[hi][hj] == max
          invariant WithinBefore(m, min, max, i, j)
        {
          var val := Elem(i, j);
          ghost var lo0, hi0 := min, max;
          if min > val {
            min := val;
            li, lj := i, j;
          }
          if max < val {
            max := val;
            hi, hj := i, j;
          }
          WithinStep(m, lo0, hi0, min, max, i, j);
          j := j + 1;
        }
        WithinNextRow(m, min, max, i);
        i := i + 1;
      }
      WithinAll(m, min, max, li, lj, hi, hj);
    }

    /** m_normalize: every entry x becomes (x - min) / (max - min), in place. */
    method Normalize()
      requires Valid() && CanNormalize(Value())
      modifies data
      ensures Value() == MatrixSpec.Normalize(old(Value()))
    {
      var min, max := Extremes();
      RescaleBy(min, max);
    }

    /** The second pass of m_normalize: every entry x becomes (x - lo) / (hi - lo). */
    method RescaleBy(lo: real, hi: real)
      requires Valid() && lo < hi
      modifies data
      ensures Value() == Rescale(old(Value()), lo, hi)
    {
      ghost var m := Value();
      Apply(v => Ratio(v, lo, hi));
      RescaleEntries(Value(), m, lo, hi);
    }
      // -------------------------------------------------------------------
    // Determinant and cofactors

    /**
     * m_determinant: 0 below size 1, the entry at size 1, the 2-by-2 formula
     * at size 2, and otherwise the expansion along row 0 whose sign is taken
     * from the fill loop's leftover counter i (= rows) rather than from 0.
     */
    method Determinant() returns (det: real)
      requires Valid() && rows == cols
      ensures det == Det(Value())
      decreases rows, 2
    {
      if rows < 1 {
        det := 0.0;
      } else if rows == 1 {
        det := Elem(0, 0);
      } else if rows == 2 {
        var a, b, c, d := Elem(0, 0), Elem(0, 1), Elem(1, 0), Elem(1, 1);
        det := a * d - c * b;
      } else {
        det := Expand();
      }
    }

    /** The size-3-and-up branch of m_determinant: one minor per column j of row 0, each filled into A and expanded recursively. */
    method Expand() returns (det: real)
      requires Valid() && rows == cols && rows >= 3
      ensures det == Expansion(Value(), cols)
      decreases rows, 1
    {
      ghost var m := Value();
      det := 0.0;
      var A := new Matrix.Initialize(rows - 1, cols - 1);
      var j := 0;
      while j < cols
        invariant 0 <= j <= cols
        invariant det == Expansion(m, j)
      {
        det := ExpandColumn(A, j, det);
        j := j + 1;
      }
    }

    /** One pass of m_determinant's loop: the term of column j of row 0 added to the running sum. */
    method ExpandColumn(A: Matrix, j: nat, det: real) returns (det': real)
      requires Valid() && rows == cols && rows >= 3 && j < cols && det == Expansion(Value(), j)
      requires A.Valid() && A.rows == rows - 1 && A.cols == cols - 1 && A.data != data
      modifies A.data
      ensures det' == Expansion(Value(), j + 1)
      decreases rows, 0
    {
      var i := FillMinor(A, j);
      var val := A.Determinant();
      var sign := ParitySign(i, j);
      var x := Elem(0, j);
      ExpansionStep(Value(), j, det, sign, i, x, val);
      det' := det + sign as real * x * val;
    }

    /**
     * The fill loop of m_determinant: column by column, every column k other
     * than j, rows 1.. of this matrix go to A.  Returns the row counter i as
     * the loop leaves it.
     */
    method FillMinor(A: Matrix, j: nat) returns (i: nat)
      requires Valid() && rows == cols && rows >= 2 && j < cols
      requires A.Valid() && A.rows == rows - 1 && A.cols == cols - 1 && A.data != data
      modifies A.data
      ensures A.Value() == Minor(Value(), 0, j) && i == rows
    {
      ghost var m := Value();
      ghost var t := Minor(m, 0, j);
      i := 0;
      var c := 0;
      var k := 0;
      while k < cols
        invariant 0 <= k <= cols
        invariant c == if k <= j then k else k - 1
        invariant c > 0 ==> i == rows
        invariant AgreeColsBefore(A.Value(), t, c, 0)
      {
        if k != j {
          i := 1;
          while i < rows
            invariant 1 <= i <= rows
            invariant AgreeColsBefore(A.Value(), t, c, i - 1)
          {
            MinorCursor(m, 0, j, i, k, i - 1, c);
            AgreeColsStep(A.Value(), t, c, i - 1);
            var x := Elem(i, k);
            A.Set(i - 1, c, x);
            i := i + 1;
          }
          AgreeColsNext(A.Value(), t, c);
          c := c + 1;
        }
        k := k + 1;
      }
      AgreeColsAll(A.Value(), t, c, 0);
    }

    /**
     * m_cofactor: for every (i, j), the minor without row i and column j is
     * filled into A, and its determinant times (-1)^(i+j) is stored at R[j][i].
     * The minor buffer of an empty matrix has size 0 here.
     */
    method Cofactor() returns (R: Matrix)
      requires Valid() && rows == cols
      ensures R.Valid() && fresh(R.data) && R.rows == rows && R.cols == cols
      ensures R.Value() == DeterminantSpec.Cofactor(Value())
    {
      ghost var m := Value();
      ghost var target := DeterminantSpec.Cofactor(m);
      var A := new Matrix.Initialize(if rows == 0 then 0 else rows - 1, if cols == 0 then 0 else cols - 1);
      R := new Matrix.Initialize(rows, cols);
      var i := 0;
      while i < rows
        invariant 0 <= i <= rows
        invariant AgreeColsBefore(R.Value(), target, i, 0)
      {
        var j := 0;
        while j < cols
          invariant 0 <= j <= cols
          invariant AgreeColsBefore(R.Value(), target, i, j)
        {
          FillCofactorMinor(A, i, j);
          var val := A.Determinant();
          var sign := ParitySign(i, j);
          CofactorEntry(m, i, j, val, sign);
          val := sign as real * val;
          AgreeColsStep(R.Value(), target, i, j);
          R.Set(j, i, val);
          j := j + 1;
        }
        AgreeColsNext(R.Value(), target, i);
        i := i + 1;
      }
      AgreeColsAll(R.Value(), target, i, 0);
    }

    /** The fill loops of m_cofactor: every entry outside row i and column j, row by row, goes to A. */
    method FillCofactorMinor(A: Matrix, i: nat, j: nat)
      requires Valid() && rows == cols && i < rows && j < cols
      requires A.Valid() && A.rows == rows - 1 && A.cols == cols - 1 && A.data != data
      modifies A.data
      ensures A.Value() == Minor(Value(), i, j)
    {
      ghost var m := Value();
      ghost var t := Minor(m, i, j);
      var r, row := 0, 0;
      while r < rows
        invariant 0 <= r <= rows
        invariant row == if r <= i then r else r - 1
        invariant AgreeBefore(A.Value(), t, row, 0)
      {
        if r != i {
          var c, col := 0, 0;
          while c < cols
            invariant 0 <= c <= cols
            invariant col == if c <= j then c else c - 1
            invariant AgreeBefore(A.Value(), t, row, col)
          {
            if c != j {
              MinorCursor(m, i, j, r, c, row, col);
              AgreeStep(A.Value(), t, row, col);
              var x := Elem(r, c);
              A.Set(row, col, x);
              col := col + 1;
            }
            c := c + 1;
          }
          AgreeNextRow(A.Value(), t, row);
          row := row + 1;
        }
        r := r + 1;
      }
      AgreeAll(A.Value(), t, row, 0);
    }
  }
}
