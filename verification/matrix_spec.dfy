/**
 * The value semantics of the dense matrix library (src/matrix.c).
 *
 * A matrix value is `rows` rows of `cols` reals; `cells[i][j]` is the
 * entry the library reads and writes as `elem(M, i, j)`.  How the library
 * lays the entries out in memory (column-major, leading dimension `rows`)
 * belongs to the imperative model in MatrixLib; every function here is
 * stated on entries and is independent of that layout.
 *
 * `precision_t` is modelled by `real`: sums and products are exact, and
 * IEEE rounding, infinities and NaN are not part of this model.
 */
module MatrixSpec {
  import opened IndexArith

  datatype Mat = Mat(rows: nat, cols: nat, cells: seq<seq<real>>)
  {
    /** `rows` rows, each holding `cols` entries. */
    predicate Wf()
    {
      |cells| == rows && forall i | 0 <= i < rows :: |cells[i]| == cols
    }
  }

  predicate SameShape(a: Mat, b: Mat)
  {
    a.rows == b.rows && a.cols == b.cols
  }

  predicate Square(a: Mat)
  {
    a.rows == a.cols
  }

  /** Two well-formed matrices with the same shape and the same entries are equal. */
  lemma Ext(a: Mat, b: Mat)
    requires a.Wf() && b.Wf() && SameShape(a, b)
    requires forall i, j | 0 <= i < a.rows && 0 <= j < a.cols :: a.cells[i][j] == b.cells[i][j]
    ensures a == b
  {
    forall i | 0 <= i < a.rows
      ensures a.cells[i] == b.cells[i]
    {
    }
  }

  // ---------------------------------------------------------------------
  // Constructors

  /** The matrix `calloc` gives: every entry 0. */
  function Zeros(rows: nat, cols: nat): (z: Mat)
    ensures z.Wf() && z.rows == rows && z.cols == cols
    ensures forall i, j | 0 <= i < rows && 0 <= j < cols :: z.cells[i][j] == 0.0
  {
    Mat(rows, cols, seq(rows, _ => seq(cols, _ => 0.0)))
  }

  /** The n-by-n identity. */
  function Identity(n: nat): (m: Mat)
    ensures m.Wf() && m.rows == n && m.cols == n
    ensures forall i, j | 0 <= i < n && 0 <= j < n :: m.cells[i][j] == if i == j then 1.0 else 0.0
  {
    Mat(n, n, seq(n, i => seq(n, j => if i == j then 1.0 else 0.0)))
  }

  // ---------------------------------------------------------------------
  // Sums, dot products, columns

  /** Left-to-right sum, in the order the library's accumulation loops add. */
  function Sum(s: seq<real>): real
  {
    if |s| == 0 then 0.0 else Sum(s[..|s| - 1]) + s[|s| - 1]
  }

  /** Sum of the pairwise products of two equally long vectors. */
  function Dot(v: seq<real>, w: seq<real>): real
    requires |v| == |w|
  {
    if |v| == 0 then 0.0
    else Dot(v[..|v| - 1], w[..|w| - 1]) + v[|v| - 1] * w[|w| - 1]
  }

  /** Column j, top to bottom. */
  function Col(m: Mat, j: nat): (c: seq<real>)
    requires m.Wf() && j < m.cols
    ensures |c| == m.rows && forall i | 0 <= i < m.rows :: c[i] == m.cells[i][j]
  {
    seq(m.rows, i requires 0 <= i < m.rows => m.cells[i][j])
  }

  // ---------------------------------------------------------------------
  // Transpose, product, column blocks

  function Transpose(m: Mat): (t: Mat)
    requires m.Wf()
    ensures t.Wf() && t.rows == m.cols && t.cols == m.rows
    ensures forall i, j | 0 <= i < m.cols && 0 <= j < m.rows :: t.cells[i][j] == m.cells[j][i]
  {
    Mat(m.cols, m.rows,
      seq(m.cols, i requires 0 <= i < m.cols =>
        seq(m.rows, j requires 0 <= j < m.rows => m.cells[j][i])))
  }

  /** The standard matrix product: entry (i, j) is row i of `a` dotted with column j of `b`. */
  function Product(a: Mat, b: Mat): (p: Mat)
    requires a.Wf() && b.Wf() && a.cols == b.rows
    ensures p.Wf() && p.rows == a.rows && p.cols == b.cols
    ensures forall i, j | 0 <= i < a.rows && 0 <= j < b.cols :: p.cells[i][j] == Dot(a.cells[i], Col(b, j))
  {
    Mat(a.rows, b.cols,
      seq(a.rows, i requires 0 <= i < a.rows =>
        seq(b.cols, j requires 0 <= j < b.cols => Dot(a.cells[i], Col(b, j)))))
  }

  /** Columns [j, k) of `m`. */
  function CopyColumns(m: Mat, j: nat, k: nat): (b: Mat)
    requires m.Wf() && j <= k <= m.cols
    ensures b.Wf() && b.rows == m.rows && b.cols == k - j
    ensures forall i | 0 <= i < m.rows :: b.cells[i] == m.cells[i][j..k]
  {
    Mat(m.rows, k - j, seq(m.rows, i requires 0 <= i < m.rows => m.cells[i][j..k]))
  }

  // ---------------------------------------------------------------------
  // Row and column statistics

  /** rows-by-1: the total of each row. */
  function SumRows(m: Mat): (r: Mat)
    requires m.Wf()
    ensures r.Wf() && r.rows == m.rows && r.cols == 1
    ensures forall i | 0 <= i < m.rows :: r.cells[i][0] == Sum(m.cells[i])
  {
    Mat(m.rows, 1, seq(m.rows, i requires 0 <= i < m.rows => [Sum(m.cells[i])]))
  }

  /** 1-by-cols: the total of each column. */
  function SumCols(m: Mat): (r: Mat)
    requires m.Wf()
    ensures r.Wf() && r.rows == 1 && r.cols == m.cols
    ensures forall j | 0 <= j < m.cols :: r.cells[0][j] == Sum(Col(m, j))
  {
    Mat(1, m.cols, [seq(m.cols, j requires 0 <= j < m.cols => Sum(Col(m, j)))])
  }

  /** 1-by-cols: the mean of each column. */
  function MeanCols(m: Mat): (r: Mat)
    requires m.Wf() && m.rows > 0
    ensures r.Wf() && r.rows == 1 && r.cols == m.cols
    ensures forall j | 0 <= j < m.cols :: r.cells[0][j] == Sum(Col(m, j)) / m.rows as real
  {
    Mat(1, m.cols, [seq(m.cols, j requires 0 <= j < m.cols => Sum(Col(m, j)) / m.rows as real)])
  }

  /** rows-by-1: the mean column, i.e. the mean of each row. */
  function MeanColumn(m: Mat): (a: Mat)
    requires m.Wf() && m.cols > 0
    ensures a.Wf() && a.rows == m.rows && a.cols == 1
    ensures forall i | 0 <= i < m.rows :: a.cells[i][0] == Sum(m.cells[i]) / m.cols as real
  {
    Mat(m.rows, 1, seq(m.rows, i requires 0 <= i < m.rows => [Sum(m.cells[i]) / m.cols as real]))
  }

  /** `a` is a column that can be subtracted from every column of `m`. */
  predicate IsColumnFor(a: Mat, m: Mat)
  {
    a.Wf() && a.rows == m.rows && a.cols >= 1
  }

  /** Entry (i, j) minus a[i]: column 0 of `a` subtracted from every column. */
  function SubtractColumn(m: Mat, a: Mat): (r: Mat)
    requires m.Wf() && IsColumnFor(a, m)
    ensures r.Wf() && SameShape(r, m)
    ensures forall i, j | 0 <= i < m.rows && 0 <= j < m.cols :: r.cells[i][j] == m.cells[i][j] - a.cells[i][0]
  {
    Mat(m.rows, m.cols,
      seq(m.rows, i requires 0 <= i < m.rows =>
        seq(m.cols, j requires 0 <= j < m.cols => m.cells[i][j] - a.cells[i][0])))
  }

  // ---------------------------------------------------------------------
  // Element-wise operations

  /** `f` applied to every entry. */
  function Map(m: Mat, f: real -> real): (r: Mat)
    requires m.Wf()
    ensures r.Wf() && SameShape(r, m)
    ensures forall i, j | 0 <= i < m.rows && 0 <= j < m.cols :: r.cells[i][j] == f(m.cells[i][j])
  {
    Mat(m.rows, m.cols,
      seq(m.rows, i requires 0 <= i < m.rows =>
        seq(m.cols, j requires 0 <= j < m.cols => f(m.cells[i][j]))))
  }

  /** `f` applied to every pair of corresponding entries. */
  function Zip(a: Mat, b: Mat, f: (real, real) -> real): (r: Mat)
    requires a.Wf() && b.Wf() && SameShape(a, b)
    ensures r.Wf() && SameShape(r, a)
    ensures forall i, j | 0 <= i < a.rows && 0 <= j < a.cols :: r.cells[i][j] == f(a.cells[i][j], b.cells[i][j])
  {
    Mat(a.rows, a.cols,
      seq(a.rows, i requires 0 <= i < a.rows =>
        seq(a.cols, j requires 0 <= j < a.cols => f(a.cells[i][j], b.cells[i][j]))))
  }

  predicate NoZeroEntry(m: Mat)
    requires m.Wf()
  {
    forall i, j | 0 <= i < m.rows && 0 <= j < m.cols :: m.cells[i][j] != 0.0
  }

  function Negate(m: Mat): Mat
    requires m.Wf()
  {
    Map(m, v => -v)
  }

  /** m_elem_mult: every entry times x. */
  function Scale(m: Mat, x: real): Mat
    requires m.Wf()
  {
    Map(m, v => v * x)
  }

  function DivideByConst(m: Mat, x: real): Mat
    requires m.Wf() && x != 0.0
  {
    Map(m, v => v / x)
  }

  /** m_elem_divideByMatrix: the constant divided by every entry. */
  function DivideByMatrix(m: Mat, num: real): (r: Mat)
    requires m.Wf() && NoZeroEntry(m)
    ensures r.Wf() && SameShape(r, m)
    ensures forall i, j | 0 <= i < m.rows && 0 <= j < m.cols :: r.cells[i][j] == num / m.cells[i][j]
  {
    Mat(m.rows, m.cols,
      seq(m.rows, i requires 0 <= i < m.rows =>
        seq(m.cols, j requires 0 <= j < m.cols => num / m.cells[i][j])))
  }

  function AddScalar(m: Mat, x: real): Mat
    requires m.Wf()
  {
    Map(m, v => v + x)
  }

  /** The C conversion `(precision_t)(int)x`: the integer part, rounding toward zero. */
  function Trunc(x: real): (t: real)
    ensures t.Floor as real == t
    ensures 0.0 <= x ==> 0.0 <= t <= x < t + 1.0
    ensures x < 0.0 ==> t - 1.0 < x <= t <= 0.0
  {
    if x >= 0.0 then
      var f := x.Floor;
      assert f as real <= x < f as real + 1.0;
      f as real
    else
      var f := (-x).Floor;
      assert f as real <= -x < f as real + 1.0;
      assert (-f as real).Floor == -f;
      -(f as real)
  }

  function Truncate(m: Mat): Mat
    requires m.Wf()
  {
    Map(m, Trunc)
  }

  function DotAdd(a: Mat, b: Mat): Mat
    requires a.Wf() && b.Wf() && SameShape(a, b)
  {
    Zip(a, b, (x, y) => x + y)
  }

  function DotSubtract(a: Mat, b: Mat): Mat
    requires a.Wf() && b.Wf() && SameShape(a, b)
  {
    Zip(a, b, (x, y) => x - y)
  }

  function DotDivision(a: Mat, b: Mat): (r: Mat)
    requires a.Wf() && b.Wf() && SameShape(a, b) && NoZeroEntry(b)
    ensures r.Wf() && SameShape(r, a)
    ensures forall i, j | 0 <= i < a.rows && 0 <= j < a.cols :: r.cells[i][j] == a.cells[i][j] / b.cells[i][j]
  {
    Mat(a.rows, a.cols,
      seq(a.rows, i requires 0 <= i < a.rows =>
        seq(a.cols, j requires 0 <= j < a.cols => a.cells[i][j] / b.cells[i][j])))
  }

  // ---------------------------------------------------------------------
  // Reading order, reshape, column flip

  /** The first n rows, laid end to end. */
  function RowMajorPrefix(m: Mat, n: nat): (s: seq<real>)
    requires m.Wf() && n <= m.rows
    ensures |s| == n * m.cols
    ensures forall i, j | 0 <= i < n && 0 <= j < m.cols :: i * m.cols + j < |s| && s[i * m.cols + j] == m.cells[i][j]
  {
    if n == 0 then []
    else
      var s := RowMajorPrefix(m, n - 1);
      var r := s + m.cells[n - 1];
      assert (n - 1) * m.cols + m.cols == n * m.cols;
      forall i, j | 0 <= i < n && 0 <= j < m.cols
        ensures i * m.cols + j < |r| && r[i * m.cols + j] == m.cells[i][j]
      {
        if i < n - 1 {
          OffsetInRange(j, i, m.cols, n - 1);
        }
      }
      r
  }

  /** The entries in row-major reading order: row 0 left to right, then row 1, ... */
  function RowMajor(m: Mat): seq<real>
    requires m.Wf()
  {
    RowMajorPrefix(m, m.rows)
  }

  /** The nr-by-nc matrix whose row-major reading is `s`. */
  function FromRowMajor(s: seq<real>, nr: nat, nc: nat): (r: Mat)
    requires |s| == nr * nc
    ensures r.Wf() && r.rows == nr && r.cols == nc
    ensures forall i | 0 <= i < nr :: r.cells[i] == RowMajorRow(s, nr, nc, i)
  {
    Mat(nr, nc, seq(nr, i requires 0 <= i < nr => RowMajorRow(s, nr, nc, i)))
  }

  /** Row i of the nr-by-nc matrix read row by row from `s`. */
  function RowMajorRow(s: seq<real>, nr: nat, nc: nat, i: nat): (row: seq<real>)
    requires |s| == nr * nc && i < nr
    ensures |row| == nc
    ensures forall j | 0 <= j < nc :: i * nc + j < |s| && row[j] == s[i * nc + j]
  {
    BlockInRange(i, nc, nr);
    s[i * nc .. i * nc + nc]
  }

  /** m_reshape: same entries in the same row-major reading order, new dimensions. */
  function Reshape(m: Mat, nr: nat, nc: nat): Mat
    requires m.Wf() && m.rows * m.cols == nr * nc
  {
    FromRowMajor(RowMajor(m), nr, nc)
  }

  /** m_flipCols: columns mirrored left to right. */
  function FlipCols(m: Mat): (r: Mat)
    requires m.Wf()
    ensures r.Wf() && SameShape(r, m)
    ensures forall i, j | 0 <= i < m.rows && 0 <= j < m.cols :: r.cells[i][j] == m.cells[i][m.cols - 1 - j]
    ensures m.cols % 2 == 1 ==> forall i | 0 <= i < m.rows :: r.cells[i][m.cols / 2] == m.cells[i][m.cols / 2]
  {
    Mat(m.rows, m.cols,
      seq(m.rows, i requires 0 <= i < m.rows =>
        seq(m.cols, j requires 0 <= j < m.cols => m.cells[i][m.cols - 1 - j])))
  }

  // ---------------------------------------------------------------------
  // Non-zero scan (m_findNonZeros)

  /** One `tag` for every non-zero entry of `row`, in order. */
  function RowHits(row: seq<real>, tag: real): (h: seq<real>)
    ensures |h| <= |row|
    ensures forall p | 0 <= p < |h| :: h[p] == tag
  {
    if |row| == 0 then []
    else RowHits(row[..|row| - 1], tag) + (if row[|row| - 1] != 0.0 then [tag] else [])
  }

  /** Labels i + 1 for the non-zero entries of rows 0..n-1, scanned row by row. */
  function Hits(m: Mat, n: nat): seq<real>
    requires m.Wf() && n <= m.rows
  {
    if n == 0 then [] else Hits(m, n - 1) + RowHits(m.cells[n - 1], n as real)
  }

  /** The 1-based row index of every non-zero entry, in row-major scan order. */
  function NonZeroRows(m: Mat): seq<real>
    requires m.Wf()
  {
    Hits(m, m.rows)
  }

  /** (rows*cols)-by-1: the non-zero row indices, then zeros. */
  function FindNonZeros(m: Mat): (r: Mat)
    requires m.Wf()
    ensures r.Wf() && r.rows == m.rows * m.cols && r.cols == 1
  {
    PaddedColumn(NonZeroRows(m), m.rows * m.cols)
  }

  /** n-by-1: the entries of h, then zeros. */
  function PaddedColumn(h: seq<real>, n: nat): (r: Mat)
    ensures r.Wf() && r.rows == n && r.cols == 1
    ensures forall p | 0 <= p < n :: r.cells[p][0] == if p < |h| then h[p] else 0.0
  {
    Mat(n, 1, seq(n, p requires 0 <= p < n => [if p < |h| then h[p] else 0.0]))
  }

  // ---------------------------------------------------------------------
  // Min-max normalisation (m_normalize)

  predicate IsMinEntry(m: Mat, v: real)
    requires m.Wf()
  {
    (exists i, j | 0 <= i < m.rows && 0 <= j < m.cols :: m.cells[i][j] == v) &&
    forall i, j | 0 <= i < m.rows && 0 <= j < m.cols :: v <= m.cells[i][j]
  }

  predicate IsMaxEntry(m: Mat, v: real)
    requires m.Wf()
  {
    (exists i, j | 0 <= i < m.rows && 0 <= j < m.cols :: m.cells[i][j] == v) &&
    forall i, j | 0 <= i < m.rows && 0 <= j < m.cols :: m.cells[i][j] <= v
  }

  function SeqMin(s: seq<real>): (v: real)
    requires |s| > 0
    ensures v in s && forall k | 0 <= k < |s| :: v <= s[k]
  {
    if |s| == 1 then s[0]
    else
      var v := SeqMin(s[..|s| - 1]);
      assert v in s;
      if s[|s| - 1] < v then s[|s| - 1] else v
  }

  function SeqMax(s: seq<real>): (v: real)
    requires |s| > 0
    ensures v in s && forall k | 0 <= k < |s| :: s[k] <= v
  {
    if |s| == 1 then s[0]
    else
      var v := SeqMax(s[..|s| - 1]);
      assert v in s;
      if v < s[|s| - 1] then s[|s| - 1] else v
  }

  function MinEntry(m: Mat): (v: real)
    requires m.Wf() && m.rows > 0 && m.cols > 0
    ensures IsMinEntry(m, v)
  {
    var mins := seq(m.rows, i requires 0 <= i < m.rows => SeqMin(m.cells[i]));
    var v := SeqMin(mins);
    assert forall i, j | 0 <= i < m.rows && 0 <= j < m.cols :: v <= mins[i] <= m.cells[i][j];
    var i :| 0 <= i < m.rows && mins[i] == v;
    var j :| 0 <= j < m.cols && m.cells[i][j] == v;
    v
  }

  function MaxEntry(m: Mat): (v: real)
    requires m.Wf() && m.rows > 0 && m.cols > 0
    ensures IsMaxEntry(m, v)
  {
    var maxs := seq(m.rows, i requires 0 <= i < m.rows => SeqMax(m.cells[i]));
    var v := SeqMax(maxs);
    assert forall i, j | 0 <= i < m.rows && 0 <= j < m.cols :: m.cells[i][j] <= maxs[i] <= v;
    var i :| 0 <= i < m.rows && maxs[i] == v;
    var j :| 0 <= j < m.cols && m.cells[i][j] == v;
    v
  }

  /** m_normalize needs at least one entry and two different entries. */
  predicate CanNormalize(m: Mat)
  {
    m.Wf() && m.rows > 0 && m.cols > 0 && MinEntry(m) < MaxEntry(m)
  }

  /** Where v lies between lo and hi, as a fraction of hi - lo. */
  function Ratio(v: real, lo: real, hi: real): real
    requires lo < hi
  {
    (v - lo) / (hi - lo)
  }

  function Rescale(m: Mat, lo: real, hi: real): Mat
    requires m.Wf() && lo < hi
  {
    Map(m, v => Ratio(v, lo, hi))
  }

  /** Every entry x mapped to (x - min) / (max - min). */
  function Normalize(m: Mat): Mat
    requires CanNormalize(m)
  {
    Rescale(m, MinEntry(m), MaxEntry(m))
  }
}
