/**
 * Properties of the matrix library's operations, stated on the value
 * semantics of MatrixSpec.
 */
module MatrixLaws {
  import opened IndexArith
  import opened MatrixSpec

  // ---------------------------------------------------------------------
  // Sums

  lemma {:induction false} SumConcat(s: seq<real>, t: seq<real>)
    ensures Sum(s + t) == Sum(s) + Sum(t)
  {
    if |t| > 0 {
      assert (s + t)[..|s + t| - 1] == s + t[..|t| - 1];
      SumConcat(s, t[..|t| - 1]);
    } else {
      assert s + t == s;
    }
  }

  /** Summing two vectors entry by entry adds their sums. */
  lemma {:induction false} SumPointwise(a: seq<real>, b: seq<real>, c: seq<real>)
    requires |a| == |b| == |c|
    requires forall k | 0 <= k < |c| :: c[k] == a[k] + b[k]
    ensures Sum(c) == Sum(a) + Sum(b)
  {
    if |c| > 0 {
      var n := |c| - 1;
      SumPointwise(a[..n], b[..n], c[..n]);
    }
  }

  /** n copies of x sum to n * x. */
  lemma {:induction false} SumConst(s: seq<real>, x: real)
    requires forall k | 0 <= k < |s| :: s[k] == x
    ensures Sum(s) == |s| as real * x
  {
    if |s| > 0 {
      SumConst(s[..|s| - 1], x);
    }
  }

  /** Subtracting c from each of n entries lowers the sum by n * c. */
  lemma {:induction false} SumMinusConst(s: seq<real>, t: seq<real>, c: real)
    requires |s| == |t|
    requires forall k | 0 <= k < |t| :: t[k] == s[k] - c
    ensures Sum(t) == Sum(s) - |s| as real * c
  {
    if |t| > 0 {
      var n := |t| - 1;
      SumMinusConst(s[..n], t[..n], c);
    }
  }

  /** Scaling every entry by c scales the sum by c. */
  lemma {:induction false} SumScale(s: seq<real>, t: seq<real>, c: real)
    requires |s| == |t|
    requires forall k | 0 <= k < |t| :: t[k] == c * s[k]
    ensures Sum(t) == c * Sum(s)
  {
    if |t| > 0 {
      var n := |t| - 1;
      SumScale(s[..n], t[..n], c);
    }
  }

  /** A vector that is 0 except at position p sums to its entry at p. */
  lemma {:induction false} SumSingle(s: seq<real>, p: nat)
    requires p < |s|
    requires forall k | 0 <= k < |s| && k != p :: s[k] == 0.0
    ensures Sum(s) == s[p]
  {
    var n := |s| - 1;
    if p < n {
      SumSingle(s[..n], p);
    } else {
      SumConst(s[..n], 0.0);
    }
  }

  /** A dot product is the sum of the pairwise products. */
  lemma {:induction false} DotIsSum(v: seq<real>, w: seq<real>, t: seq<real>)
    requires |v| == |w| == |t|
    requires forall k | 0 <= k < |t| :: t[k] == v[k] * w[k]
    ensures Dot(v, w) == Sum(t)
  {
    if |t| > 0 {
      var n := |t| - 1;
      DotIsSum(v[..n], w[..n], t[..n]);
    }
  }

  /** The dot product of the first k entries, one entry at a time. */
  lemma DotPrefix(v: seq<real>, w: seq<real>, k: nat)
    requires |v| == |w| && 1 <= k <= |v|
    ensures Dot(v[..k], w[..k]) == Dot(v[..k - 1], w[..k - 1]) + v[k - 1] * w[k - 1]
  {
    assert v[..k][..k - 1] == v[..k - 1] && w[..k][..k - 1] == w[..k - 1];
  }

  // ---------------------------------------------------------------------
  // Transpose and column flip

  /** m_transpose is an involution. */
  lemma TransposeInvolution(m: Mat)
    requires m.Wf()
    ensures Transpose(Transpose(m)) == m
  {
    Ext(Transpose(Transpose(m)), m);
  }

  /** m_flipCols twice restores the matrix. */
  lemma FlipColsInvolution(m: Mat)
    requires m.Wf()
    ensures FlipCols(FlipCols(m)) == m
  {
    Ext(FlipCols(FlipCols(m)), m);
  }

  // ---------------------------------------------------------------------
  // Reshape

  /** Reading a matrix built from `s` row by row gives `s` back. */
  lemma RowMajorOfFromRowMajor(s: seq<real>, nr: nat, nc: nat)
    requires |s| == nr * nc
    ensures RowMajor(FromRowMajor(s, nr, nc)) == s
  {
    var t := RowMajor(FromRowMajor(s, nr, nc));
    assert |t| == |s|;
    forall p | 0 <= p < |s|
      ensures t[p] == s[p]
    {
      RowMajorOfFromRowMajorAt(s, nr, nc, p);
    }
  }

  lemma RowMajorOfFromRowMajorAt(s: seq<real>, nr: nat, nc: nat, p: nat)
    requires |s| == nr * nc && p < |s|
    ensures |RowMajor(FromRowMajor(s, nr, nc))| == |s|
    ensures RowMajor(FromRowMajor(s, nr, nc))[p] == s[p]
  {
    var r := FromRowMajor(s, nr, nc);
    SplitOffset(p, nc, nr);
    var i, j := p / nc, p % nc;
    FromRowMajorEntry(s, nr, nc, i, j);
    RowMajorEntry(r, i, j);
  }

  /** Entry (i, j) of the matrix read row by row from `s` is s[i * nc + j]. */
  lemma FromRowMajorEntry(s: seq<real>, nr: nat, nc: nat, i: nat, j: nat)
    requires |s| == nr * nc && i < nr && j < nc
    ensures i * nc + j < |s| && FromRowMajor(s, nr, nc).cells[i][j] == s[i * nc + j]
  {
    BlockInRange(i, nc, nr);
    var row := RowMajorRow(s, nr, nc, i);
    assert FromRowMajor(s, nr, nc).cells[i] == row;
    assert row[j] == s[i * nc + j];
  }

  /** Position i * cols + j of the row-major reading holds entry (i, j). */
  lemma RowMajorEntry(m: Mat, i: nat, j: nat)
    requires m.Wf() && i < m.rows && j < m.cols
    ensures i * m.cols + j < |RowMajor(m)| && RowMajor(m)[i * m.cols + j] == m.cells[i][j]
  {
  }

  /** Building a rows-by-cols matrix from its own reading order gives it back. */
  lemma FromRowMajorOfRowMajor(m: Mat)
    requires m.Wf()
    ensures FromRowMajor(RowMajor(m), m.rows, m.cols) == m
  {
    var s := RowMajor(m);
    var r := FromRowMajor(s, m.rows, m.cols);
    forall i, j | 0 <= i < m.rows && 0 <= j < m.cols
      ensures r.cells[i][j] == m.cells[i][j]
    {
      assert r.cells[i] == RowMajorRow(s, m.rows, m.cols, i);
    }
    Ext(r, m);
  }

  /**
   * m_reshape keeps the row-major reading order: step p of its copy loop
   * moves M[r2][c2] to R[r1][c1], where r1, c1 = p / nc, p % nc and
   * r2, c2 = p / cols, p % cols.
   */
  lemma ReshapeReadingOrder(m: Mat, nr: nat, nc: nat, p: nat, r1: int, c1: int, r2: int, c2: int)
    requires m.Wf() && m.rows * m.cols == nr * nc && p < nr * nc
    requires nc > 0 && m.cols > 0
    requires r1 == p / nc && c1 == p % nc && r2 == p / m.cols && c2 == p % m.cols
    ensures 0 <= r1 < nr && 0 <= c1 < nc && 0 <= r2 < m.rows && 0 <= c2 < m.cols
    ensures Reshape(m, nr, nc).cells[r1][c1] == m.cells[r2][c2]
  {
    SplitOffset(p, nc, nr);
    SplitOffset(p, m.cols, m.rows);
    ReshapeEntry(m, nr, nc, r1, c1, r2, c2);
  }

  /** Entries at the same row-major position before and after m_reshape are equal. */
  lemma ReshapeEntry(m: Mat, nr: nat, nc: nat, r1: nat, c1: nat, r2: nat, c2: nat)
    requires m.Wf() && m.rows * m.cols == nr * nc
    requires r1 < nr && c1 < nc && r2 < m.rows && c2 < m.cols
    requires r1 * nc + c1 == r2 * m.cols + c2
    ensures Reshape(m, nr, nc).cells[r1][c1] == m.cells[r2][c2]
  {
    FromRowMajorEntry(RowMajor(m), nr, nc, r1, c1);
    RowMajorEntry(m, r2, c2);
  }

  /** Reshaping back to the original dimensions restores the matrix. */
  lemma ReshapeRoundTrip(m: Mat, nr: nat, nc: nat)
    requires m.Wf() && m.rows * m.cols == nr * nc
    ensures Reshape(Reshape(m, nr, nc), m.rows, m.cols) == m
  {
    RowMajorOfFromRowMajor(RowMajor(m), nr, nc);
    FromRowMajorOfRowMajor(m);
  }

  // ---------------------------------------------------------------------
  // Row and column totals, means, centring

  /** The top n entries of every column, summed. */
  function ColumnTotalsTop(m: Mat, n: nat): (t: seq<real>)
    requires m.Wf() && n <= m.rows
    ensures |t| == m.cols
  {
    seq(m.cols, j requires 0 <= j < m.cols => Sum(Col(m, j)[..n]))
  }

  lemma {:induction false} TotalsAgreeTop(m: Mat, n: nat)
    requires m.Wf() && n <= m.rows
    ensures Sum(Col(SumRows(m), 0)[..n]) == Sum(ColumnTotalsTop(m, n))
  {
    var rs := Col(SumRows(m), 0);
    if n == 0 {
      TotalsTopEmpty(m);
      assert rs[..0] == [];
    } else {
      TotalsAgreeTop(m, n - 1);
      SumPrefixStep(rs, n);
      TotalsTopStep(m, n);
    }
  }

  lemma TotalsTopEmpty(m: Mat)
    requires m.Wf()
    ensures Sum(ColumnTotalsTop(m, 0)) == 0.0
  {
    forall j | 0 <= j < m.cols
      ensures ColumnTotalsTop(m, 0)[j] == 0.0
    {
      assert Col(m, j)[..0] == [];
    }
    SumConst(ColumnTotalsTop(m, 0), 0.0);
  }

  /** Adding row n - 1 to the column totals adds its row total to their sum. */
  lemma TotalsTopStep(m: Mat, n: nat)
    requires m.Wf() && 1 <= n <= m.rows
    ensures Sum(ColumnTotalsTop(m, n)) == Sum(ColumnTotalsTop(m, n - 1)) + Sum(m.cells[n - 1])
  {
    forall j | 0 <= j < m.cols
      ensures ColumnTotalsTop(m, n)[j] == ColumnTotalsTop(m, n - 1)[j] + m.cells[n - 1][j]
    {
      SumPrefixStep(Col(m, j), n);
    }
    SumPointwise(ColumnTotalsTop(m, n - 1), m.cells[n - 1], ColumnTotalsTop(m, n));
  }

  lemma SumPrefixStep(s: seq<real>, n: nat)
    requires 1 <= n <= |s|
    ensures Sum(s[..n]) == Sum(s[..n - 1]) + s[n - 1]
  {
    assert s[..n][..n - 1] == s[..n - 1];
  }

  /** m_sumRows and m_sumCols add up to the same grand total. */
  lemma SumRowsSumColsAgree(m: Mat)
    requires m.Wf()
    ensures Sum(Col(SumRows(m), 0)) == Sum(SumCols(m).cells[0])
  {
    TotalsAgreeTop(m, m.rows);
    assert Col(SumRows(m), 0)[..m.rows] == Col(SumRows(m), 0);
    forall j | 0 <= j < m.cols
      ensures ColumnTotalsTop(m, m.rows)[j] == SumCols(m).cells[0][j]
    {
      assert Col(m, j)[..m.rows] == Col(m, j);
    }
    assert ColumnTotalsTop(m, m.rows) == SumCols(m).cells[0];
  }

  /** m_meanCols is m_mean_column of the transpose, laid out as a row. */
  lemma MeanColsIsMeanColumnOfTranspose(m: Mat, j: nat)
    requires m.Wf() && m.rows > 0 && j < m.cols
    ensures MeanCols(m).cells[0][j] == MeanColumn(Transpose(m)).cells[j][0]
  {
    assert Transpose(m).cells[j] == Col(m, j);
  }

  /** After m_normalize_columns with the mean column, every row sums to 0. */
  lemma CentredRowsSumToZero(m: Mat, i: nat)
    requires m.Wf() && m.cols > 0 && i < m.rows
    ensures Sum(SubtractColumn(m, MeanColumn(m)).cells[i]) == 0.0
  {
    var a := MeanColumn(m);
    SumMinusConst(m.cells[i], SubtractColumn(m, a).cells[i], a.cells[i][0]);
  }

  // ---------------------------------------------------------------------
  // Non-zero scan

  /** How many entries of `row` are non-zero. */
  function CountNonZero(row: seq<real>): nat
  {
    if |row| == 0 then 0
    else CountNonZero(row[..|row| - 1]) + (if row[|row| - 1] != 0.0 then 1 else 0)
  }

  /** How many entries of rows 0..n-1 are non-zero. */
  function NonZeroCountTop(m: Mat, n: nat): nat
    requires m.Wf() && n <= m.rows
  {
    if n == 0 then 0 else NonZeroCountTop(m, n - 1) + CountNonZero(m.cells[n - 1])
  }

  function NonZeroCount(m: Mat): nat
    requires m.Wf()
  {
    NonZeroCountTop(m, m.rows)
  }

  /** How often x occurs in s. */
  function Occurrences(s: seq<real>, x: real): nat
  {
    if |s| == 0 then 0 else Occurrences(s[..|s| - 1], x) + (if s[|s| - 1] == x then 1 else 0)
  }

  lemma {:induction false} OccurrencesConcat(a: seq<real>, b: seq<real>, x: real)
    ensures Occurrences(a + b, x) == Occurrences(a, x) + Occurrences(b, x)
  {
    if |b| > 0 {
      OccurrencesConcat(a, b[..|b| - 1], x);
      assert (a + b)[..|a + b| - 1] == a + b[..|b| - 1];
    } else {
      assert a + b == a;
    }
  }

  /** Occurrences agrees with the multiplicity in the multiset of the sequence. */
  lemma {:induction false} OccurrencesIsMultiplicity(s: seq<real>, x: real)
    ensures Occurrences(s, x) == multiset(s)[x]
  {
    if |s| > 0 {
      OccurrencesIsMultiplicity(s[..|s| - 1], x);
      assert s == s[..|s| - 1] + [s[|s| - 1]];
    }
  }

  lemma {:induction false} RowHitsCount(row: seq<real>, tag: real, x: real)
    ensures |RowHits(row, tag)| == CountNonZero(row)
    ensures Occurrences(RowHits(row, tag), x) == if x == tag then CountNonZero(row) else 0
  {
    if |row| > 0 {
      var r := row[..|row| - 1];
      RowHitsCount(r, tag, x);
      OccurrencesConcat(RowHits(r, tag), if row[|row| - 1] != 0.0 then [tag] else [], x);
    }
  }

  lemma {:induction false} HitsLength(m: Mat, n: nat)
    requires m.Wf() && n <= m.rows
    ensures |Hits(m, n)| == NonZeroCountTop(m, n)
  {
    if n > 0 {
      HitsLength(m, n - 1);
      RowHitsCount(m.cells[n - 1], n as real, 0.0);
    }
  }

  lemma {:induction false} HitsBound(m: Mat, n: nat)
    requires m.Wf() && n <= m.rows
    ensures |Hits(m, n)| <= n * m.cols
  {
    if n > 0 {
      HitsBound(m, n - 1);
      assert (n - 1) * m.cols + m.cols == n * m.cols;
    }
  }

  lemma {:induction false} HitsRange(m: Mat, n: nat)
    requires m.Wf() && n <= m.rows
    ensures forall p | 0 <= p < |Hits(m, n)| :: 1.0 <= Hits(m, n)[p] <= n as real
  {
    if n > 0 {
      HitsRange(m, n - 1);
      var h, t := Hits(m, n - 1), RowHits(m.cells[n - 1], n as real);
      assert Hits(m, n) == h + t;
    }
  }

  lemma {:induction false} HitsSorted(m: Mat, n: nat)
    requires m.Wf() && n <= m.rows
    ensures forall p, q | 0 <= p < q < |Hits(m, n)| :: Hits(m, n)[p] <= Hits(m, n)[q]
  {
    if n > 0 {
      HitsSorted(m, n - 1);
      HitsRange(m, n - 1);
      var h, t := Hits(m, n - 1), RowHits(m.cells[n - 1], n as real);
      assert Hits(m, n) == h + t;
    }
  }

  lemma {:induction false} HitsCount(m: Mat, n: nat, i: nat)
    requires m.Wf() && n <= m.rows && i < m.rows
    ensures Occurrences(Hits(m, n), (i + 1) as real) == if i < n then CountNonZero(m.cells[i]) else 0
  {
    var x := (i + 1) as real;
    if n > 0 {
      var prefix, row := Hits(m, n - 1), RowHits(m.cells[n - 1], n as real);
      assert Hits(m, n) == prefix + row;
      HitsCount(m, n - 1, i);
      OccurrencesConcat(prefix, row, x);
      RowHitsCount(m.cells[n - 1], n as real, x);
      if i == n - 1 {
        assert x == n as real && Occurrences(prefix, x) == 0;
      } else {
        assert x != n as real && Occurrences(row, x) == 0;
      }
    } else {
      assert Hits(m, n) == [];
    }
  }

  /**
   * m_findNonZeros: with K the number of non-zero entries, the first K
   * entries of the (rows*cols)-by-1 result are the 1-based row indices of
   * those entries in row-major scan order (so non-decreasing and within
   * [1, rows], row i + 1 occurring once per non-zero entry of row i), and
   * every later entry is 0.
   */
  lemma FindNonZerosCharacterised(m: Mat)
    requires m.Wf()
    ensures NonZeroCount(m) == |NonZeroRows(m)| <= m.rows * m.cols
    ensures forall p | 0 <= p < NonZeroCount(m) ::
      FindNonZeros(m).cells[p][0] == NonZeroRows(m)[p] && 1.0 <= NonZeroRows(m)[p] <= m.rows as real
    ensures forall p, q | 0 <= p < q < NonZeroCount(m) :: FindNonZeros(m).cells[p][0] <= FindNonZeros(m).cells[q][0]
    ensures forall p | NonZeroCount(m) <= p < m.rows * m.cols :: FindNonZeros(m).cells[p][0] == 0.0
    ensures forall i: nat | i < m.rows :: multiset(NonZeroRows(m))[(i + 1) as real] == CountNonZero(m.cells[i])
  {
    HitsLength(m, m.rows);
    HitsBound(m, m.rows);
    HitsRange(m, m.rows);
    HitsSorted(m, m.rows);
    forall i: nat | i < m.rows
      ensures multiset(NonZeroRows(m))[(i + 1) as real] == CountNonZero(m.cells[i])
    {
      HitsCount(m, m.rows, i);
      OccurrencesIsMultiplicity(NonZeroRows(m), (i + 1) as real);
    }
  }

  // ---------------------------------------------------------------------
  // Min-max normalisation

  /** A matrix has one minimum: any value that is an entry and bounds every entry from below is MinEntry. */
  lemma MinEntryUnique(m: Mat, v: real)
    requires m.Wf() && m.rows > 0 && m.cols > 0 && IsMinEntry(m, v)
    ensures v == MinEntry(m)
  {
    var w := MinEntry(m);
    var i, j :| 0 <= i < m.rows && 0 <= j < m.cols && m.cells[i][j] == v;
    var k, l :| 0 <= k < m.rows && 0 <= l < m.cols && m.cells[k][l] == w;
    assert v <= m.cells[k][l] && w <= m.cells[i][j];
  }

  /** A matrix has one maximum: any value that is an entry and bounds every entry from above is MaxEntry. */
  lemma MaxEntryUnique(m: Mat, v: real)
    requires m.Wf() && m.rows > 0 && m.cols > 0 && IsMaxEntry(m, v)
    ensures v == MaxEntry(m)
  {
    var w := MaxEntry(m);
    var i, j :| 0 <= i < m.rows && 0 <= j < m.cols && m.cells[i][j] == v;
    var k, l :| 0 <= k < m.rows && 0 <= l < m.cols && m.cells[k][l] == w;
    assert m.cells[k][l] <= v && m.cells[i][j] <= w;
  }

  /**
   * m_normalize maps every entry into [0, 1], minimal entries to 0 and
   * maximal entries to 1.
   */
  lemma NormalizeUnitRange(m: Mat, i: nat, j: nat)
    requires CanNormalize(m) && i < m.rows && j < m.cols
    ensures SameShape(Normalize(m), m)
    ensures 0.0 <= Normalize(m).cells[i][j] <= 1.0
    ensures m.cells[i][j] == MinEntry(m) ==> Normalize(m).cells[i][j] == 0.0
    ensures m.cells[i][j] == MaxEntry(m) ==> Normalize(m).cells[i][j] == 1.0
  {
    RescaleUnit(m, MinEntry(m), MaxEntry(m), i, j);
  }

  lemma RescaleUnit(m: Mat, lo: real, hi: real, i: nat, j: nat)
    requires m.Wf() && lo < hi && i < m.rows && j < m.cols
    requires lo <= m.cells[i][j] <= hi
    ensures SameShape(Rescale(m, lo, hi), m)
    ensures 0.0 <= Rescale(m, lo, hi).cells[i][j] <= 1.0
    ensures m.cells[i][j] == lo ==> Rescale(m, lo, hi).cells[i][j] == 0.0
    ensures m.cells[i][j] == hi ==> Rescale(m, lo, hi).cells[i][j] == 1.0
  {
    RatioUnit(m.cells[i][j], lo, hi);
  }

  /** A value in [lo, hi] has a ratio in [0, 1], hitting both ends. */
  lemma RatioUnit(v: real, lo: real, hi: real)
    requires lo < hi && lo <= v <= hi
    ensures 0.0 <= Ratio(v, lo, hi) <= 1.0
    ensures v == lo ==> Ratio(v, lo, hi) == 0.0
    ensures v == hi ==> Ratio(v, lo, hi) == 1.0
  {
    var r := Ratio(v, lo, hi);
    assert r * (hi - lo) == v - lo;
    assert (1.0 - r) * (hi - lo) == hi - v;
  }

  /** m_normalize keeps the order of entries. */
  lemma NormalizeMonotone(m: Mat, i: nat, j: nat, k: nat, l: nat)
    requires CanNormalize(m) && i < m.rows && j < m.cols && k < m.rows && l < m.cols
    requires m.cells[i][j] <= m.cells[k][l]
    ensures Normalize(m).cells[i][j] <= Normalize(m).cells[k][l]
  {
    RescaleMonotone(m, MinEntry(m), MaxEntry(m), i, j, k, l);
  }

  lemma RescaleMonotone(m: Mat, lo: real, hi: real, i: nat, j: nat, k: nat, l: nat)
    requires m.Wf() && lo < hi && i < m.rows && j < m.cols && k < m.rows && l < m.cols
    requires m.cells[i][j] <= m.cells[k][l]
    ensures Rescale(m, lo, hi).cells[i][j] <= Rescale(m, lo, hi).cells[k][l]
  {
    RatioMonotone(m.cells[i][j], m.cells[k][l], lo, hi);
  }

  /** Ratio is monotone in the value. */
  lemma RatioMonotone(v: real, w: real, lo: real, hi: real)
    requires lo < hi && v <= w
    ensures Ratio(v, lo, hi) <= Ratio(w, lo, hi)
  {
    assert Ratio(w, lo, hi) - Ratio(v, lo, hi) == (w - v) / (hi - lo);
  }

  // ---------------------------------------------------------------------
  // Element-wise operations

  /** m_elem_negate twice restores the matrix. */
  lemma NegateInvolution(m: Mat)
    requires m.Wf()
    ensures Negate(Negate(m)) == m
  {
    Ext(Negate(Negate(m)), m);
  }

  /** m_elem_add(x) then m_elem_add(-x) restores the matrix. */
  lemma AddScalarInverse(m: Mat, x: real)
    requires m.Wf()
    ensures AddScalar(AddScalar(m, x), -x) == m
  {
    Ext(AddScalar(AddScalar(m, x), -x), m);
  }

  /** m_elem_divideByConst(x) undoes m_elem_mult(x) for x != 0. */
  lemma ScaleDivideInverse(m: Mat, x: real)
    requires m.Wf() && x != 0.0
    ensures DivideByConst(Scale(m, x), x) == m
  {
    Ext(DivideByConst(Scale(m, x), x), m);
  }

  /** m_elem_divideByMatrix(num) applied twice restores the matrix (num and the entries non-zero). */
  lemma DivideByMatrixInvolution(m: Mat, num: real)
    requires m.Wf() && NoZeroEntry(m) && num != 0.0
    ensures NoZeroEntry(DivideByMatrix(m, num))
    ensures DivideByMatrix(DivideByMatrix(m, num), num) == m
  {
    var r := DivideByMatrix(m, num);
    forall i, j | 0 <= i < m.rows && 0 <= j < m.cols
      ensures r.cells[i][j] != 0.0 && num / r.cells[i][j] == m.cells[i][j]
    {
      var v := m.cells[i][j];
      assert r.cells[i][j] * v == num;
    }
    Ext(DivideByMatrix(r, num), m);
  }

  /** m_elem_truncate is idempotent. */
  lemma TruncateIdempotent(m: Mat)
    requires m.Wf()
    ensures Truncate(Truncate(m)) == Truncate(m)
  {
    var t := Truncate(m);
    forall i, j | 0 <= i < m.rows && 0 <= j < m.cols
      ensures Trunc(t.cells[i][j]) == t.cells[i][j]
    {
      TruncIntegral(m.cells[i][j]);
    }
    Ext(Truncate(t), t);
  }

  lemma TruncIntegral(x: real)
    ensures Trunc(Trunc(x)) == Trunc(x)
  {
    var t := Trunc(x);
    assert t.Floor as real == t;
  }

  /** m_dot_add is commutative. */
  lemma DotAddCommutative(a: Mat, b: Mat)
    requires a.Wf() && b.Wf() && SameShape(a, b)
    ensures DotAdd(a, b) == DotAdd(b, a)
  {
    Ext(DotAdd(a, b), DotAdd(b, a));
  }

  /** m_dot_subtract(A, A) is the zero matrix. */
  lemma DotSubtractSelf(a: Mat)
    requires a.Wf()
    ensures DotSubtract(a, a) == Zeros(a.rows, a.cols)
  {
    Ext(DotSubtract(a, a), Zeros(a.rows, a.cols));
  }

  /** m_dot_add undoes m_dot_subtract. */
  lemma DotAddUndoesSubtract(a: Mat, b: Mat)
    requires a.Wf() && b.Wf() && SameShape(a, b)
    ensures DotAdd(DotSubtract(a, b), b) == a
  {
    Ext(DotAdd(DotSubtract(a, b), b), a);
  }

  /** m_dot_division of a matrix without zeros by itself is all ones. */
  lemma DotDivisionSelf(a: Mat)
    requires a.Wf() && NoZeroEntry(a)
    ensures forall i, j | 0 <= i < a.rows && 0 <= j < a.cols :: DotDivision(a, a).cells[i][j] == 1.0
  {
  }
}
