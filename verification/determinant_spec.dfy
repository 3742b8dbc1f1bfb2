/**
 * The recursive determinant and the cofactor matrix of src/matrix.c.
 *
 * `Det` follows m_determinant as written: 0 for the empty matrix, the
 * entry for size 1, ad - cb for size 2, and for larger sizes an expansion
 * along row 0 whose term j carries the sign (-1)^(n+j), because the sign
 * is read from the row cursor after the minor has been filled, when it
 * equals n.  `LaplaceDet` is the textbook expansion along row 0 with sign
 * (-1)^j, the reference the lemmas compare against.
 */
module DeterminantSpec {
  import opened MatrixSpec
  import opened MatrixLaws

  /** k is even; stated by recursion so that the verifier unfolds it step by step. */
  predicate Even(k: nat)
  {
    if k < 2 then k == 0 else Even(k - 2)
  }

  /**
   * (-1)^k * v.  The library multiplies by `sign = 1 - 2 * ((i % 2) ^ (j % 2))`,
   * which is (-1)^(i+j) (see SignedMatchesParity).
   */
  function Signed(k: nat, v: real): real
  {
    if Even(k) then v else -v
  }

  /** Index k of a matrix with one line removed, as an index of the full matrix with line x. */
  function Skip(k: nat, x: nat): nat
  {
    if k < x then k else k + 1
  }

  /** The square matrix m without row r and column c, in the order the fill loops copy it. */
  function Minor(m: Mat, r: nat, c: nat): (a: Mat)
    requires m.Wf() && Square(m) && r < m.rows && c < m.cols
    ensures a.Wf() && Square(a) && a.rows == m.rows - 1
  {
    Mat(m.rows - 1, m.cols - 1,
      seq(m.rows - 1, i requires 0 <= i < m.rows - 1 =>
        seq(m.cols - 1, j requires 0 <= j < m.cols - 1 => m.cells[Skip(i, r)][Skip(j, c)])))
  }

  lemma MinorEntry(m: Mat, r: nat, c: nat, i: nat, j: nat)
    requires m.Wf() && Square(m) && r < m.rows && c < m.cols && i < m.rows - 1 && j < m.cols - 1
    ensures Minor(m, r, c).cells[i][j] == m.cells[Skip(i, r)][Skip(j, c)]
  {
  }

  // ---------------------------------------------------------------------
  // m_determinant, as written

  function Det(m: Mat): real
    requires m.Wf() && Square(m)
    decreases m.rows, 1
  {
    if m.rows < 1 then 0.0
    else if m.rows == 1 then m.cells[0][0]
    else if m.rows == 2 then m.cells[0][0] * m.cells[1][1] - m.cells[1][0] * m.cells[0][1]
    else Expansion(m, m.cols)
  }

  /**
   * `det` after the first k passes of the column loop; pass j adds
   * sign * M[0][j] * det(minor) with the sign taken from the row cursor,
   * which equals n once the minor is filled.
   */
  function Expansion(m: Mat, k: nat): real
    requires m.Wf() && Square(m) && 1 <= m.rows && k <= m.cols
    decreases m.rows, 0, k
  {
    if k == 0 then 0.0 else Expansion(m, k - 1) + ExpansionTerm(m, k - 1)
  }

  /** Pass j of the column loop: sign * M[0][j] * det(minor of (0, j)). */
  function ExpansionTerm(m: Mat, j: nat): real
    requires m.Wf() && Square(m) && j < m.cols
    decreases m.rows, 0, 0
  {
    Signed(m.rows + j, m.cells[0][j]) * Det(Minor(m, 0, j))
  }

  // ---------------------------------------------------------------------
  // The textbook determinant

  function LaplaceDet(m: Mat): real
    requires m.Wf() && Square(m)
    decreases m.rows, 1
  {
    if m.rows == 0 then 1.0 else LaplaceSum(m, m.cols)
  }

  /** The first k terms of the expansion along row 0, term j with sign (-1)^j. */
  function LaplaceSum(m: Mat, k: nat): real
    requires m.Wf() && Square(m) && 1 <= m.rows && k <= m.cols
    decreases m.rows, 0, k
  {
    if k == 0 then 0.0 else LaplaceSum(m, k - 1) + LaplaceTerm(m, k - 1)
  }

  /** Term j of the expansion along row 0: (-1)^j * M[0][j] * det(minor of (0, j)). */
  function LaplaceTerm(m: Mat, j: nat): real
    requires m.Wf() && Square(m) && j < m.cols
    decreases m.rows, 0, 0
  {
    Signed(j, m.cells[0][j]) * LaplaceDet(Minor(m, 0, j))
  }

  /** n mod 4 is 0 or 3: the sizes at which m_determinant has the opposite sign of the textbook value. */
  predicate Flipped(n: nat)
  {
    if n < 4 then n == 0 || n == 3 else Flipped(n - 4)
  }

  /** v, negated when Flipped(n). */
  function Twisted(n: nat, v: real): real
  {
    if Flipped(n) then -v else v
  }

  // ---------------------------------------------------------------------
  // m_cofactor

  /**
   * Entry (a, b) is the signed m_determinant of the minor that drops row b
   * and column a: the library computes the cofactor of (i, j) and stores
   * it at R[j][i].
   */
  function Cofactor(m: Mat): (r: Mat)
    requires m.Wf() && Square(m)
    ensures r.Wf() && SameShape(r, m)
  {
    Mat(m.rows, m.cols,
      seq(m.rows, a requires 0 <= a < m.rows =>
        seq(m.cols, b requires 0 <= b < m.cols => Signed(a + b, Det(Minor(m, b, a))))))
  }

  /** The textbook adjugate: entry (a, b) is (-1)^(a+b) times the textbook determinant of minor (b, a). */
  function Adjugate(m: Mat): (r: Mat)
    requires m.Wf() && Square(m)
    ensures r.Wf() && SameShape(r, m)
  {
    Mat(m.rows, m.cols,
      seq(m.rows, a requires 0 <= a < m.rows =>
        seq(m.cols, b requires 0 <= b < m.cols => Signed(a + b, LaplaceDet(Minor(m, b, a))))))
  }

  // ---------------------------------------------------------------------
  // Signs

  lemma {:induction false} EvenMod(k: nat)
    ensures Even(k) <==> k % 2 == 0
  {
    if k >= 2 {
      EvenMod(k - 2);
    }
  }

  /** The library's sign formula `1 - 2 * ((i % 2) ^ (j % 2))` gives (-1)^(i+j). */
  lemma SignedMatchesParity(i: nat, j: nat, v: real)
    ensures Signed(i + j, v) == if i % 2 == j % 2 then v else -v
  {
    EvenMod(i + j);
  }

  lemma {:induction false} FlippedMod(n: nat)
    ensures Flipped(n) <==> n % 4 == 0 || n % 4 == 3
  {
    if n >= 4 {
      FlippedMod(n - 4);
    }
  }

  lemma {:induction false} SignedAdd(a: nat, b: nat, v: real)
    ensures Signed(a + b, v) == Signed(a, Signed(b, v))
  {
    if a >= 2 {
      SignedAdd(a - 2, b, v);
    } else if a == 1 {
      EvenStep(b);
    }
  }

  lemma {:induction false} EvenStep(b: nat)
    ensures Even(b + 1) <==> !Even(b)
  {
    if b >= 2 {
      EvenStep(b - 2);
    }
  }

  lemma SignedTwice(k: nat, v: real)
    ensures Signed(k, Signed(k, v)) == v
  {
  }

  /** Growing the size by one multiplies the twist by (-1)^n. */
  lemma {:induction false} TwistStep(n: nat, v: real)
    requires n >= 1
    ensures Twisted(n, v) == Twisted(n - 1, Signed(n, v))
  {
    if n >= 5 {
      TwistStep(n - 4, v);
      assert Even(n) == Even(n - 4);
    } else {
      assert Even(4) && Even(2) && !Even(3);
    }
  }

  /** Sign of term j of m_determinant in terms of the textbook sign. */
  lemma SignedTwist(n: nat, j: nat, y: real)
    requires n >= 1
    ensures Signed(n + j, Twisted(n - 1, y)) == Twisted(n, Signed(j, y))
  {
    TwistStep(n, Signed(j, y));
    SignedAdd(n, j, y);
    SignedAdd(n, j, Twisted(n - 1, y));
  }

  /** Term j of m_determinant's loop against textbook term j. */
  lemma TermTwist(n: nat, j: nat, x: real, d: real, l: real)
    requires n >= 1 && d == Twisted(n - 1, l)
    ensures Signed(n + j, x) * d == Twisted(n, Signed(j, x) * l)
  {
    SignedTwist(n, j, x);
    TwistedMul(n - 1, x, l);
    TwistedMul(n, Signed(j, x), l);
  }

  lemma TwistedMul(t: nat, x: real, l: real)
    ensures Twisted(t, x) * l == x * Twisted(t, l) == Twisted(t, x * l)
  {
  }

  /** One more term on both sides keeps the twist. */
  lemma AddTwisted(n: nat, e: real, e': real, u: real, l: real, l': real, v: real)
    requires e == e' + u && l == l' + v && e' == Twisted(n, l') && u == Twisted(n, v)
    ensures e == Twisted(n, l)
  {
  }

  /** Product j of row 0 and cofactor column 0 against textbook term j. */
  lemma MulSignedTwisted(x: real, c: real, j: nat, t: nat, d: real, l: real, term: real)
    requires c == Signed(j, d) && d == Twisted(t, l) && term == Signed(j, x) * l
    ensures x * c == Twisted(t, term)
  {
  }

  // ---------------------------------------------------------------------
  // m_determinant against the textbook determinant

  lemma LaplaceOfOne(m: Mat)
    requires m.Wf() && Square(m) && m.rows == 1
    ensures LaplaceDet(m) == m.cells[0][0]
  {
    assert LaplaceDet(Minor(m, 0, 0)) == 1.0;
    assert LaplaceTerm(m, 0) == m.cells[0][0];
    assert LaplaceDet(m) == LaplaceSum(m, 1) == LaplaceSum(m, 0) + LaplaceTerm(m, 0);
  }

  lemma LaplaceOfTwo(m: Mat)
    requires m.Wf() && Square(m) && m.rows == 2
    ensures LaplaceDet(m) == m.cells[0][0] * m.cells[1][1] - m.cells[0][1] * m.cells[1][0]
  {
    var a, b := Minor(m, 0, 0), Minor(m, 0, 1);
    MinorEntry(m, 0, 0, 0, 0);
    MinorEntry(m, 0, 1, 0, 0);
    LaplaceOfOne(a);
    LaplaceOfOne(b);
    assert LaplaceTerm(m, 0) == m.cells[0][0] * m.cells[1][1];
    assert !Even(1);
    assert LaplaceTerm(m, 1) == -m.cells[0][1] * m.cells[1][0];
    assert LaplaceDet(m) == LaplaceSum(m, 2) == LaplaceSum(m, 1) + LaplaceTerm(m, 1);
    assert LaplaceSum(m, 1) == LaplaceSum(m, 0) + LaplaceTerm(m, 0);
  }

  /**
   * m_determinant is the textbook determinant up to the sign slip: it is
   * negated exactly when n mod 4 is 0 or 3 (and the empty matrix gives 0
   * instead of 1).
   */
  lemma {:induction false} DetIsTwistedLaplace(m: Mat)
    requires m.Wf() && Square(m)
    ensures Det(m) == if m.rows == 0 then 0.0 else Twisted(m.rows, LaplaceDet(m))
    decreases m.rows, 1
  {
    var n := m.rows;
    if n == 1 {
      LaplaceOfOne(m);
    } else if n == 2 {
      LaplaceOfTwo(m);
    } else if n >= 3 {
      ExpansionTwisted(m, n);
    }
  }

  /** After k passes, m_determinant's loop holds the first k textbook terms, twisted for size n. */
  lemma {:induction false} ExpansionTwisted(m: Mat, k: nat)
    requires m.Wf() && Square(m) && 3 <= m.rows && k <= m.cols
    ensures Expansion(m, k) == Twisted(m.rows, LaplaceSum(m, k))
    decreases m.rows, 0, k
  {
    if k == 0 {
      assert Expansion(m, k) == 0.0 && LaplaceSum(m, k) == 0.0;
    } else {
      ExpansionTwisted(m, k - 1);
      TermIsTwisted(m, k - 1);
      AddTwisted(m.rows, Expansion(m, k), Expansion(m, k - 1), ExpansionTerm(m, k - 1),
        LaplaceSum(m, k), LaplaceSum(m, k - 1), LaplaceTerm(m, k - 1));
    }
  }

  /** Pass j of m_determinant's loop is textbook term j, twisted for size n. */
  lemma {:induction false} TermIsTwisted(m: Mat, j: nat)
    requires m.Wf() && Square(m) && 2 <= m.rows && j < m.cols
    ensures ExpansionTerm(m, j) == Twisted(m.rows, LaplaceTerm(m, j))
    decreases m.rows, 0, 0
  {
    var a := Minor(m, 0, j);
    DetIsTwistedLaplace(a);
    TermTwist(m.rows, j, m.cells[0][j], Det(a), LaplaceDet(a));
  }

  /** The textbook determinant of the identity is 1. */
  lemma {:induction false} LaplaceIdentity(n: nat)
    ensures LaplaceDet(Identity(n)) == 1.0
  {
    if n > 0 {
      LaplaceIdentity(n - 1);
      var id := Identity(n);
      forall i, j | 0 <= i < n - 1 && 0 <= j < n - 1
        ensures Minor(id, 0, 0).cells[i][j] == Identity(n - 1).cells[i][j]
      {
        MinorEntry(id, 0, 0, i, j);
      }
      Ext(Minor(id, 0, 0), Identity(n - 1));
      LaplaceSumIdentity(n, n);
    }
  }

  lemma {:induction false} LaplaceSumIdentity(n: nat, k: nat)
    requires 1 <= n && k <= n
    requires LaplaceDet(Minor(Identity(n), 0, 0)) == 1.0
    ensures LaplaceSum(Identity(n), k) == if k == 0 then 0.0 else 1.0
  {
    if k > 0 {
      LaplaceSumIdentity(n, k - 1);
    }
  }

  /**
   * m_determinant of the n-by-n identity: 0 for n == 0, -1 when n mod 4 is
   * 0 or 3, and 1 otherwise.
   */
  lemma DetIdentity(n: nat)
    ensures Det(Identity(n)) == if n == 0 then 0.0 else if n % 4 == 0 || n % 4 == 3 then -1.0 else 1.0
  {
    DetIsTwistedLaplace(Identity(n));
    LaplaceIdentity(n);
    FlippedMod(n);
  }

  /** A row of zeros makes the textbook determinant 0. */
  lemma {:induction false} LaplaceZeroRow(m: Mat, r: nat)
    requires m.Wf() && Square(m) && r < m.rows
    requires forall j | 0 <= j < m.cols :: m.cells[r][j] == 0.0
    ensures LaplaceDet(m) == 0.0
    decreases m.rows, 1
  {
    LaplaceSumZeroRow(m, r, m.cols);
  }

  lemma {:induction false} LaplaceSumZeroRow(m: Mat, r: nat, k: nat)
    requires m.Wf() && Square(m) && r < m.rows && k <= m.cols
    requires forall j | 0 <= j < m.cols :: m.cells[r][j] == 0.0
    ensures LaplaceSum(m, k) == 0.0
    decreases m.rows, 0, k
  {
    if k > 0 {
      LaplaceSumZeroRow(m, r, k - 1);
      if r > 0 {
        MinorKeepsZeroRow(m, r, r - 1, k - 1);
        LaplaceZeroRow(Minor(m, 0, k - 1), r - 1);
      }
    }
  }

  /** Dropping row 0 moves a zero row r == s + 1 up to s. */
  lemma MinorKeepsZeroRow(m: Mat, r: nat, s: nat, c: nat)
    requires m.Wf() && Square(m) && r < m.rows && r == s + 1 && c < m.cols
    requires forall j | 0 <= j < m.cols :: m.cells[r][j] == 0.0
    ensures forall j | 0 <= j < m.cols - 1 :: Minor(m, 0, c).cells[s][j] == 0.0
  {
    forall j | 0 <= j < m.cols - 1
      ensures Minor(m, 0, c).cells[s][j] == 0.0
    {
      MinorEntry(m, 0, c, s, j);
    }
  }

  /** A row of zeros makes m_determinant 0, whatever its size. */
  lemma DetZeroRow(m: Mat, r: nat)
    requires m.Wf() && Square(m) && r < m.rows
    requires forall j | 0 <= j < m.cols :: m.cells[r][j] == 0.0
    ensures Det(m) == 0.0
  {
    LaplaceZeroRow(m, r);
    DetIsTwistedLaplace(m);
  }

  /**
   * m_cofactor is the textbook adjugate twisted by the sign slip of the
   * size n - 1 determinants it uses; a 1-by-1 matrix gets the 0 of the
   * empty determinant.
   */
  lemma CofactorIsTwistedAdjugate(m: Mat)
    requires m.Wf() && Square(m) && m.rows >= 1
    ensures m.rows == 1 ==> Cofactor(m) == Zeros(1, 1)
    ensures m.rows >= 2 ==> forall a, b | 0 <= a < m.rows && 0 <= b < m.cols ::
      Cofactor(m).cells[a][b] == Twisted(m.rows - 1, Adjugate(m).cells[a][b])
  {
    var n := m.rows;
    if n == 1 {
      Ext(Cofactor(m), Zeros(1, 1));
    } else {
      forall a, b | 0 <= a < n && 0 <= b < n
        ensures Cofactor(m).cells[a][b] == Twisted(n - 1, Adjugate(m).cells[a][b])
      {
        DetIsTwistedLaplace(Minor(m, b, a));
      }
    }
  }

  /** m_cofactor of [[a, b], [c, d]] is [[d, -b], [-c, a]]. */
  lemma Cofactor2x2(m: Mat)
    requires m.Wf() && m.rows == 2 && m.cols == 2
    ensures Cofactor(m) == Mat(2, 2, [[m.cells[1][1], -m.cells[0][1]], [-m.cells[1][0], m.cells[0][0]]])
  {
    var expected := Mat(2, 2, [[m.cells[1][1], -m.cells[0][1]], [-m.cells[1][0], m.cells[0][0]]]);
    assert Even(0) && !Even(1) && Even(2);
    forall a, b | 0 <= a < 2 && 0 <= b < 2
      ensures Cofactor(m).cells[a][b] == expected.cells[a][b]
    {
      MinorEntry(m, b, a, 0, 0);
    }
    Ext(Cofactor(m), expected);
  }

  /** For 2-by-2 matrices M times m_cofactor(M) is m_determinant(M) times the identity. */
  lemma AdjugateProduct2x2(m: Mat)
    requires m.Wf() && m.rows == 2 && m.cols == 2
    ensures Product(m, Cofactor(m)) == Scale(Identity(2), Det(m))
  {
    var a, b, c, d := m.cells[0][0], m.cells[0][1], m.cells[1][0], m.cells[1][1];
    Ext(m, Mat(2, 2, [[a, b], [c, d]]));
    Cofactor2x2(m);
    ProductWithCofactor2x2(a, b, c, d);
    DetOfTwo(m);
    assert a * d - b * c == Det(m);
    ScaledIdentity2(Det(m));
  }

  lemma ScaledIdentity2(x: real)
    ensures Scale(Identity(2), x) == Mat(2, 2, [[x, 0.0], [0.0, x]])
  {
    Ext(Scale(Identity(2), x), Mat(2, 2, [[x, 0.0], [0.0, x]]));
  }

  /** [[a, b], [c, d]] times [[d, -b], [-c, a]] is (ad - bc) times the identity. */
  lemma ProductWithCofactor2x2(a: real, b: real, c: real, d: real)
    ensures Product(Mat(2, 2, [[a, b], [c, d]]), Mat(2, 2, [[d, -b], [-c, a]]))
      == Mat(2, 2, [[a * d - b * c, 0.0], [0.0, a * d - b * c]])
  {
    var x, y := Mat(2, 2, [[a, b], [c, d]]), Mat(2, 2, [[d, -b], [-c, a]]);
    var p, q := Product(x, y), Mat(2, 2, [[a * d - b * c, 0.0], [0.0, a * d - b * c]]);
    ProductOfTwo(x, y, 0, 0);
    ProductOfTwo(x, y, 0, 1);
    ProductOfTwo(x, y, 1, 0);
    ProductOfTwo(x, y, 1, 1);
    Ext(p, q);
  }

  /** An entry of a product of two 2-by-2 matrices. */
  lemma ProductOfTwo(a: Mat, b: Mat, i: nat, j: nat)
    requires a.Wf() && b.Wf() && a.rows == a.cols == b.rows == b.cols == 2 && i < 2 && j < 2
    ensures Product(a, b).cells[i][j] == a.cells[i][0] * b.cells[0][j] + a.cells[i][1] * b.cells[1][j]
  {
    DotOfTwo(a.cells[i], Col(b, j));
  }

  lemma DetOfTwo(m: Mat)
    requires m.Wf() && m.rows == 2 && m.cols == 2
    ensures Det(m) == m.cells[0][0] * m.cells[1][1] - m.cells[1][0] * m.cells[0][1]
  {
  }

  lemma DotOfTwo(v: seq<real>, w: seq<real>)
    requires |v| == |w| == 2
    ensures Dot(v, w) == v[0] * w[0] + v[1] * w[1]
  {
    assert v[..1][..0] == [] && w[..1][..0] == [];
    assert Dot(v[..1], w[..1]) == v[0] * w[0];
  }

  /**
   * Row 0 of M times column 0 of m_cofactor(M) is (-1)^n m_determinant(M):
   * for odd sizes the adjugate identity M * cof(M) = det(M) * I is off by
   * a sign at entry (0, 0).
   */
  lemma AdjugateFirstEntry(m: Mat)
    requires m.Wf() && Square(m) && m.rows >= 2
    ensures Product(m, Cofactor(m)).cells[0][0] == Signed(m.rows, Det(m))
  {
    var n, l := m.rows, LaplaceDet(m);
    RowDotCofactorColumn(m);
    assert Product(m, Cofactor(m)).cells[0][0] == Twisted(n - 1, l);
    DetIsTwistedLaplace(m);
    SignedTwist(n, 0, l);
    assert Det(m) == Signed(n, Twisted(n - 1, l));
    SignedTwice(n, Twisted(n - 1, l));
  }

  /** Row 0 of M times cofactor column 0 is the textbook determinant, twisted for size n - 1. */
  lemma RowDotCofactorColumn(m: Mat)
    requires m.Wf() && Square(m) && m.rows >= 2
    ensures Dot(m.cells[0], Col(Cofactor(m), 0)) == Twisted(m.rows - 1, LaplaceDet(m))
  {
    var row, col := m.cells[0], Col(Cofactor(m), 0);
    CofactorColumnTerms(m, row, col);
    assert row[..m.cols] == row && col[..m.cols] == col;
    DotTwisted(m, row, col, m.cols);
    assert LaplaceDet(m) == LaplaceSum(m, m.cols);
  }

  /** Every product M[0][j] * cof(M)[j][0] is textbook term j, twisted for size n - 1. */
  lemma CofactorColumnTerms(m: Mat, row: seq<real>, col: seq<real>)
    requires m.Wf() && Square(m) && m.rows >= 2
    requires row == m.cells[0] && col == Col(Cofactor(m), 0)
    ensures forall j | 0 <= j < m.cols :: row[j] * col[j] == Twisted(m.rows - 1, LaplaceTerm(m, j))
  {
    forall j | 0 <= j < m.cols
      ensures row[j] * col[j] == Twisted(m.rows - 1, LaplaceTerm(m, j))
    {
      CofactorColumnEntry(m, col, j);
      CofactorColumnTerm(m, row, col, j);
    }
  }

  /** A dot product whose products are the textbook terms, twisted for size t, adds up to the twisted partial sum. */
  lemma {:induction false} DotTwisted(m: Mat, row: seq<real>, col: seq<real>, k: nat)
    requires m.Wf() && Square(m) && 1 <= m.rows && |row| == |col| == m.cols && k <= m.cols
    requires forall j | 0 <= j < m.cols :: row[j] * col[j] == Twisted(m.rows - 1, LaplaceTerm(m, j))
    ensures Dot(row[..k], col[..k]) == Twisted(m.rows - 1, LaplaceSum(m, k))
  {
    if k == 0 {
      assert LaplaceSum(m, k) == 0.0;
    } else {
      DotTwisted(m, row, col, k - 1);
      DotPrefix(row, col, k);
      AddTwisted(m.rows - 1, Dot(row[..k], col[..k]), Dot(row[..k - 1], col[..k - 1]), row[k - 1] * col[k - 1],
        LaplaceSum(m, k), LaplaceSum(m, k - 1), LaplaceTerm(m, k - 1));
    }
  }

  /**
   * Entry j of cofactor column 0 is the signed m_determinant of minor
   * (0, j), that is the signed textbook determinant twisted for size n - 1.
   */
  lemma CofactorColumnEntry(m: Mat, col: seq<real>, j: nat)
    requires m.Wf() && Square(m) && m.rows >= 2 && j < m.cols && col == Col(Cofactor(m), 0)
    ensures col[j] == Signed(j, Twisted(m.rows - 1, LaplaceDet(Minor(m, 0, j))))
  {
    assert col[j] == Signed(j, Det(Minor(m, 0, j)));
    DetIsTwistedLaplace(Minor(m, 0, j));
  }

  /** M[0][j] times entry j of cofactor column 0 is textbook term j, twisted for size n - 1. */
  lemma CofactorColumnTerm(m: Mat, row: seq<real>, col: seq<real>, j: nat)
    requires m.Wf() && Square(m) && m.rows >= 2 && j < m.cols && j < |col|
    requires row == m.cells[0] && col[j] == Signed(j, Twisted(m.rows - 1, LaplaceDet(Minor(m, 0, j))))
    ensures row[j] * col[j] == Twisted(m.rows - 1, LaplaceTerm(m, j))
  {
    var l := LaplaceDet(Minor(m, 0, j));
    MulSignedTwisted(row[j], col[j], j, m.rows - 1, Twisted(m.rows - 1, l), l, LaplaceTerm(m, j));
  }
}
