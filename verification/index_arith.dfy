/**
 * Integer facts about the two ways the matrix library turns a pair of
 * indices into one offset: the column-major buffer offset `j * rows + i`
 * used for storage, and the row-major reading position `r * cols + c`
 * used by reshape and by the non-zero scan.
 */
module IndexArith {

  /** Multiplication by a natural number is monotone. */
  lemma {:induction false} MulMono(a: nat, b: nat, k: nat)
    requires a <= b
    ensures a * k <= b * k
  {
    if k > 0 {
      MulMono(a, b, k - 1);
      assert a * k == a * (k - 1) + a;
      assert b * k == b * (k - 1) + b;
    }
  }

  /** The offset of an in-range entry lies inside the buffer. */
  lemma OffsetInRange(i: nat, j: nat, n: nat, m: nat)
    requires i < n && j < m
    ensures j * n + i < n * m
  {
    MulMono(j + 1, m, n);
    assert (j + 1) * n == j * n + n;
    assert m * n == n * m;
  }

  /** Block i of n consecutive entries ends inside a buffer of m such blocks. */
  lemma BlockInRange(i: nat, n: nat, m: nat)
    requires i < m
    ensures i * n + n <= m * n
  {
    MulMono(i + 1, m, n);
    assert (i + 1) * n == i * n + n;
  }

  /** Different in-range index pairs have different offsets. */
  lemma OffsetInjective(i: nat, j: nat, i': nat, j': nat, n: nat)
    requires i < n && i' < n
    requires j * n + i == j' * n + i'
    ensures i == i' && j == j'
  {
    assert (j + 1) * n == j * n + n && (j' + 1) * n == j' * n + n;
    if j < j' {
      MulMono(j + 1, j', n);
    } else if j' < j {
      MulMono(j' + 1, j, n);
    }
  }

  /** Euclidean division recovers the pair an offset was built from. */
  lemma DivModOfOffset(i: nat, j: nat, n: nat)
    requires i < n
    ensures (j * n + i) / n == j && (j * n + i) % n == i
  {
    var p := j * n + i;
    var q, s := p / n, p % n;
    assert p == q * n + s;
    OffsetInjective(i, j, s, q, n);
  }

  /** Every position of a buffer of `n * m` entries splits into an in-range pair. */
  lemma SplitOffset(p: nat, n: nat, m: nat)
    requires p < m * n
    ensures n > 0 && p / n < m && p % n < n && p == (p / n) * n + p % n
  {
    assert m * n == n * m;
    if n > 0 && p / n >= m {
      MulMono(m, p / n, n);
    }
  }
}
