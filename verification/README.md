# Dense matrices and the LDA scatter matrices of the face-recognition library

This project models two parts of the face-recognition library. The first is its dense matrix type and
the operations of `src/matrix.c`. The second is the scatter-matrix computation `m_scatter` of
`src/lda.c`, together with the shape bookkeeping of `LDA`.

A `matrix_t` is `rows`, `cols` and a flat buffer of `rows * cols` numbers, stored column-major:
`elem(M, i, j)` is `data[j * rows + i]`. The model has two layers:

- **Values** (`MatrixSpec`): `Mat(rows, cols, cells)` is the matrix as rows of reals. Every operation
  of the library has a function here that says, entry by entry, what it computes. `precision_t` is
  `real`, so sums and products are exact.
- **Objects** (`MatrixLib.Matrix`): a class holding `rows`, `cols` and a column-major
  `array<real>`. Every library operation is a method or constructor that works on the buffer through
  the same loops as the C code. Each is proved to produce the `MatrixSpec` value: `Value()` reads the
  buffer back as a `Mat`.

The other modules:

- `MatrixLaws`: properties of the operations. These are involutions, round trips, the agreement of
  row and column totals, centring, non-zero extraction and min-max normalisation.
- `DeterminantSpec`: `m_determinant` as written, with its (-1)^(n+j) sign. It also proves how that
  result relates to the textbook Laplace expansion and the adjugate.
- `Partition`: how `m_scatter` cuts the columns into class blocks by scanning runs of equal
  `entries[k].class`.
- `ScatterSpec`: the class blocks, class means, grand mean, S_b and S_w as values.
- `ScatterLaws`: both scatter matrices stay symmetric, S_w is zero for identical images, and
  S_w + S_b is the total scatter. It also proves the effect of the uninitialised grand-mean buffer.
- `ScatterState`: which object holds which value during `m_scatter`'s loops.
- `Lda`: `m_scatter` and `LDA` over `Matrix` objects.

`IndexArith` holds the index arithmetic of the column-major layout.

## Model

| member | source | states |
|---|---|---|
| MatrixLib.Matrix.Initialize | src/matrix.c:22-30 | a fresh rows-by-cols buffer of rows * cols entries; the contents are unspecified, as with `malloc` |
| MatrixLib.Matrix.Zeros | src/matrix.c:60-67 | a fresh rows-by-cols matrix whose every entry is 0 |
| MatrixLib.Matrix.Identity | src/matrix.c:38-51 | a fresh n-by-n matrix with 1 on the diagonal and 0 elsewhere |
| MatrixLib.Matrix.Copy | src/matrix.c:76-83 | a fresh matrix of the same shape with the same entries, in a buffer distinct from M's |
| MatrixLib.Matrix.Transpose | src/matrix.c:285-297 | a fresh cols-by-rows matrix T with T[i][j] = M[j][i] |
| MatrixLaws.TransposeInvolution | src/matrix.c:285-297 | transposing twice gives back the matrix |
| MatrixLib.Matrix.FlipCols | src/matrix.c:327-337 | the swap loop leaves the buffer holding the column-mirrored matrix |
| MatrixLaws.FlipColsInvolution | src/matrix.c:327-337 | flipping twice restores the matrix |
| MatrixLib.Matrix.Reshape | src/matrix.c:602-616 | requires rows*cols == newRows*newCols (the assert); a fresh newRows-by-newCols matrix holding the reshape |
| MatrixLaws.ReshapeReadingOrder | src/matrix.c:607-613 | for every p, R[p / newCols][p % newCols] = M[p / cols][p % cols], and all four indices are in range |
| MatrixLaws.ReshapeRoundTrip | src/matrix.c:602-616 | reshaping back to the original dimensions restores the matrix |
| MatrixLib.Matrix.ColumnSum | src/matrix.c:528-534 | the inner loop of m_sumCols yields the total of column j |
| MatrixLib.Matrix.SumCols | src/matrix.c:524-537 | a fresh 1-by-cols matrix of column totals |
| MatrixLib.Matrix.MeanCols | src/matrix.c:544-551 | a fresh 1-by-cols matrix of column totals divided by rows |
| MatrixLaws.MeanColsIsMeanColumnOfTranspose | src/matrix.c:544-551 | the column means of M are the mean column of M transposed |
| MatrixLib.Matrix.RowSum | src/matrix.c:563-569 | the inner loop of m_sumRows yields the total of row i |
| MatrixLib.Matrix.SumRows | src/matrix.c:559-572 | a fresh rows-by-1 matrix of row totals |
| MatrixLaws.SumRowsSumColsAgree | src/matrix.c:524-572 | the row totals and the column totals add up to the same grand total |
| MatrixLib.Matrix.AddColumnsInto | src/matrix.c:263-270 | starting from zeros, the accumulation loop leaves the row totals in a |
| MatrixLib.Matrix.MeanColumn | src/matrix.c:261-277 | a fresh rows-by-1 matrix holding each row total divided by cols |
| MatrixLib.Matrix.NormalizeColumns | src/matrix.c:305-313 | a[j] is subtracted from every entry of row j in place; `a` is not written |
| MatrixLaws.CentredRowsSumToZero | src/matrix.c:261-313 | after the mean column is subtracted, every row sums to 0 |
| MatrixLib.Matrix.ScanRow | src/matrix.c:585-591 | scanning row i appends i+1 once per non-zero entry of the row and advances `count` to match |
| MatrixLib.Matrix.FindNonZeros | src/matrix.c:580-594 | a fresh (rows*cols)-by-1 matrix holding the non-zero row indices, padded with zeros |
| MatrixLaws.FindNonZerosCharacterised | src/matrix.c:580-594 | the first K entries are the 1-based row indices of the non-zero elements in row-major order, non-decreasing and in [1, rows]; row i+1 occurs once per non-zero entry of row i; all later entries are 0 |
| MatrixLaws.HitsSorted | src/matrix.c:584-592 | the recorded row indices never decrease |
| MatrixLaws.HitsRange | src/matrix.c:584-592 | every recorded row index lies in [1, rows scanned] |
| MatrixLaws.HitsCount | src/matrix.c:584-592 | row index i+1 is recorded exactly as often as row i has non-zero entries |
| MatrixLib.Matrix.Extremes | src/matrix.c:347-360 | the scan yields the least and the greatest entry of the matrix |
| MatrixLaws.MinEntryUnique | src/matrix.c:347-360 | an entry no larger than every entry is the minimum the scan finds |
| MatrixLaws.MaxEntryUnique | src/matrix.c:347-360 | an entry no smaller than every entry is the maximum the scan finds |
| MatrixLib.Matrix.RescaleBy | src/matrix.c:361-365 | every entry x becomes (x - lo) / (hi - lo) in place |
| MatrixLib.Matrix.Normalize | src/matrix.c:344-366 | the buffer ends up holding every x mapped to (x - min) / (max - min) |
| MatrixLaws.NormalizeUnitRange | src/matrix.c:344-366 | every result lies in [0, 1], minimal entries become 0 and maximal entries become 1 |
| MatrixLaws.NormalizeMonotone | src/matrix.c:344-366 | normalisation keeps the order of entries |
| MatrixLib.Matrix.ElemNegate | src/matrix.c:423-430 | every entry is negated in place |
| MatrixLaws.NegateInvolution | src/matrix.c:423-430 | negating twice restores the matrix |
| MatrixLib.Matrix.ElemMult | src/matrix.c:466-473 | every entry is multiplied by x in place |
| MatrixLib.Matrix.ElemDivideByConst | src/matrix.c:480-487 | every entry is divided by x in place |
| MatrixLaws.ScaleDivideInverse | src/matrix.c:466-487 | multiplying by a non-zero x and then dividing by x restores the matrix |
| MatrixLib.Matrix.ElemDivideByMatrix | src/matrix.c:494-501 | every entry e becomes num / e in place |
| MatrixLaws.DivideByMatrixInvolution | src/matrix.c:494-501 | with num non-zero, the result has no zero entry and applying it twice restores the matrix |
| MatrixLib.Matrix.ElemAdd | src/matrix.c:508-515 | x is added to every entry in place |
| MatrixLaws.AddScalarInverse | src/matrix.c:508-515 | adding x and then -x restores the matrix |
| MatrixLib.Matrix.ElemTruncate | src/matrix.c:377-384 | every entry is replaced by its integer part, rounded toward zero |
| MatrixLaws.TruncateIdempotent | src/matrix.c:377-384 | truncating twice is truncating once |
| MatrixSpec.Trunc | src/matrix.c:381 | the result is an integer, between 0 and x, and less than 1 away from x |
| MatrixLib.Matrix.DotAdd | src/matrix.c:827-837 | requires equal shapes (the assert); a fresh matrix with R[i][j] = A[i][j] + B[i][j] |
| MatrixLaws.DotAddCommutative | src/matrix.c:827-837 | A + B equals B + A |
| MatrixLib.Matrix.DotSubtract | src/matrix.c:810-820 | requires equal shapes; a fresh matrix with R[i][j] = A[i][j] - B[i][j] |
| MatrixLaws.DotSubtractSelf | src/matrix.c:810-820 | A - A is the zero matrix |
| MatrixLaws.DotAddUndoesSubtract | src/matrix.c:810-837 | (A - B) + B equals A |
| MatrixLib.Matrix.DotDivision | src/matrix.c:844-854 | requires equal shapes; a fresh matrix with R[i][j] = A[i][j] / B[i][j] |
| MatrixLaws.DotDivisionSelf | src/matrix.c:844-854 | A ./ A is all ones when A has no zero entry |
| MatrixLib.Matrix.Determinant | src/matrix.c:695-728 | requires a square matrix (the assert); the result is the determinant as m_determinant defines it: 0 below size 1, the entry at size 1, ad - cb at size 2, and the expansion with sign (-1)^(n+j) from size 3 |
| MatrixLib.Matrix.Expand | src/matrix.c:705-726 | the loop over the columns of row 0 sums every signed expansion term |
| MatrixLib.Matrix.ExpandColumn | src/matrix.c:709-723 | one pass adds the term of column j, signed by the row cursor i == rows |
| MatrixLib.Matrix.FillMinor | src/matrix.c:710-719 | the shared buffer A receives the minor without row 0 and column j, and the row cursor ends at rows |
| DeterminantSpec.DetIdentity | src/matrix.c:695-728 | the n-by-n identity evaluates to 0 for n = 0, to -1 when n mod 4 is 0 or 3, and to 1 otherwise |
| DeterminantSpec.DetZeroRow | src/matrix.c:695-728 | an all-zero row gives 0 |
| DeterminantSpec.DetIsTwistedLaplace | src/matrix.c:705-724 | m_determinant is the textbook determinant, negated exactly when n mod 4 is 0 or 3 |
| MatrixLib.Matrix.FillCofactorMinor | src/matrix.c:747-755 | A receives every entry outside row i and column j, in order |
| MatrixLib.Matrix.Cofactor | src/matrix.c:735-764 | a fresh matrix of the same size whose entry R[j][i] is (-1)^(i+j) times m_determinant of minor (i, j) |
| DeterminantSpec.Cofactor2x2 | src/matrix.c:735-764 | the cofactor of [[a, b], [c, d]] is [[d, -b], [-c, a]] |
| DeterminantSpec.AdjugateProduct2x2 | src/matrix.c:735-764 | a 2-by-2 matrix times its cofactor matrix is m_determinant of the matrix times the identity |
| DeterminantSpec.CofactorIsTwistedAdjugate | src/matrix.c:735-764 | the cofactor of a 1-by-1 matrix is 0; from size 2 it is the textbook adjugate, negated when (n - 1) mod 4 is 0 or 3 |
| DeterminantSpec.CofactorColumnEntry | src/matrix.c:756-759 | column 0 of the cofactor holds the signed textbook minors of row 0, with the same sign twist |
| Partition.RunEnd | src/lda.c:28-33 | the scan from j stops at the first column at or after j whose class differs from column j's, or at the number of columns (the end of the data); every column it passes has j's class |
| Partition.RunEndUnique | src/lda.c:28-33 | a uniform stretch followed by a class change or the end can only end at RunEnd |
| Partition.BlockStartMonotone | src/lda.c:26-37 | the blocks are laid out left to right |
| Partition.BlockUniform | src/lda.c:26-37 | every column of a block has the class of the block's first column |
| Partition.BlockMaximal | src/lda.c:28-33 | a block that stops before the last column is followed by a column of another class |
| Partition.BlocksDisjoint | src/lda.c:26-37 | no column lies in two blocks |
| Partition.BlockNonEmpty | src/lda.c:29-39 | block i has a column exactly when there are more than i maximal runs, so with fewer runs m_mean_column gets an empty block |
| Partition.BlocksReachEnd | src/lda.c:26-37 | the first c blocks reach the last column exactly when there are at most c runs |
| Partition.CoverageExactly | src/lda.c:26-39 | the c blocks are non-empty and cover every column exactly when the classes form exactly c maximal runs |
| ScatterLaws.BlocksReassemble | src/lda.c:26-40 | with at most c runs, the c blocks of X_classes put side by side give back every row of x, and every column of block i has the class of the block's first column |
| ScatterLaws.ClassMeanEntry | src/lda.c:35-39 | block i is non-empty, and entry a of U[i] is the sum of entry a over the columns of x in block i, divided by the block's width |
| ScatterSpec.AddUp | src/lda.c:45-49 | entry a of the sum is the incoming entry plus the sum of entry a of every class mean |
| ScatterSpec.Average | src/lda.c:43-52 | entry a of the grand mean is the sum of entry a of the class means divided by c: each class counts once, whatever its size |
| ScatterLaws.UninitialisedMeanDiffers | src/lda.c:43-52 | when the incoming buffer of u has a non-zero entry a, u differs from the average of the class means at a |
| ScatterLaws.MeanFromShifted | src/lda.c:43-52 | the mean computed from an incoming buffer u0 is the true average plus u0 / c |
| ScatterLaws.GramSymmetric | src/lda.c:72-73 | X X' is symmetric |
| ScatterLaws.BetweenTermSymmetric | src/lda.c:59-65 | n (u_i - u)(u_i - u)' is symmetric |
| ScatterLaws.BetweenScatterSymmetric | src/lda.c:56-67 | S_b stays symmetric through any number of classes when it starts symmetric |
| ScatterLaws.WithinScatterSymmetric | src/lda.c:69-75 | S_w stays symmetric through any number of classes when it starts symmetric |
| ScatterLaws.IdenticalBlockScatter | src/lda.c:69-75 | a block of identical columns, centred on its own mean, contributes the zero matrix |
| ScatterLaws.WithinScatterOfIdentical | src/lda.c:56-75 | when every class consists of identical columns, S_w is left exactly as it came in |
| ScatterLaws.ScatterDecomposition | src/lda.c:56-75 | starting from zeros with the blocks exactly the classes, S_w + S_b is the sum over all columns x of (x - u)(x - u)', for any u |
| Lda.CopyColumnsOf | src/lda.c:35 | m_copy_columns: a fresh matrix holding columns j to k - 1 of X |
| Lda.SubtractInPlace | src/lda.c:61 | m_subtract: A becomes A - B |
| Lda.Multiply | src/lda.c:64 | m_product: a fresh matrix holding the product A B |
| Lda.AddInPlace | src/lda.c:67 | m_add: A becomes A + B |
| Lda.Inverse | src/lda.c:115 | m_inverse: a fresh matrix of the same square shape |
| Lda.Eigen | src/lda.c:117-120 | m_eigen: J_evec receives the given eigenvector matrix |
| Lda.ScanBlock | src/lda.c:28-33 | the scan loop stops at RunEnd of the classes |
| Lda.NextClass | src/lda.c:27-39 | one pass of the class loop copies out block i and its mean into fresh buffers, and the cursor moves to the start of block i + 1 |
| Lda.SplitClasses | src/lda.c:26-40 | X_classes[i] and U[i] hold block i and its mean for every i < c, all in fresh and pairwise distinct buffers |
| Lda.AddColumnInto | src/lda.c:46-48 | one class mean is added onto u entry by entry |
| Lda.AverageInto | src/lda.c:45-52 | u ends up holding (u0 + the sum of the class means) / c, where u0 is whatever u held before |
| Lda.AddBetweenTerm | src/lda.c:59-67 | S_b receives n (u_i - u)(u_i - u)', computed through a copy of u_i |
| Lda.AddWithinTerm | src/lda.c:69-75 | the block is centred on u_i in place and S_w receives the block times its transpose |
| Lda.ClassBetween | src/lda.c:57-67 | for class i, S_b moves from the first-i sum to the first-(i+1) sum, and no class matrix changes |
| Lda.ClassWithin | src/lda.c:69-75 | for class i, S_w moves from the first-i sum to the first-(i+1) sum, and only X_classes[i] changes |
| Lda.AccumulateClasses | src/lda.c:56-83 | after the loop, S_b and S_w hold their incoming values plus the terms of every class |
| Lda.AccumulateScatter | src/lda.c:43-83 | with u starting at zero, S_b and S_w end up as their incoming values plus the between- and within-class terms of the c blocks about the average of the class means |
| Lda.AccumulateScatterAsWritten | src/lda.c:43-83 | with u taken from m_initialize holding some u0, S_b ends up as its incoming value plus the between-class terms about (u0 + the sum of the class means) / c, and S_w as with the corrected member |
| Lda.Scatter | src/lda.c:19-92 | S_b and S_w receive the between- and within-class sums of the first c blocks, S_b stays unchanged when c is 0, and X keeps its value whenever it shares no buffer with S_b or S_w |
| Lda.Lda | src/lda.c:103-139 | the result is a fresh P_pca.rows-by-W_pca_tr.cols matrix equal to evec' W_pca_tr, where evec is the eigenvector matrix |

## Left out

- The `elem` macro and the `matrix_t` declaration live in a header that is not part of this model. `elem(M, i, j)` is taken to be `data[j * rows + i]`, the layout that the BLAS and LAPACK calls of `src/matrix.c` are given.
- Floating point: `precision_t` is an exact `real`. Rounding, infinities and NaN are not modelled.
- Division by zero. The C code divides anyway and produces infinities or NaN; the model instead requires a non-zero divisor. This applies to:
  - `MatrixLib.Matrix.MeanColumn` (cols > 0) and `MatrixLib.Matrix.MeanCols` (rows > 0);
  - `MatrixLib.Matrix.ElemDivideByConst` (x non-zero);
  - `MatrixLib.Matrix.ElemDivideByMatrix` and `MatrixLib.Matrix.DotDivision` (no zero entry);
  - `MatrixLib.Matrix.Normalize` (a non-empty matrix with max > min).
- Lda.Scatter: requires c to be at most the number of maximal equal-class runs. With more, a block is empty and m_mean_column divides by zero columns (`Partition.BlockNonEmpty`).
- MatrixLib.Matrix.ElemTruncate: the `(int)` cast is modelled as rounding toward zero. The undefined behaviour for values outside the range of `int` is not modelled.
- MatrixLib.Matrix.Initialize: the contents of a `malloc`'d buffer are left unspecified. Every operation of `src/matrix.c` that allocates with `m_initialize` is proved to write every entry before returning.
- MatrixLib.Matrix.NormalizeColumns: requires `a` not to share M's buffer. With aliasing, the C code would subtract an entry that has already been changed.
- Lda.Scatter: requires S_b and S_w to be distinct objects, and only promises that X is unchanged when X shares no buffer with them. `LDA` always passes two fresh `m_zeros` matrices.
- MatrixLib.Matrix.Cofactor: on an empty matrix the C code allocates a minor with -1 rows; the model allocates an empty one. The loops do not run in either case.
- Lda.Scatter: uses the corrected, zero-started `u` of the Findings row below. In the C code, S_b is taken about the average of the class means plus the `malloc`'d contents of `u` divided by c; `Lda.AccumulateScatterAsWritten` states that behaviour.
- Lda.Inverse: `m_inverse` is not defined in `src/matrix.c`, and `m_inverseMatrix` calls LAPACK. The model states only the shape of the result.
- Lda.Eigen: `m_eigen` is not defined in `src/matrix.c`, and `m_eigenvalues_eigenvectors` calls LAPACK. The eigenvector matrix is a parameter of `Lda.Lda`, and the eigenvalue buffer is not written.
- Lda.Lda: states only the shapes of `LDA` and that its result is evec' W_pca_tr. Nothing is claimed about `S_w^-1 S_b`, because the inverse and the eigen-decomposition are not modelled.
- `m_copy_columns`, `m_add`, `m_subtract` and `m_product` are not defined in `src/matrix.c`. They are modelled by the value they evidently compute (`Lda.CopyColumnsOf`, `Lda.AddInPlace`, `Lda.SubtractInPlace`, `Lda.Multiply`), not by loops.
- `m_subtract_columns` is not defined in `src/matrix.c`. It is taken to behave like `m_normalize_columns`, using the same `MatrixSpec.SubtractColumn`.
- `m_matrix_multiply` and `m_matrix_division` hand the work to `cblas_dgemm`. The product exists only as the function `MatrixSpec.Product`.
- `m_elem_acos`, `m_elem_sqrt`, `m_elem_exp`, `m_elem_pow` and `m_norm`: transcendental functions have no exact model over the reals.
- `m_fprint`, `m_fscan`, `m_fwrite`, `m_fread`, `m_ppm_read` and `m_ppm_write`: stream and image I/O.
- `m_covariance` reads a matrix that is never written, and `m_reorder_columns` reads outside its argument. Neither has defined behaviour to model. `m_sqrtm` is a stub.
- Memory management (`m_free`, `free`, leaks): allocations are fresh arrays, and nothing is freed.
- The `printf` in `m_determinant` for an empty matrix: only its result, 0, is modelled.
- The names in `database_entry_t` are carried along but play no part.

## Findings

| source | as written | input that shows it | evidently intended | confidence | as-written member | corrected member |
|---|---|---|---|---|---|---|
| src/lda.c:43 | `u` comes from `m_initialize`, which `malloc`s its buffer, and the class means are then added onto whatever that buffer held | any call with c >= 1 whose fresh buffer for u holds a non-zero value v in some entry a: u[a] comes out as the average of the class means plus v / c | u starts at zero, so that u is the unweighted average of the class means, as `m_zeros` would give | not executed | Lda.AccumulateScatterAsWritten | Lda.AccumulateScatter |

`Lda.AccumulateScatterAsWritten` allocates u with `Initialize` and averages onto it through `Lda.AverageInto`; its S_b is about `MeanFrom(u0, U)`. `ScatterLaws.UninitialisedMeanDiffers` and `ScatterLaws.MeanFromShifted` prove that this mean differs from the average of the class means by u0 / c. `Lda.AccumulateScatter` allocates u with `Zeros`. Its grand mean is `ScatterSpec.Average`, the average of the class means, and this corrected mean is the one `Lda.Scatter` and `Lda.Lda` use.
