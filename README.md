# Dense matrices over an abstract matrix interface

This project models the dense linear-algebra core of a small C++ template library.

`AbstractMatrix<Scalar>` is an interface. It exposes a shape (`getRows`, `getColumns`), the
elements in row-major order (`begin`..`end`), element access `operator()(r, c)`, the shape
predicates `isSquare`, `isVector`, `isDiagonal`, `isZero` and `isIdentity`, and `max`, `min` and
`trace`. Three classes derive from it, each over one flat `std::vector` buffer; `Matrix` and
`Vector` stay abstract as written (see "## Left out"):

- `SquareMatrix` is n × n. It supports arithmetic, the product, transposition, row and column
  swaps, `makeIdentity`, and Gaussian elimination for `det` and Gauss-Jordan elimination for
  `invert`.
- `Matrix` is rows × columns. It has the same operations except `invert` and `makeIdentity`, and
  its `det` first requires a square shape.
- `Vector` holds `size` elements and an orientation flag. When the flag is false it is a
  horizontal 1 × size vector, and when true a vertical size × 1 vector.

How the model is organised:

- **Scalars.** `Scalar` (and the `T` of `det<T>` / `invert<T>`) is Dafny's exact `real`.
- **Buffers.** Every buffer is a `seq<real>` in row-major order. Module `RowMajor` holds the
  element-level specification functions: `At`, `Product`, `Transposed`, `SwappedRows`,
  `SwappedColumns`, `Identity`, `Sum`, `Difference`, `Negation`, `Scaled`, `Trace` and the shape
  predicates. It also holds the element loops that the classes run, each proved against one of
  those functions.
- **The interface.** A `const AbstractMatrix&` parameter is the value
  `AbstractMatrix.Dense(rows, columns, data)`. The interface predicates, `operator!=`, `max` and
  `min` are defined on that value.
- **Elimination.** `det<T>` and `invert<T>` work on a working copy, which is modelled as rows
  (`seq<seq<real>>`) in module `Elimination`:
  - the forward pass: pivot search, swap, and reduction below the pivot;
  - the determinant as the diagonal product with a sign;
  - the singularity condition under which `invert` throws;
  - a companion matrix `r`, which starts as the identity and receives every row operation. Its
    invariant is `r · A == m`.
- **Inversion.** The loops of `invert` are in module `Inversion`. It also holds the algebra of
  the working copies (associativity and the identity laws), one row operation undoing each step
  of the elimination, and the argument that a matrix on which the elimination stops has no
  inverse.
- **Classes.** The three classes (`SquareMatrices.SquareMatrix`, `Matrices.Matrix` and
  `Vectors.Vector`) keep their fields as mutable `seq`/`nat`/`bool` fields. `Valid()` ties the
  buffer length to the shape.
- **Exceptions.** A thrown exception becomes `Err(e)` or `Fail(e)`, where
  `e == OutOfRange(what)` or `RuntimeError(message)` carries the source's own text. A method that
  throws leaves its receiver unchanged.

What is proved, beyond each operation meeting its element-level specification:

- **Shape queries.** Each predicate agrees with the interface definition. `isIdentity` holds
  exactly when the buffer is the identity.
- **Transposition and swaps.** Transposing twice, and swapping the same pair of rows or columns
  twice, is the identity.
- **Sums.** Addition is commutative and associative, and subtraction undoes it. `-m` is an
  additive inverse, and negation is an involution. Scaling by c is undone by scaling by 1/c.
- **Identity and trace.** The identity is neutral for the product on both sides. Its trace is n.
  The trace is additive and invariant under transposition.
- **Determinant.**
  - For n ≥ 2, it is 0 exactly when `invert` throws "Singular matrix". For n = 1, `det` returns
    `data[0]`, while `invert` returns `1 / data[0]` without a check.
  - It is 0 when a row is all zeros, and when two rows are equal.
  - On an upper-triangular matrix it is the diagonal product.
  - It is 1 on the identity.
  - `det` and `invert` run the same forward pass, even though one starts its row operations at
    column k and the other at column 0.
- **Inverse.** The result of `invert()` is a two-sided inverse: it times the original is the
  identity, and so is the original times it. When `invert` throws "Singular matrix", no matrix
  times the original is the identity.

## Model

| member | source | states |
|---|---|---|
| AbstractMatrix.Max | AbstractMatrix.h:35-37 | `max()` of a non-empty buffer is one of its elements and no element exceeds it |
| AbstractMatrix.Min | AbstractMatrix.h:39-41 | `min()` of a non-empty buffer is one of its elements and no element is below it |
| AbstractMatrix.MaxNegation | AbstractMatrix.h:35-41 | the maximum of the negated buffer is minus the minimum (`max`/`min` are dual) |
| RowMajor.AtUpdate | SquareMatrix.h:93-97 | writing element (r, c) changes that element and no other |
| RowMajor.Multiply | SquareMatrix.h:147-159 | the triple loop with row accumulators yields exactly the matrix `Product` (element (i,k) is the dot product of row i and column k) |
| RowMajor.ProductAt | Matrix.h:148-160 | element (i, k) of the product is Σ_j a(i,j)·b(j,k), and the product has rows × cols elements |
| RowMajor.ProductIdentityRight | Matrix.h:148-160 | a · I == a |
| RowMajor.ProductIdentityLeft | Matrix.h:148-160 | I · a == a |
| RowMajor.Transpose | Matrix.h:247-253 | `elements[j*rows+i] = data[i*columns+j]` fills exactly the transposed buffer |
| RowMajor.TransposedAt | Matrix.h:247-253 | element (c, r) of the transpose is element (r, c) of the original |
| RowMajor.TransposeTwice | SquareMatrix.h:297-307 | transposing twice gives back the original buffer |
| RowMajor.TransposedRow | Vector.h:207-209 | a 1 × n buffer is its own transpose |
| RowMajor.TransposedColumn | Vector.h:207-209 | an n × 1 buffer is its own transpose |
| RowMajor.SwapRows | Matrix.h:233-238 | the element-wise `std::swap` loop over the columns yields the buffer with rows a and b exchanged |
| RowMajor.SwappedRowsAt | Matrix.h:233-238 | in the result, row a holds the old row b, row b the old row a, and every other row is unchanged |
| RowMajor.SwapRowsTwice | SquareMatrix.h:283-288 | swapping the same two rows twice restores the buffer |
| RowMajor.SwapColumns | SquareMatrix.h:290-295 | the element-wise `std::swap` loop over the rows yields the buffer with columns a and b exchanged |
| RowMajor.SwappedColumnsAt | SquareMatrix.h:290-295 | in the result, column a holds the old column b, column b the old column a, and every other column is unchanged |
| RowMajor.SwapColumnsTwice | SquareMatrix.h:290-295 | swapping the same two columns twice restores the buffer |
| RowMajor.SumDiagonal | Matrix.h:179-186 | the loop stepping by columns + 1 sums exactly the diagonal elements (the `Trace`) |
| RowMajor.IdentityTrace | SquareMatrix.h:309-316 | the trace of the n × n identity is n |
| RowMajor.TraceTransposed | SquareMatrix.h:179-186 | the trace is unchanged by transposition |
| RowMajor.TraceSum | SquareMatrix.h:117-124 | the trace of a sum is the sum of the traces |
| RowMajor.CheckDiagonal | SquareMatrix.h:55-61 | true exactly when every off-diagonal element is 0 |
| RowMajor.CheckIdentity | SquareMatrix.h:70-77 | true exactly when the matrix is diagonal and every diagonal element is 1 |
| RowMajor.IsIdentityIff | SquareMatrix.h:70-77 | `isIdentity` holds exactly when the buffer equals the identity |
| RowMajor.IdentityAt | SquareMatrix.h:309-316 | element (r, c) of the identity is 1 on the diagonal and 0 elsewhere |
| RowMajor.CheckZero | SquareMatrix.h:63-68 | true exactly when every element is 0 |
| RowMajor.ElementsEqual | Matrix.h:102-105 | the element-by-element comparison is true exactly when the buffers are equal |
| RowMajor.AddInPlace | Matrix.h:119-122 | `data[i] += m_data[i]` yields the pairwise sum |
| RowMajor.SubtractInPlace | Matrix.h:135-138 | `data[i] -= m_data[i]` yields the pairwise difference |
| RowMajor.ScaleInPlace | Matrix.h:167-171 | `e *= c` over the buffer yields every element times c |
| RowMajor.Negate | Matrix.h:108-114 | the `push_back(-element)` loop yields every element negated |
| RowMajor.MakeIdentity | SquareMatrix.h:309-316 | the double loop writes exactly the identity |
| RowMajor.AddElements | Vector.h:147-149 | the `push_back(*i + *j)` loop yields the pairwise sum |
| RowMajor.SubtractElements | Vector.h:161-163 | the `push_back(*i - *j)` loop yields the pairwise difference |
| RowMajor.ScaleElements | Vector.h:193-195 | the `push_back(*it * c)` loop yields every element times c |
| RowMajor.SumCommutes | SquareMatrix.h:117-130 | a + b == b + a |
| RowMajor.SumAssociates | SquareMatrix.h:117-130 | (a + b) + c == a + (b + c) |
| RowMajor.SumNegationIsZero | SquareMatrix.h:110-124 | a + (-a) is the zero matrix |
| RowMajor.DifferenceUndoesSum | SquareMatrix.h:117-145 | (a + b) - b == a |
| RowMajor.DifferenceIsSumOfNegation | SquareMatrix.h:110-145 | a - b == a + (-b) |
| RowMajor.NegationTwice | SquareMatrix.h:110-115 | -(-a) == a |
| RowMajor.ScaledInverse | SquareMatrix.h:166-176 | for c ≠ 0, scaling by c and then by 1/c restores the buffer |
| Elimination.FlattenRowsOf | SquareMatrix.h:195-196 | copying the buffer into the working copy and back gives the same buffer |
| Elimination.CombineUndone | SquareMatrix.h:214-217 | subtracting `factor` times row k and then adding it back gives back the row: the row operation is invertible |
| Elimination.FirstNonzero | SquareMatrix.h:200-208 | the pivot search finds the first row at or below the start with a nonzero element in column k, and None exactly when there is none |
| Elimination.FindPivot | SquareMatrix.h:202-208 | the search loop with `break` returns the `FirstNonzero` row |
| Elimination.SubtractMultiple | SquareMatrix.h:214-217 | the inner j loop of `det` yields `Combine` from column k |
| Elimination.SubtractMultipleBoth | SquareMatrix.h:256-259 | the inner j loop of `invert` applies the same row operation to m and r over all columns |
| Elimination.EliminateBelow | SquareMatrix.h:212-218 | `det`'s step k yields `Reduce` of the working copy from column k |
| Elimination.EliminateBelowBoth | SquareMatrix.h:254-260 | `invert`'s step k yields the reduction of m and, with m's factors, of r |
| Elimination.Pivoted | SquareMatrix.h:200-211 | after the pivot search the pivot at (k, k) is nonzero, or the search reports failure |
| Elimination.PivotedReduced | SquareMatrix.h:200-208 | the pivot swap exchanges rows at or below k, so it keeps the columns already cleared |
| Elimination.ReduceReduced | SquareMatrix.h:212-218 | step k clears column k below a nonzero pivot and keeps the earlier columns clear |
| Elimination.ReduceFullAgrees | SquareMatrix.h:254-260 | starting the row operation at column 0 (`invert`) or at column k (`det`) gives the same rows when the earlier columns are clear |
| Elimination.ForwardAgrees | SquareMatrix.h:241-261 | `invert`'s forward pass and `det`'s reach the same working copy, or fail at the same step |
| Elimination.ForwardReduced | SquareMatrix.h:199-219 | a completed forward pass leaves the copy upper triangular, with the pivots 0..n-2 nonzero |
| Elimination.DiagonalProduct | SquareMatrix.h:221-223 | `det = m(0,0); det *= m(i,i)` computes the product of the diagonal |
| Elimination.DiagProductZero | SquareMatrix.h:221-223 | the diagonal product is 0 exactly when some diagonal element is 0 |
| Elimination.Det | SquareMatrix.h:188-229 | size 0 raises out_of_range (the bound `size - 1` wraps around); sizes 1 and 2 use the closed forms; larger sizes use the elimination; every result equals `Determinant` |
| Elimination.SingularTwo | SquareMatrix.h:263-264 | for 2 × 2, `invert` throws "Singular matrix" exactly when `data[0]*data[3] - data[1]*data[2]` (what `det` returns) is 0 |
| Elimination.ReduceTwo | SquareMatrix.h:254-264 | for 2 × 2 with a nonzero pivot, the last pivot after the step is 0 exactly when the cross product is 0 |
| Elimination.DeterminantZeroIffSingular | SquareMatrix.h:188-281 | for n ≥ 2, `det()` returns 0 exactly when `invert()` throws "Singular matrix" |
| Elimination.ForwardStep | SquareMatrix.h:199-219 | when the pivot search succeeds, the pass from step k is the pass from step k + 1 on the reduced copy |
| Elimination.PivotedZeroRow | SquareMatrix.h:200-208 | the pivot swap moves a zero row to some row other than the pivot row |
| Elimination.ReduceZeroRow | SquareMatrix.h:212-218 | below a nonzero pivot the factor of a zero row is 0, so the row stays zero |
| Elimination.ForwardZeroRow | SquareMatrix.h:199-219 | a matrix with a zero row stops the forward pass or ends it with a zero diagonal element |
| Elimination.PivotedEqualRows | SquareMatrix.h:200-208 | the pivot swap moves two equal rows to two other equal rows |
| Elimination.EqualRowsBelow | SquareMatrix.h:199-219 | in a copy reduced up to row k, two equal rows both lie at or below row k |
| Elimination.ReduceEqualRows | SquareMatrix.h:212-218 | step k keeps two equal rows equal, or turns the one below the pivot row into a zero row when the pivot row is the other |
| Elimination.ForwardEqualRows | SquareMatrix.h:199-219 | a matrix with two equal rows stops the forward pass or ends it with a zero diagonal element |
| Elimination.DeterminantZeroRow | SquareMatrix.h:188-229 | `det()` of a matrix with a row of zeros is 0 |
| Elimination.DeterminantEqualRows | SquareMatrix.h:188-229 | `det()` of a matrix with two equal rows is 0 |
| Elimination.ForwardTriangular | SquareMatrix.h:199-219 | on an upper-triangular matrix every step leaves the copy unchanged, until a zero pivot stops the pass |
| Elimination.ReduceTriangular | SquareMatrix.h:212-218 | below the pivot of an upper-triangular matrix every factor is 0, so the step changes nothing |
| Elimination.DeterminantTriangular | SquareMatrix.h:188-229 | the determinant of an upper-triangular matrix is its diagonal product |
| Elimination.DeterminantIdentity | SquareMatrix.h:188-229 | the determinant of the identity is 1 |
| Elimination.DeterminantWithSwap | test.cpp:10 | the 3 × 3 matrix `b` of the test (zero first pivot, one swap) has determinant -130 |
| Elimination.ExchangeProduct | SquareMatrix.h:245-247 | swapping two rows of r swaps the same rows of r · A |
| Elimination.VecMatCombine | SquareMatrix.h:256-258 | a row operation on r is the same row operation on r · A |
| Elimination.ReduceProduct | SquareMatrix.h:254-260 | if r · A == m before a forward step, it still holds after the step |
| Elimination.ReduceAboveProduct | SquareMatrix.h:266-274 | if r · A == m before a backward step, it still holds after the step |
| Elimination.NormalizeProduct | SquareMatrix.h:276-278 | dividing row i of r and of m by m(i,i) keeps r · A == m |
| Elimination.NormalizeDiagonal | SquareMatrix.h:276-278 | dividing a diagonal m with a nonzero diagonal by its own diagonal gives the identity |
| Elimination.MatMulIdentityLeft | SquareMatrix.h:238-239 | the companion starts as the identity, so initially r · A == A |
| Elimination.ProductFlatten | SquareMatrix.h:147-159 | the flat `Product` of two buffers is the row-by-row product of their working copies |
| Elimination.ReduceAboveCleared | SquareMatrix.h:266-274 | a backward step clears column k above the pivot and leaves the later columns clear |
| Inversion.InvertForward | SquareMatrix.h:236-261 | the forward pass succeeds exactly when `Forward` does; then m is the forward result, reduced, and r · A == m; the ghost product s of the undoing steps has s · r == I |
| Elimination.EliminateAboveBoth | SquareMatrix.h:267-273 | `invert`'s backward step k clears above the pivot in m and applies the same operations to r |
| Inversion.InvertBackward | SquareMatrix.h:266-274 | the backward pass leaves m diagonal with a nonzero diagonal and keeps r · A == m and s · r == I |
| Elimination.NormalizeRows | SquareMatrix.h:276-278 | `r(i,j) /= m(i,i)` yields `Normalize` |
| Inversion.MatMulAssociates | SquareMatrix.h:147-159 | the product of working copies is associative |
| Inversion.MatMulIdentity | SquareMatrix.h:238-239 | the identity companion is neutral on both sides of the product |
| Inversion.RestoreUndoesReduce | SquareMatrix.h:254-260 | adding the multiples of row k back undoes a forward step |
| Inversion.RestoreAboveUndoesReduceAbove | SquareMatrix.h:266-274 | adding the multiples of row k back undoes a backward step |
| Inversion.RescaleUndoesNormalize | SquareMatrix.h:276-278 | multiplying row i back by m(i,i) undoes the final division |
| Inversion.RestoreProduct | SquareMatrix.h:254-260 | the undoing of a forward step on x is the same undoing on x · a |
| Inversion.RestoreAboveProduct | SquareMatrix.h:266-274 | the undoing of a backward step on x is the same undoing on x · a |
| Inversion.RescaleProduct | SquareMatrix.h:276-278 | multiplying the rows of x by the diagonal multiplies the rows of x · a the same way |
| Inversion.UndoExchange | SquareMatrix.h:245-247 | the identity with rows p and k swapped, times r with those rows swapped, gives r |
| Inversion.UndoReduce | SquareMatrix.h:254-260 | a matrix g with g · (r after a forward step) == r |
| Inversion.UndoReduceAbove | SquareMatrix.h:266-274 | a matrix g with g · (r after a backward step) == r |
| Inversion.UndoNormalize | SquareMatrix.h:276-278 | a matrix g with g · (r after the final division) == r |
| Inversion.CompanionStep | SquareMatrix.h:241-278 | if s · r == I and g undoes the step from r to r', then (s · g) · r' == I |
| Inversion.InverseBothSides | SquareMatrix.h:276-280 | s · r == I and r · A == I give A · r == I |
| Inversion.NoLeftInverseBack | SquareMatrix.h:241-261 | if g · q == m and q has no left inverse, neither has m |
| Inversion.KernelZero | SquareMatrix.h:251-252 | when column k is zero from row k down under a reduced top, back substitution gives an x with x[k] == 1 and every row's product with x zero |
| Inversion.KernelNoLeftInverse | SquareMatrix.h:251-252 | such a working copy has no left inverse |
| Inversion.PivotedNoLeftInverse | SquareMatrix.h:242-250 | the pivot swap keeps a matrix without a left inverse without one |
| Inversion.ReduceNoLeftInverse | SquareMatrix.h:254-260 | so does the step below a nonzero pivot |
| Inversion.FullStep | SquareMatrix.h:241-261 | one step of `invert`'s forward pass keeps the copy reduced, one row further, and continues the same pass |
| Inversion.FullStepNoLeftInverse | SquareMatrix.h:241-261 | if the copy after one step has no left inverse, neither has the copy before it |
| Inversion.ForwardNoLeftInverse | SquareMatrix.h:241-264 | when the forward pass stops or leaves a zero last pivot, the matrix has no left inverse |
| Inversion.SingularHasNoInverse | SquareMatrix.h:251-264 | when `invert` throws "Singular matrix", no b has b · a == I |
| Elimination.InverseOne | SquareMatrix.h:233-234 | for 1 × 1, [1/a] times [a] and [a] times [1/a] are the identity |
| Inversion.Invert | SquareMatrix.h:231-281 | size 0 raises out_of_range. Size 1 returns [1/a0]. Otherwise it throws "Singular matrix" exactly when elimination finds the matrix singular. A successful result times the input is the identity, and the input times the result is the identity |
| Matrices.Matrix.Empty | Matrix.h:12 | the default matrix is 0 × 0 with an empty buffer |
| Matrices.Matrix.Filled | Matrix.h:14-15 | a rows × columns matrix with every element `value` |
| Matrices.Matrix.Init | Matrix.h:17-22 | with rows * columns values the constructor does not throw, and the matrix holds those values in that shape |
| Matrices.Matrix.FromValues | Matrix.h:17-22 | "Wrong number of elements" exactly when the value count differs from rows * columns; otherwise the matrix holds those values |
| Matrices.Matrix.FromAbstract | Matrix.h:30-34 | the copy has the source's shape and elements |
| Matrices.Matrix.IsSquare | Matrix.h:45-47 | `isSquare` agrees with the interface's `isSquare` on the shape |
| Matrices.Matrix.IsVector | Matrix.h:49-51 | `isVector` agrees with the interface's `isVector` on the shape: one row or one column |
| Matrices.Matrix.IsDiagonal | Matrix.h:53-61 | `isDiagonal` is false for a non-square shape, otherwise true exactly when every off-diagonal element is 0 |
| Matrices.Matrix.IsZero | Matrix.h:63-68 | `isZero` is true exactly when every element is 0 |
| Matrices.Matrix.IsIdentity | Matrix.h:70-77 | `isIdentity` is false for a non-square shape, otherwise true exactly when the matrix is the identity |
| Matrices.Matrix.Get | Matrix.h:87-91 | out_of_range "Matrix::operator()" exactly when (r, c) is outside the shape; otherwise element r * columns + c |
| Matrices.Matrix.Set | Matrix.h:93-97 | writes element (r, c) and no other, or throws out_of_range and changes nothing |
| Matrices.Matrix.Equals | Matrix.h:99-106 | `==` is false on any difference of shape, otherwise true exactly when the elements agree |
| Matrices.Matrix.NotEquals | AbstractMatrix.h:33 | `!=` is the negation of `==` |
| Matrices.Matrix.Negated | Matrix.h:108-114 | unary minus gives the same shape with every element negated |
| Matrices.Matrix.AddAssign | Matrix.h:116-124 | "Wrong size" exactly when the shapes differ; otherwise the receiver becomes the pairwise sum |
| Matrices.Matrix.Add | Matrix.h:126-130 | `+` on a copy; the receiver is unchanged |
| Matrices.Matrix.SubtractAssign | Matrix.h:132-140 | "Wrong size" exactly when the shapes differ; otherwise the receiver becomes the pairwise difference |
| Matrices.Matrix.Subtract | Matrix.h:142-146 | `-` on a copy; the receiver is unchanged |
| Matrices.Matrix.Multiply | Matrix.h:148-160 | "Wrong size" exactly when columns ≠ m.rows; otherwise a rows × m.columns matrix holding the product |
| Matrices.Matrix.MultiplyAssign | Matrix.h:162-165 | `*=` move-assigns the product, so the receiver takes the product's shape rows × m.columns |
| Matrices.Matrix.ScaleAssign | Matrix.h:167-171 | every element is multiplied by c and the shape is kept |
| Matrices.Matrix.Scale | Matrix.h:173-177 | `* c` scales a copy |
| Matrices.Matrix.Trace | Matrix.h:179-186 | "Not a square matrix" exactly when rows ≠ columns; otherwise the sum of the diagonal |
| Matrices.Matrix.Det | Matrix.h:188-231 | "Not a square matrix" for a rectangular shape; out_of_range for 0 × 0; otherwise the same `Determinant` as `SquareMatrix::det` |
| Matrices.Matrix.SwapRows | Matrix.h:233-238 | out_of_range "Matrix::swapRows" unless both indices are below rows; otherwise exactly the two rows are exchanged |
| Matrices.Matrix.SwapColumnsAsWritten | Matrix.h:240-245 | the guard as written compares the indices with rows: it throws out_of_range "Matrix::swapColumns" and changes nothing when an index is at least rows, whatever the columns; when it passes, the two columns are exchanged |
| Matrices.SwapColumnsGuardOverruns | Matrix.h:241-244 | with fewer columns than rows, the guard admits a column index c ≥ columns, and the last swap then addresses an element past the buffer |
| Matrices.SwapColumnsGuardRejects | Matrix.h:241-242 | with more columns than rows, the guard rejects a valid column index |
| Matrices.Matrix.SwapColumns | Matrix.h:240-245 | corrected: out_of_range "Matrix::swapColumns" unless both indices are below columns; otherwise exactly the two columns are exchanged |
| Matrices.Matrix.Transposed | Matrix.h:247-253 | `transpone` gives a columns × rows matrix with element (j, i) equal to element (i, j) |
| Matrices.Matrix.TransposeThis | Matrix.h:255-257 | the receiver becomes its transpose, with rows and columns exchanged |
| Matrices.ScaleLeft | Matrix.h:264-267 | `c * m` is `m * c` |
| SquareMatrices.SquareMatrix.Empty | SquareMatrix.h:13 | the default matrix is 0 × 0 |
| SquareMatrices.SquareMatrix.Filled | SquareMatrix.h:15 | an n × n matrix with every element `value` |
| SquareMatrices.SquareMatrix.Init | SquareMatrix.h:17-21 | with size * size values the constructor does not throw, and the matrix holds those values |
| SquareMatrices.SquareMatrix.FromValues | SquareMatrix.h:17-21 | "Wrong number of elements" exactly when the value count differs from size * size |
| SquareMatrices.SquareMatrix.FromAbstract | SquareMatrix.h:30-35 | "Not a square matrix" exactly when the source is not square; otherwise a copy of its elements |
| SquareMatrices.SquareMatrix.AssignFrom | SquareMatrix.h:37-45 | assignment from any matrix: "Not a square matrix" and no change, or the receiver takes the source's size and elements |
| SquareMatrices.SquareMatrix.IsVector | SquareMatrix.h:51-53 | `isVector` agrees with the interface's `isVector` on the size × size shape, so it holds exactly for 1 × 1 |
| SquareMatrices.SquareMatrix.IsDiagonal | SquareMatrix.h:55-61 | true exactly when every off-diagonal element is 0 |
| SquareMatrices.SquareMatrix.IsZero | SquareMatrix.h:63-68 | true exactly when every element is 0 |
| SquareMatrices.SquareMatrix.IsIdentity | SquareMatrix.h:70-77 | true exactly when every element is 1 on the diagonal and 0 elsewhere |
| SquareMatrices.SquareMatrix.Get | SquareMatrix.h:87-91 | out_of_range "SquareMatrix::operator()" exactly when (r, c) is outside; otherwise element r * size + c |
| SquareMatrices.SquareMatrix.Set | SquareMatrix.h:93-97 | writes element (r, c) and no other, or throws and changes nothing |
| SquareMatrices.SquareMatrix.Equals | SquareMatrix.h:99-108 | false on any difference of shape, otherwise true exactly when the elements agree |
| SquareMatrices.SquareMatrix.NotEquals | AbstractMatrix.h:33 | `!=` is the negation of `==` |
| SquareMatrices.SquareMatrix.Negated | SquareMatrix.h:110-115 | every element negated, same size |
| SquareMatrices.SquareMatrix.AddAssign | SquareMatrix.h:117-124 | "Wrong size" exactly when the shapes differ; otherwise the pairwise sum |
| SquareMatrices.SquareMatrix.Add | SquareMatrix.h:126-130 | `+` on a copy |
| SquareMatrices.SquareMatrix.SubtractAssign | SquareMatrix.h:132-139 | "Wrong size" exactly when the shapes differ; otherwise the pairwise difference |
| SquareMatrices.SquareMatrix.Subtract | SquareMatrix.h:141-145 | `-` on a copy |
| SquareMatrices.SquareMatrix.Multiply | SquareMatrix.h:147-159 | "Wrong size" exactly when size ≠ m.rows; otherwise a size × m.columns `Matrix` holding the product |
| SquareMatrices.SquareMatrix.MultiplyAssign | SquareMatrix.h:161-164 | "Wrong size" first, then "Not a square matrix" when the product is not square; otherwise the receiver becomes this · m |
| SquareMatrices.SquareMatrix.ScaleAssign | SquareMatrix.h:166-170 | every element is multiplied by c |
| SquareMatrices.SquareMatrix.Scale | SquareMatrix.h:172-176 | `* c` scales a copy |
| SquareMatrices.SquareMatrix.Trace | SquareMatrix.h:179-186 | the sum of the diagonal |
| SquareMatrices.SquareMatrix.Det | SquareMatrix.h:188-229 | out_of_range for size 0, otherwise `Determinant` |
| SquareMatrices.SquareMatrix.Invert | SquareMatrix.h:231-281 | out_of_range for size 0, [1/a0] for size 1, otherwise "Singular matrix" exactly when singular; on success r · this == I and this · r == I |
| SquareMatrices.SquareMatrix.SwapRows | SquareMatrix.h:283-288 | out_of_range "SquareMatrix::swapRows" unless both indices are below size; otherwise the two rows are exchanged |
| SquareMatrices.SquareMatrix.SwapColumns | SquareMatrix.h:290-295 | out_of_range "SquareMatrix::swapColumns" unless both indices are below size; otherwise the two columns are exchanged |
| SquareMatrices.SquareMatrix.Transposed | SquareMatrix.h:297-303 | element (j, i) of the result equals element (i, j) |
| SquareMatrices.SquareMatrix.TransposeThis | SquareMatrix.h:305-307 | the receiver becomes its transpose |
| SquareMatrices.SquareMatrix.MakeIdentity | SquareMatrix.h:309-316 | afterwards the matrix is the identity, `isIdentity` holds and the trace is the size |
| SquareMatrices.ScaleLeft | SquareMatrix.h:323-326 | `c * m` is `m * c` |
| Vectors.Vector.Rows | Vector.h:67-71 | `getRows` is size when vertical, 1 when horizontal |
| Vectors.Vector.Columns | Vector.h:73-77 | `getColumns` is 1 when vertical, size when horizontal; rows · columns == size |
| Vectors.Vector.View | Vector.h:46-48 | `isVector` always holds: the shape has one row or one column |
| Vectors.Vector.Filled | Vector.h:14-15 | size elements, every one `value`, with the given orientation |
| Vectors.Vector.Init | Vector.h:17-22 | with size values the constructor does not throw; the vector holds those values with the given orientation |
| Vectors.Vector.FromValues | Vector.h:17-22 | "Wrong number of elements." exactly when the count differs from size |
| Vectors.Vector.FromValuesHorizontal | Vector.h:24-28 | as above; the vector is horizontal |
| Vectors.Vector.FromAbstract | Vector.h:30-40 | "Not a vector." unless one row or one column; a one-row source gives a horizontal vector of its columns, any other a vertical one of its rows, with the same elements |
| Vectors.Vector.AssignFrom | Vector.h:121-135 | the same check and orientation rule, into the receiver; no change on failure |
| Vectors.Vector.IsSquare | Vector.h:42-44 | `data.size() == 1` agrees with the interface's `isSquare` on the vector's shape |
| Vectors.Vector.IsDiagonal | Vector.h:50-52 | `size == 1` agrees with the interface's `isDiagonal` on the vector's shape |
| Vectors.Vector.IsIdentity | Vector.h:61-65 | `isIdentity` agrees with the interface's `isIdentity` on the vector's shape |
| Vectors.Vector.ShapeQueriesAgree | Vector.h:42-65 | `isSquare`, `isDiagonal` and `isIdentity` of the vector agree with the interface predicates on its shape |
| Vectors.Vector.IsZero | Vector.h:54-59 | true exactly when every element is 0 |
| Vectors.Vector.Get | Vector.h:84-88 | out_of_range unless (r, c) is inside the shape; then the element at r + c |
| Vectors.Vector.GetAt | Vector.h:96-100 | out_of_range unless p < size; then element p |
| Vectors.Vector.GetAgreesWithGetAt | Vector.h:84-100 | the two-index and one-index accessors agree: (r, c) reaches element r + c |
| Vectors.Vector.Set | Vector.h:90-94 | writes element r + c and no other, or throws and changes nothing |
| Vectors.Vector.SetAt | Vector.h:102-106 | writes element p and no other, or throws and changes nothing |
| Vectors.Vector.Equals | Vector.h:108-115 | false on any difference of shape, otherwise true exactly when the elements agree |
| Vectors.Vector.Negated | Vector.h:137-142 | every element negated; size and orientation kept |
| Vectors.Vector.Add | Vector.h:144-151 | "dsf" exactly when the shapes differ; otherwise the pairwise sums in a horizontal vector |
| Vectors.Vector.AddAssign | Vector.h:153-156 | `*this = *this + m`: on success the receiver holds the sums and is horizontal |
| Vectors.Vector.Subtract | Vector.h:158-165 | "dsf" exactly when the shapes differ; otherwise the pairwise differences in a horizontal vector |
| Vectors.Vector.SubtractAssign | Vector.h:167-170 | on success the receiver holds the differences and is horizontal |
| Vectors.Vector.Multiply | Vector.h:172-185 | "Wrong size" exactly when getColumns() ≠ m.rows; otherwise a getRows() × m.columns `Matrix` holding the product |
| Vectors.Vector.MultiplyAssign | Vector.h:187-190 | "Wrong size", then "Not a vector." when the product is neither one row nor one column; otherwise the receiver views as the product |
| Vectors.Vector.Scale | Vector.h:192-197 | every element times c; size and orientation kept |
| Vectors.Vector.ScaleAssign | Vector.h:199-202 | the receiver's elements are multiplied by c |
| Vectors.Vector.Transposed | Vector.h:207-209 | the same size and elements in the other orientation; rows and columns exchanged |
| Vectors.Vector.TransposeIsMatrixTranspose | Vector.h:207-209 | flipping the flag is the matrix transpose: a one-row or one-column buffer is unchanged by transposition |
| Vectors.TransposeTwice | Vector.h:207-209 | transposing twice gives back the same view |
| Vectors.ScaleLeft | Vector.h:221-224 | `c * v` is `v * c` |

## Left out

- `operator<<` (AbstractMatrix.h:52-60) is stream output, which is I/O.
- `test.cpp`'s `main` is a driver that prints. Only its example matrix `b` appears, as `Elimination.DeterminantWithSwap`.
- Floating point is not modelled. `Scalar`, and the `T` of `det<T>`/`invert<T>`, are exact reals, so rounding, NaN and the exact-zero tests on rounded pivots behave as in exact arithmetic.
- SquareMatrices.SquareMatrix.Invert: requires a nonzero element for size 1. `1 / 0` is an infinity in `double`, and real division has no infinity.
- Inversion.Invert: requires a nonzero element for size 1, for the same reason.
- Iterators (`begin`/`end`) are modelled as the buffer itself. The copy and move constructors and assignments are modelled as copying fields.
- `Matrix::operator=(const AbstractMatrix&)` (Matrix.h:36-43) is not modelled. It does not compile once instantiated, because `m.getColumns` is missing its call parentheses at Matrix.h:39.
- `Vector::operator!=` (Vector.h:117-119) compares addresses (`this == &m`). Object identity of a parameter is not modelled.
- The `this != &m` self-assignment checks in the `operator=` overloads are not modelled, because aliasing of the receiver with the argument is not modelled.
- The default `Vector()` leaves `size` uninitialised, so it is not modelled.
- The friend declaration at Vector.h:204-205 names a function that is never defined. The free `operator*` at Vector.h:221-224 is modelled as `Vectors.ScaleLeft`.
- `unsigned` arithmetic is modelled as `nat`, so `rows * columns` overflow is not modelled. Only the wrap of `size - 1` at size 0 matters to the modelled behaviour, and it is modelled as the out_of_range that `m(0, 0)` then throws.
- `Matrix` does not override the pure virtual `makeIdentity` (AbstractMatrix.h:48). `Vector` does not override `trace`, `transponeThis` or `makeIdentity` (AbstractMatrix.h:43, 47-48), and its `operator==` (Vector.h:108) is not `const`, so it does not override the pure virtual `operator==(const AbstractMatrix&) const` (AbstractMatrix.h:32). Both classes are therefore abstract as written: `test.cpp:32` calls `makeIdentity` on a `Matrix`. Only the members the classes define are modelled.
- AbstractMatrix.Max: requires a non-empty buffer. `*std::max_element` of an empty range dereferences `end()`.
- AbstractMatrix.Min: requires a non-empty buffer, for the same reason.
- `det`/`invert`'s working copy `SquareMatrix<T> m(size, v)` is modelled as a sequence of rows, not as a second object.
- `Vector::operator*` builds each result row in its own accumulator and appends it. It is modelled with the shared `RowMajor.Multiply`, which produces the same buffer.
- Matrices.Matrix.SwapColumnsAsWritten: when the guard lets an index at or beyond columns through, the source reads and writes outside the buffer, which is undefined behaviour; the model requires both indices below columns only in that case. The finding below exhibits such an input.
- Size 0 `det`/`invert` is modelled as the `out_of_range` error that the source raises, rather than requiring size ≥ 1.
- The determinant is proved against the elimination the source performs. It is 0 exactly when the elimination finds the matrix singular (`Singular`, for n ≥ 2). It is 0 with a zero row or two equal rows. It is the diagonal product on triangular matrices and 1 on the identity, and the value of one concrete matrix that needs a pivot swap is proved (`Elimination.DeterminantWithSwap`). Equivalence with the Leibniz or cofactor formula for general n is not proved, and neither is multiplicativity.

## Findings

| source | as written | input that shows it | evidently intended | confidence | as-written member | corrected member |
|---|---|---|---|---|---|---|
| Matrix.h:240-245 | `swapColumns` checks `first >= rows \|\| second >= rows` | a 3 × 2 matrix with `swapColumns(0, 2)`: the guard passes, and the last swap addresses `data[2 * 2 + 2] = data[6]` in a 6-element buffer. A 2 × 3 matrix rejects the valid `swapColumns(0, 2)` | both indices compared with `columns`, as `swapRows` compares with `rows` | not executed | Matrices.Matrix.SwapColumnsAsWritten, Matrices.SwapColumnsGuardOverruns | Matrices.Matrix.SwapColumns |
