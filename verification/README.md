# matrs in Dafny

A Dafny model of `matrs`, a small dense-matrix library. A `Matrix` is a
`dim = (rows, cols)` pair plus a flat, row-major `data` buffer. Cell `(r, c)`
lives at offset `c + r * cols`. The library builds matrices from nested rows
or as zero matrices. It has element-wise `*`, `+` and `-` between two
matrices, the same operators with a scalar, and structural equality.
It also has the matrix product `mat_mul` and `transpose`, both written as
nested loops over explicit row-major offsets.

Layout:

- `row_major.dfy`, module `RowMajor`: the offset map `Index(r, c, cols) = c + r * cols`.
  Its lemmas show that on a `rows` by `cols` grid it stays in bounds, is
  injective and reaches every offset.
- `matrix.dfy`, module `Matrices` (`src/matrix.rs`): the `Matrix` datatype,
  the well-formedness invariant `|data| == rows * cols`, the constructors,
  the six arithmetic operators and equality.
- `math.dfy`, module `MatrixMath` (`src/math.rs`): `MatMul` and `Transpose`.
  These are imperative methods over arrays with the source's loops. They are
  proved against the pure definitions `Product` and `TransposeOf`. The
  module also holds the checked product `CheckedProduct` (see Findings).
- `vectors.dfy`, module `TestVectors`: the unit tests' concrete vectors as lemmas.

Elements are `int`. The tests use small integers only, so every vector holds
exactly.

Behaviour kept from the code:

- The matrix-by-matrix operators keep the LEFT operand's shape whatever the
  right operand's shape is. They pair elements with `zip`, so the result's
  buffer is as long as the shorter operand's (`Min(|a.data|, |b.data|)`).
  The source marks the missing dimension check with a TODO. The model shows
  the consequences instead of adding the check:
  - a shorter right operand yields a malformed matrix (`ElementwiseWellFormed`);
  - `a + b` and `b + a` differ when the shapes differ (`AddCommutesOnlyForEqualShapes`).
- `Matrix::new` reads the first row's length and does not compare the other
  rows with it. Its buffer is always all rows laid end to end (`Flatten`), so
  the result is well-formed exactly when the rows hold `|rows| * |rows[0]|`
  elements in all (`NewWellFormedIff`). Some ragged inputs, such as
  `[[1, 2], [3]]`, give a malformed matrix; others, such as
  `[[1, 2], [3], [4, 5, 6]]`, give a well-formed one (`NewRaggedExamples`).
- The inner loop of `mat_mul` runs to `src2.rows`, not `src1.cols`. For
  well-formed operands, the reads stay in bounds exactly when
  `src1.rows == 0 || src2.cols == 0 || src2.rows <= src1.cols` (`MatMulDefined`).
  `MatMulOutOfBounds` shows that outside this condition a read goes past the
  end. Inside it, each cell is the sum over `k < src2.rows` (`Dot`).

## Model

| member | source | states |
|---|---|---|
| `RowMajor.IndexInBounds` | src/math.rs:10-12 | the offset `c + r * cols` of a cell on a `rows` by `cols` grid is below `rows * cols`, so every read and write through it is in bounds |
| `RowMajor.IndexDistinct` | src/math.rs:22 | two distinct cells never share an offset, so no write overwrites another cell |
| `RowMajor.IndexSplit` | src/math.rs:22 | every offset below `rows * cols` is the offset of the on-grid cell `(p / cols, p % cols)` (surjectivity) |
| `RowMajor.IndexDivMod` | src/math.rs:12 | the offset of `(r, c)` decodes back to row `r` and column `c` |
| `Matrices.Flatten` | src/matrix.rs:16 | the flattened buffer holds as many elements as all rows together (`TotalLength`) |
| `Matrices.FlattenAt` | src/matrix.rs:16 | for rows of any lengths, element `j` of row `i` sits in the flattened buffer at the offset `TotalLength(rows[..i]) + j`, right after all elements of the rows before `i` |
| `Matrices.FlattenUniform` | src/matrix.rs:16 | concatenating `n` rows of width `w` gives `n * w` elements, with row `i`, column `j` at the row-major offset of `(i, j)` |
| `Matrices.FlattenRowMajor` | src/matrix.rs:16 | for any rows: whenever they all have width `w`, the flattened buffer is their row-major layout (`n * w` elements, row `i`, column `j` at the offset of `(i, j)`) |
| `Matrices.New` | src/matrix.rs:13-17 | the shape is (number of rows, length of the first row); the buffer is all rows laid end to end, for ragged rows too; if every row has the first row's length, the result is well-formed and holds `rows[i][j]` at cell `(i, j)`; empty input is refused |
| `Matrices.NewWellFormedIff` | src/matrix.rs:13-17 | the result of `new` is well-formed if and only if the rows hold, in all, as many elements as the number of rows times the first row's length; the row lengths themselves are never compared |
| `Matrices.Rows` | src/matrix.rs:13-17 | splits a well-formed matrix into `rows` rows of length `cols` holding its cells: the inverse direction of `new` |
| `Matrices.RowAt` | src/matrix.rs:16 | row `i` of a well-formed matrix is a `cols`-long slice holding the cells `(i, 0 .. cols)` |
| `Matrices.NewOfRows` | src/matrix.rs:13-17 | rebuilding a well-formed matrix (at least one row) from its rows gives the same matrix |
| `Matrices.RowsOfNew` | src/matrix.rs:13-17 | splitting the matrix built from equal-length rows gives back those rows |
| `Matrices.NewRaggedExamples` | src/matrix.rs:15-16 | rows of unequal length are not rejected: `[[1, 2], [3]]` yields a buffer that does not fit the 2 by 2 shape, while `[[1, 2], [3], [4, 5, 6]]` yields a well-formed 3 by 2 matrix |
| `Matrices.WithZeros` | src/matrix.rs:20-25 | the result has the requested shape, `rows * cols` elements, and every element is 0 |
| `Matrices.ZipWith` | src/matrix.rs:36 | zipping stops at the shorter sequence, and element `i` combines the two inputs' element `i` |
| `Matrices.MapScalar` | src/matrix.rs:47 | mapping keeps the length, and element `i` combines input element `i` with the scalar |
| `Matrices.Elementwise` | src/matrix.rs:31-38 | a matrix-by-matrix operator keeps the left operand's shape, has the shorter operand's length and combines equal positions |
| `Matrices.Scalar` | src/matrix.rs:44-49 | a matrix-by-scalar operator keeps shape and length and combines every element with the scalar |
| `Matrices.MulMat` | src/matrix.rs:31-38 | element-wise product: left shape, shorter length, `r[i] == a[i] * b[i]` |
| `Matrices.MulScalar` | src/matrix.rs:44-49 | scaling: same shape and length, `r[i] == a[i] * k` |
| `Matrices.AddMat` | src/matrix.rs:55-61 | element-wise sum: left shape, shorter length, `r[i] == a[i] + b[i]` |
| `Matrices.AddScalar` | src/matrix.rs:66-71 | scalar add: same shape and length, `r[i] == a[i] + k` |
| `Matrices.SubMat` | src/matrix.rs:77-83 | element-wise difference: left shape, shorter length, `r[i] == a[i] - b[i]` |
| `Matrices.SubScalar` | src/matrix.rs:88-93 | scalar subtract: same shape and length, `r[i] == a[i] - k` |
| `Matrices.ElementwiseWellFormed` | src/matrix.rs:36 | for a well-formed left operand, the result is well-formed exactly when the right buffer is at least as long |
| `Matrices.ScalarWellFormed` | src/matrix.rs:47 | a scalar operator's result is well-formed exactly when its operand is |
| `Matrices.SubAddInverse` | src/matrix.rs:55-83 | `(a + b) - b == a` holds exactly when `b`'s buffer is at least as long as `a`'s |
| `Matrices.SubAddScalarInverse` | src/matrix.rs:66-93 | `(a + k) - k == a` for every matrix and scalar |
| `Matrices.ScalarIsElementwiseWithFilled` | src/matrix.rs:31-71 | each scalar operator equals its matrix-by-matrix counterpart applied to a same-shape matrix filled with the scalar (`with_zeros(dim) + k`) |
| `Matrices.AddZerosIdentity` | src/matrix.rs:20-61 | adding a zero matrix of the same shape leaves a well-formed matrix unchanged |
| `Matrices.MulScalarZero` | src/matrix.rs:20-49 | scaling a well-formed matrix by 0 gives `with_zeros` of its shape |
| `Matrices.AddCommutesOnlyForEqualShapes` | src/matrix.rs:55-61 | `a + b` and `b + a` have equal buffers, and they are equal matrices exactly when the shapes agree |
| `Matrices.Eq` | src/matrix.rs:96-99 | comparing buffers and shapes is true exactly when the two matrices are the same value |
| `MatrixMath.Product` | src/math.rs:3-16 | the product of `MatMulDefined` operands has shape `(src1.rows, src2.cols)` and a well-formed buffer |
| `MatrixMath.ProductCell` | src/math.rs:8-12 | cell `(i, j)` of the product is the left-to-right sum over `k < src2.rows` of `src1[i, k] * src2[k, j]` |
| `MatrixMath.MatMulOutOfBounds` | src/math.rs:9-10 | for well-formed operands outside `MatMulDefined`, the last inner read of the last row lies past the end of `src1`'s buffer |
| `MatrixMath.CellSum` | src/math.rs:8-11 | the inner loop's reads are in bounds and its sum is `Dot` over `k < src2.rows` |
| `MatrixMath.ProduceStep` | src/math.rs:12 | storing cell `(i, j)`'s sum at its offset extends the row-major prefix of finished cells by one |
| `MatrixMath.ProducedAll` | src/math.rs:6-15 | once the finished prefix covers every offset, the buffer is the product's |
| `MatrixMath.MatMul` | src/math.rs:3-16 | the triple loop returns a well-formed `(src1.rows, src2.cols)` matrix whose cell `(i, j)` is the sum over `k < src2.rows` of `src1[i, k] * src2[k, j]`, equal to `Product` |
| `MatrixMath.ConformableProductCell` | src/math.rs:9-10 | when `src1.cols == src2.rows`, each cell is the full dot product of row `i` and column `j` |
| `MatrixMath.CheckedProduct` | src/math.rs:9 | the corrected product fails with `ShapeMismatch` exactly when `src1.cols != src2.rows`; otherwise it is the product, with full dot products in every cell |
| `MatrixMath.TransposeOf` | src/math.rs:18-26 | the transpose has shape `(cols, rows)`, a well-formed buffer and the source's buffer length |
| `MatrixMath.TransposeCell` | src/math.rs:20-22 | cell `(j, i)` of the transpose is cell `(i, j)` of the source |
| `MatrixMath.TransposeIndexBijection` | src/math.rs:20-22 | the write offsets `i + j * rows` are in bounds and pairwise distinct, and they cover every offset of the output: each output cell is written exactly once |
| `MatrixMath.TransposeInvolutive` | src/math.rs:18-26 | transposing twice gives back the original well-formed matrix |
| `MatrixMath.CopyStep` | src/math.rs:22 | copying cell `(i, j)` to its transposed offset keeps every earlier copy in place |
| `MatrixMath.CopiedAll` | src/math.rs:20-24 | once every source cell has been copied, the output buffer is the transpose's |
| `MatrixMath.Transpose` | src/math.rs:18-26 | the double loop returns a well-formed `(cols, rows)` matrix of the same buffer length with `out[j, i] == src[i, j]`, equal to `TransposeOf` |
| `TestVectors.NewVector` | src/matrix.rs:108-115 | `new([[1, 2], [3, 4]])` is the 2 by 2 matrix `[1, 2, 3, 4]` |
| `TestVectors.WithZerosVector` | src/matrix.rs:118-122 | `with_zeros((4, 3))` is the 4 by 3 matrix of twelve zeros |
| `TestVectors.ElementwiseVectors` | src/matrix.rs:125-160 | `[1,2,3,4]` with `[4,3,2,1]` gives `*` = `[4,6,6,4]`, `+` = `[5,5,5,5]`, `-` = `[-3,-1,1,3]` |
| `TestVectors.ScalarVectors` | src/matrix.rs:133-167 | `[1,2,3,4]` with 2 gives `*` = `[2,4,6,8]`, `+` = `[3,4,5,6]`, `-` = `[-1,0,1,2]` |
| `TestVectors.MatMulOperands` | src/math.rs:32-35 | the `test_mat_mul` operands and expected result built with `new` |
| `TestVectors.DotOfThree` | src/math.rs:9-10 | a three-step inner sum written out term by term |
| `TestVectors.MatMulCell` | src/math.rs:35 | each inner sum of `test_mat_mul` equals the expected cell |
| `TestVectors.MatMulVector` | src/math.rs:31-36 | `[[1,2,3],[4,5,6]] × [[1,2],[3,4],[5,6]] = [[22,28],[49,64]]`, by the loop's definition and by the checked product |
| `TestVectors.MatMulTruncatesInnerSum` | src/math.rs:9 | a 2 by 3 times 2 by 2 product is computed without failure, its first cell is `1*1 + 2*3 = 7`, and the checked product refuses the same operands |
| `TestVectors.TransposeOperands` | src/math.rs:40-41 | the `test_transpose` operand and expected result built with `new` |
| `TestVectors.TransposeVectorAt` | src/math.rs:41 | each offset of the transposed 2 by 5 test matrix holds the expected element |
| `TestVectors.TransposeVector` | src/math.rs:38-42 | the transpose of `[[1..5],[6..10]]` is `[[1,6],[2,7],[3,8],[4,9],[5,10]]` |

## Findings

| source | as written | input that shows it | evidently intended | confidence | as-written member | corrected member |
|---|---|---|---|---|---|---|
| src/math.rs:9 | the inner loop runs `k` up to `src2.rows`, and nothing compares that with `src1.cols` | `[[1,2,3],[4,5,6]]` times the 2 by 2 `[[1,2],[3,4]]` returns a 2 by 2 matrix with first cell `7` and never reads column 3 of `src1` | operands whose inner dimensions differ are rejected (the shape-mismatch error) | medium, not executed | `TestVectors.MatMulTruncatesInnerSum` (on `MatrixMath.MatMul` / `MatrixMath.Product`) | `MatrixMath.CheckedProduct` |

## Left out

- `f32` arithmetic: no rounding, NaN, infinities or signed zero. Elements are
  unbounded integers, which the tests' small values fit exactly.
- Panics are preconditions, not modelled outcomes: `Matrices.New` requires a
  non-empty input, and `MatMul` and `Transpose` require operands whose reads stay in bounds.
- `MatrixMath.MatMul`: requires both operands to be well-formed. The source
  also runs without a panic on some malformed buffers, for example a buffer
  longer than `rows * cols`. The model does not describe those runs.
- `MatrixMath.Transpose`: requires a well-formed source. The source only
  needs `rows * cols <= |data|` and ignores any extra elements.
- `Matrices.WithZeros`: `rows * cols` is an unbounded `nat`. The `usize`
  overflow of the source's multiplication is not modelled.
- Rust ownership: the operator traits consume their operands. Every model
  operation returns a fresh value instead.
- `#[derive(Debug)]`, the `use` lines and field visibility have no behaviour
  to model. The unit tests appear only as their concrete vectors.
- The element-wise operators are kept exactly as written: the left shape is
  taken, and unequal buffer lengths are truncated by `zip`. The model does not
  add a checked variant for them, because the source records the missing
  check as a TODO instead of relying on the behaviour.
