# CMatrix: a verified model of the dense-matrix layer

CMatrix is a small C library of dense matrices of doubles. A `Matrix` is a
header holding `number_of_rows` and `number_of_columns`, plus an array of row
pointers into zero-filled rows. `matrix.c` creates, fills, copies, duplicates
and releases such matrices. It classifies two shapes with `size_check`
(`SAME_SIZE` = 1, `SWAPPED_SIZE` = 2, else 0). It scales a matrix in place.
`add_matrices` and `multiply_matrices` each return a freshly allocated result
or NULL. `add_matrices` returns NULL unless the shapes are equal.
`multiply_matrices` returns NULL exactly when `size_check` gives 0, which is not
the same as the inner dimensions disagreeing (see below).

The model has three modules:

- `Shapes` (`shapes.dfy`) holds the shape of a matrix and `size_check`.
- `Grids` (`grids.dfy`) is the value view of a matrix's contents, a rows by cols
  grid of reals. It has the arithmetic the library performs on grids and the
  lemmas about that arithmetic:
  - the row-major layout that `matrix_edit` reads, with both round trips;
  - copying into a larger grid;
  - scaling and addition, with their algebra;
  - the exact product and the product that `multiply_matrices` actually
    computes, whose running sum is an `int`.
- `Matrices` (`matrices.dfy`) is the mutable matrix.
  - The class `Matrix` has `rows`, `cols` and an `array2<real>` of entries.
  - Each state-changing function of `matrix.c` becomes a method that keeps its
    loops. `Edit`, `CopyTo` and `Scale` keep both loops inline. `Dup`,
    `AddMatrices`, `MultiplyMatrices` and `Multiply` move their inner loops into
    the per-row helpers `CopyRow`, `AddRow`, `TruncatedRow` and `ExactRow`. The
    innermost sums of the two products are the per-cell helpers
    `TruncatedSum` and `ExactSum`.
  - Each method is proved against `Model()`, the grid a matrix currently
    holds. `Edit`, `CopyTo`, `Scale`, `AddMatrices`, `MultiplyMatrices` and
    `Multiply` tie it to the `Grids` function that specifies them. `Dup`
    ties it to the source's `Model()`, and `Init` to `Zeros`. `Init`
    zero-fills each row with a `forall` statement, standing for `calloc`.
    `Del` is specified by its header fields alone.
  - Allocation is `new`. The `Matrix *` argument that the C code overwrites or
    ignores is dropped from `Init` and `Dup`. It is kept as an unused parameter
    of `AddMatrices` and `MultiplyMatrices`, in the C parameter order.

Two defects of `multiply_matrices` are modelled as written, with the intended
behaviour beside them (see Findings):

- The accumulator is an `int`, so every partial sum is truncated toward zero.
  `MultiplyMatrices` computes `TruncProduct`. `TruncProductExact` shows that
  this is the exact product when every entry is a whole number and the inner
  dimensions agree.
- The guard only asks for a nonzero `size_check`, and this is wrong in both
  directions.
  - It admits equal shapes that are wider than they are tall, such as 2 by 3
    with 2 by 3. For these the inner loop reads rows of `mat2` that do not
    exist, unless `mat1` has no rows (0 by c with 0 by c reads nothing). Equal shapes that are taller than they are wide, such as 3 by 2 with
    3 by 2, pass the guard too, but their reads stay inside `mat2`.
  - It rejects compatible pairs whose outer dimensions differ, such as 2 by 3
    times 3 by 4, or the 2 by 2 identity times any 2 by p matrix with p != 2.
    The header documents an n by p result for these.

`add_matrices` is modelled in the order of its definition,
`(output, mat1, mat2)`. The operands summed are `mat1` and `mat2`, and `output`
is ignored. The root `matrix.h:94` declares the order `(mat1, mat2, output)`.
Where the two disagree, the model follows the definition.

## Model

| member | source | states |
|---|---|---|
| `Shapes.SizeCheck` | matrix.c:70-81 | 1 exactly when the shapes are equal; 2 exactly when they are not equal but one is the other transposed, so an equal square pair gives 1; 0 in every other case |
| `Shapes.SizeCheckSymmetric` | matrix.c:70-81 | the classification does not depend on the order of the two matrices |
| `Shapes.GuardAdmitsInnerMismatch` | matrix.c:109-121 | the pairs that a nonzero size_check lets through with cols(mat1) != rows(mat2) are exactly the equal, non-square pairs |
| `Shapes.GuardAdmitsTwoByThreePair` | matrix.c:111-121 | the guard admits 2 by 3 with 2 by 3, a pair that breaks the in-bounds condition cols(mat1) <= rows(mat2) of the inner loop |
| `Shapes.GuardRejectsCompatible` | matrix.c:111-113 | among pairs with cols(mat1) == rows(mat2), the guard admits exactly those with rows(mat1) == cols(mat2) |
| `Shapes.GuardRejectsTwoByThreeThreeByFour` | matrix.c:111-113 | 2 by 3 times 3 by 4 has matching inner dimensions, yet size_check gives 0, so the product is NULL |
| `Shapes.GuardIdentityLeft` | matrix.c:111-113 | the n by n identity times an n by p matrix passes the guard exactly when p == n |
| `Grids.Zeros` | matrix.c:8-11 | the grid of a fresh matrix has the requested shape and every cell is 0 |
| `Grids.FromFlat` | matrix.c:16-23 | the grid read from a row-major buffer has cell (i, j) equal to entry i * columns + j, and that entry lies inside the buffer |
| `Grids.FromFlatFlatten` | matrix.c:16-23 | laying a grid out row-major and reading it back gives the same grid |
| `Grids.FlattenFromFlat` | matrix.c:16-23 | reading a buffer and laying the grid out again gives back its first rows * columns entries |
| `Grids.CopyInto` | matrix.c:25-32 | copying into a destination keeps the destination's shape |
| `Grids.CopyIntoSameShape` | matrix.c:25-32 | between grids of one shape, copying makes the destination equal to the source |
| `Grids.Scale` | matrix.c:83-90 | scaling keeps the shape |
| `Grids.ScaleByOne` | matrix.c:83-90 | scaling by 1 leaves every cell unchanged |
| `Grids.ScaleTwice` | matrix.c:83-90 | scaling by a and then by b is scaling by a * b |
| `Grids.Add` | matrix.c:100-104 | the sum of two grids of one shape has that shape |
| `Grids.AddCommutative` | matrix.c:92-107 | the sum does not depend on the order of mat1 and mat2 |
| `Grids.AddZeros` | matrix.c:92-107 | adding a freshly initialised (all-zero) matrix changes nothing |
| `Grids.ScaleAdd` | matrix.c:83-107 | scaling distributes over the sum |
| `Grids.TowardZero` | matrix.c:119-121 | assigning a double to the int accumulator drops the fraction toward zero: the result is within 1 of the value, and on the side of zero |
| `Grids.Product` | matrix.h:96-104 | the product of an n by m and an m by p matrix is n by p |
| `Grids.TruncProduct` | matrix.c:115-125 | what multiply_matrices fills is rows(mat1) by cols(mat2) |
| `Grids.TruncDotExact` | matrix.c:119-123 | on whole-number entries, every truncated partial sum equals the exact one and is itself a whole number |
| `Grids.TruncProductExact` | matrix.c:109-128 | with whole-number entries and cols(mat1) == rows(mat2), multiply_matrices' result is the exact matrix product |
| `Grids.PerStepTruncation` | matrix.c:119-121 | [0.5 0.5] times the column [1 1] is 1 exactly, but the truncating accumulator gives 0 |
| `Grids.ProductIdentityLeft` | matrix.h:96-104 | the identity times a matrix is that matrix, for the documented product (as written, multiply_matrices returns NULL for it unless the matrix is square) |
| `Matrices.Matrix.Model` | matrix.h:9-14 | the grid a matrix holds has its header's shape, and its cell (i, j) is data[i][j] |
| `Matrices.Matrix.Init` | matrix.c:3-14 | matrix_init gives a fresh matrix with the requested shape and every cell 0 |
| `Matrices.Matrix.Edit` | matrix.c:16-23 | after matrix_edit, cell (i, j) is buffer entry i * columns + j and the shape is unchanged |
| `Matrices.Matrix.CopyTo` | matrix.c:25-32 | the destination's top-left block of the source's shape holds the source's cells, its other cells and its header are unchanged, and the source is unchanged, even when it shares the destination's storage |
| `Matrices.Matrix.CopyRow` | matrix.c:36-40 | one pass of matrix_dup's outer loop copies row i into the new storage and leaves its other rows alone |
| `Matrices.Matrix.Dup` | matrix.c:34-42 | matrix_dup gives a fresh matrix with fresh storage, the source's shape and the source's cells |
| `Matrices.Matrix.Del` | matrix.c:44-50 | matrix_del zeroes both counts, so a released matrix with any row or column is no longer a live one |
| `Matrices.Matrix.Scale` | matrix.c:83-90 | after matrix_scale the matrix holds its old grid with every cell times the scalar, and the same shape |
| `Matrices.AddRow` | matrix.c:100-104 | one pass of add_matrices' outer loop writes row i of the sum and leaves the other rows alone |
| `Matrices.AddMatrices` | matrix.c:92-107 | NULL exactly when size_check is not SAME_SIZE; otherwise a fresh matrix holding mat1 + mat2 cell by cell |
| `Matrices.TruncatedSum` | matrix.c:119-122 | the innermost loop yields the left-to-right sum of mat1[i][k] * mat2[k][j], truncated toward zero after every step |
| `Matrices.TruncatedRow` | matrix.c:118-124 | one pass of the outer loop fills row i of the output with the truncated products and leaves the other rows alone |
| `Matrices.MultiplyMatrices` | matrix.c:109-128 | NULL exactly when size_check is 0; otherwise a fresh rows(mat1) by cols(mat2) matrix holding the truncated product |
| `Matrices.ExactSum` | matrix.c:119-122 | the corrected inner loop yields the exact sum of mat1[i][k] * mat2[k][j] |
| `Matrices.ExactRow` | matrix.c:118-124 | the corrected row pass fills row i of the output with the exact products |
| `Matrices.Multiply` | matrix.h:96-104 | the documented product: NULL exactly when cols(mat1) != rows(mat2); otherwise a fresh matrix holding the exact matrix product |

## Left out

- `matrix_print` (matrix.c:52-68) and the demo in `main.c`, because they are console output only.
- The cache-line probe in `lib/cache_line_size.h`, because no operation uses it.
- `matrix_pow` and `transpose` (matrix.c:130-136), because they are empty stubs.
- `include/matrix.h`, a divergent draft interface that `matrix.c` does not include. Most of its signatures and return codes differ from the definitions: int status returns for edit, copy, del, add and multiply, no output pointer on init and dup, and `scale_matrix` for `matrix_scale`. The -1 error return it documents for `size_check` is not implemented.
- Memory management is not modelled:
  - `malloc`, `calloc` and `free` become `new` and garbage collection.
  - The row arrays that `matrix_del` leaks are not represented.
  - The pointer argument that `matrix_init`, `matrix_dup`, `add_matrices` and `multiply_matrices` overwrite is never read, so it is dropped or kept as an unused parameter.
- Storage is one `array2<real>` rather than an array of row pointers, so rows shared between two matrices cannot be expressed.
- Doubles are `real`, so IEEE rounding, infinities and NaN are left out. The one arithmetic quirk kept is the `int` accumulator of `multiply_matrices`.
- Shapes are `nat`. Negative counts, and `int` overflow of `i * columns + j` in `matrix_edit`, are left out.
- `Grids.TowardZero`: does not model that converting a double outside the range of `int` is undefined in C; the model converts every value.
- `Matrices.Matrix.CopyTo`: requires the destination to be at least as large as the source. `matrix_copy` checks nothing and, unless the source has no rows or no columns, writes past the destination otherwise, which the model does not represent. An empty source is accepted whatever the destination's shape.
- `Matrices.MultiplyMatrices`: requires cols(mat1) <= rows(mat2) whenever the guard passes and mat1 has a row. This excludes exactly the out-of-bounds reads that the guard admits for equal shapes wider than they are tall (see Findings); 0 by c with 0 by c is accepted and yields an empty 0 by c matrix.
- `Matrices.Matrix.Del`: states only the header reset; releasing the storage is not modelled.

## Findings

| source | as written | input that shows it | evidently intended | confidence | as-written member | corrected member |
|---|---|---|---|---|---|---|
| matrix.c:111 | the product is guarded only by a nonzero size_check, which also accepts equal shapes wider than they are tall | mat1 and mat2 both 2 by 3: size_check gives SAME_SIZE, and the inner loop reads row 2 of the two-row mat2 | accept exactly when cols(mat1) == rows(mat2), as the header documents | high (not executed) | `Shapes.GuardAdmitsTwoByThreePair` | `Matrices.Multiply` |
| matrix.c:111-113 | the same guard rejects compatible pairs whose outer dimensions differ | 2 by 3 times 3 by 4: cols(mat1) == rows(mat2), but size_check gives 0 and the product is NULL | return the n by p product whenever cols(mat1) == rows(mat2) | high (not executed) | `Shapes.GuardRejectsTwoByThreeThreeByFour` | `Matrices.Multiply` |
| matrix.c:119-121 | the running sum is an int, so each partial sum is truncated toward zero | [0.5 0.5] times the column [1 1]: the exact product is 1, the code yields 0 | accumulate in a double | high (not executed) | `Grids.PerStepTruncation` | `Matrices.Multiply` |
