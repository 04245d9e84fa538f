# Shape and index machinery of thRust's `ml` module, in Dafny

This project models the index arithmetic and the loop-built array operations of
the small Rust linear-algebra library `th_rust/src/ml`:

- The dense `Matrix` (`matrix.rs`): a flat row-major buffer with dimensions `m × n`.
  - `get_index` maps `(i, j)` to `i*n + j`.
  - `add` and `sub` are element-wise.
  - `scalar_product` rescales the buffer in place.
  - `trace` sums the diagonal.
  - `transpose` and `matmul2d` fill freshly allocated buffers in nested loops.
  - `dot` is a shape-checked sum of element products.
- The n-dimensional `Tensor` (`tensor.rs`):
  - `get_index` is a mixed-radix offset loop.
  - `dot` is shape-checked.
  - `matmul2d` is a triple loop over a buffer it allocates itself.
- `Vector::max_norm` (`vector.rs`): the signed maximum of a non-empty vector.

Files and modules:

- `outcomes.dfy` (`Outcomes`): a panic becomes an `Err` whose `Error` kind names it. The kinds are a shape mismatch, an out-of-range slice index, a missing coordinate dimension, an invalid coordinate, the `crds.len() - 1` underflow and the empty vector.
- `rowmajor.dfy` (`RowMajor`): the offset `i*cols + j` and its bound, injectivity and div/mod round-trip. It also defines the `Cell`, `Row` and `Column` views of a flat buffer.
- `sums.dfy` (`Sums`): the `zip`/`map`/`sum` pipeline as `Sum(Products(a, b))`. It is a left fold, as Rust accumulates.
- `matmul.dfy` (`MatMul`): the specification of a product cell (row i of x times column j of y). It also holds the loop invariant shared by both `matmul2d` loops and facts about the identity matrix.
- `matrix.dfy` (`Matrices`): `Matrix` is a class, because `scalar_product` mutates `self` through `&mut self`.
  - `add`, `sub`, `transpose` and `matmul2d` are methods that allocate a fresh `Matrix` and write its `data` cell by cell, as the source does.
  - The struct has public fields and no validating constructor, so `Valid()` (`|data| == m*n`) is a precondition, not an established invariant.
- `tensor.rs` is modelled by `tensor.dfy` (`Tensors`): `Tensor` is a value, since no tensor operation mutates its receiver. `get_index` and the triple loop of `matmul2d` are methods with loop invariants.
- `vector.dfy` (`Vectors`): `max_norm` as a fold, with the tie-breaking of `max_by`.

Elements are mathematical integers. The structural facts do not depend on the f32 arithmetic. Dimensions and coordinates are `nat`.

The model follows the code in two places where the code may not do what its authors intended:

- The source checks no shapes in `add` and `sub` (matrix.rs:11-56). Its only hint is the `TODO: support broadcasting` at matrix.rs:10. The operations panic exactly when some read `other.data[i*other.n + j]` is out of range, and otherwise return a value even when the shapes differ.
- Tensor `matmul2d` sizes its buffer with the sum of the result shape (see Findings).

## Model

| member | source | states |
|---|---|---|
| Matrices.Matrix.GetIndex | th_rust/src/ml/matrix.rs:60-62 | the offset of (i, j) divides back into row i and column j (when j < n), and lies below m*n for in-range (i, j) |
| RowMajor.OffsetBelowSize | th_rust/src/ml/matrix.rs:60-62 | i < rows and j < cols give i*cols + j < rows*cols |
| RowMajor.OffsetInjective | th_rust/src/ml/matrix.rs:60-62 | two in-range cells with the same offset are the same cell |
| RowMajor.Decompose | th_rust/src/ml/matrix.rs:60-62 | every offset below rows*cols is the offset of exactly the cell (p / cols, p % cols), which is in range |
| RowMajor.OffsetDivMod | th_rust/src/ml/matrix.rs:60-62 | dividing an offset by the row length recovers its row and column |
| Matrices.ElementWise | th_rust/src/ml/matrix.rs:13-32 | the shared loop of add and sub panics exactly when some read of the right operand is out of range; otherwise a fresh m × n valid matrix whose cell (i, j) combines self[i, j] with other.data[i*other.n + j] |
| Matrices.Add | th_rust/src/ml/matrix.rs:13-32 | as ElementWise with +; for valid operands of the same shape it never panics and out.data[t] == self.data[t] + other.data[t] for every t |
| Matrices.Sub | th_rust/src/ml/matrix.rs:37-56 | as ElementWise with -; for valid operands of the same shape it never panics and out.data[t] == self.data[t] - other.data[t] for every t |
| Matrices.SameShapeReadsInRange | th_rust/src/ml/matrix.rs:21-29 | an operand of the same shape keeps every read of add and sub in range |
| Matrices.ReadsInRangeExactly | th_rust/src/ml/matrix.rs:45-53 | the panic condition in closed form: add/sub succeed exactly when the read for the last cell is in range |
| Matrices.SmallerOtherPanics | th_rust/src/ml/matrix.rs:48-51 | a right operand with fewer rows and the same columns makes add/sub panic |
| Matrices.CellsToFlat | th_rust/src/ml/matrix.rs:21-27 | the per-cell formula over all (i, j) is the per-slot formula over all t < m*n |
| Matrices.Matrix.ScalarProduct | th_rust/src/ml/matrix.rs:78-80 | only data changes; m and n are unchanged, |data| is kept and every data[t] becomes old data[t] * k |
| Matrices.DotScaled | th_rust/src/ml/matrix.rs:78-80 | scaling one buffer by k scales its sum of products with another by k |
| Matrices.Matrix.Trace | th_rust/src/ml/matrix.rs:132-143 | the double loop's sum equals the sum of data[i*n + i] over i < min(m, n) |
| Matrices.TraceExample | th_rust/src/main.rs:9-17 | the trace of [[1, 3, 6], [1, 2, 5], [2, 9, 4]] is 7 |
| Matrices.Transpose | th_rust/src/ml/matrix.rs:149-165 | a fresh valid x.n × x.m matrix with y[j, i] == x[i, j] for every cell |
| Matrices.TransposeInvolutive | th_rust/src/ml/matrix.rs:149-165 | transposing a transpose gives back the original buffer |
| Matrices.TraceOfTranspose | th_rust/src/ml/matrix.rs:132-165 | a matrix and its transpose have the same trace |
| Matrices.Dot | th_rust/src/ml/matrix.rs:167-175 | panics with a shape mismatch exactly when (x.m, x.n) != (y.m, y.n); otherwise the sum of x.data[t] * y.data[t] over the zipped buffers |
| Matrices.DotSymmetric | th_rust/src/ml/matrix.rs:167-175 | dot(x, y) == dot(y, x), including the panic |
| Matrices.DotSelf | th_rust/src/ml/matrix.rs:172-173 | dot(x, x) never panics, is non-negative, and is zero exactly when every element is zero |
| Matrices.MatMul2d | th_rust/src/ml/matrix.rs:177-204 | panics exactly when x.n != y.m; otherwise a fresh valid x.m × y.n matrix whose cell (i, j) is the sum over k < x.n of x[i, k] * y[k, j] |
| MatMul.ProductWithIdentity | th_rust/src/ml/matrix.rs:192-201 | the product cell of a matrix and the identity is the matrix's own cell |
| MatMul.ProductCellEmptyInner | th_rust/src/ml/matrix.rs:194-198 | with an empty inner dimension every product cell is 0, the value the zeroed buffer keeps |
| Tensors.Tensor.GetIndex | th_rust/src/ml/tensor.rs:9-28 | panics on a coordinate vector of the wrong length, on the empty coordinate vector (underflow) and on a coordinate past its dimension; otherwise returns the sum of crds[d] times the product of the later dimensions, which is below the product of the shape |
| Tensors.FlatBelowVolume | th_rust/src/ml/tensor.rs:18-28 | in-bounds coordinates give an offset below the product of the shape |
| Tensors.FlatInjective | th_rust/src/ml/tensor.rs:14-28 | distinct in-bounds coordinate vectors give distinct offsets |
| Tensors.Flat2D | th_rust/src/ml/tensor.rs:14-28 | for a shape [m, n] the offset of [i, j] is i*n + j, the offset Matrix::get_index computes |
| Tensors.Dot | th_rust/src/ml/tensor.rs:46-54 | panics with a shape mismatch exactly when the shapes differ; otherwise the sum of element-wise products |
| Tensors.DotSymmetric | th_rust/src/ml/tensor.rs:46-54 | tensor dot(x, y) == dot(y, x), including the panic |
| Tensors.ShapeFault | th_rust/src/ml/tensor.rs:57-61 | when none of the shape reads or the shape comparison panics, both shapes have at least two dimensions and x.shape[1] == y.shape[0] |
| Tensors.AccumulateCell | th_rust/src/ml/tensor.rs:73-78 | the k loop for one cell panics exactly when it runs and either an operand is not of rank 2 or the cell's offset is past the buffer; otherwise it adds the full row-times-column sum into that cell and nothing else |
| Tensors.Accumulate | th_rust/src/ml/tensor.rs:71-80 | the triple loop panics exactly when all loops run and an operand is not of rank 2, or the buffer is smaller than the result grid; otherwise every cell holds its product sum and slots past the grid stay 0 |
| Tensors.MatMul2d | th_rust/src/ml/tensor.rs:56-82 | as written: the shape panics, then a buffer of x.shape[0] + y.shape[1] cells; a successful non-trivial rank-2 run implies the grid fits in that sum, and then the cells are the matrix product and the slots past the grid stay 0; when a loop is empty the whole buffer stays 0 |
| Tensors.MatMul2dFixed | th_rust/src/ml/tensor.rs:56-82 | with a product-sized buffer, rank-2 operands with a matching inner dimension always succeed, and the result is a valid tensor holding the matrix product; when a loop is empty the buffer stays 0 |
| Tensors.SumBufferFits | th_rust/src/ml/tensor.rs:62-63 | for p, r >= 1, a p × r grid fits in p + r cells exactly when p == 1, r == 1 or p == r == 2 |
| Tensors.TwoByThreeOverruns | th_rust/src/ml/tensor.rs:62-77 | a 2 × q by q × 3 product passes the shape checks, and its write to cell (1, 2) at offset 5 overruns the 5-cell buffer |
| Vectors.Vector.MaxNorm | th_rust/src/ml/vector.rs:19-25 | panics exactly on an empty vector; otherwise the result is an element of data and no element exceeds it |
| Vectors.MaxBy | th_rust/src/ml/vector.rs:20-22 | the max_by fold over a non-empty sequence returns one of its elements, and one no element exceeds |
| Vectors.MaxNormUnique | th_rust/src/ml/vector.rs:19-25 | any element bounding all others is exactly the result of max_norm |
| Vectors.MaxNormAllNegative | th_rust/src/ml/vector.rs:19-23 | the comparison is signed: all-negative data has a negative norm |
| Vectors.MaxNormSignedExample | th_rust/src/ml/vector.rs:20-22 | max_norm of [-5, 1] is 1, not the largest magnitude 5 |

## Left out

- Floating-point numerics are not modelled:
  - `forbenius_norm` and `lp_norm` (matrix.rs:64-76, tensor.rs:31-43, vector.rs:8-17) and `euclid_norm` depend on `powf`/`powi`.
  - `dominant_eigan_value`, `dominant_eigans` and `get_eigen_values` (matrix.rs:83-130) concern convergence and rounding.
- f32 element semantics are not modelled: rounding of `+` and `+=`, NaN, `-0.0`, and the panic of `partial_cmp(..).unwrap()` on NaN in `max_norm`. Elements are integers.
- The `name` fields are diagnostic labels and play no part in any result.
- u32 overflow is not modelled: dimensions and coordinates are unbounded. Products like `x*self.n`, `m*n`, `crds[i]*dim_size` and `dim_size*shape[i]` are assumed to fit in `u32`.
- Tensors.Tensor.GetIndex models the empty-coordinate case as the debug-build overflow panic of `crds.len() - 1`. A release build would wrap, skip the loop and return 0.
- Matrices.ElementWise, Matrices.Add, Matrices.Sub, Matrices.Transpose, Matrices.MatMul2d, Matrices.Matrix.Trace, Tensors.AccumulateCell, Tensors.Accumulate, Tensors.MatMul2d and Tensors.MatMul2dFixed require operands whose buffer length matches their shape. The panic on reading past a shorter buffer is not modelled.
- Matrices.DotSelf and Matrices.DotScaled hold in exact arithmetic only. In f32, `x*x` can underflow to 0 for a non-zero `x`, and scaling by k rounds.
- `th_rust/src/main.rs` is a demo driver and is not modelled beyond the trace example. It calls `inv()`, which is not part of this model.
- Rust ownership is not modelled. `add` and `sub` consume their operands, and the model only reads them. Every result is a freshly allocated matrix, so no aliasing arises.
- Vectors.MaxBy: its tie-breaking (the later of equal maxima wins) cannot be observed on integers; it mattered only for `-0.0` against `0.0`.

## Findings

| source | as written | input that shows it | evidently intended | confidence | as-written member | corrected member |
|---|---|---|---|---|---|---|
| th_rust/src/ml/tensor.rs:62-63 | the result buffer has `x.shape[0] + y.shape[1]` cells, the sum of the result shape | x of shape [2, 1], y of shape [1, 3]: the write for cell (1, 2) at tensor.rs:77 goes to offset 5 of a 5-cell buffer and panics | `x.shape[0] * y.shape[1]` cells, as matrix.rs:182 allocates | high; not executed | Tensors.MatMul2d, Tensors.TwoByThreeOverruns | Tensors.MatMul2dFixed |
