# Polynomial multiplication through a Toeplitz matrix, verified

This project models the integer arithmetic of the rns-tpu polynomial-multiplication example.
A polynomial there holds `u64` coefficients, lowest degree first. It can be multiplied in two ways:

- **Schoolbook convolution** (`multiply_naive`). A zeroed buffer of `n + m - 1` coefficients is filled by
  adding every `a[i] * b[j]` into slot `i + j`.
- **Matrix path** (`multiply_matrix_with_device`). The first operand becomes a `(n + m - 1) × n` banded
  Toeplitz matrix with entry `(i, j) = a[i - j]` inside the band and 0 outside it. The second operand is
  zero-padded, or truncated, to `n` entries. A matrix-multiply device computes the product, and the
  resulting column is read back as the coefficients. Each entry of that product follows the
  multiply-accumulate rule `C[i][j] = Σ_k A[i][k] · B[k][j]`.

The model proves that both paths compute the same polynomial product whenever the second operand is no
longer than the first and no coefficient of the product exceeds 2^64 - 1. The matrix path is taken with its
exact integer product, before the cast back to `u64`. It also proves what that product is: evaluating it at any point gives the product of
the two operands' values there. It is commutative, and the polynomial 1 is its identity.

Files:

- `mac.dfy` (module `Mac`): the multiply-accumulate rule as pure functions (`Dot`, `MatMul`), a vector as
  an `n × 1` matrix, and the reshape back to a vector.
- `polynomial_product.dfy` (module `PolynomialProduct`): schoolbook convolution over unbounded naturals as a
  specification, with its algebraic properties.
- `tpu_matrix_mul.dfy` (module `TpuMatrixMul`): `u64` values, the `Polynomial` datatype, and the source's
  builders as methods over arrays, proved against the specification.

Modelling decisions:

- `u64` is a subset type of `int`, so every store into a `u64` buffer must be proved to fit. `multiply_naive`
  computes `a * b` and `+=` in `u64`. The method therefore requires `NoOverflow`: every exact coefficient of
  the product is at most 2^64 - 1. All terms are unsigned, so every partial sum and every single product is
  bounded by its final coefficient (`DiagMonotone`). The requirement is exactly "no arithmetic in the loop
  overflows".
- `n + m - 1` is computed in `usize`, so both methods that compute it require `n + m >= 1`.
- `Vec<Vec<u64>>` is a rectangular matrix built cell by cell; it is modelled as an `array2<U64>`. The
  padded vector `vec_b` is an `array<U64>` filled by its own loop (`PadCoefficients`).
- The device product is modelled by its exact integer meaning (`Mac.MatMul`). The final `x as u64` is
  modelled as Rust's saturating cast (`SaturatingCast`).
- The project's design speaks of negacyclic matrices (multiplication mod x^n + 1), RNS/CRT,
  NTT, digit decomposition and strategy dispatch. The code builds a non-wrapping lower-band Toeplitz
  matrix for the plain (unreduced) product, and none of the other components exist in it. The model
  follows the code.

## Model

| member | source | states |
|---|---|---|
| `TpuMatrixMul.Polynomial.New` | examples/tpu_matrix_mul.rs:14-17 | the polynomial stores exactly the given coefficient sequence, in order |
| `TpuMatrixMul.Polynomial.MultiplyNaive` | examples/tpu_matrix_mul.rs:19-32 | given n + m >= 1 and no u64 overflow, the nested accumulation loops return exactly the n + m - 1 coefficients of the convolution, coefficient k being the sum of a[i]·b[j] over i + j == k |
| `TpuMatrixMul.Polynomial.ToMultiplicationMatrix` | examples/tpu_matrix_mul.rs:34-50 | the matrix has result_degree rows of n entries; entry (i, j) is a[i-j] when i >= j and i - j < n, otherwise 0; it is constant along diagonals; and its rows are the Toeplitz matrix of a; the matrix is a newly allocated buffer |
| `TpuMatrixMul.PadCoefficients` | examples/tpu_matrix_mul.rs:72-78 | the vector has exactly n entries: b[j] for j < min(n, len(b)), zero elsewhere, and coefficients at index n or beyond are dropped; the vector is a newly allocated buffer |
| `TpuMatrixMul.Polynomial.MultiplyMatrix` | examples/tpu_matrix_mul.rs:58-90 | the Toeplitz matrix times the padded vector, reshaped and cast to u64, has n + m - 1 coefficients; coefficient k is coefficient k of a × (b truncated to n coefficients), saturated; when len(b) <= len(a) and nothing overflows it equals the schoolbook product |
| `TpuMatrixMul.ToeplitzRowMac` | examples/tpu_matrix_mul.rs:34-36 | the MAC of row i of the Toeplitz matrix of a with b padded or truncated to len(a) entries is coefficient i of a × (b truncated to len(a)): the matrix times B gives A × B |
| `TpuMatrixMul.MatrixPathDropsLeadingCoefficient` | examples/tpu_matrix_mul.rs:73-78 | when len(b) > len(a) >= 1 and both leading coefficients are nonzero, the coefficient of degree len(a) + len(b) - 2 is 0 on the matrix path and nonzero in the true product |
| `TpuMatrixMul.SaturatingCast` | examples/tpu_matrix_mul.rs:87-88 | the result is the u64 value nearest to its argument: no u64 value is closer, so values in range are kept and others are clamped to 0 or 2^64 - 1 |
| `PolynomialProduct.Convolution` | examples/tpu_matrix_mul.rs:21-23 | the product of an n-coefficient and an m-coefficient polynomial has n + m - 1 coefficients |
| `PolynomialProduct.DiagMonotone` | examples/tpu_matrix_mul.rs:25-29 | each running sum accumulated into a coefficient is at most any later one, because all terms are unsigned |
| `PolynomialProduct.ConvCoeffCommutes` | examples/tpu_matrix_mul.rs:25-29 | every coefficient of a × b equals the same coefficient of b × a |
| `PolynomialProduct.ConvolutionCommutes` | examples/tpu_matrix_mul.rs:19-31 | multiplying a by b gives the same coefficients as multiplying b by a |
| `PolynomialProduct.ConvolutionIdentity` | examples/tpu_matrix_mul.rs:19-31 | multiplying by the polynomial [1], on either side, returns the original coefficients |
| `PolynomialProduct.ConvCoeffLeading` | examples/tpu_matrix_mul.rs:25-29 | the top coefficient of a × b is the product of the top coefficients of a and b |
| `PolynomialProduct.ConvCoeffBeyondDegree` | examples/tpu_matrix_mul.rs:21-23 | every coefficient of a × b at index n + m - 1 or beyond is zero, so n + m - 1 slots hold the whole product |
| `PolynomialProduct.ConvolutionEval` | examples/tpu_matrix_mul.rs:19-31 | evaluating the convolution at any integer x gives the product of the values of a and b at x: the convolution is polynomial multiplication |
| `PolynomialProduct.EvalProductIsProduct` | examples/tpu_matrix_mul.rs:25-29 | summing the convolution coefficients times powers of x, over any length covering the product, gives Eval(a, x) · Eval(b, x) |
| `PolynomialProduct.WorkedExample` | examples/tpu_matrix_mul.rs:114-115 | (1 + 2x + 3x² + 4x³)(5 + 6x + 7x²) has coefficients [5, 16, 34, 52, 45, 28] |
| `Mac.FlattenColumnVector` | examples/tpu_matrix_mul.rs:79-85 | shaping a vector as an n × 1 tensor and reshaping the result back to a vector gives back the same vector |
| `Mac.MatVecIsRowDots` | examples/tpu_mac.rs:4 | a matrix times a vector as an n × 1 matrix, reshaped to a vector, has as entry i the MAC sum of row i with the vector |
| `Mac.TwoByTwoExample` | examples/tpu_mac.rs:15-35 | [[1, 2], [3, 4]] × [[5, 6], [7, 8]] is [[19, 22], [43, 50]] |

## Left out

- The tensor and `f32` mechanics of `multiply_matrix_with_device` are left out: the `Tensor` type, `to_vec1`,
  the `Device` and the `as f32` conversions. The exact integer meaning of `Tensor::from_vec` to shape (n, 1),
  `matmul` and `reshape` is modelled by `Mac.ColumnVector`, `Mac.MatMul` and `Mac.Flatten`. Values above 2^24 lose precision
  in `f32`; the model computes the product exactly. Errors from the tensor library (`CandleResult`) are not
  modelled, so the modelled product always succeeds.
- MultiplyNaive: does not model release-mode `u64` wrap-around. The model requires that no sum or product
  overflows, which is the condition under which a debug build does not panic.
- `usize` overflow of `n + m` is not modelled: lengths are unbounded naturals.
- `approx_eq` compares through `f64` with an epsilon. It is floating-point logic and is not modelled.
- Both `main` functions and `print_matrix` are left out. They only print, time with `Instant`, and run
  benchmark loops.
- `src/lib.rs` only declares a `core` module. That module is not part of this model.
- Ring reduction mod x^n + 1, RNS/CRT, NTT, digit decomposition and strategy dispatch are not modelled.
  No code implements them.
