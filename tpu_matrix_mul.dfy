/** Polynomials with u64 coefficients, multiplied two ways: by the schoolbook loop, and
    by a banded Toeplitz matrix applied to the zero-padded coefficient vector of the
    second operand (the step handed to a matrix-multiply device). */
module TpuMatrixMul {
  import opened Mac
  import opened PolynomialProduct

  const MaxU64: int := 0xFFFF_FFFF_FFFF_FFFF

  /** An unsigned 64-bit value. */
  type U64 = x: int | 0 <= x <= MaxU64

  /** The distance between two integers. */
  function Dist(x: int, y: int): nat {
    if x <= y then y - x else x - y
  }

  /** Rust's `as u64` on a value beyond the u64 range: it saturates at both ends, so the
      result is the u64 value nearest to `x`. */
  function SaturatingCast(x: int): (r: U64)
    ensures forall y: U64 :: Dist(r, x) <= Dist(y, x)
  {
    if x < 0 then 0 else if x > MaxU64 then MaxU64 else x
  }

  /** No u64 product or running sum in the schoolbook loop overflows. All terms are
      unsigned, so every running sum and every single product is bounded by the final
      coefficient: requiring the exact coefficients to fit is requiring no overflow. */
  predicate NoOverflow(a: seq<nat>, b: seq<nat>) {
    forall k | 0 <= k < |a| + |b| - 1 :: ConvCoeff(a, b, k) <= MaxU64
  }

  /** `b` with every coefficient at index `n` or beyond dropped. */
  function Truncated(b: seq<nat>, n: nat): (t: seq<nat>)
    ensures |t| <= n && |t| <= |b|
    ensures forall j | 0 <= j < n :: Coeff(t, j) == Coeff(b, j)
  {
    if |b| <= n then b else b[..n]
  }

  /** The rows × |a| banded Toeplitz matrix of `a`: entry (i, j) is the coefficient of
      x^(i-j) in `a`. */
  function ToeplitzMatrix(a: seq<nat>, rows: nat): (m: seq<seq<int>>)
    ensures IsMatrix(m, rows, |a|)
  {
    seq(rows, i requires 0 <= i < rows => seq(|a|, j requires 0 <= j < |a| => Coeff(a, i - j)))
  }

  /** The contents of a two-dimensional array, row by row. */
  function Rows(m: array2<U64>): (rows: seq<seq<int>>)
    reads m
    ensures IsMatrix(rows, m.Length0, m.Length1)
  {
    seq(m.Length0, i requires 0 <= i < m.Length0 reads m =>
      seq(m.Length1, j requires 0 <= j < m.Length1 reads m => m[i, j] as int))
  }

  /** A polynomial with u64 coefficients, lowest degree first. */
  datatype Polynomial = Polynomial(coefficients: seq<U64>) {

    /** The polynomial whose coefficients are exactly `coefficients`, in the given order. */
    static function New(coefficients: seq<U64>): (p: Polynomial)
      ensures p.coefficients == coefficients
    {
      Polynomial(coefficients)
    }

    /** Schoolbook multiplication: a zeroed buffer of n + m - 1 coefficients, into which
        every a_i * b_j is accumulated at index i + j. */
    method MultiplyNaive(other: Polynomial) returns (r: Polynomial)
      requires |coefficients| + |other.coefficients| >= 1
      requires NoOverflow(coefficients, other.coefficients)
      ensures r.coefficients == Convolution(coefficients, other.coefficients)
    {
      var a, b := coefficients, other.coefficients;
      var n, m := |a|, |b|;
      var result := new U64[n + m - 1](_ => 0);
      for i := 0 to n
        invariant forall k | 0 <= k < result.Length :: result[k] == Diag(a, b, k, 0, i)
      {
        for j := 0 to m
          invariant forall k | 0 <= k < result.Length ::
            result[k] == Diag(a, b, k, 0, i) + (if i <= k < i + j then Term(a, b, k, i) else 0)
        {
          // The u64 product and the new running sum are bounded by coefficient i + j.
          // They are computed as unbounded integers, so that the bound is proved before the store.
          var sum := result[i + j] as int + a[i] as int * b[j] as int;
          assert sum == Diag(a, b, i + j, 0, i + 1);
          DiagMonotone(a, b, i + j, 0, i + 1, n);
          assert ConvCoeff(a, b, i + j) <= MaxU64;
          result[i + j] := sum;
        }
      }
      r := New(result[..]);
    }

    /** The matrix that, applied to the coefficient vector of B, gives this × B:
        `resultDegree` rows of |coefficients| entries, entry (i, j) being
        coefficient i - j when that index exists and 0 otherwise. */
    method ToMultiplicationMatrix(resultDegree: nat) returns (matrix: array2<U64>)
      ensures matrix.Length0 == resultDegree && matrix.Length1 == |coefficients|
      ensures forall i, j | 0 <= i < resultDegree && 0 <= j < |coefficients| ::
        matrix[i, j] == if j <= i && i - j < |coefficients| then coefficients[i - j] else 0
      ensures forall i, j | 0 <= i < resultDegree - 1 && 0 <= j < |coefficients| - 1 ::
        matrix[i + 1, j + 1] == matrix[i, j]
      ensures Rows(matrix) == ToeplitzMatrix(coefficients, resultDegree)
      ensures fresh(matrix)
    {
      var n := |coefficients|;
      matrix := new U64[resultDegree, n]((_, _) => 0);
      for i := 0 to resultDegree
        invariant forall i', j' | 0 <= i' < resultDegree && 0 <= j' < n ::
          matrix[i', j'] == if i' < i then Coeff(coefficients, i' - j') else 0
      {
        for j := 0 to n
          invariant forall i', j' | 0 <= i' < resultDegree && 0 <= j' < n ::
            matrix[i', j'] == if i' < i || (i' == i && j' < j) then Coeff(coefficients, i' - j') else 0
        {
          if i >= j && i - j < n {
            matrix[i, j] := coefficients[i - j];
          }
        }
      }
      assert forall i | 0 <= i < resultDegree :: Rows(matrix)[i] == ToeplitzMatrix(coefficients, resultDegree)[i];
    }

    /** Exact-integer meaning of multiplication through a matrix device: the Toeplitz
        matrix of this polynomial times the coefficients of `other` padded or truncated
        to |coefficients| entries, reshaped to a vector and cast back to u64.
        The result is this × (other truncated to |coefficients| coefficients); it is
        this × other whenever other is no longer than this and no coefficient overflows. */
    method MultiplyMatrix(other: Polynomial) returns (r: Polynomial)
      requires |coefficients| + |other.coefficients| >= 1
      ensures |r.coefficients| == |coefficients| + |other.coefficients| - 1
      ensures forall k | 0 <= k < |r.coefficients| ::
        r.coefficients[k] == SaturatingCast(ConvCoeff(coefficients, Truncated(other.coefficients, |coefficients|), k))
      ensures |other.coefficients| <= |coefficients| && NoOverflow(coefficients, other.coefficients) ==>
        r.coefficients == Convolution(coefficients, other.coefficients)
    {
      var a, b := coefficients, other.coefficients;
      var n, m := |a|, |b|;
      var resultDegree := n + m - 1;
      var matrix := ToMultiplicationMatrix(resultDegree);
      var vecB := PadCoefficients(b, n);
      var product := Flatten(MatMul(Rows(matrix), ColumnVector(vecB[..]), 1));
      r := New(seq(resultDegree, i requires 0 <= i < resultDegree => SaturatingCast(product[i])));
      forall k | 0 <= k < resultDegree
        ensures product[k] == ConvCoeff(a, Truncated(b, n), k)
      {
        MatVecIsRowDots(Rows(matrix), vecB[..], k);
        ToeplitzRowMac(a, b, vecB[..], resultDegree, k);
      }
    }
  }

  /** The coefficient vector of `b` as a buffer of exactly `n` entries: zero-padded when
      `b` is shorter, with the coefficients at index `n` or beyond dropped. */
  method PadCoefficients(b: seq<U64>, n: nat) returns (v: array<U64>)
    ensures fresh(v) && v.Length == n
    ensures forall j | 0 <= j < n :: v[j] == if j < |b| then b[j] else 0
  {
    v := new U64[n](_ => 0);
    for i := 0 to |b|
      invariant forall j | 0 <= j < n :: v[j] == if j < i && j < |b| then b[j] else 0
    {
      if i < n {
        v[i] := b[i];
      }
    }
  }

  /** MAC over row i of the Toeplitz matrix and the first t padded coefficients of b. */
  lemma {:induction false} ToeplitzRowPrefix(a: seq<nat>, v: seq<int>, b: seq<nat>, rows: nat, i: nat, t: nat)
    requires i < rows && t <= |a| && |v| == |a|
    requires forall j | 0 <= j < |a| :: v[j] == Coeff(b, j)
    ensures Dot(ToeplitzMatrix(a, rows)[i], v, t) == Diag(b, a, i, 0, t)
  {
    if t > 0 {
      ToeplitzRowPrefix(a, v, b, rows, i, t - 1);
    }
  }

  /** Row i of the Toeplitz matrix of `a`, multiplied-and-accumulated with the
      coefficients of `b` padded or truncated to |a| entries, is coefficient i of
      a × (b truncated to |a| coefficients). */
  lemma ToeplitzRowMac(a: seq<nat>, b: seq<nat>, v: seq<int>, rows: nat, i: nat)
    requires i < rows && |v| == |a|
    requires forall j | 0 <= j < |a| :: v[j] == Coeff(b, j)
    ensures Dot(ToeplitzMatrix(a, rows)[i], v, |a|) == ConvCoeff(a, Truncated(b, |a|), i)
  {
    var t := Truncated(b, |a|);
    ToeplitzRowPrefix(a, v, t, rows, i, |a|);
    DiagSplit(t, a, i, 0, |t|, |a|);
    DiagVanishes(t, a, i, |t|, |a|);
    ConvCoeffCommutes(t, a, i);
  }

  /** When `b` has more coefficients than `a` and both leading coefficients are nonzero,
      the matrix path loses the leading coefficient of a × b: coefficient |a| + |b| - 2
      of a × (b truncated to |a|) is zero, while that of a × b is not. */
  lemma MatrixPathDropsLeadingCoefficient(a: seq<nat>, b: seq<nat>)
    requires 1 <= |a| < |b|
    requires a[|a| - 1] != 0 && b[|b| - 1] != 0
    ensures ConvCoeff(a, Truncated(b, |a|), |a| + |b| - 2) == 0
    ensures ConvCoeff(a, b, |a| + |b| - 2) != 0
  {
    ConvCoeffBeyondDegree(a, Truncated(b, |a|), |a| + |b| - 2);
    ConvCoeffLeading(a, b);
  }
}
