/** The multiply-accumulate (MAC) rule that a matrix product obeys:
    entry (i, j) of A × B is the sum over k of A[i][k] * B[k][j].
    Matrices are sequences of rows. */
module Mac {

  /** `m` has `rows` rows of `cols` entries each. */
  predicate IsMatrix(m: seq<seq<int>>, rows: nat, cols: nat) {
    |m| == rows && forall i | 0 <= i < rows :: |m[i]| == cols
  }

  /** The accumulator of one MAC lane after `n` steps: the sum of u[k] * v[k] for k < n,
      accumulated with k increasing. */
  function Dot(u: seq<int>, v: seq<int>, n: nat): int
    requires n <= |u| && n <= |v|
  {
    if n == 0 then 0 else Dot(u, v, n - 1) + u[n - 1] * v[n - 1]
  }

  /** Column `j` of `m`. */
  function Column(m: seq<seq<int>>, j: nat): (c: seq<int>)
    requires forall k | 0 <= k < |m| :: j < |m[k]|
    ensures |c| == |m|
  {
    seq(|m|, k requires 0 <= k < |m| => m[k][j])
  }

  /** The product of an r × n matrix `a` and an n × `cols` matrix `b`, every entry
      obtained by n multiply-accumulate steps. */
  function MatMul(a: seq<seq<int>>, b: seq<seq<int>>, cols: nat): (c: seq<seq<int>>)
    requires IsMatrix(a, |a|, |b|) && IsMatrix(b, |b|, cols)
    ensures IsMatrix(c, |a|, cols)
  {
    seq(|a|, i requires 0 <= i < |a| =>
      seq(cols, j requires 0 <= j < cols => Dot(a[i], Column(b, j), |b|)))
  }

  /** `v` as an n × 1 matrix (a tensor of shape (n, 1)). */
  function ColumnVector(v: seq<int>): (m: seq<seq<int>>)
    ensures IsMatrix(m, |v|, 1)
    ensures Column(m, 0) == v
  {
    seq(|v|, k requires 0 <= k < |v| => [v[k]])
  }

  /** An r × 1 matrix reshaped to a vector of length r. */
  function Flatten(m: seq<seq<int>>): (v: seq<int>)
    requires IsMatrix(m, |m|, 1)
    ensures |v| == |m|
  {
    seq(|m|, i requires 0 <= i < |m| => m[i][0])
  }

  /** Shaping a vector as an n × 1 matrix and reshaping it back gives the vector. */
  lemma FlattenColumnVector(v: seq<int>)
    ensures Flatten(ColumnVector(v)) == v
  {
  }

  /** A matrix times a column vector, reshaped back to a vector, is the vector of
      row-by-vector MAC sums. */
  lemma MatVecIsRowDots(a: seq<seq<int>>, v: seq<int>, i: nat)
    requires IsMatrix(a, |a|, |v|) && i < |a|
    ensures Flatten(MatMul(a, ColumnVector(v), 1))[i] == Dot(a[i], v, |v|)
  {
  }

  /** The 2 × 2 example worked by hand in the MAC demonstration:
      [[1, 2], [3, 4]] × [[5, 6], [7, 8]] == [[19, 22], [43, 50]]. */
  lemma TwoByTwoExample()
    ensures MatMul([[1, 2], [3, 4]], [[5, 6], [7, 8]], 2) == [[19, 22], [43, 50]]
  {
    var a: seq<seq<int>> := [[1, 2], [3, 4]];
    var b: seq<seq<int>> := [[5, 6], [7, 8]];
    var c := MatMul(a, b, 2);
    assert Column(b, 0) == [5, 7] && Column(b, 1) == [6, 8];
    assert c[0][0] == Dot([1, 2], [5, 7], 2) == 19;
    assert c[0][1] == Dot([1, 2], [6, 8], 2) == 22;
    assert c[1][0] == Dot([3, 4], [5, 7], 2) == 43;
    assert c[1][1] == Dot([3, 4], [6, 8], 2) == 50;
    assert c[0] == [19, 22] && c[1] == [43, 50];
  }
}
