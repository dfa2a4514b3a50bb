/** Exact polynomial multiplication over unsigned integers, as schoolbook convolution.
    A polynomial is its coefficient sequence, lowest degree first. */
module PolynomialProduct {

  /** The coefficient of x^i in `s`; zero outside the stored coefficients. */
  function Coeff(s: seq<nat>, i: int): nat {
    if 0 <= i < |s| then s[i] else 0
  }

  /** a_i * b_(k-i): what coefficient i of `a` contributes to coefficient k of a × b. */
  function Term(a: seq<nat>, b: seq<nat>, k: int, i: int): nat {
    Coeff(a, i) * Coeff(b, k - i)
  }

  /** The sum of Term(a, b, k, i) over lo <= i < hi, accumulated with i increasing
      (the order in which the schoolbook loop adds into coefficient k). */
  function Diag(a: seq<nat>, b: seq<nat>, k: int, lo: int, hi: int): nat
    decreases hi - lo
  {
    if hi <= lo then 0 else Diag(a, b, k, lo, hi - 1) + Term(a, b, k, hi - 1)
  }

  /** Coefficient k of a × b: the sum of a_i * b_j over all i + j == k. */
  function ConvCoeff(a: seq<nat>, b: seq<nat>, k: int): nat {
    Diag(a, b, k, 0, |a|)
  }

  /** The coefficients of a × b: |a| + |b| - 1 of them. */
  function Convolution(a: seq<nat>, b: seq<nat>): (c: seq<nat>)
    requires |a| + |b| >= 1
    ensures |c| == |a| + |b| - 1
  {
    seq(|a| + |b| - 1, k requires 0 <= k < |a| + |b| - 1 => ConvCoeff(a, b, k))
  }

  // ---------------------------------------------------------------------------
  // Sums along a diagonal

  /** A diagonal sum splits at any intermediate index. */
  lemma {:induction false} DiagSplit(a: seq<nat>, b: seq<nat>, k: int, lo: int, mid: int, hi: int)
    requires lo <= mid <= hi
    ensures Diag(a, b, k, lo, hi) == Diag(a, b, k, lo, mid) + Diag(a, b, k, mid, hi)
    decreases hi - mid
  {
    if mid < hi {
      DiagSplit(a, b, k, lo, mid, hi - 1);
    }
  }

  /** A diagonal sum whose every term is zero is zero. */
  lemma {:induction false} DiagVanishes(a: seq<nat>, b: seq<nat>, k: int, lo: int, hi: int)
    requires forall i | lo <= i < hi :: Term(a, b, k, i) == 0
    ensures Diag(a, b, k, lo, hi) == 0
    decreases hi - lo
  {
    if lo < hi {
      DiagVanishes(a, b, k, lo, hi - 1);
    }
  }

  /** Extending a diagonal sum to the right never decreases it: all terms are unsigned. */
  lemma {:induction false} DiagMonotone(a: seq<nat>, b: seq<nat>, k: int, lo: int, hi: int, hi': int)
    requires lo <= hi <= hi'
    ensures Diag(a, b, k, lo, hi) <= Diag(a, b, k, lo, hi')
    decreases hi' - hi
  {
    if hi < hi' {
      DiagMonotone(a, b, k, lo, hi, hi' - 1);
    }
  }

  /** Reading a diagonal of a × b backwards gives the same diagonal of b × a. */
  lemma {:induction false} DiagReverse(a: seq<nat>, b: seq<nat>, k: int, lo: int, hi: int)
    ensures Diag(a, b, k, lo, hi) == Diag(b, a, k, k - hi + 1, k - lo + 1)
    decreases hi - lo
  {
    if lo < hi {
      DiagReverse(a, b, k, lo, hi - 1);
      DiagSplit(b, a, k, k - hi + 1, k - hi + 2, k - lo + 1);
    }
  }

  /** Coefficient k (k >= 0) of a × b is the sum over 0 <= i <= k of a_i * b_(k-i):
      the terms with i >= |a| and those with i > k vanish. */
  lemma ConvCoeffUpTo(a: seq<nat>, b: seq<nat>, k: nat)
    ensures ConvCoeff(a, b, k) == Diag(a, b, k, 0, k + 1)
  {
    if |a| <= k + 1 {
      DiagSplit(a, b, k, 0, |a|, k + 1);
      DiagVanishes(a, b, k, |a|, k + 1);
    } else {
      DiagSplit(a, b, k, 0, k + 1, |a|);
      DiagVanishes(a, b, k, k + 1, |a|);
    }
  }

  // ---------------------------------------------------------------------------
  // Properties of the product

  /** Every coefficient of a × b equals the matching one of b × a. */
  lemma ConvCoeffCommutes(a: seq<nat>, b: seq<nat>, k: nat)
    ensures ConvCoeff(a, b, k) == ConvCoeff(b, a, k)
  {
    ConvCoeffUpTo(a, b, k);
    ConvCoeffUpTo(b, a, k);
    DiagReverse(a, b, k, 0, k + 1);
  }

  /** Multiplication is commutative. */
  lemma ConvolutionCommutes(a: seq<nat>, b: seq<nat>)
    requires |a| + |b| >= 1
    ensures Convolution(a, b) == Convolution(b, a)
  {
    forall k | 0 <= k < |a| + |b| - 1
      ensures Convolution(a, b)[k] == Convolution(b, a)[k]
    {
      ConvCoeffCommutes(a, b, k);
    }
  }

  /** Coefficients beyond degree |a| + |b| - 2 of a × b are zero. */
  lemma ConvCoeffBeyondDegree(a: seq<nat>, b: seq<nat>, k: int)
    requires k >= |a| + |b| - 1
    ensures ConvCoeff(a, b, k) == 0
  {
    DiagVanishes(a, b, k, 0, |a|);
  }

  /** The leading coefficient of a × b is the product of the leading coefficients. */
  lemma ConvCoeffLeading(a: seq<nat>, b: seq<nat>)
    requires |a| >= 1 && |b| >= 1
    ensures ConvCoeff(a, b, |a| + |b| - 2) == a[|a| - 1] * b[|b| - 1]
  {
    var k := |a| + |b| - 2;
    DiagVanishes(a, b, k, 0, |a| - 1);
  }

  /** Coefficient k of a × [1] is coefficient k of a. */
  lemma {:induction false} DiagTimesOne(a: seq<nat>, k: nat, n: nat)
    ensures Diag(a, [1], k, 0, n) == if k < n then Coeff(a, k) else 0
  {
    if n > 0 {
      DiagTimesOne(a, k, n - 1);
    }
  }

  /** The polynomial 1 is a two-sided identity. */
  lemma ConvolutionIdentity(a: seq<nat>)
    ensures Convolution(a, [1]) == a
    ensures Convolution([1], a) == a
  {
    forall k | 0 <= k < |a|
      ensures Convolution(a, [1])[k] == a[k]
    {
      DiagTimesOne(a, k, |a|);
    }
    ConvolutionCommutes(a, [1]);
  }

  // ---------------------------------------------------------------------------
  // Evaluation: the product of coefficient sequences is the product of polynomials

  /** x^e. */
  function Pow(x: int, e: nat): int {
    if e == 0 then 1 else x * Pow(x, e - 1)
  }

  /** The sum of Coeff(s, k - shift) * x^k over k < len. */
  function EvalShifted(s: seq<nat>, x: int, shift: nat, len: nat): int {
    if len == 0 then 0 else EvalShifted(s, x, shift, len - 1) + Coeff(s, len - 1 - shift) * Pow(x, len - 1)
  }

  /** The value at x of the polynomial with coefficients `s`. */
  function Eval(s: seq<nat>, x: int): int {
    EvalShifted(s, x, 0, |s|)
  }

  /** The sum of ConvCoeff(a, b, k) * x^k over k < len. */
  function EvalProduct(a: seq<nat>, b: seq<nat>, x: int, len: nat): int {
    if len == 0 then 0 else EvalProduct(a, b, x, len - 1) + ConvCoeff(a, b, len - 1) * Pow(x, len - 1)
  }

  /** Summing past the last coefficient adds nothing. */
  lemma {:induction false} EvalShiftedBeyond(s: seq<nat>, x: int, len: nat)
    requires len >= |s|
    ensures EvalShifted(s, x, 0, len) == Eval(s, x)
  {
    if len > |s| {
      EvalShiftedBeyond(s, x, len - 1);
    }
  }

  /** Evaluation only sees the coefficients below `len`. */
  lemma {:induction false} EvalShiftedPrefix(s: seq<nat>, t: seq<nat>, x: int, len: nat)
    requires forall k | 0 <= k < len :: Coeff(s, k) == Coeff(t, k)
    ensures EvalShifted(s, x, 0, len) == EvalShifted(t, x, 0, len)
  {
    if len > 0 {
      EvalShiftedPrefix(s, t, x, len - 1);
    }
  }

  /** Shifting the coefficients up by `shift` places multiplies the value by x^shift. */
  lemma {:induction false} EvalShiftedFactor(s: seq<nat>, x: int, shift: nat, len: nat)
    requires len >= shift
    ensures EvalShifted(s, x, shift, len) == Pow(x, shift) * EvalShifted(s, x, 0, len - shift)
  {
    if len == shift {
      assert EvalShifted(s, x, shift, len) == 0 by {
        EvalShiftedLow(s, x, shift, len);
      }
    } else {
      EvalShiftedFactor(s, x, shift, len - 1);
      PowAdd(x, shift, len - 1 - shift);
      FactorOut(Pow(x, shift), EvalShifted(s, x, 0, len - 1 - shift), Coeff(s, len - 1 - shift), Pow(x, len - 1 - shift));
    }
  }

  /** Below the shift every coefficient read is zero. */
  lemma {:induction false} EvalShiftedLow(s: seq<nat>, x: int, shift: nat, len: nat)
    requires len <= shift
    ensures EvalShifted(s, x, shift, len) == 0
  {
    if len > 0 {
      EvalShiftedLow(s, x, shift, len - 1);
    }
  }

  /** x^(m + n) == x^m * x^n. */
  lemma {:induction false} PowAdd(x: int, m: nat, n: nat)
    ensures Pow(x, m + n) == Pow(x, m) * Pow(x, n)
  {
    if n > 0 {
      PowAdd(x, m, n - 1);
      assert Pow(x, m + n) == x * (Pow(x, m) * Pow(x, n - 1));
    }
  }

  /** Diagonal sums only see the coefficients of `a` in the summed range. */
  lemma {:induction false} DiagPrefix(a: seq<nat>, a': seq<nat>, b: seq<nat>, k: int, lo: int, hi: int)
    requires forall i | lo <= i < hi :: Coeff(a, i) == Coeff(a', i)
    ensures Diag(a, b, k, lo, hi) == Diag(a', b, k, lo, hi)
    decreases hi - lo
  {
    if lo < hi {
      DiagPrefix(a, a', b, k, lo, hi - 1);
    }
  }

  /** Appending a leading coefficient c to `a` adds c * x^|a| * b to a × b, coefficient by coefficient. */
  lemma {:induction false} EvalProductSnoc(a: seq<nat>, c: nat, b: seq<nat>, x: int, len: nat)
    ensures EvalProduct(a + [c], b, x, len) == EvalProduct(a, b, x, len) + c * EvalShifted(b, x, |a|, len)
  {
    if len > 0 {
      var k := len - 1;
      EvalProductSnoc(a, c, b, x, k);
      DiagPrefix(a + [c], a, b, k, 0, |a|);
      assert ConvCoeff(a + [c], b, k) == ConvCoeff(a, b, k) + c * Coeff(b, k - |a|);
      Regroup(ConvCoeff(a, b, k), c, Coeff(b, k - |a|), Pow(x, k), EvalShifted(b, x, |a|, k));
    }
  }

  /** The product with the empty polynomial evaluates to zero. */
  lemma {:induction false} EvalProductEmpty(b: seq<nat>, x: int, len: nat)
    ensures EvalProduct([], b, x, len) == 0
  {
    if len > 0 {
      EvalProductEmpty(b, x, len - 1);
    }
  }

  /** Summed far enough, the coefficients of a × b evaluate to Eval(a, x) * Eval(b, x). */
  lemma {:induction false} EvalProductIsProduct(a: seq<nat>, b: seq<nat>, x: int, len: nat)
    requires len >= |a| + |b| - 1
    ensures EvalProduct(a, b, x, len) == Eval(a, x) * Eval(b, x)
    decreases |a|
  {
    if |a| == 0 {
      EvalProductEmpty(b, x, len);
    } else {
      var a', c := a[..|a| - 1], a[|a| - 1];
      assert a == a' + [c];
      EvalProductIsProduct(a', b, x, len);
      EvalProductSnoc(a', c, b, x, len);
      EvalShiftedFactor(b, x, |a'|, len);
      EvalShiftedBeyond(b, x, len - |a'|);
      EvalShiftedPrefix(a, a', x, |a'|);
      FactorOut(Eval(b, x), Eval(a', x), c, Pow(x, |a'|));
      assert Eval(a, x) == Eval(a', x) + c * Pow(x, |a'|);
    }
  }

  /** Evaluating a × b at any point gives the product of the values of a and b there:
      the convolution is polynomial multiplication. */
  lemma ConvolutionEval(a: seq<nat>, b: seq<nat>, x: int)
    requires |a| + |b| >= 1
    ensures Eval(Convolution(a, b), x) == Eval(a, x) * Eval(b, x)
  {
    var c := Convolution(a, b);
    EvalProductIsProduct(a, b, x, |c|);
    EvalProductMatches(a, b, c, x, |c|);
  }

  /** EvalProduct sums the coefficients of Convolution(a, b). */
  lemma {:induction false} EvalProductMatches(a: seq<nat>, b: seq<nat>, c: seq<nat>, x: int, len: nat)
    requires len <= |c|
    requires forall k | 0 <= k < |c| :: c[k] == ConvCoeff(a, b, k)
    ensures EvalShifted(c, x, 0, len) == EvalProduct(a, b, x, len)
  {
    if len > 0 {
      EvalProductMatches(a, b, c, x, len - 1);
    }
  }

  /** Ring identity used to factor a power of x out of a sum. */
  lemma FactorOut(p: int, r: int, c: int, q: int)
    ensures p * r + c * (p * q) == p * (r + c * q)
    ensures r * p + c * (q * p) == (r + c * q) * p
  {
  }

  /** Ring identity used to add one coefficient's contribution to an evaluation. */
  lemma Regroup(u: int, c: int, y: int, p: int, e: int)
    ensures (u + c * y) * p + c * e == u * p + c * (e + y * p)
  {
  }

  /** The worked example: (1 + 2x + 3x^2 + 4x^3)(5 + 6x + 7x^2)
      == 5 + 16x + 34x^2 + 52x^3 + 45x^4 + 28x^5. */
  lemma WorkedExample()
    ensures Convolution([1, 2, 3, 4], [5, 6, 7]) == [5, 16, 34, 52, 45, 28]
  {
  }
}
