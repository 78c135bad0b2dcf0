/** Real-valued sequence arithmetic used by the training-loop modules: sums,
    means, absolute value and `torch.clamp`. */
module Numeric {

  /** Absolute value, as Python's `abs` and `torch.abs`. */
  function Abs(x: real): (r: real)
    ensures r >= 0.0
    ensures r == x || r == -x
  {
    if x < 0.0 then -x else x
  }

  /** `torch.clamp(x, min=lo, max=hi)`: the lower bound is applied first, so
      when `lo > hi` every input is sent to `hi`. */
  function Clip(x: real, lo: real, hi: real): (r: real)
    ensures r <= hi
    ensures lo <= hi ==> lo <= r
    ensures lo <= x <= hi ==> r == x
  {
    var raised := if x < lo then lo else x;
    if raised > hi then hi else raised
  }

  /** Sum of a sequence, from the front. */
  function Sum(s: seq<real>): real
  {
    if |s| == 0 then 0.0 else s[0] + Sum(s[1..])
  }

  /** Arithmetic mean of a non-empty sequence (`Tensor.mean()`). */
  function Mean(s: seq<real>): real
    requires |s| > 0
  {
    Sum(s) / (|s| as real)
  }

  /** Element-wise square. */
  function Squares(s: seq<real>): (r: seq<real>)
    ensures |r| == |s|
    ensures forall i :: 0 <= i < |s| ==> r[i] >= 0.0 && (s[i] == 0.0 ==> r[i] == 0.0)
  {
    seq(|s|, i requires 0 <= i < |s| => Square(s[i]))
  }

  /** `x * x`, which is never negative. */
  function Square(x: real): (r: real)
    ensures r >= 0.0
  {
    x * x
  }

  /** Summation is monotone in every element. */
  lemma {:induction false} SumMonotone(a: seq<real>, b: seq<real>)
    requires |a| == |b|
    requires forall i :: 0 <= i < |a| ==> a[i] <= b[i]
    ensures Sum(a) <= Sum(b)
  {
    if |a| > 0 {
      SumMonotone(a[1..], b[1..]);
    }
  }

  /** A sum of non-negative terms is non-negative, and it is zero exactly when
      every term is zero. */
  lemma {:induction false} SumNonNegative(s: seq<real>)
    requires forall i :: 0 <= i < |s| ==> s[i] >= 0.0
    ensures Sum(s) >= 0.0
    ensures Sum(s) == 0.0 <==> forall i :: 0 <= i < |s| ==> s[i] == 0.0
  {
    if |s| > 0 {
      SumNonNegative(s[1..]);
      if Sum(s) == 0.0 {
        forall i | 0 <= i < |s|
          ensures s[i] == 0.0
        {
          if i > 0 {
            assert s[i] == s[1..][i - 1];
          }
        }
      }
    }
  }

  /** The mean of a non-empty sequence of non-negative terms is non-negative,
      and it is zero exactly when every term is zero. */
  lemma MeanNonNegative(s: seq<real>)
    requires |s| > 0
    requires forall i :: 0 <= i < |s| ==> s[i] >= 0.0
    ensures Mean(s) >= 0.0
    ensures Mean(s) == 0.0 <==> forall i :: 0 <= i < |s| ==> s[i] == 0.0
  {
    SumNonNegative(s);
  }

  /** The mean is monotone in every element. */
  lemma MeanMonotone(a: seq<real>, b: seq<real>)
    requires |a| == |b| > 0
    requires forall i :: 0 <= i < |a| ==> a[i] <= b[i]
    ensures Mean(a) <= Mean(b)
  {
    SumMonotone(a, b);
  }

  /** A product of a positive multiplier and a positive modulus is at least the modulus. */
  lemma MultipleAtLeast(d: int, m: int)
    requires d >= 1 && m > 0
    ensures d * m >= m
  {
    assert d * m == (d - 1) * m + m;
    assert (d - 1) * m >= 0;
  }

  /** Integer division with a positive divisor: `a == k * m + b` with
      `0 <= b < m` determines the quotient `k` and the remainder `b`. */
  lemma DivModUnique(a: int, k: int, b: int, m: int)
    requires m > 0 && 0 <= b < m && a == k * m + b
    ensures a / m == k && a % m == b
  {
    var q, r := a / m, a % m;
    assert a == q * m + r;
    var d := k - q;
    assert d * m == r - b by {
      assert k * m - q * m == (k - q) * m;
    }
    if d >= 1 {
      MultipleAtLeast(d, m);
    } else if d <= -1 {
      MultipleAtLeast(-d, m);
    }
  }
}
