/** Sums of element-wise products, accumulated left to right as Rust's
    `iter().zip(..).map(..).sum()` and the `+=` loops of the source do. */
module Sums {

  /** The element-wise products of two sequences; like `zip`, it stops at the
      end of the shorter one. */
  function Products(a: seq<int>, b: seq<int>): (p: seq<int>)
    ensures |p| == if |a| <= |b| then |a| else |b|
    ensures forall k :: 0 <= k < |p| ==> p[k] == a[k] * b[k]
  {
    seq(if |a| <= |b| then |a| else |b|, k requires 0 <= k < |a| && k < |b| => a[k] * b[k])
  }

  /** Left-to-right sum: ((0 + s[0]) + s[1]) + ... */
  function Sum(s: seq<int>): int
  {
    if |s| == 0 then 0 else Sum(s[..|s| - 1]) + s[|s| - 1]
  }

  /** One more step of the accumulation loop adds the next term. */
  lemma SumPrefixStep(s: seq<int>, k: nat)
    requires k < |s|
    ensures Sum(s[..k + 1]) == Sum(s[..k]) + s[k]
  {
    assert s[..k + 1][..k] == s[..k];
  }

  /** Truncating both operands truncates their products. */
  lemma ProductsPrefix(a: seq<int>, b: seq<int>, k: nat)
    requires k <= |a| && k <= |b|
    ensures Products(a, b)[..k] == Products(a[..k], b[..k])
  {
    var p, q := Products(a, b)[..k], Products(a[..k], b[..k]);
    assert |p| == |q| == k;
    forall t | 0 <= t < k ensures p[t] == q[t] {
      assert p[t] == a[t] * b[t];
    }
  }

  /** The sum of products does not depend on the order of the operands. */
  lemma ProductsSymmetric(a: seq<int>, b: seq<int>)
    ensures Products(a, b) == Products(b, a)
    ensures Sum(Products(a, b)) == Sum(Products(b, a))
  {
  }

  /** A sum of non-negative terms is non-negative, and zero exactly when
      every term is zero. */
  lemma {:induction false} SumNonNegative(s: seq<int>)
    requires forall k :: 0 <= k < |s| ==> s[k] >= 0
    ensures Sum(s) >= 0
    ensures Sum(s) == 0 <==> forall k :: 0 <= k < |s| ==> s[k] == 0
  {
    if |s| > 0 {
      var s' := s[..|s| - 1];
      SumNonNegative(s');
      assert (forall k :: 0 <= k < |s| ==> s[k] == 0)
        <==> (forall k :: 0 <= k < |s'| ==> s'[k] == 0) && s[|s| - 1] == 0;
    }
  }

  /** A sum of squares is never negative, and it is zero only when every
      element is zero. */
  lemma SumOfSquares(a: seq<int>)
    ensures Sum(Products(a, a)) >= 0
    ensures Sum(Products(a, a)) == 0 <==> forall k :: 0 <= k < |a| ==> a[k] == 0
  {
    var p := Products(a, a);
    forall k | 0 <= k < |a| ensures p[k] >= 0 && (p[k] == 0 <==> a[k] == 0) {
      if a[k] != 0 {
        SquarePositive(a[k]);
      }
    }
    SumNonNegative(p);
  }

  lemma SquarePositive(x: int)
    requires x != 0
    ensures x * x > 0
  {
  }
}
