/** The dense row-major matrix of th_rust/src/ml/matrix.rs: element (i, j)
    of an m x n matrix lives at data[i*n + j]. Elements are integers; the
    f32 rounding of the source is not modelled. */
module Matrices {
  import opened Outcomes
  import opened RowMajor
  import opened Sums
  import opened MatMul

  /** A matrix with public fields and no validating constructor: nothing
      keeps |data| == m*n, so the operations require Valid() of their
      operands instead of the class maintaining it. */
  class Matrix {
    var data: seq<int>
    var m: nat
    var n: nat

    /** The layout invariant the operations rely on. */
    predicate Valid()
      reads this
    {
      |data| == m * n
    }

    /** The struct literal `Matrix { data, m, n, .. }`. */
    constructor (data: seq<int>, m: nat, n: nat)
      ensures this.data == data && this.m == m && this.n == n
    {
      this.data := data;
      this.m := m;
      this.n := n;
    }

    /** `get_index`: the row-major offset of (i, j). It does not check its
        arguments; inside the matrix it stays below m*n, and division and
        remainder by n give back the row and the column. */
    function GetIndex(i: nat, j: nat): (r: nat)
      reads this
      ensures j < n ==> r / n == i && r % n == j
      ensures i < m && j < n ==> r < m * n
    {
      assert j < n ==> Offset(i, j, n) / n == i && Offset(i, j, n) % n == j by {
        if j < n { OffsetDivMod(i, j, n); }
      }
      assert i < m && j < n ==> Offset(i, j, n) < m * n by {
        if i < m && j < n { OffsetBelowSize(i, j, m, n); }
      }
      Offset(i, j, n)
    }

    /** `scalar_product`: multiplies every element by k in place. */
    method ScalarProduct(k: int)
      modifies this`data
      ensures data == Scaled(old(data), k)
    {
      var current := data;
      data := seq(|current|, t requires 0 <= t < |current| => current[t] * k);
    }

    /** `trace`: the sum of the diagonal elements, visited by a full scan of
        all cells that keeps only those with i == j. */
    method Trace() returns (sum: int)
      requires Valid()
      ensures sum == Sum(Diagonal(data, m, n))
    {
      var diag := Diagonal(data, m, n);
      sum := 0;
      var i := 0;
      while i < m
        invariant 0 <= i <= m
        invariant sum == Sum(diag[..Min(i, n)])
      {
        var j := 0;
        while j < n
          invariant 0 <= j <= n
          invariant sum == Sum(diag[..Min(i, n)]) + (if i < j then diag[i] else 0)
        {
          if i == j {
            var index := GetIndex(i, j);
            sum := sum + data[index];
          }
          j := j + 1;
        }
        if i < n {
          SumPrefixStep(diag, i);
        }
        i := i + 1;
      }
      assert diag[..Min(m, n)] == diag;
    }
  }

  function Min(a: nat, b: nat): nat
  {
    if a <= b then a else b
  }

  /** Every element of s multiplied by k. */
  function Scaled(s: seq<int>, k: int): (r: seq<int>)
    ensures |r| == |s|
    ensures forall t :: 0 <= t < |s| ==> r[t] == s[t] * k
  {
    seq(|s|, t requires 0 <= t < |s| => s[t] * k)
  }

  /** The diagonal cells (i, i) of an m x n buffer, for i < min(m, n). */
  function Diagonal(data: seq<int>, m: nat, n: nat): (d: seq<int>)
    requires |data| == m * n
    ensures |d| == Min(m, n)
    ensures forall i :: 0 <= i < |d| ==> d[i] == Cell(data, m, n, i, i)
  {
    seq(Min(m, n), i requires 0 <= i < Min(m, n) => Cell(data, m, n, i, i))
  }

  /** The element operation of `Add::add` and `Sub::sub`. */
  datatype Op = Plus | Minus

  function Apply(op: Op, x: int, y: int): int
  {
    match op
    case Plus => x + y
    case Minus => x - y
  }

  /** add and sub read `other.data[other.get_index(i, j)]` for every cell
      (i, j) of the left operand, with the right operand's own column count;
      none of those reads may run past the end of the right operand. */
  predicate OtherReadsInRange(m: nat, n: nat, otherCols: nat, otherLen: nat)
  {
    forall i, j :: 0 <= i < m && 0 <= j < n ==> Offset(i, j, otherCols) < otherLen
  }

  /** The loop shared by add and sub. The source checks no shapes: it
      panics exactly when some read of the right operand is out of range,
      and otherwise combines cell (i, j) of the left operand with the right
      operand's element at i*other.n + j. */
  method ElementWise(a: Matrix, b: Matrix, op: Op) returns (r: Result<Matrix>)
    requires a.Valid()
    ensures r.Err? <==> !OtherReadsInRange(a.m, a.n, b.n, |b.data|)
    ensures r.Err? ==> r.error == IndexOutOfRange
    ensures r.Ok? ==> fresh(r.value) && r.value.m == a.m && r.value.n == a.n && r.value.Valid()
    ensures r.Ok? ==> forall i, j :: 0 <= i < a.m && 0 <= j < a.n ==>
      Offset(i, j, b.n) < |b.data| &&
      Cell(r.value.data, a.m, a.n, i, j) == Apply(op, Cell(a.data, a.m, a.n, i, j), b.data[Offset(i, j, b.n)])
  {
    var output := new Matrix(seq(a.n * a.m, _ => 0), a.m, a.n);
    var i := 0;
    while i < a.m
      invariant 0 <= i <= a.m
      invariant fresh(output) && output.m == a.m && output.n == a.n && output.Valid()
      invariant forall i', j' :: 0 <= i' < i && 0 <= j' < a.n ==>
        Offset(i', j', b.n) < |b.data| &&
        Cell(output.data, a.m, a.n, i', j') == Apply(op, Cell(a.data, a.m, a.n, i', j'), b.data[Offset(i', j', b.n)])
    {
      var j := 0;
      while j < a.n
        invariant 0 <= j <= a.n
        invariant fresh(output) && output.m == a.m && output.n == a.n && output.Valid()
        invariant forall i', j' :: 0 <= i' < a.m && 0 <= j' < a.n && (i' < i || (i' == i && j' < j)) ==>
          Offset(i', j', b.n) < |b.data| &&
          Cell(output.data, a.m, a.n, i', j') == Apply(op, Cell(a.data, a.m, a.n, i', j'), b.data[Offset(i', j', b.n)])
      {
        var selfIndex := a.GetIndex(i, j);
        var otherIndex := b.GetIndex(i, j);
        var outputIndex := output.GetIndex(i, j);
        if otherIndex >= |b.data| {
          return Err(IndexOutOfRange);
        }
        var v := Apply(op, a.data[selfIndex], b.data[otherIndex]);
        CellUpdate(output.data, a.m, a.n, i, j, v);
        output.data := output.data[outputIndex := v];
        j := j + 1;
      }
      i := i + 1;
    }
    return Ok(output);
  }

  /** `Add::add`: element-wise sum. For operands of one shape it never
      panics and adds element by element. */
  method Add(a: Matrix, b: Matrix) returns (r: Result<Matrix>)
    requires a.Valid()
    ensures r.Err? <==> !OtherReadsInRange(a.m, a.n, b.n, |b.data|)
    ensures r.Err? ==> r.error == IndexOutOfRange
    ensures r.Ok? ==> fresh(r.value) && r.value.m == a.m && r.value.n == a.n && r.value.Valid()
    ensures r.Ok? ==> forall i, j :: 0 <= i < a.m && 0 <= j < a.n ==>
      Offset(i, j, b.n) < |b.data| &&
      Cell(r.value.data, a.m, a.n, i, j) == Cell(a.data, a.m, a.n, i, j) + b.data[Offset(i, j, b.n)]
    ensures b.Valid() && b.m == a.m && b.n == a.n ==>
      r.Ok? && forall t :: 0 <= t < |a.data| ==> r.value.data[t] == a.data[t] + b.data[t]
  {
    r := ElementWise(a, b, Plus);
    if b.Valid() && b.m == a.m && b.n == a.n {
      SameShapeReadsInRange(a.m, a.n);
      CellsToFlat(r.value.data, a.data, b.data, a.m, a.n, Plus);
    }
  }

  /** `Sub::sub`: element-wise difference, with the same panic condition. */
  method Sub(a: Matrix, b: Matrix) returns (r: Result<Matrix>)
    requires a.Valid()
    ensures r.Err? <==> !OtherReadsInRange(a.m, a.n, b.n, |b.data|)
    ensures r.Err? ==> r.error == IndexOutOfRange
    ensures r.Ok? ==> fresh(r.value) && r.value.m == a.m && r.value.n == a.n && r.value.Valid()
    ensures r.Ok? ==> forall i, j :: 0 <= i < a.m && 0 <= j < a.n ==>
      Offset(i, j, b.n) < |b.data| &&
      Cell(r.value.data, a.m, a.n, i, j) == Cell(a.data, a.m, a.n, i, j) - b.data[Offset(i, j, b.n)]
    ensures b.Valid() && b.m == a.m && b.n == a.n ==>
      r.Ok? && forall t :: 0 <= t < |a.data| ==> r.value.data[t] == a.data[t] - b.data[t]
  {
    r := ElementWise(a, b, Minus);
    if b.Valid() && b.m == a.m && b.n == a.n {
      SameShapeReadsInRange(a.m, a.n);
      CellsToFlat(r.value.data, a.data, b.data, a.m, a.n, Minus);
    }
  }

  /** Operands of the same valid shape never read out of range. */
  lemma SameShapeReadsInRange(m: nat, n: nat)
    ensures OtherReadsInRange(m, n, n, m * n)
  {
    forall i, j | 0 <= i < m && 0 <= j < n ensures Offset(i, j, n) < m * n {
      OffsetBelowSize(i, j, m, n);
    }
  }

  /** The panic condition of add and sub in closed form: the reads stay in
      range exactly when the read for the last cell does. */
  lemma ReadsInRangeExactly(m: nat, n: nat, otherCols: nat, otherLen: nat)
    ensures OtherReadsInRange(m, n, otherCols, otherLen)
      <==> m == 0 || n == 0 || Offset(m - 1, n - 1, otherCols) < otherLen
  {
    if m > 0 && n > 0 && Offset(m - 1, n - 1, otherCols) < otherLen {
      forall i, j | 0 <= i < m && 0 <= j < n ensures Offset(i, j, otherCols) < otherLen {
        MulMonotone(i, m - 1, otherCols);
      }
    }
  }

  /** A right operand with fewer rows (and as many columns) makes add and
      sub panic. */
  lemma SmallerOtherPanics(m: nat, n: nat, otherM: nat)
    requires otherM < m && n > 0
    ensures !OtherReadsInRange(m, n, n, otherM * n)
  {
    assert Offset(otherM, 0, n) == otherM * n;
  }

  lemma CellsToFlat(out: seq<int>, a: seq<int>, b: seq<int>, m: nat, n: nat, op: Op)
    requires |out| == m * n && |a| == m * n && |b| == m * n
    requires forall i, j :: 0 <= i < m && 0 <= j < n ==>
      Offset(i, j, n) < |b| && Cell(out, m, n, i, j) == Apply(op, Cell(a, m, n, i, j), b[Offset(i, j, n)])
    ensures forall t :: 0 <= t < m * n ==> out[t] == Apply(op, a[t], b[t])
  {
    forall t | 0 <= t < m * n ensures out[t] == Apply(op, a[t], b[t]) {
      Decompose(t, m, n);
      var i, j := t / n, t % n;
      assert Cell(out, m, n, i, j) == out[t] && Cell(a, m, n, i, j) == a[t];
    }
  }

  /** t holds the n x m transpose of the m x n buffer d: t[j, i] == d[i, j]. */
  predicate IsTransposeOf(t: seq<int>, d: seq<int>, m: nat, n: nat)
  {
    |d| == m * n && |t| == n * m &&
    forall i, j :: 0 <= i < m && 0 <= j < n ==> Cell(t, n, m, j, i) == Cell(d, m, n, i, j)
  }

  /** `transpose`: a fresh x.n x x.m matrix with y[j, i] == x[i, j]. */
  method Transpose(x: Matrix) returns (y: Matrix)
    requires x.Valid()
    ensures fresh(y) && y.m == x.n && y.n == x.m && y.Valid()
    ensures IsTransposeOf(y.data, x.data, x.m, x.n)
  {
    y := new Matrix(seq(x.m * x.n, _ => 0), x.n, x.m);
    var i := 0;
    while i < x.m
      invariant 0 <= i <= x.m
      invariant y.m == x.n && y.n == x.m && y.Valid()
      invariant forall i', j' :: 0 <= i' < i && 0 <= j' < x.n ==>
        Cell(y.data, x.n, x.m, j', i') == Cell(x.data, x.m, x.n, i', j')
    {
      var j := 0;
      while j < x.n
        invariant 0 <= j <= x.n
        invariant y.m == x.n && y.n == x.m && y.Valid()
        invariant forall i', j' :: 0 <= i' < x.m && 0 <= j' < x.n && (i' < i || (i' == i && j' < j)) ==>
          Cell(y.data, x.n, x.m, j', i') == Cell(x.data, x.m, x.n, i', j')
      {
        var xIndex := x.GetIndex(i, j);
        var yIndex := y.GetIndex(j, i);
        CellUpdate(y.data, x.n, x.m, j, i, x.data[xIndex]);
        y.data := y.data[yIndex := x.data[xIndex]];
        j := j + 1;
      }
      i := i + 1;
    }
  }

  /** Transposing twice gives back the original buffer. */
  lemma TransposeInvolutive(d: seq<int>, t: seq<int>, u: seq<int>, m: nat, n: nat)
    requires IsTransposeOf(t, d, m, n) && IsTransposeOf(u, t, n, m)
    ensures u == d
  {
    forall p | 0 <= p < |d| ensures u[p] == d[p] {
      Decompose(p, m, n);
      var i, j := p / n, p % n;
      assert Cell(u, m, n, i, j) == Cell(t, n, m, j, i) == Cell(d, m, n, i, j);
    }
  }

  /** A matrix and its transpose have the same trace. */
  lemma TraceOfTranspose(d: seq<int>, t: seq<int>, m: nat, n: nat)
    requires IsTransposeOf(t, d, m, n)
    ensures Sum(Diagonal(t, n, m)) == Sum(Diagonal(d, m, n))
  {
    assert Diagonal(t, n, m) == Diagonal(d, m, n);
  }

  /** trace([[1, 3, 6], [1, 2, 5], [2, 9, 4]]) == 1 + 2 + 4. */
  lemma TraceExample()
    ensures Sum(Diagonal([1, 3, 6, 1, 2, 5, 2, 9, 4], 3, 3)) == 7
  {
    var d := Diagonal([1, 3, 6, 1, 2, 5, 2, 9, 4], 3, 3);
    assert d == [1, 2, 4];
    assert d[..2] == [1, 2] && [1, 2][..1] == [1] && [1][..0] == [];
    assert Sum([1]) == 1 && Sum([1, 2]) == 3;
  }

  /** `dot`: the sum of element-wise products of two matrices of the same
      shape; a shape mismatch panics. Like the source's `zip`, the sum stops
      at the end of the shorter buffer. */
  function Dot(x: Matrix, y: Matrix): (r: Result<int>)
    reads x, y
    ensures r.Err? <==> x.m != y.m || x.n != y.n
    ensures r.Err? ==> r.error == ShapeMismatch
    ensures r.Ok? ==> r.value == Sum(Products(x.data, y.data))
  {
    if [x.m, x.n] != [y.m, y.n] then Err(ShapeMismatch)
    else Ok(Sum(Products(x.data, y.data)))
  }

  /** dot(x, y) == dot(y, x), panics included. */
  lemma DotSymmetric(x: Matrix, y: Matrix)
    ensures Dot(x, y) == Dot(y, x)
  {
    ProductsSymmetric(x.data, y.data);
  }

  /** dot(x, x) is a sum of squares: never negative, and zero only for the
      zero matrix. */
  lemma DotSelf(x: Matrix)
    ensures Dot(x, x).Ok?
    ensures Dot(x, x).value >= 0
    ensures Dot(x, x).value == 0 <==> forall t :: 0 <= t < |x.data| ==> x.data[t] == 0
  {
    SumOfSquares(x.data);
  }

  /** Scaling one operand by k (what scalar_product does) scales dot by k. */
  lemma {:induction false} DotScaled(a: seq<int>, b: seq<int>, k: int)
    ensures Sum(Products(Scaled(a, k), b)) == k * Sum(Products(a, b))
  {
    var n := |Products(a, b)|;
    if n > 0 {
      ProductsPrefix(Scaled(a, k), b, n - 1);
      ProductsPrefix(a, b, n - 1);
      assert Scaled(a, k)[..n - 1] == Scaled(a[..n - 1], k);
      DotScaled(a[..n - 1], b[..n - 1], k);
      assert Scaled(a, k)[n - 1] * b[n - 1] == k * (a[n - 1] * b[n - 1]);
    }
  }

  /** `matmul2d`: panics exactly when the inner dimensions differ; otherwise
      a fresh x.m x y.n matrix whose cell (i, j) is row i of x times column
      j of y, accumulated by the source's triple loop into a zeroed buffer. */
  method MatMul2d(x: Matrix, y: Matrix) returns (r: Result<Matrix>)
    requires x.Valid() && y.Valid()
    ensures r.Err? <==> x.n != y.m
    ensures r.Err? ==> r.error == ShapeMismatch
    ensures r.Ok? ==> fresh(r.value) && r.value.m == x.m && r.value.n == y.n && r.value.Valid()
    ensures r.Ok? ==> forall i, j :: 0 <= i < x.m && 0 <= j < y.n ==>
      Cell(r.value.data, x.m, y.n, i, j) == ProductCell(x.data, y.data, x.m, x.n, y.n, i, j)
  {
    if x.n != y.m {
      return Err(ShapeMismatch);
    }
    var size := x.m * y.n;
    var z := new Matrix(seq(size, _ => 0), x.m, y.n);
    ProgressStart(z.data, x.data, y.data, x.m, x.n, y.n);
    var i := 0;
    while i < x.m
      invariant 0 <= i <= x.m
      invariant fresh(z) && z.m == x.m && z.n == y.n && z.Valid()
      invariant Progress(z.data, x.data, y.data, x.m, x.n, y.n, i, 0, 0)
    {
      var j := 0;
      while j < y.n
        invariant 0 <= j <= y.n
        invariant fresh(z) && z.m == x.m && z.n == y.n && z.Valid()
        invariant Progress(z.data, x.data, y.data, x.m, x.n, y.n, i, j, 0)
      {
        var k := 0;
        while k < x.n
          invariant 0 <= k <= x.n
          invariant fresh(z) && z.m == x.m && z.n == y.n && z.Valid()
          invariant Progress(z.data, x.data, y.data, x.m, x.n, y.n, i, j, k)
        {
          var zIndex := z.GetIndex(i, j);
          var xIndex := x.GetIndex(i, k);
          var yIndex := y.GetIndex(k, j);
          ProgressStep(z.data, x.data, y.data, x.m, x.n, y.n, i, j, k);
          z.data := z.data[zIndex := z.data[zIndex] + x.data[xIndex] * y.data[yIndex]];
          k := k + 1;
        }
        ProgressNextColumn(z.data, x.data, y.data, x.m, x.n, y.n, i, j);
        j := j + 1;
      }
      ProgressNextRow(z.data, x.data, y.data, x.m, x.n, y.n, i);
      i := i + 1;
    }
    ProgressDone(z.data, x.data, y.data, x.m, x.n, y.n);
    return Ok(z);
  }
}
