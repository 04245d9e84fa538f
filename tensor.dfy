/** The n-dimensional tensor of th_rust/src/ml/tensor.rs: a flat buffer and
    a shape, laid out in row-major (mixed-radix) order. */
module Tensors {
  import opened Outcomes
  import opened RowMajor
  import opened Sums
  import opened MatMul

  /** The number of cells of a shape: the product of its dimensions. */
  function Volume(shape: seq<nat>): (v: nat)
    ensures |shape| == 1 ==> v == shape[0]
    ensures |shape| == 2 ==> v == shape[0] * shape[1]
  {
    if |shape| == 0 then 1 else shape[0] * Volume(shape[1..])
  }

  /** The row-major offset of a coordinate vector: the sum over d of
      crds[d] times the product of the dimensions after d. */
  function Flat(crds: seq<nat>, shape: seq<nat>): nat
    requires |crds| == |shape|
  {
    if |crds| == 0 then 0 else crds[0] * Volume(shape[1..]) + Flat(crds[1..], shape[1..])
  }

  /** Every coordinate is below its dimension. */
  predicate InBounds(crds: seq<nat>, shape: seq<nat>)
    requires |crds| == |shape|
  {
    forall d :: 0 <= d < |crds| ==> crds[d] < shape[d]
  }

  datatype Tensor = Tensor(data: seq<int>, shape: seq<nat>)
  {
    /** The layout invariant: one buffer cell per coordinate vector. The
        source has public fields, so operations require it. */
    predicate Valid()
    {
      |data| == Volume(shape)
    }

    /** `get_index`: walks the dimensions from the last to the first,
        keeping the product of the dimensions already passed in dimSize. It
        panics on a coordinate vector of the wrong length, on the empty
        coordinate vector (`crds.len() - 1` underflows), and on a coordinate
        past its dimension. */
    method GetIndex(crds: seq<nat>) returns (r: Result<nat>)
      ensures |crds| != |shape| ==> r == Err(MissingDimension)
      ensures |crds| == |shape| == 0 ==> r == Err(Underflow)
      ensures |crds| == |shape| > 0 && !InBounds(crds, shape) ==> r == Err(InvalidCoordinate)
      ensures |crds| == |shape| > 0 && InBounds(crds, shape) ==> r == Ok(Flat(crds, shape))
      ensures r.Ok? ==> r.value < Volume(shape)
    {
      if |crds| != |shape| {
        return Err(MissingDimension);
      }
      if |crds| == 0 {
        return Err(Underflow);
      }
      var i: int := |crds| - 1;
      var dimSize: nat := 1;
      var index: nat := 0;
      while i >= 0
        invariant -1 <= i < |crds|
        invariant forall d :: i < d < |crds| ==> crds[d] < shape[d]
        invariant dimSize == Volume(shape[i + 1..])
        invariant index == Flat(crds[i + 1..], shape[i + 1..])
      {
        if crds[i] >= shape[i] {
          return Err(InvalidCoordinate);
        }
        FlatStep(crds, shape, i);
        index := index + crds[i] * dimSize;
        dimSize := dimSize * shape[i];
        i := i - 1;
      }
      assert crds[0..] == crds && shape[0..] == shape;
      FlatBelowVolume(crds, shape);
      return Ok(index);
    }
  }

  /** One step of the get_index loop: dimension d contributes crds[d] times
      the volume of the dimensions after it. */
  lemma FlatStep(crds: seq<nat>, shape: seq<nat>, d: nat)
    requires |crds| == |shape| && d < |crds|
    ensures Flat(crds[d..], shape[d..]) == Flat(crds[d + 1..], shape[d + 1..]) + crds[d] * Volume(shape[d + 1..])
    ensures Volume(shape[d..]) == Volume(shape[d + 1..]) * shape[d]
  {
    assert crds[d..][1..] == crds[d + 1..] && shape[d..][1..] == shape[d + 1..];
  }

  /** In-bounds coordinates land inside the buffer. */
  lemma {:induction false} FlatBelowVolume(crds: seq<nat>, shape: seq<nat>)
    requires |crds| == |shape| && InBounds(crds, shape)
    ensures Flat(crds, shape) < Volume(shape)
  {
    if |crds| > 0 {
      FlatBelowVolume(crds[1..], shape[1..]);
      var v := Volume(shape[1..]);
      MulMonotone(crds[0] + 1, shape[0], v);
      assert (crds[0] + 1) * v == crds[0] * v + v;
    }
  }

  /** Distinct in-bounds coordinate vectors have distinct offsets. */
  lemma {:induction false} FlatInjective(c1: seq<nat>, c2: seq<nat>, shape: seq<nat>)
    requires |c1| == |shape| && |c2| == |shape|
    requires InBounds(c1, shape) && InBounds(c2, shape)
    requires Flat(c1, shape) == Flat(c2, shape)
    ensures c1 == c2
  {
    if |shape| > 0 {
      var v := Volume(shape[1..]);
      FlatBelowVolume(c1[1..], shape[1..]);
      FlatBelowVolume(c2[1..], shape[1..]);
      DivModUnique(Flat(c1, shape), v, c1[0], Flat(c1[1..], shape[1..]));
      DivModUnique(Flat(c2, shape), v, c2[0], Flat(c2[1..], shape[1..]));
      FlatInjective(c1[1..], c2[1..], shape[1..]);
      assert c1 == [c1[0]] + c1[1..] && c2 == [c2[0]] + c2[1..];
    }
  }

  /** For a 2-D shape [m, n] the tensor offset of [i, j] is i*n + j, the
      offset Matrix::get_index computes. */
  lemma Flat2D(i: nat, j: nat, m: nat, n: nat)
    ensures Flat([i, j], [m, n]) == Offset(i, j, n)
    ensures Volume([m, n]) == m * n
  {
    assert [i, j][1..] == [j] && [m, n][1..] == [n];
    assert [j][1..] == [] && [n][1..] == [];
    assert Volume([n]) == n;
    assert Flat([j], [n]) == j;
  }

  /** `dot`: the sum of element-wise products of two tensors of the same
      shape; differing shapes panic. */
  function Dot(x: Tensor, y: Tensor): (r: Result<int>)
    ensures r.Err? <==> x.shape != y.shape
    ensures r.Err? ==> r.error == ShapeMismatch
    ensures r.Ok? ==> r.value == Sum(Products(x.data, y.data))
  {
    if x.shape != y.shape then Err(ShapeMismatch)
    else Ok(Sum(Products(x.data, y.data)))
  }

  /** dot(x, y) == dot(y, x), panics included. */
  lemma DotSymmetric(x: Tensor, y: Tensor)
    ensures Dot(x, y) == Dot(y, x)
  {
    ProductsSymmetric(x.data, y.data);
  }

  /** The panics of tensor `matmul2d` before its loop: reading x.shape[1]
      and y.shape[0], comparing them, then reading y.shape[1] for the
      result shape. */
  function ShapeFault(xs: seq<nat>, ys: seq<nat>): (f: Option<Error>)
    ensures f.None? ==> |xs| >= 2 && |ys| >= 2 && xs[1] == ys[0]
  {
    if |xs| < 2 || |ys| < 1 then Some(IndexOutOfRange)
    else if xs[1] != ys[0] then Some(ShapeMismatch)
    else if |ys| < 2 then Some(IndexOutOfRange)
    else None
  }

  /** The panic, if any, of the triple loop of tensor `matmul2d` writing a
      zeroed buffer of `size` cells. If some loop is empty nothing runs.
      Otherwise the first iteration calls x.get_index and y.get_index with
      two coordinates, which panics unless both tensors have rank 2; and the
      cells are written at offsets 0, 1, 2, ... in order, so a write falls
      off the buffer exactly when the buffer is smaller than the grid. */
  function LoopFault(xs: seq<nat>, ys: seq<nat>, size: nat): Option<Error>
    requires |xs| >= 2 && |ys| >= 2
  {
    if xs[0] == 0 || xs[1] == 0 || ys[1] == 0 then None
    else if |xs| != 2 || |ys| != 2 then Some(MissingDimension)
    else if size < xs[0] * ys[1] then Some(IndexOutOfRange)
    else None
  }

  /** Both operands of `matmul2d` are matrices, the only rank get_index
      accepts for a pair of coordinates. */
  predicate Rank2(x: Tensor, y: Tensor)
  {
    |x.shape| == 2 && |y.shape| == 2
  }

  /** The innermost loop of tensor `matmul2d` for one output cell (i, j):
      for each k it resolves the three offsets through get_index and adds
      x[i, k] * y[k, j] into the cell. It panics on the first iteration
      unless both operands have rank 2, and on the write when the cell's
      offset is past the end of the buffer. */
  method AccumulateCell(x: Tensor, y: Tensor, out: Tensor, i: nat, j: nat) returns (res: Result<Tensor>)
    requires x.Valid() && y.Valid()
    requires |x.shape| >= 2 && |y.shape| >= 2 && x.shape[1] == y.shape[0]
    requires out.shape == [x.shape[0], y.shape[1]] && i < x.shape[0] && j < y.shape[1]
    ensures res.Err? <==> x.shape[1] > 0 && (!Rank2(x, y) || Offset(i, j, y.shape[1]) >= |out.data|)
    ensures res.Err? ==> res.error == if Rank2(x, y) then IndexOutOfRange else MissingDimension
    ensures res.Ok? ==> res.value.shape == out.shape && |res.value.data| == |out.data|
    ensures res.Ok? && x.shape[1] == 0 ==> res.value.data == out.data
    ensures (res.Ok? && Rank2(x, y) && x.shape[0] * y.shape[1] <= |out.data| &&
             Progress(out.data, x.data, y.data, x.shape[0], x.shape[1], y.shape[1], i, j, 0)) ==>
      Progress(res.value.data, x.data, y.data, x.shape[0], x.shape[1], y.shape[1], i, j, x.shape[1])
  {
    var p, q, r := x.shape[0], x.shape[1], y.shape[1];
    ghost var tracking := Rank2(x, y) && p * r <= |out.data| && Progress(out.data, x.data, y.data, p, q, r, i, j, 0);
    Flat2D(i, j, p, r);
    assert InBounds([i, j], [p, r]);
    var cur := out;
    var k := 0;
    while k < q
      invariant 0 <= k <= q
      invariant cur.shape == out.shape && |cur.data| == |out.data|
      invariant k == 0 ==> cur.data == out.data
      invariant k > 0 ==> Rank2(x, y) && Offset(i, j, r) < |out.data|
      invariant tracking ==> Progress(cur.data, x.data, y.data, p, q, r, i, j, k)
    {
      var zr := cur.GetIndex([i, j]);
      var xr := x.GetIndex([i, k]);
      if xr.Err? {
        return Err(xr.error);
      }
      var yr := y.GetIndex([k, j]);
      if yr.Err? {
        return Err(yr.error);
      }
      var zIndex, xIndex, yIndex := zr.value, xr.value, yr.value;
      if zIndex >= |cur.data| {
        return Err(IndexOutOfRange);
      }
      Flat2D(i, k, p, q);
      Flat2D(k, j, q, r);
      assert InBounds([i, k], [p, q]) && InBounds([k, j], [q, r]);
      if tracking {
        ProgressStep(cur.data, x.data, y.data, p, q, r, i, j, k);
      }
      cur := cur.(data := cur.data[zIndex := cur.data[zIndex] + x.data[xIndex] * y.data[yIndex]]);
      k := k + 1;
    }
    return Ok(cur);
  }

  /** The triple loop of tensor `matmul2d`, on a zeroed output tensor z of
      shape [x.shape[0], y.shape[1]]: cell by cell in row-major order, each
      cell (i, j) accumulates x[i, k] * y[k, j] for k < x.shape[1]. */
  method Accumulate(x: Tensor, y: Tensor, z: Tensor) returns (res: Result<Tensor>)
    requires x.Valid() && y.Valid()
    requires |x.shape| >= 2 && |y.shape| >= 2 && x.shape[1] == y.shape[0]
    requires z.shape == [x.shape[0], y.shape[1]]
    requires forall t :: 0 <= t < |z.data| ==> z.data[t] == 0
    ensures res.Err? <==> LoopFault(x.shape, y.shape, |z.data|).Some?
    ensures res.Err? ==> res.error == LoopFault(x.shape, y.shape, |z.data|).value
    ensures res.Ok? ==> res.value.shape == z.shape && |res.value.data| == |z.data|
    ensures res.Ok? && (x.shape[0] == 0 || x.shape[1] == 0 || y.shape[1] == 0) ==> res.value.data == z.data
    ensures res.Ok? && Rank2(x, y) && x.shape[1] > 0 ==> x.shape[0] * y.shape[1] <= |z.data|
    ensures res.Ok? && Rank2(x, y) && x.shape[0] * y.shape[1] <= |z.data| ==>
      (forall i, j :: 0 <= i < x.shape[0] && 0 <= j < y.shape[1] ==>
        Cell(res.value.data, x.shape[0], y.shape[1], i, j)
          == ProductCell(x.data, y.data, x.shape[0], x.shape[1], y.shape[1], i, j))
      && (forall t :: x.shape[0] * y.shape[1] <= t < |z.data| ==> res.value.data[t] == 0)
  {
    var p, q, r := x.shape[0], x.shape[1], y.shape[1];
    ghost var tracking := Rank2(x, y) && p * r <= |z.data|;
    if tracking {
      ProgressStart(z.data, x.data, y.data, p, q, r);
    }
    var out := z;
    var i := 0;
    while i < p
      invariant 0 <= i <= p
      invariant out.shape == z.shape && |out.data| == |z.data|
      invariant i == 0 || q == 0 || r == 0 ==> out.data == z.data
      invariant i > 0 && q > 0 && r > 0 ==> Rank2(x, y) && Offset(i, 0, r) <= |z.data|
      invariant tracking ==> Progress(out.data, x.data, y.data, p, q, r, i, 0, 0)
    {
      var j := 0;
      while j < r
        invariant 0 <= j <= r
        invariant out.shape == z.shape && |out.data| == |z.data|
        invariant (j == 0 && (i == 0 || r == 0)) || q == 0 ==> out.data == z.data
        invariant (i > 0 || j > 0) && q > 0 && r > 0 ==> Rank2(x, y) && Offset(i, j, r) <= |z.data|
        invariant tracking ==> Progress(out.data, x.data, y.data, p, q, r, i, j, 0)
      {
        var cell := AccumulateCell(x, y, out, i, j);
        if cell.Err? {
          OffsetBelowSize(i, j, p, r);
          return Err(cell.error);
        }
        out := cell.value;
        if tracking {
          ProgressNextColumn(out.data, x.data, y.data, p, q, r, i, j);
        }
        j := j + 1;
      }
      if tracking {
        ProgressNextRow(out.data, x.data, y.data, p, q, r, i);
      }
      OffsetNextRow(i, r);
      i := i + 1;
    }
    if tracking {
      ProgressDone(out.data, x.data, y.data, p, q, r);
      if q == 0 {
        forall i, j | 0 <= i < p && 0 <= j < r ensures ProductCell(x.data, y.data, p, q, r, i, j) == 0 {
          ProductCellEmptyInner(x.data, y.data, p, r, i, j);
        }
      }
    }
    return Ok(out);
  }

  /** Tensor `matmul2d` as written: after the shape checks it allocates a
      zeroed buffer of x.shape[0] + y.shape[1] cells (the SUM of the result
      shape) and runs the triple loop into it. */
  method MatMul2d(x: Tensor, y: Tensor) returns (res: Result<Tensor>)
    requires x.Valid() && y.Valid()
    ensures ShapeFault(x.shape, y.shape).Some? ==> res == Err(ShapeFault(x.shape, y.shape).value)
    ensures ShapeFault(x.shape, y.shape).None? ==>
      (res.Err? <==> LoopFault(x.shape, y.shape, x.shape[0] + y.shape[1]).Some?)
    ensures ShapeFault(x.shape, y.shape).None? && res.Err? ==>
      res.error == LoopFault(x.shape, y.shape, x.shape[0] + y.shape[1]).value
    ensures res.Ok? ==> res.value.shape == [x.shape[0], y.shape[1]] && |res.value.data| == x.shape[0] + y.shape[1]
    ensures res.Ok? && Rank2(x, y) && x.shape[1] > 0 ==> x.shape[0] * y.shape[1] <= x.shape[0] + y.shape[1]
    ensures res.Ok? && Rank2(x, y) && x.shape[0] * y.shape[1] <= x.shape[0] + y.shape[1] ==>
      forall i, j :: 0 <= i < x.shape[0] && 0 <= j < y.shape[1] ==>
        Cell(res.value.data, x.shape[0], y.shape[1], i, j)
          == ProductCell(x.data, y.data, x.shape[0], x.shape[1], y.shape[1], i, j)
    ensures res.Ok? && Rank2(x, y) && x.shape[0] * y.shape[1] <= x.shape[0] + y.shape[1] ==>
      forall t :: x.shape[0] * y.shape[1] <= t < |res.value.data| ==> res.value.data[t] == 0
    ensures res.Ok? && (x.shape[0] == 0 || x.shape[1] == 0 || y.shape[1] == 0) ==>
      forall t :: 0 <= t < |res.value.data| ==> res.value.data[t] == 0
  {
    if |x.shape| < 2 || |y.shape| < 1 {
      return Err(IndexOutOfRange);
    }
    if x.shape[1] != y.shape[0] {
      return Err(ShapeMismatch);
    }
    if |y.shape| < 2 {
      return Err(IndexOutOfRange);
    }
    var shape := [x.shape[0], y.shape[1]];
    var size := x.shape[0] + y.shape[1];
    var z := Tensor(seq(size, _ => 0), shape);
    res := Accumulate(x, y, z);
  }

  /** The evidently intended `matmul2d`: the buffer holds the PRODUCT of the
      result shape. Of rank-2 operands with matching inner dimension it
      always returns a valid tensor holding the matrix product; operands of
      another rank still panic in get_index unless a loop is empty. */
  method MatMul2dFixed(x: Tensor, y: Tensor) returns (res: Result<Tensor>)
    requires x.Valid() && y.Valid()
    ensures ShapeFault(x.shape, y.shape).Some? ==> res == Err(ShapeFault(x.shape, y.shape).value)
    ensures ShapeFault(x.shape, y.shape).None? && Rank2(x, y) ==> res.Ok?
    ensures ShapeFault(x.shape, y.shape).None? && !Rank2(x, y) ==>
      (res.Err? <==> x.shape[0] > 0 && x.shape[1] > 0 && y.shape[1] > 0)
    ensures res.Err? && ShapeFault(x.shape, y.shape).None? ==> res.error == MissingDimension
    ensures res.Ok? ==> res.value.shape == [x.shape[0], y.shape[1]] && res.value.Valid()
    ensures res.Ok? && Rank2(x, y) ==>
      forall i, j :: 0 <= i < x.shape[0] && 0 <= j < y.shape[1] ==>
        Cell(res.value.data, x.shape[0], y.shape[1], i, j)
          == ProductCell(x.data, y.data, x.shape[0], x.shape[1], y.shape[1], i, j)
    ensures res.Ok? && (x.shape[0] == 0 || x.shape[1] == 0 || y.shape[1] == 0) ==>
      forall t :: 0 <= t < |res.value.data| ==> res.value.data[t] == 0
  {
    if |x.shape| < 2 || |y.shape| < 1 {
      return Err(IndexOutOfRange);
    }
    if x.shape[1] != y.shape[0] {
      return Err(ShapeMismatch);
    }
    if |y.shape| < 2 {
      return Err(IndexOutOfRange);
    }
    var shape := [x.shape[0], y.shape[1]];
    var size := x.shape[0] * y.shape[1];
    var z := Tensor(seq(size, _ => 0), shape);
    res := Accumulate(x, y, z);
  }

  /** The sum-sized buffer holds a p x r grid (p, r >= 1) exactly when one
      side is 1 or the grid is 2 x 2; every other non-empty rank-2 product
      with a non-empty inner dimension panics on a write. */
  lemma {:induction false} SumBufferFits(p: nat, r: nat)
    requires p >= 1 && r >= 1
    ensures p * r <= p + r <==> p == 1 || r == 1 || (p == 2 && r == 2)
  {
    assert p * r - p - r + 1 == (p - 1) * (r - 1);
    if p >= 2 && r >= 2 && !(p == 2 && r == 2) {
      if p >= 3 {
        MulMonotone(2, p - 1, r - 1);
      } else {
        MulMonotone(2, r - 1, p - 1);
      }
    }
  }

  /** The smallest overrun: a 2 x q times q x 3 product (q >= 1) gets a
      buffer of 2 + 3 = 5 cells, and the write to cell (1, 2), at offset 5,
      is out of range. */
  lemma TwoByThreeOverruns(x: Tensor, y: Tensor)
    requires |y.shape| == 2 && x.shape == [2, y.shape[0]] && y.shape[1] == 3 && y.shape[0] > 0
    ensures ShapeFault(x.shape, y.shape).None?
    ensures LoopFault(x.shape, y.shape, x.shape[0] + y.shape[1]) == Some(IndexOutOfRange)
    ensures Offset(1, 2, 3) == x.shape[0] + y.shape[1]
  {
  }
}
