/** Row-major layout of a rows x cols grid in a flat buffer: cell (i, j)
    lives at offset i*cols + j. Shared by the matrix and tensor models. */
module RowMajor {

  /** The flat offset of cell (i, j) in a grid with `cols` columns. */
  function Offset(i: nat, j: nat, cols: nat): nat
  {
    i * cols + j
  }

  /** Inside the grid the offset stays below the buffer length. */
  lemma OffsetBelowSize(i: nat, j: nat, rows: nat, cols: nat)
    requires i < rows && j < cols
    ensures Offset(i, j, cols) < rows * cols
  {
    calc {
      Offset(i, j, cols);
      < i * cols + cols;
      == (i + 1) * cols;
      <= { MulMonotone(i + 1, rows, cols); }
      rows * cols;
    }
  }

  lemma {:induction false} MulMonotone(a: nat, b: nat, c: nat)
    requires a <= b
    ensures a * c <= b * c
  {
    if a < b {
      MulMonotone(a, b - 1, c);
      assert (b - 1) * c + c == b * c;
    }
  }

  /** The cell after the last column of row i is the first cell of row i + 1. */
  lemma OffsetNextRow(i: nat, cols: nat)
    ensures Offset(i, cols, cols) == Offset(i + 1, 0, cols)
  {
  }

  /** Division and remainder by the column count recover the row and the
      column: the offset map has an inverse. */
  lemma {:induction false} OffsetDivMod(i: nat, j: nat, cols: nat)
    requires j < cols
    ensures Offset(i, j, cols) / cols == i
    ensures Offset(i, j, cols) % cols == j
  {
    if i > 0 {
      OffsetDivMod(i - 1, j, cols);
      var k := Offset(i - 1, j, cols);
      assert Offset(i, j, cols) == k + cols;
      assert k == (k / cols) * cols + k % cols;
      assert k + cols == (k / cols + 1) * cols + k % cols;
      DivModUnique(k + cols, cols, k / cols + 1, k % cols);
    }
  }

  lemma DivModUnique(x: nat, d: nat, q: nat, r: nat)
    requires 0 <= r < d && x == q * d + r
    ensures x / d == q && x % d == r
  {
    var q', r' := x / d, x % d;
    assert x == q' * d + r';
    if q' < q {
      MulMonotone(q' + 1, q, d);
      assert false;
    } else if q < q' {
      MulMonotone(q + 1, q', d);
      assert false;
    }
  }

  /** Distinct cells of a grid have distinct offsets. */
  lemma OffsetInjective(i1: nat, j1: nat, i2: nat, j2: nat, cols: nat)
    requires j1 < cols && j2 < cols
    requires Offset(i1, j1, cols) == Offset(i2, j2, cols)
    ensures i1 == i2 && j1 == j2
  {
    OffsetDivMod(i1, j1, cols);
    OffsetDivMod(i2, j2, cols);
  }

  /** Every offset below rows*cols is the offset of exactly one cell. */
  lemma Decompose(p: nat, rows: nat, cols: nat)
    requires p < rows * cols
    ensures cols > 0 && p / cols < rows && p % cols < cols
    ensures Offset(p / cols, p % cols, cols) == p
  {
    if p / cols >= rows {
      MulMonotone(rows, p / cols, cols);
    }
  }

  /** Cell (i, j) of a rows x cols buffer. */
  function Cell(data: seq<int>, rows: nat, cols: nat, i: nat, j: nat): int
    requires rows * cols <= |data| && i < rows && j < cols
  {
    OffsetBelowSize(i, j, rows, cols);
    data[Offset(i, j, cols)]
  }

  /** Row i of a rows x cols buffer. */
  function Row(data: seq<int>, rows: nat, cols: nat, i: nat): (r: seq<int>)
    requires rows * cols <= |data| && i < rows
    ensures |r| == cols
  {
    seq(cols, k requires 0 <= k < cols => Cell(data, rows, cols, i, k))
  }

  /** Column j of a rows x cols buffer. */
  function Column(data: seq<int>, rows: nat, cols: nat, j: nat): (c: seq<int>)
    requires rows * cols <= |data| && j < cols
    ensures |c| == rows
  {
    seq(rows, k requires 0 <= k < rows => Cell(data, rows, cols, k, j))
  }

  /** Writing one cell leaves every other cell of the grid as it was. */
  lemma CellUpdate(data: seq<int>, rows: nat, cols: nat, i: nat, j: nat, v: int)
    requires rows * cols <= |data| && i < rows && j < cols
    ensures Offset(i, j, cols) < |data|
    ensures forall i', j' :: 0 <= i' < rows && 0 <= j' < cols ==>
      Cell(data[Offset(i, j, cols) := v], rows, cols, i', j')
        == if i' == i && j' == j then v else Cell(data, rows, cols, i', j')
  {
    OffsetBelowSize(i, j, rows, cols);
    var updated := data[Offset(i, j, cols) := v];
    forall i', j' | 0 <= i' < rows && 0 <= j' < cols
      ensures Cell(updated, rows, cols, i', j')
        == if i' == i && j' == j then v else Cell(data, rows, cols, i', j')
    {
      CellUpdateAt(data, rows, cols, i, j, v, i', j');
    }
  }

  lemma CellUpdateAt(data: seq<int>, rows: nat, cols: nat, i: nat, j: nat, v: int, i': nat, j': nat)
    requires rows * cols <= |data| && i < rows && j < cols && i' < rows && j' < cols
    ensures Offset(i, j, cols) < |data|
    ensures Cell(data[Offset(i, j, cols) := v], rows, cols, i', j')
      == if i' == i && j' == j then v else Cell(data, rows, cols, i', j')
  {
    OffsetBelowSize(i, j, rows, cols);
    OffsetBelowSize(i', j', rows, cols);
    if (i' != i || j' != j) && Offset(i, j, cols) == Offset(i', j', cols) {
      OffsetInjective(i', j', i, j, cols);
      assert false;
    }
  }
}
