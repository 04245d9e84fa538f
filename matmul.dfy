/** The specification of the 2-D matrix product that both matrix.rs and
    tensor.rs compute with a triple loop: entry (i, j) of the p x r product
    of a p x q and a q x r row-major buffer is row i times column j. */
module MatMul {
  import opened RowMajor
  import opened Sums

  /** Entry (i, j) of the product: the sum over k < q of x[i, k] * y[k, j]. */
  function ProductCell(x: seq<int>, y: seq<int>, p: nat, q: nat, r: nat, i: nat, j: nat): int
    requires |x| == p * q && |y| == q * r && i < p && j < r
  {
    Sum(Products(Row(x, p, q, i), Column(y, q, r, j)))
  }

  /** The same entry after only its first k terms have been accumulated. */
  function PartialCell(x: seq<int>, y: seq<int>, p: nat, q: nat, r: nat, i: nat, j: nat, k: nat): int
    requires |x| == p * q && |y| == q * r && i < p && j < r && k <= q
  {
    Sum(Products(Row(x, p, q, i), Column(y, q, r, j))[..k])
  }

  /** The state of the output buffer z of the triple loop when it is about
      to add term k of cell (i, j): cells before (i, j) in row-major order
      are complete, cell (i, j) holds its first k terms, every later cell and
      every slot past the p x r grid still holds its initial 0. */
  ghost predicate Progress(z: seq<int>, x: seq<int>, y: seq<int>, p: nat, q: nat, r: nat, i: nat, j: nat, k: nat)
    requires |x| == p * q && |y| == q * r && p * r <= |z| && k <= q
  {
    (forall i', j' :: 0 <= i' < p && 0 <= j' < r ==>
      Cell(z, p, r, i', j') ==
        if i' < i || (i' == i && j' < j) then ProductCell(x, y, p, q, r, i', j')
        else if i' == i && j' == j then PartialCell(x, y, p, q, r, i', j', k)
        else 0)
    && (forall t :: p * r <= t < |z| ==> z[t] == 0)
  }

  /** A zero-filled buffer is the state before the first iteration. */
  lemma ProgressStart(z: seq<int>, x: seq<int>, y: seq<int>, p: nat, q: nat, r: nat)
    requires |x| == p * q && |y| == q * r && p * r <= |z|
    requires forall t :: 0 <= t < |z| ==> z[t] == 0
    ensures Progress(z, x, y, p, q, r, 0, 0, 0)
  {
    forall i', j' | 0 <= i' < p && 0 <= j' < r
      ensures Cell(z, p, r, i', j') == if i' == 0 && j' == 0 then PartialCell(x, y, p, q, r, i', j', 0) else 0
    {
      OffsetBelowSize(i', j', p, r);
      assert Cell(z, p, r, i', j') == 0;
      if i' == 0 && j' == 0 {
        assert PartialCell(x, y, p, q, r, i', j', 0) == Sum([]);
      }
    }
  }

  /** The loop body `z[i, j] += x[i, k] * y[k, j]` adds term k to cell (i, j). */
  lemma ProgressStep(z: seq<int>, x: seq<int>, y: seq<int>, p: nat, q: nat, r: nat, i: nat, j: nat, k: nat)
    requires |x| == p * q && |y| == q * r && p * r <= |z|
    requires i < p && j < r && k < q
    requires Progress(z, x, y, p, q, r, i, j, k)
    ensures Offset(i, j, r) < |z|
    ensures Progress(z[Offset(i, j, r) := Cell(z, p, r, i, j) + Cell(x, p, q, i, k) * Cell(y, q, r, k, j)],
                     x, y, p, q, r, i, j, k + 1)
  {
    var v := Cell(z, p, r, i, j) + Cell(x, p, q, i, k) * Cell(y, q, r, k, j);
    OffsetBelowSize(i, j, p, r);
    var z' := z[Offset(i, j, r) := v];
    var terms := Products(Row(x, p, q, i), Column(y, q, r, j));
    SumPrefixStep(terms, k);
    assert v == PartialCell(x, y, p, q, r, i, j, k + 1);
    forall i', j' | 0 <= i' < p && 0 <= j' < r
      ensures Cell(z', p, r, i', j') ==
        if i' < i || (i' == i && j' < j) then ProductCell(x, y, p, q, r, i', j')
        else if i' == i && j' == j then PartialCell(x, y, p, q, r, i', j', k + 1)
        else 0
    {
      CellUpdateAt(z, p, r, i, j, v, i', j');
    }
    forall t | p * r <= t < |z'| ensures z'[t] == 0 {
      assert t != Offset(i, j, r);
    }
  }

  /** Once all q terms are in, the loop moves to the next cell of the row. */
  lemma ProgressNextColumn(z: seq<int>, x: seq<int>, y: seq<int>, p: nat, q: nat, r: nat, i: nat, j: nat)
    requires |x| == p * q && |y| == q * r && p * r <= |z|
    requires i < p && j < r
    requires Progress(z, x, y, p, q, r, i, j, q)
    ensures Progress(z, x, y, p, q, r, i, j + 1, 0)
  {
    var terms := Products(Row(x, p, q, i), Column(y, q, r, j));
    assert terms[..q] == terms;
  }

  /** After the last column of a row the loop moves to the next row. */
  lemma ProgressNextRow(z: seq<int>, x: seq<int>, y: seq<int>, p: nat, q: nat, r: nat, i: nat)
    requires |x| == p * q && |y| == q * r && p * r <= |z|
    requires i < p
    requires Progress(z, x, y, p, q, r, i, r, 0)
    ensures Progress(z, x, y, p, q, r, i + 1, 0, 0)
  {
  }

  /** After the last row every cell holds its full product. */
  lemma ProgressDone(z: seq<int>, x: seq<int>, y: seq<int>, p: nat, q: nat, r: nat)
    requires |x| == p * q && |y| == q * r && p * r <= |z|
    requires Progress(z, x, y, p, q, r, p, 0, 0)
    ensures forall i, j :: 0 <= i < p && 0 <= j < r ==> Cell(z, p, r, i, j) == ProductCell(x, y, p, q, r, i, j)
  {
  }

  /** With an empty inner dimension every entry of the product is 0. */
  lemma ProductCellEmptyInner(x: seq<int>, y: seq<int>, p: nat, r: nat, i: nat, j: nat)
    requires |x| == p * 0 && |y| == 0 * r && i < p && j < r
    ensures ProductCell(x, y, p, 0, r, i, j) == 0
  {
    assert Products(Row(x, p, 0, i), Column(y, 0, r, j)) == [];
  }

  /** The n x n identity matrix in row-major layout. */
  function Identity(n: nat): (id: seq<int>)
    ensures |id| == n * n
  {
    seq(n * n, t requires 0 <= t < n * n => if t / n == t % n then 1 else 0)
  }

  lemma IdentityCell(n: nat, i: nat, j: nat)
    requires i < n && j < n
    ensures Cell(Identity(n), n, n, i, j) == if i == j then 1 else 0
  {
    OffsetBelowSize(i, j, n, n);
    var t := Offset(i, j, n);
    OffsetDivMod(i, j, n);
    assert Identity(n)[t] == if t / n == t % n then 1 else 0;
  }

  /** Multiplying by the identity on the right gives back the matrix. */
  lemma ProductWithIdentity(a: seq<int>, m: nat, n: nat, i: nat, j: nat)
    requires |a| == m * n && i < m && j < n
    ensures ProductCell(a, Identity(n), m, n, n, i, j) == Cell(a, m, n, i, j)
  {
    PartialWithIdentity(a, m, n, i, j, n);
    var terms := Products(Row(a, m, n, i), Column(Identity(n), n, n, j));
    assert terms[..n] == terms;
  }

  lemma {:induction false} PartialWithIdentity(a: seq<int>, m: nat, n: nat, i: nat, j: nat, k: nat)
    requires |a| == m * n && i < m && j < n && k <= n
    ensures PartialCell(a, Identity(n), m, n, n, i, j, k) == if j < k then Cell(a, m, n, i, j) else 0
  {
    if k > 0 {
      PartialWithIdentity(a, m, n, i, j, k - 1);
      var terms := Products(Row(a, m, n, i), Column(Identity(n), n, n, j));
      SumPrefixStep(terms, k - 1);
      IdentityCell(n, k - 1, j);
    }
  }
}
