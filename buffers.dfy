/**
 * What the array operations compute, stated on flat row-major buffers:
 * reductions, the matrix product, the rectangular window a slice copies
 * and the element-wise broadcast sum.
 */
module Buffers {
  import opened ShapeMath

  // ---------------------------------------------------------------------
  // Reductions
  // ---------------------------------------------------------------------

  /** Sum of the elements, accumulated from the first to the last. */
  function SumOf(s: seq<int>): int
  {
    if |s| == 0 then 0 else SumOf(s[..|s| - 1]) + s[|s| - 1]
  }

  /** Sum of the products of corresponding elements, accumulated in ascending index order. */
  function SumProducts(u: seq<int>, v: seq<int>): int
    requires |u| == |v|
  {
    if |u| == 0 then 0
    else SumProducts(u[..|u| - 1], v[..|v| - 1]) + u[|u| - 1] * v[|v| - 1]
  }

  /** Element-wise sum of two buffers of equal length. */
  function Pointwise(x: seq<int>, y: seq<int>): (z: seq<int>)
    requires |x| == |y|
  {
    seq(|x|, i requires 0 <= i < |x| => x[i] + y[i])
  }

  /** Element-wise products of two buffers of equal length. */
  function Products(u: seq<int>, v: seq<int>): (z: seq<int>)
    requires |u| == |v|
  {
    seq(|u|, i requires 0 <= i < |u| => u[i] * v[i])
  }

  /** The accumulated dot product is the sum of the element-wise products. */
  lemma {:induction false} SumProductsIsSumOfProducts(u: seq<int>, v: seq<int>)
    requires |u| == |v|
    ensures SumProducts(u, v) == SumOf(Products(u, v))
  {
    if |u| > 0 {
      var n := |u|;
      assert Products(u, v)[..n - 1] == Products(u[..n - 1], v[..n - 1]);
      SumProductsIsSumOfProducts(u[..n - 1], v[..n - 1]);
    }
  }

  /** Summing an element-wise sum is adding the two sums. */
  lemma {:induction false} SumOfPointwise(x: seq<int>, y: seq<int>)
    requires |x| == |y|
    ensures SumOf(Pointwise(x, y)) == SumOf(x) + SumOf(y)
  {
    if |x| > 0 {
      var n := |x|;
      assert Pointwise(x, y)[..n - 1] == Pointwise(x[..n - 1], y[..n - 1]);
      SumOfPointwise(x[..n - 1], y[..n - 1]);
    }
  }

  /** The dot product does not depend on the order of its operands. */
  lemma {:induction false} SumProductsSymmetric(u: seq<int>, v: seq<int>)
    requires |u| == |v|
    ensures SumProducts(u, v) == SumProducts(v, u)
  {
    if |u| > 0 {
      SumProductsSymmetric(u[..|u| - 1], v[..|v| - 1]);
    }
  }

  // ---------------------------------------------------------------------
  // Matrix product
  // ---------------------------------------------------------------------

  /** Row `i` of an `_ x n` matrix stored row-major in `x`. */
  function Row(x: seq<int>, n: nat, i: nat): (r: seq<int>)
    requires i * n + n <= |x|
    ensures |r| == n
  {
    x[i * n .. i * n + n]
  }

  /** Column `j` of an `n x p` matrix stored row-major in `y`. */
  function Column(y: seq<int>, n: nat, p: nat, j: nat): (c: seq<int>)
    requires |y| == n * p && j < p
    ensures |c| == n
  {
    seq(n, k requires 0 <= k < n => MixedBound(k, n, j, p); y[k * p + j])
  }

  /** Entry `(i, j)` of the product: row `i` of `x` against column `j` of `y`. */
  function Cell(x: seq<int>, y: seq<int>, n: nat, p: nat, i: nat, j: nat): int
    requires i * n + n <= |x| && |y| == n * p && j < p
  {
    SumProducts(Row(x, n, i), Column(y, n, p, j))
  }

  /** The first `j` entries of row `i` of the product. */
  function ProductRow(x: seq<int>, y: seq<int>, n: nat, p: nat, i: nat, j: nat): (row: seq<int>)
    requires i * n + n <= |x| && |y| == n * p && j <= p
    ensures |row| == j
    ensures forall k :: 0 <= k < j ==> row[k] == Cell(x, y, n, p, i, k)
  {
    if j == 0 then [] else ProductRow(x, y, n, p, i, j - 1) + [Cell(x, y, n, p, i, j - 1)]
  }

  /** One more term of the inner product behind `Cell`: element `k` of the row times element `k` of the column. */
  lemma CellStep(x: seq<int>, y: seq<int>, n: nat, p: nat, i: nat, j: nat, k: nat)
    requires i * n + n <= |x| && |y| == n * p && j < p && k < n
    ensures i * n + k < |x| && 0 <= k * p + j < |y|
    ensures SumProducts(Row(x, n, i)[..k + 1], Column(y, n, p, j)[..k + 1])
         == SumProducts(Row(x, n, i)[..k], Column(y, n, p, j)[..k]) + x[i * n + k] * y[k * p + j]
  {
    MixedBound(k, n, j, p);
    var row, column := Row(x, n, i), Column(y, n, p, j);
    assert row[..k + 1][..k] == row[..k] && column[..k + 1][..k] == column[..k];
  }

  /** The whole row against the whole column is the product's entry. */
  lemma CellDone(x: seq<int>, y: seq<int>, n: nat, p: nat, i: nat, j: nat)
    requires i * n + n <= |x| && |y| == n * p && j < p
    ensures SumProducts(Row(x, n, i)[..n], Column(y, n, p, j)[..n]) == Cell(x, y, n, p, i, j)
  {
    assert Row(x, n, i)[..n] == Row(x, n, i) && Column(y, n, p, j)[..n] == Column(y, n, p, j);
  }

  /** The first `m` rows of the product of `x` (`_ x n`) and `y` (`n x p`), row after row. */
  function MatMul(x: seq<int>, y: seq<int>, m: nat, n: nat, p: nat): (c: seq<int>)
    requires m * n <= |x| && |y| == n * p
    ensures |c| == m * p
  {
    if m == 0 then []
    else
      MulMonotone(m - 1, m, n);
      NextRow(m, n);
      NextRow(m, p);
      MatMul(x, y, m - 1, n, p) + ProductRow(x, y, n, p, m - 1, p)
  }

  /** The product's first `i + 1` rows are its first `i` rows followed by row `i`, which ends inside the buffers. */
  lemma MatMulNextRow(x: seq<int>, y: seq<int>, m: nat, n: nat, p: nat, i: nat)
    requires m * n <= |x| && |y| == n * p && i < m
    ensures i * n + n == (i + 1) * n <= m * n && i * p + p == (i + 1) * p <= m * p
    ensures MatMul(x, y, i + 1, n, p) == MatMul(x, y, i, n, p) + ProductRow(x, y, n, p, i, p)
  {
    MulMonotone(i + 1, m, n);
    MulMonotone(i + 1, m, p);
    NextRow(i + 1, n);
    NextRow(i + 1, p);
  }

  /** A `1 x n` row times an `n x 1` column is the `1 x 1` matrix holding the dot product of the two buffers. */
  lemma VectorDotIsMatMul(x: seq<int>, y: seq<int>)
    requires |x| == |y|
    ensures MatMul(x, y, 1, |x|, 1) == [SumProducts(x, y)]
  {
    var n := |x|;
    assert Row(x, n, 0) == x;
    assert Column(y, n, 1, 0) == y;
    assert MatMul(x, y, 0, n, 1) == [];
    assert ProductRow(x, y, n, 1, 0, 1) == [Cell(x, y, n, 1, 0, 0)];
  }

  /** Entry `(i, j)` sits at offset `i * p + j` of the product. */
  lemma {:induction false} MatMulAt(x: seq<int>, y: seq<int>, m: nat, n: nat, p: nat, i: nat, j: nat)
    requires m * n <= |x| && |y| == n * p && i < m && j < p
    ensures i * n + n <= |x| && i * p + j < m * p
    ensures MatMul(x, y, m, n, p)[i * p + j] == Cell(x, y, n, p, i, j)
  {
    MulMonotone(0, i, p);
    if i < m - 1 {
      MatMulNextRow(x, y, m, n, p, m - 1);
      MatMulAt(x, y, m - 1, n, p, i, j);
    } else {
      MatMulNextRow(x, y, m, n, p, i);
      assert i * p + j == |MatMul(x, y, i, n, p)| + j;
    }
  }

  // ---------------------------------------------------------------------
  // Rectangular windows
  // ---------------------------------------------------------------------

  /**
   * The `rows x width` block whose top-left corner is `(r0, c0)` in an
   * `nrows x cols` matrix stored row-major in `x`: its row segments, top to bottom.
   */
  function Window(x: seq<int>, nrows: nat, cols: nat, r0: nat, c0: nat, rows: nat, width: nat): (w: seq<int>)
    requires |x| == nrows * cols && r0 + rows <= nrows && c0 + width <= cols
    ensures |w| == rows * width
  {
    if rows == 0 then []
    else
      var start := (r0 + rows - 1) * cols + c0;
      WindowLastRow(nrows, cols, r0, c0, rows, width);
      NextRow(rows, width);
      Window(x, nrows, cols, r0, c0, rows - 1, width) + x[start .. start + width]
  }

  /** The last row segment of a window lies inside the matrix. */
  lemma WindowLastRow(nrows: nat, cols: nat, r0: nat, c0: nat, rows: nat, width: nat)
    requires r0 + rows <= nrows && c0 + width <= cols && 0 < rows
    ensures 0 <= (r0 + rows - 1) * cols + c0 + width <= nrows * cols
  {
    MulMonotone(r0 + rows, nrows, cols);
    NextRow(r0 + rows, cols);
  }

  /** A window one row taller is the window followed by the next row segment, which ends inside the matrix. */
  lemma WindowNextRow(x: seq<int>, nrows: nat, cols: nat, r0: nat, c0: nat, rows: nat, width: nat, row: nat)
    requires |x| == nrows * cols && r0 + rows <= nrows && c0 + width <= cols && row < rows
    ensures row * width + width == (row + 1) * width <= rows * width
    ensures 0 <= (r0 + row) * cols + c0 && (r0 + row) * cols + c0 + width <= |x|
    ensures Window(x, nrows, cols, r0, c0, row + 1, width)
         == Window(x, nrows, cols, r0, c0, row, width) + x[(r0 + row) * cols + c0 .. (r0 + row) * cols + c0 + width]
  {
    MulMonotone(row + 1, rows, width);
    NextRow(row + 1, width);
    WindowLastRow(nrows, cols, r0, c0, row + 1, width);
  }

  /** Element `(r, c)` of the window is element `(r0 + r, c0 + c)` of the matrix. */
  lemma {:induction false} WindowAt(x: seq<int>, nrows: nat, cols: nat, r0: nat, c0: nat, rows: nat, width: nat, r: nat, c: nat)
    requires |x| == nrows * cols && r0 + rows <= nrows && c0 + width <= cols && r < rows && c < width
    ensures r * width + c < rows * width && (r0 + r) * cols + c0 + c < |x|
    ensures Window(x, nrows, cols, r0, c0, rows, width)[r * width + c] == x[(r0 + r) * cols + c0 + c]
  {
    MulMonotone(0, r, width);
    if r < rows - 1 {
      WindowNextRow(x, nrows, cols, r0, c0, rows, width, rows - 1);
      WindowAt(x, nrows, cols, r0, c0, rows - 1, width, r, c);
    } else {
      WindowNextRow(x, nrows, cols, r0, c0, rows, width, r);
      assert r * width + c == |Window(x, nrows, cols, r0, c0, r, width)| + c;
    }
  }

  // ---------------------------------------------------------------------
  // Broadcast sum
  // ---------------------------------------------------------------------

  /**
   * Element-wise sum of `x` (shape `sx`) and `y` (shape `sy`) over the
   * broadcast shape: slot `i` adds the operand elements that the digits of
   * `i` reduce to in each operand.
   */
  function BroadcastSum(x: seq<int>, sx: seq<int>, y: seq<int>, sy: seq<int>): (z: seq<int>)
    requires PositiveShape(sx) && PositiveShape(sy) && Compatible(sx, sy)
    requires |x| == Product(sx) && |y| == Product(sy)
    ensures |z| == Product(BroadcastDims(sx, sy))
  {
    var rs := BroadcastDims(sx, sy);
    seq(Product(rs), i requires 0 <= i < Product(rs) =>
      var d := Digits(i, rs);
      x[BroadcastOffset(d, sx)] + y[BroadcastOffset(d, sy)])
  }

  /** Slot `i` of the broadcast sum adds the operand elements that the digits of `i` reduce to. */
  lemma BroadcastSumSlot(x: seq<int>, sx: seq<int>, y: seq<int>, sy: seq<int>, i: int)
    requires PositiveShape(sx) && PositiveShape(sy) && Compatible(sx, sy)
    requires |x| == Product(sx) && |y| == Product(sy)
    requires 0 <= i < Product(BroadcastDims(sx, sy))
    ensures |sx| <= |BroadcastDims(sx, sy)| && |sy| <= |BroadcastDims(sx, sy)|
    ensures BroadcastSum(x, sx, y, sy)[i]
         == x[BroadcastOffset(Digits(i, BroadcastDims(sx, sy)), sx)] + y[BroadcastOffset(Digits(i, BroadcastDims(sx, sy)), sy)]
  {
  }

  /**
   * Read at a tuple of the result, the broadcast sum adds the operand
   * elements NumPy names: stretched dimensions at index 0, others at the
   * tuple's own component.
   */
  lemma BroadcastSumAt(x: seq<int>, sx: seq<int>, y: seq<int>, sy: seq<int>, idx: seq<int>)
    requires PositiveShape(sx) && PositiveShape(sy) && Compatible(sx, sy)
    requires |x| == Product(sx) && |y| == Product(sy)
    requires InBox(idx, BroadcastDims(sx, sy))
    ensures NonNegative(idx)
    ensures StretchIndex(idx, sx) == Reduce(idx, sx) && StretchIndex(idx, sy) == Reduce(idx, sy)
    ensures BroadcastSum(x, sx, y, sy)[RowMajorOffset(idx, BroadcastDims(sx, sy))]
         == x[RowMajorOffset(StretchIndex(idx, sx), sx)] + y[RowMajorOffset(StretchIndex(idx, sy), sy)]
  {
    var rs := BroadcastDims(sx, sy);
    DigitsOfOffset(idx, rs);
    BroadcastStretches(sx, sy);
    ReduceIsStretch(idx, sx, rs);
    ReduceIsStretch(idx, sy, rs);
  }

  /** With no dimension stretched, slot `i` of the result reads slot `i` of each operand. */
  lemma SameShapeOffset(i: int, s: seq<int>)
    requires PositiveShape(s) && 0 <= i < Product(s)
    ensures BroadcastOffset(Digits(i, s), s) == i
  {
    DigitsRoundTrip(i, s);
    ReduceOwnShape(Digits(i, s), s);
  }

  /** With identical shapes the broadcast sum adds slot by slot. */
  lemma AddSameShape(x: seq<int>, y: seq<int>, s: seq<int>)
    requires PositiveShape(s) && |x| == Product(s) && |y| == Product(s)
    ensures Compatible(s, s) && BroadcastDims(s, s) == s
    ensures BroadcastSum(x, s, y, s) == Pointwise(x, y)
  {
    BroadcastSelf(s);
    var z, w := BroadcastSum(x, s, y, s), Pointwise(x, y);
    assert |z| == |w|;
    forall i | 0 <= i < |x| ensures z[i] == w[i] {
      SameShapeOffset(i, s);
      assert z[i] == x[i] + y[i];
    }
  }

  /** Broadcast addition is commutative. */
  lemma AddCommutes(x: seq<int>, sx: seq<int>, y: seq<int>, sy: seq<int>)
    requires PositiveShape(sx) && PositiveShape(sy) && Compatible(sx, sy)
    requires |x| == Product(sx) && |y| == Product(sy)
    ensures Compatible(sy, sx)
    ensures BroadcastSum(x, sx, y, sy) == BroadcastSum(y, sy, x, sx)
  {
    BroadcastSymmetric(sx, sy);
  }

  /** An `m x 1` column and a `1 x n` row broadcast to `m x n`. */
  lemma ColumnRowShape(m: int, n: int)
    requires 0 < m && 0 < n
    ensures Compatible([m, 1], [1, n])
    ensures BroadcastDims([m, 1], [1, n]) == [m, n]
    ensures Product([m, 1]) == m && Product([1, n]) == n && Product([m, n]) == m * n
  {
    assert FromEnd([m, 1], 1) == m && FromEnd([m, 1], 0) == 1;
    assert FromEnd([1, n], 1) == 1 && FromEnd([1, n], 0) == n;
    var r := BroadcastDims([m, 1], [1, n]);
    assert r[0] == Max(FromEnd([m, 1], 1), FromEnd([1, n], 1));
    assert r[1] == Max(FromEnd([m, 1], 0), FromEnd([1, n], 0));
    assert r == [r[0], r[1]];
    assert [m, 1][1..] == [1] && [1, n][1..] == [n] && [m, n][1..] == [n];
    assert [1][1..] == [] && [n][1..] == [];
  }

  /** The digits of `i` in an `m x n` shape are its row `i / n` and its column `i % n`. */
  lemma DigitsOfPair(i: int, m: int, n: int)
    requires 0 < m && 0 < n && 0 <= i < m * n
    ensures 0 <= i / n < m && 0 <= i % n < n
    ensures Digits(i, [m, n]) == [i / n, i % n]
  {
    var q, r := i / n, i % n;
    DivNonNegative(i, n);
    if q >= m {
      MulMonotone(m, q, n);
      assert false;
    }
    DivModUnique(q, m, 0, q);
    DivModUnique(i, 1, i, 0);
    var t := [m, n][1..];
    assert t == [n] && t[1..] == [];
    assert Product(t) == n;
    assert Digits(i, t) == [r];
  }

  /** In an `m x 1` column the element behind the tuple `(r, c)` sits at offset `r`. */
  lemma ColumnOffset(d: seq<int>, m: int, n: int)
    requires 0 < m && 0 < n && InBox(d, [m, n])
    ensures NonNegative(d) && BroadcastOffset(d, [m, 1]) == d[0]
  {
    var a := Reduce(d, [m, 1]);
    DivModUnique(d[0], m, 0, d[0]);
    DivModUnique(d[1], 1, d[1], 0);
    assert a == [d[0], 0];
    Offset2(d[0], 0, m, 1);
  }

  /** In a `1 x n` row the element behind the tuple `(r, c)` sits at offset `c`. */
  lemma RowOffset(d: seq<int>, m: int, n: int)
    requires 0 < m && 0 < n && InBox(d, [m, n])
    ensures NonNegative(d) && BroadcastOffset(d, [1, n]) == d[1]
  {
    var b := Reduce(d, [1, n]);
    DivModUnique(d[0], 1, d[0], 0);
    DivModUnique(d[1], n, 0, d[1]);
    assert b == [0, d[1]];
    Offset2(0, d[1], 1, n);
  }

  /**
   * A column plus a row is their table of pairwise sums: slot `i` of the
   * `m x n` result adds element `i / n` of the column to element `i % n`
   * of the row.
   */
  lemma ColumnPlusRow(x: seq<int>, y: seq<int>, m: int, n: int, i: int)
    requires 0 < m && 0 < n && |x| == m && |y| == n && 0 <= i < m * n
    ensures Compatible([m, 1], [1, n]) && BroadcastDims([m, 1], [1, n]) == [m, n]
    ensures Product([m, 1]) == m && Product([1, n]) == n
    ensures 0 <= i / n < m && 0 <= i % n < n
    ensures BroadcastSum(x, [m, 1], y, [1, n])[i] == x[i / n] + y[i % n]
  {
    ColumnRowShape(m, n);
    BroadcastSumSlot(x, [m, 1], y, [1, n], i);
    DigitsOfPair(i, m, n);
    var d := Digits(i, [m, n]);
    ColumnOffset(d, m, n);
    RowOffset(d, m, n);
  }

  // ---------------------------------------------------------------------
  // The documented and tested examples
  // ---------------------------------------------------------------------

  /** A dot product of length three, written out. */
  lemma SumProductsOfThree(a: int, b: int, c: int, d: int, e: int, f: int)
    ensures SumProducts([a, b, c], [d, e, f]) == a * d + b * e + c * f
  {
    assert [a, b, c][..2] == [a, b] && [d, e, f][..2] == [d, e];
    assert [a, b][..1] == [a] && [d, e][..1] == [d];
    assert [a][..0] == [] && [d][..0] == [];
    assert SumProducts([a], [d]) == a * d;
    assert SumProducts([a, b], [d, e]) == a * d + b * e;
  }

  lemma DotExample()
    ensures SumProducts([1, 2, 3], [4, 5, 6]) == 32
  {
    SumProductsOfThree(1, 2, 3, 4, 5, 6);
  }

  /** Entry `(i, j)` of the product of a `2 x 3` and a `3 x 2` matrix, written out. */
  lemma Cell2x3x2(x: seq<int>, y: seq<int>, i: nat, j: nat)
    requires |x| == 6 && |y| == 6 && i < 2 && j < 2
    ensures Cell(x, y, 3, 2, i, j) == x[3 * i] * y[j] + x[3 * i + 1] * y[2 + j] + x[3 * i + 2] * y[4 + j]
  {
    assert Row(x, 3, i) == [x[3 * i], x[3 * i + 1], x[3 * i + 2]];
    assert Column(y, 3, 2, j) == [y[j], y[2 + j], y[4 + j]];
    SumProductsOfThree(x[3 * i], x[3 * i + 1], x[3 * i + 2], y[j], y[2 + j], y[4 + j]);
  }

  /** The product of a `2 x 3` and a `3 x 2` matrix lists its four entries row by row. */
  lemma MatMul2x3x2(x: seq<int>, y: seq<int>)
    requires |x| == 6 && |y| == 6
    ensures MatMul(x, y, 2, 3, 2)
         == [Cell(x, y, 3, 2, 0, 0), Cell(x, y, 3, 2, 0, 1), Cell(x, y, 3, 2, 1, 0), Cell(x, y, 3, 2, 1, 1)]
  {
    assert ProductRow(x, y, 3, 2, 0, 2) == [Cell(x, y, 3, 2, 0, 0), Cell(x, y, 3, 2, 0, 1)];
    assert ProductRow(x, y, 3, 2, 1, 2) == [Cell(x, y, 3, 2, 1, 0), Cell(x, y, 3, 2, 1, 1)];
    MatMulNextRow(x, y, 2, 3, 2, 0);
    MatMulNextRow(x, y, 2, 3, 2, 1);
    assert MatMul(x, y, 0, 3, 2) == [];
  }

  lemma MatMulExamples()
    ensures MatMul([1, 2, 3, 4, 5, 6], [6, 5, 4, 3, 2, 1], 2, 3, 2) == [20, 14, 56, 41]
    ensures MatMul([1, 2, 3, 4, 5, 6], [7, 8, 9, 10, 11, 12], 2, 3, 2) == [58, 64, 139, 154]
  {
    var x, y, z := [1, 2, 3, 4, 5, 6], [6, 5, 4, 3, 2, 1], [7, 8, 9, 10, 11, 12];
    MatMul2x3x2(x, y);
    MatMul2x3x2(x, z);
    Cell2x3x2(x, y, 0, 0);
    Cell2x3x2(x, y, 0, 1);
    Cell2x3x2(x, y, 1, 0);
    Cell2x3x2(x, y, 1, 1);
    Cell2x3x2(x, z, 0, 0);
    Cell2x3x2(x, z, 0, 1);
    Cell2x3x2(x, z, 1, 0);
    Cell2x3x2(x, z, 1, 1);
  }

  lemma WindowExample()
    ensures Window([1, 2, 3, 4, 5, 6, 7, 8, 9], 3, 3, 0, 1, 2, 2) == [2, 3, 5, 6]
  {
  }

  /** The broadcast shape of a `2 x 1` column and a `1 x 3` row. */
  lemma BroadcastExampleShape()
    ensures Compatible([2, 1], [1, 3])
    ensures BroadcastDims([2, 1], [1, 3]) == [2, 3]
    ensures Product([2, 3]) == 6
  {
    ColumnRowShape(2, 3);
  }

  /**
   * The `2 x 1` plus `1 x 3` sum is the `2 x 3` table of pairwise sums:
   * slot `i` adds element `i / 3` of the column to element `i % 3` of the row.
   */
  lemma BroadcastExampleSlot(x: seq<int>, y: seq<int>, i: int)
    requires |x| == 2 && |y| == 3 && 0 <= i < 6
    ensures Compatible([2, 1], [1, 3]) && BroadcastDims([2, 1], [1, 3]) == [2, 3]
    ensures Product([2, 1]) == 2 && Product([1, 3]) == 3
    ensures 0 <= i / 3 < 2 && 0 <= i % 3 < 3
    ensures BroadcastSum(x, [2, 1], y, [1, 3])[i] == x[i / 3] + y[i % 3]
  {
    ColumnPlusRow(x, y, 2, 3, i);
  }

  /** Two `2 x 3` arrays of the same shape add slot by slot. */
  lemma AddExample()
    ensures Compatible([2, 3], [2, 3])
    ensures BroadcastSum([1, 2, 3, 4, 5, 6], [2, 3], [6, 5, 4, 3, 2, 1], [2, 3]) == [7, 7, 7, 7, 7, 7]
  {
    assert [2, 3][1..] == [3] && [3][1..] == [];
    AddSameShape([1, 2, 3, 4, 5, 6], [6, 5, 4, 3, 2, 1], [2, 3]);
  }
}
