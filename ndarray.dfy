/**
 * The dense row-major array: a shape, its size and a flat buffer that
 * `Set` overwrites in place. Operations that build a new array return it
 * in a `Result`, carrying the exception the array code throws otherwise.
 */
module Core {
  import opened Outcomes
  import opened ShapeMath
  import opened Buffers

  const DATA_SIZE_MISMATCH := "Data size does not match shape"
  const INDEX_COUNT := "Incorrect number of indices"
  const INDEX_RANGE := "Index out of range for its dimension"
  const CANNOT_BROADCAST := "Shapes cannot be broadcast"
  const SIZE_CHANGED := "Total size must remain unchanged"
  const DATA_LENGTH_MISMATCH := "Data length does not match shape"
  const SLICE_ARITY := "Slice indices must match number of dimensions"
  const SLICE_BOUNDS := "Invalid slice indices"
  const SLICE_RANK := "Slice only implemented for 2D arrays"
  const DOT_RANK := "dot() currently only supports 2D matrices"
  const DOT_INNER := "Inner dimensions must match for dot product"

  /** One `{start, end}` pair of a slice request: the half-open range `[start, end)`. */
  datatype SliceRange = SliceRange(start: int, end: int)

  /** The range is non-empty and lies inside a dimension of length `dim`. */
  predicate RangeOk(rg: SliceRange, dim: int)
  {
    0 <= rg.start && rg.end <= dim && rg.start < rg.end
  }

  /** Every dimension's range is acceptable. */
  predicate RangesOk(ranges: seq<SliceRange>, shape: seq<int>)
    requires |ranges| == |shape|
  {
    forall i :: 0 <= i < |shape| ==> RangeOk(ranges[i], shape[i])
  }

  /** Writing `v` at tuple `idx` changes what reads at `other` return exactly when `other == idx`. */
  lemma WriteThenRead(buf: seq<int>, shape: seq<int>, idx: seq<int>, other: seq<int>, v: int)
    requires PositiveShape(shape) && |buf| == Product(shape) && InBox(idx, shape) && InBox(other, shape)
    ensures buf[RowMajorOffset(idx, shape) := v][RowMajorOffset(other, shape)]
         == if other == idx then v else buf[RowMajorOffset(other, shape)]
  {
    OffsetInjective(idx, other, shape);
  }

  /**
   * The unchecked offset lets a tuple outside the shape through: in a
   * `2 x 3` array the tuple `(0, 3)` has the offset of `(1, 0)`, so `Get`
   * returns an element of another row instead of rejecting the tuple.
   */
  lemma UncheckedTupleAliases()
    ensures !InBox([0, 3], [2, 3]) && InBox([1, 0], [2, 3])
    ensures RowMajorOffset([0, 3], [2, 3]) == RowMajorOffset([1, 0], [2, 3]) == 3
  {
    assert [0, 3][1..] == [3] && [2, 3][1..] == [3] && [1, 0][1..] == [0];
    assert [3][1..] == [] && [0][1..] == [];
    assert [0, 3][1] == 3 == [2, 3][1];
  }

  class NDArray {
    const shape: seq<int>
    const size: int
    const data: array<int>

    /** The buffer holds exactly one element per tuple of the (positive) shape. */
    ghost predicate Valid()
    {
      PositiveShape(shape) && size == Product(shape) && data.Length == size
    }

    /** A zero-filled array of the given shape. */
    constructor (shape: seq<int>)
      requires PositiveShape(shape)
      ensures Valid() && this.shape == shape && fresh(data)
      ensures data[..] == seq(Product(shape), _ => 0)
    {
      this.shape := shape;
      size := Product(shape);
      data := new int[Product(shape)](_ => 0);
    }

    /** An array over a copy of `d`, which already has the right length. */
    constructor Copy(d: array<int>, shape: seq<int>)
      requires PositiveShape(shape) && d.Length == Product(shape)
      ensures Valid() && this.shape == shape && fresh(data) && data[..] == d[..]
    {
      this.shape := shape;
      size := Product(shape);
      data := new int[d.Length](i requires 0 <= i < d.Length reads d => d[i]);
    }

    /** An array over a copy of `d`; throws when `d` does not hold one element per tuple. */
    static method FromData(d: array<int>, shape: seq<int>) returns (r: Result<NDArray>)
      requires PositiveShape(shape)
      ensures r.Err? <==> d.Length != Product(shape)
      ensures r.Err? ==> r.error == IllegalArgument(DATA_SIZE_MISMATCH)
      ensures r.Ok? ==> fresh(r.value) && fresh(r.value.data) && r.value.Valid()
      ensures r.Ok? ==> r.value.shape == shape && r.value.data[..] == d[..]
    {
      var size := Product(shape);
      if d.Length != size {
        return Err(IllegalArgument(DATA_SIZE_MISMATCH));
      }
      var a := new NDArray.Copy(d, shape);
      return Ok(a);
    }

    /**
     * Element at the tuple `indices`. Throws when there is not one index per
     * dimension; components are not checked against their dimensions, so a
     * tuple outside the shape reads whatever element its offset names, and
     * an offset outside the buffer fails the buffer read.
     */
    method Get(indices: seq<int>) returns (r: Result<int>)
      requires Valid()
      ensures |indices| != |shape| ==> r == Err(IllegalArgument(INDEX_COUNT))
      ensures |indices| == |shape| ==>
        var offset := RowMajorOffset(indices, shape);
        r == if 0 <= offset < data.Length then Ok(data[offset]) else Err(IndexOutOfBounds(offset))
      ensures InBox(indices, shape) ==> r.Ok?
    {
      var idx := LinearIndex(indices);
      if idx.Err? {
        return Err(idx.error);
      }
      if idx.value < 0 || idx.value >= data.Length {
        return Err(IndexOutOfBounds(idx.value));
      }
      return Ok(data[idx.value]);
    }

    /**
     * Overwrites the element at the tuple `indices`, with the same failures
     * as `Get`; a failed call leaves the buffer as it was.
     */
    method Set(value: int, indices: seq<int>) returns (s: Status)
      requires Valid()
      modifies data
      ensures |indices| != |shape| ==> s == Failed(IllegalArgument(INDEX_COUNT))
      ensures |indices| == |shape| ==>
        var offset := RowMajorOffset(indices, shape);
        if 0 <= offset < data.Length then s == Done && data[..] == old(data[..])[offset := value]
        else s == Failed(IndexOutOfBounds(offset))
      ensures s.Failed? ==> data[..] == old(data[..])
      ensures InBox(indices, shape) ==> s.Done?
    {
      var idx := LinearIndex(indices);
      if idx.Err? {
        return Failed(idx.error);
      }
      if idx.value < 0 || idx.value >= data.Length {
        return Failed(IndexOutOfBounds(idx.value));
      }
      data[idx.value] := value;
      return Done;
    }

    /**
     * Row-major offset of the tuple `indices`: the sum of each component
     * times its stride. Throws when there is not one index per dimension.
     */
    method LinearIndex(indices: seq<int>) returns (r: Result<int>)
      requires Valid()
      ensures r.Err? <==> |indices| != |shape|
      ensures r.Err? ==> r.error == IllegalArgument(INDEX_COUNT)
      ensures r.Ok? ==> r.value == RowMajorOffset(indices, shape)
      ensures r.Ok? && InBox(indices, shape) ==> 0 <= r.value < size
    {
      if |indices| != |shape| {
        return Err(IllegalArgument(INDEX_COUNT));
      }
      var idx, stride := 0, 1;
      var i := |shape|;
      while i > 0
        invariant 0 <= i <= |shape|
        invariant idx == RowMajorOffset(indices[i..], shape[i..])
        invariant stride == Product(shape[i..])
      {
        i := i - 1;
        OffsetStep(indices, shape, i);
        idx := idx + indices[i] * stride;
        stride := stride * shape[i];
      }
      assert indices[0..] == indices && shape[0..] == shape;
      return Ok(idx);
    }

    /**
     * `LinearIndex` as its documentation describes it: besides the count of
     * indices, every component must lie inside its dimension, so that the
     * offset names the element of that tuple and of no other.
     */
    method CheckedLinearIndex(indices: seq<int>) returns (r: Result<int>)
      requires Valid()
      ensures r.Err? <==> !InBox(indices, shape)
      ensures |indices| != |shape| ==> r == Err(IllegalArgument(INDEX_COUNT))
      ensures |indices| == |shape| && r.Err? ==> r.error == IllegalArgument(INDEX_RANGE)
      ensures r.Ok? ==> r.value == RowMajorOffset(indices, shape) && 0 <= r.value < size
    {
      if |indices| != |shape| {
        return Err(IllegalArgument(INDEX_COUNT));
      }
      for i := 0 to |shape|
        invariant forall k :: 0 <= k < i ==> 0 <= indices[k] < shape[k]
      {
        if indices[i] < 0 || indices[i] >= shape[i] {
          return Err(IllegalArgument(INDEX_RANGE));
        }
      }
      r := LinearIndex(indices);
    }

    /** `Get` with every component checked against its dimension. */
    method CheckedGet(indices: seq<int>) returns (r: Result<int>)
      requires Valid()
      ensures r.Ok? <==> InBox(indices, shape)
      ensures r.Ok? ==> r.value == data[RowMajorOffset(indices, shape)]
      ensures r.Err? ==> r.error.IllegalArgument?
    {
      var idx := CheckedLinearIndex(indices);
      if idx.Err? {
        return Err(idx.error);
      }
      return Ok(data[idx.value]);
    }

    /** `Set` with every component checked against its dimension; a rejected tuple changes nothing. */
    method CheckedSet(value: int, indices: seq<int>) returns (s: Status)
      requires Valid()
      modifies data
      ensures s.Done? <==> InBox(indices, shape)
      ensures s.Done? ==> data[..] == old(data[..])[RowMajorOffset(indices, shape) := value]
      ensures s.Failed? ==> s.error.IllegalArgument? && data[..] == old(data[..])
    {
      var idx := CheckedLinearIndex(indices);
      if idx.Err? {
        return Failed(idx.error);
      }
      data[idx.value] := value;
      return Done;
    }

    /**
     * Element-wise sum with NumPy broadcasting: the result has the
     * broadcast shape, and each slot adds the operand elements its digits
     * reduce to. Throws when the shapes do not broadcast together.
     */
    method Add(other: NDArray) returns (r: Result<NDArray>)
      requires Valid() && other.Valid()
      ensures r.Err? <==> !Compatible(shape, other.shape)
      ensures r.Err? ==> r.error == IllegalArgument(CANNOT_BROADCAST)
      ensures r.Ok? ==> fresh(r.value) && fresh(r.value.data) && r.value.Valid()
      ensures r.Ok? ==> r.value.shape == BroadcastDims(shape, other.shape)
      ensures r.Ok? ==> r.value.data[..] == BroadcastSum(data[..], shape, other.data[..], other.shape)
    {
      var bs := BroadcastShape(shape, other.shape);
      if bs.Err? {
        return Err(bs.error);
      }
      var resultShape := bs.value;
      var result := new NDArray(resultShape);
      ghost var x, y := data[..], other.data[..];
      ghost var want := BroadcastSum(x, shape, y, other.shape);
      var idx := new int[|resultShape|];
      var i := 0;
      while i < result.size
        invariant 0 <= i <= result.size
        invariant result.Valid() && result.shape == resultShape
        invariant idx != result.data && idx != data && idx != other.data
        invariant result.data != data && result.data != other.data
        invariant data[..] == x && other.data[..] == y
        invariant forall q :: 0 <= q < i ==> result.data[q] == want[q]
      {
        AddAt(other, result, idx, i, x, y);
        i := i + 1;
      }
      assert result.data[..] == want;
      return Ok(result);
    }

    /** The body of the loop in `Add`: slot `i` of `result`, computed through the scratch tuple `idx`. */
    method AddAt(other: NDArray, result: NDArray, idx: array<int>, i: int, ghost x: seq<int>, ghost y: seq<int>)
      requires Valid() && other.Valid() && Compatible(shape, other.shape) && x == data[..] && y == other.data[..]
      requires result.Valid() && result.shape == BroadcastDims(shape, other.shape)
      requires idx.Length == |result.shape| && 0 <= i < result.size
      requires idx != data && idx != other.data && idx != result.data
      requires result.data != data && result.data != other.data
      modifies idx, result.data
      ensures idx[..] == Digits(i, result.shape)
      ensures result.data[..] == old(result.data[..])[i := BroadcastSum(x, shape, y, other.shape)[i]]
    {
      IndexFromLinear(i, result.shape, idx);
      assert idx[..] == Digits(i, result.shape) by { assert idx[..] == idx[..|result.shape|]; }
      var thisIdx := LinearIndexWithBroadcast(idx, shape);
      var otherIdx := LinearIndexWithBroadcast(idx, other.shape);
      BroadcastSumSlot(x, shape, y, other.shape, i);
      ghost var w := BroadcastSum(x, shape, y, other.shape)[i];
      var v := data[thisIdx] + other.data[otherIdx];
      assert v == w;
      ghost var before := result.data[..];
      result.data[i] := v;
      assert result.data[..] == before[i := w];
    }

    /** A copy of the buffer, sharing nothing with this array. */
    method GetData() returns (d: array<int>)
      ensures fresh(d) && d[..] == data[..]
    {
      d := new int[data.Length](i requires 0 <= i < data.Length reads data => data[i]);
    }

    /** The shape; it is an immutable value, so the copy is the value itself. */
    function GetShape(): (s: seq<int>)
      ensures |s| == GetNdims() && s == shape
    {
      shape
    }

    /** Number of dimensions: how many components `Get` and `Set` accept. */
    function GetNdims(): (n: nat)
      ensures n == |shape|
    {
      |shape|
    }

    /**
     * Number of elements, recomputed from the shape; throws when the
     * recorded size does not match the buffer, which never happens to a
     * valid array.
     */
    function GetSize(): (r: Result<int>)
      ensures r.Err? <==> size != data.Length
      ensures r.Err? ==> r.error == IllegalArgument(DATA_LENGTH_MISMATCH)
      ensures Valid() ==> r == Ok(data.Length)
    {
      var n := Product(shape);
      if size != data.Length then Err(IllegalArgument(DATA_LENGTH_MISMATCH)) else Ok(n)
    }

    /**
     * The same data under another shape; throws when the new shape holds a
     * different number of elements.
     */
    method Reshape(newShape: seq<int>) returns (r: Result<NDArray>)
      requires Valid() && PositiveShape(newShape)
      ensures r.Err? <==> Product(newShape) != size
      ensures r.Err? ==> r.error == IllegalArgument(SIZE_CHANGED)
      ensures r.Ok? ==> fresh(r.value) && fresh(r.value.data) && r.value.Valid()
      ensures r.Ok? ==> r.value.shape == newShape && r.value.data[..] == data[..]
    {
      var newSize := Product(newShape);
      if newSize != size {
        return Err(IllegalArgument(SIZE_CHANGED));
      }
      r := FromData(data, newShape);
    }

    /** Sum of all elements, accumulated in buffer order. */
    method Sum() returns (s: int)
      ensures s == SumOf(data[..])
    {
      s := 0;
      for i := 0 to data.Length
        invariant s == SumOf(data[..i])
      {
        assert data[..i + 1][..i] == data[..i];
        s := s + data[i];
      }
      assert data[..] == data[..data.Length];
    }

    /**
     * The sub-rectangle `[start, end)` in each dimension, densely packed.
     * Throws `IllegalArgument` when there is not one range per dimension or
     * a range is empty or out of bounds, and `UnsupportedOperation` for
     * arrays that are not two-dimensional; the range checks come first.
     */
    method Slice(ranges: seq<SliceRange>) returns (r: Result<NDArray>)
      requires Valid()
      ensures |ranges| != |shape| ==> r == Err(IllegalArgument(SLICE_ARITY))
      ensures |ranges| == |shape| && !RangesOk(ranges, shape) ==> r == Err(IllegalArgument(SLICE_BOUNDS))
      ensures |ranges| == |shape| && RangesOk(ranges, shape) && |shape| != 2 ==> r == Err(UnsupportedOperation(SLICE_RANK))
      ensures r.Ok? <==> |ranges| == |shape| == 2 && RangesOk(ranges, shape)
      ensures r.Ok? ==> data.Length == shape[0] * shape[1]
      ensures r.Ok? ==> fresh(r.value) && fresh(r.value.data) && r.value.Valid()
      ensures r.Ok? ==> r.value.shape == [ranges[0].end - ranges[0].start, ranges[1].end - ranges[1].start]
      ensures r.Ok? ==> r.value.data[..] == Window(data[..], shape[0], shape[1], ranges[0].start, ranges[1].start,
                                                   ranges[0].end - ranges[0].start, ranges[1].end - ranges[1].start)
    {
      if |ranges| != |shape| {
        return Err(IllegalArgument(SLICE_ARITY));
      }
      var newShape := new int[|shape|];
      for i := 0 to |shape|
        invariant forall j :: 0 <= j < i ==> RangeOk(ranges[j], shape[j])
        invariant forall j :: 0 <= j < i ==> newShape[j] == ranges[j].end - ranges[j].start
      {
        var start, end := ranges[i].start, ranges[i].end;
        if start < 0 || end > shape[i] || start >= end {
          return Err(IllegalArgument(SLICE_BOUNDS));
        }
        newShape[i] := end - start;
      }
      if |shape| != 2 {
        return Err(UnsupportedOperation(SLICE_RANK));
      }
      var rows, cols := newShape[0], newShape[1];
      var r0, c0 := ranges[0].start, ranges[1].start;
      assert RangeOk(ranges[0], shape[0]) && RangeOk(ranges[1], shape[1]);
      assert rows == ranges[0].end - r0 > 0 && cols == ranges[1].end - c0 > 0;
      var dims := newShape[..];
      assert dims == [rows, cols] by { assert newShape.Length == 2; }
      ProductOfPair(shape);
      var result := SliceWindow(r0, c0, rows, cols);
      ProductOfPair([rows, cols]);
      r := FromData(result, dims);
    }

    /** The two nested copy loops of `Slice`: the `rows x cols` block at `(r0, c0)` of this two-dimensional array. */
    method SliceWindow(r0: int, c0: int, rows: int, cols: int) returns (result: array<int>)
      requires Valid() && |shape| == 2
      requires 0 <= r0 && 0 <= rows && r0 + rows <= shape[0] && 0 <= c0 && 0 <= cols && c0 + cols <= shape[1]
      ensures data.Length == shape[0] * shape[1]
      ensures fresh(result) && result[..] == Window(data[..], shape[0], shape[1], r0, c0, rows, cols)
    {
      ghost var x := data[..];
      ProductOfPair(shape);
      assert shape == [shape[0], shape[1]];
      result := new int[rows * cols];
      ghost var want := Window(x, shape[0], shape[1], r0, c0, rows, cols);
      ghost var pos := 0;
      for row := 0 to rows
        invariant pos == row * cols <= rows * cols
        invariant result != data
        invariant forall q :: 0 <= q < pos ==> result[q] == want[q]
      {
        MulMonotone(row + 1, rows, cols);
        NextRow(row + 1, cols);
        for col := 0 to cols
          invariant pos == row * cols + col
          invariant result != data && data[..] == x
          invariant forall q :: 0 <= q < pos ==> result[q] == want[q]
        {
          var g := CheckedGet([row + r0, col + c0]);
          Offset2(row + r0, col + c0, shape[0], shape[1]);
          WindowAt(x, shape[0], shape[1], r0, c0, rows, cols, row, col);
          assert (r0 + row) * shape[1] + c0 + col == (row + r0) * shape[1] + (col + c0);
          result[row * cols + col] := g.value;
          pos := pos + 1;
        }
      }
      assert result[..] == want;
    }

    /**
     * Matrix product of an `m x n` and an `n x p` array by the naive triple
     * loop. Throws `UnsupportedOperation` unless both are two-dimensional
     * and `IllegalArgument` when the inner dimensions differ.
     */
    method Dot(other: NDArray) returns (r: Result<NDArray>)
      requires Valid() && other.Valid()
      ensures |shape| != 2 || |other.shape| != 2 ==> r == Err(UnsupportedOperation(DOT_RANK))
      ensures |shape| == 2 && |other.shape| == 2 && shape[1] != other.shape[0] ==> r == Err(IllegalArgument(DOT_INNER))
      ensures r.Ok? <==> |shape| == 2 && |other.shape| == 2 && shape[1] == other.shape[0]
      ensures r.Ok? ==> fresh(r.value) && fresh(r.value.data) && r.value.Valid()
      ensures r.Ok? ==> r.value.shape == [shape[0], other.shape[1]]
      ensures r.Ok? ==> data.Length == shape[0] * shape[1] && other.data.Length == shape[1] * other.shape[1]
      ensures r.Ok? ==> r.value.data[..] == MatMul(data[..], other.data[..], shape[0], shape[1], other.shape[1])
    {
      if |shape| != 2 || |other.shape| != 2 {
        return Err(UnsupportedOperation(DOT_RANK));
      }
      var m, n, p := shape[0], shape[1], other.shape[1];
      if n != other.shape[0] {
        return Err(IllegalArgument(DOT_INNER));
      }
      ProductOfPair(shape);
      ProductOfPair(other.shape);
      var result := DotLoops(other);
      r := FromData(result, [m, p]);
      ProductOfPair([m, p]);
    }

    /** The three nested loops of `Dot`: the product buffer of this `m x n` array and the `n x p` array `other`. */
    method DotLoops(other: NDArray) returns (result: array<int>)
      requires Valid() && other.Valid() && |shape| == 2 && |other.shape| == 2 && shape[1] == other.shape[0]
      ensures data.Length == shape[0] * shape[1] && other.data.Length == shape[1] * other.shape[1]
      ensures fresh(result) && result[..] == MatMul(data[..], other.data[..], shape[0], shape[1], other.shape[1])
    {
      var m, n, p := shape[0], shape[1], other.shape[1];
      ghost var x, y := data[..], other.data[..];
      ProductOfPair(shape);
      ProductOfPair(other.shape);
      assert shape == [m, n] && other.shape == [n, p];
      result := new int[m * p];
      ghost var want := MatMul(x, y, m, n, p);
      ghost var pos := 0;
      for i := 0 to m
        invariant pos == i * p <= m * p
        invariant result != data && result != other.data
        invariant forall q :: 0 <= q < pos ==> result[q] == want[q]
      {
        MulMonotone(i + 1, m, p);
        NextRow(i + 1, p);
        for j := 0 to p
          invariant pos == i * p + j
          invariant result != data && result != other.data
          invariant data[..] == x && other.data[..] == y
          invariant forall q :: 0 <= q < pos ==> result[q] == want[q]
        {
          DotStore(other, result, i, j, x, y);
          pos := pos + 1;
        }
      }
      assert result[..] == want;
    }

    /** The body of the inner loop of `Dot`: cell `(i, j)` of the product, stored in row-major order. */
    method DotStore(other: NDArray, result: array<int>, i: int, j: int, ghost x: seq<int>, ghost y: seq<int>)
      requires Valid() && other.Valid() && |shape| == 2 && |other.shape| == 2 && shape[1] == other.shape[0]
      requires x == data[..] && y == other.data[..]
      requires 0 <= i < shape[0] && 0 <= j < other.shape[1] && result.Length == shape[0] * other.shape[1]
      requires result != data && result != other.data
      modifies result
      ensures |x| == shape[0] * shape[1] && |y| == shape[1] * other.shape[1]
      ensures i * other.shape[1] + j < result.Length
      ensures result[..] == old(result[..])[i * other.shape[1] + j := MatMul(x, y, shape[0], shape[1], other.shape[1])[i * other.shape[1] + j]]
    {
      var m, n, p := shape[0], shape[1], other.shape[1];
      ProductOfPair(shape);
      ProductOfPair(other.shape);
      var sum := DotCell(other, i, j);
      MatMulAt(x, y, m, n, p, i, j);
      MulMonotone(0, i, p);
      var k := i * p + j;
      assert 0 <= k < result.Length;
      ghost var before := result[..];
      result[k] := sum;
      assert result[..] == before[k := sum];
    }

    /** The innermost loop of `Dot`: row `i` of this `m x n` array against column `j` of the `n x p` array `other`. */
    method DotCell(other: NDArray, i: int, j: int) returns (sum: int)
      requires Valid() && other.Valid() && |shape| == 2 && |other.shape| == 2 && shape[1] == other.shape[0]
      requires 0 <= i < shape[0] && 0 <= j < other.shape[1]
      ensures i * shape[1] + shape[1] <= data.Length && other.data.Length == shape[1] * other.shape[1]
      ensures sum == Cell(data[..], other.data[..], shape[1], other.shape[1], i, j)
    {
      var m, n, p := shape[0], shape[1], other.shape[1];
      ghost var x, y := data[..], other.data[..];
      ProductOfPair(shape);
      ProductOfPair(other.shape);
      assert shape == [m, n] && other.shape == [n, p];
      MulMonotone(i + 1, m, n);
      NextRow(i + 1, n);
      sum := 0;
      for k := 0 to n
        invariant sum == SumProducts(Row(x, n, i)[..k], Column(y, n, p, j)[..k])
      {
        var a := CheckedGet([i, k]);
        var b := other.CheckedGet([k, j]);
        Offset2(i, k, m, n);
        Offset2(k, j, n, p);
        CellStep(x, y, n, p, i, j, k);
        sum := sum + a.value * b.value;
      }
      CellDone(x, y, n, p, i, j);
    }

    /**
     * The broadcast shape of `a` and `b`, filled from the left with each
     * operand right-aligned; throws when an aligned pair differs and
     * neither is 1.
     */
    static method BroadcastShape(a: seq<int>, b: seq<int>) returns (r: Result<seq<int>>)
      ensures r.Err? <==> !Compatible(a, b)
      ensures r.Err? ==> r.error == IllegalArgument(CANNOT_BROADCAST)
      ensures r.Ok? ==> r.value == BroadcastDims(a, b)
    {
      var n := Max(|a|, |b|);
      var result := new int[n];
      for i := 0 to n
        invariant forall k :: n - i <= k < n ==> DimsAgree(FromEnd(a, k), FromEnd(b, k))
        invariant forall j :: 0 <= j < i ==> result[j] == Max(FromEnd(a, n - 1 - j), FromEnd(b, n - 1 - j))
      {
        var aDim := if i >= n - |a| then a[i - (n - |a|)] else 1;
        var bDim := if i >= n - |b| then b[i - (n - |b|)] else 1;
        assert aDim == FromEnd(a, n - 1 - i) && bDim == FromEnd(b, n - 1 - i);
        if aDim != bDim && aDim != 1 && bDim != 1 {
          return Err(IllegalArgument(CANNOT_BROADCAST));
        }
        result[i] := Max(aDim, bDim);
      }
      return Ok(result[..]);
    }

    /**
     * Offset, inside an operand of shape `shape`, of the element that
     * broadcasts to the result tuple `idx`: the trailing components of
     * `idx`, each reduced modulo the operand's dimension, weighted by the
     * operand's strides.
     */
    static method LinearIndexWithBroadcast(idx: array<int>, shape: seq<int>) returns (linear: int)
      requires PositiveShape(shape) && |shape| <= idx.Length && NonNegative(idx[..])
      ensures linear == BroadcastOffset(idx[..], shape)
      ensures 0 <= linear < Product(shape)
    {
      ghost var reduced := Reduce(idx[..], shape);
      var offset := idx.Length - |shape|;
      var stride := 1;
      linear := 0;
      var i := |shape|;
      while i > 0
        invariant 0 <= i <= |shape|
        invariant linear == RowMajorOffset(reduced[i..], shape[i..])
        invariant stride == Product(shape[i..])
      {
        i := i - 1;
        OffsetStep(reduced, shape, i);
        var dimIdx := idx[i + offset] % shape[i];
        assert dimIdx == reduced[i];
        linear := linear + dimIdx * stride;
        stride := stride * shape[i];
      }
      assert reduced[0..] == reduced && shape[0..] == shape;
    }

    /**
     * Writes the mixed-radix digits of `linear` for `shape` into the first
     * `|shape|` slots of `idx`, last dimension first.
     */
    static method IndexFromLinear(linear: int, shape: seq<int>, idx: array<int>)
      requires 0 <= linear && PositiveShape(shape) && |shape| <= idx.Length
      modifies idx
      ensures idx[..|shape|] == Digits(linear, shape)
      ensures idx[|shape|..] == old(idx[|shape|..])
    {
      var l := linear;
      var i := |shape|;
      DivModUnique(linear, 1, linear, 0);
      while i > 0
        invariant 0 <= i <= |shape|
        invariant l == linear / Product(shape[i..])
        invariant idx[i..|shape|] == Digits(linear, shape[i..])
        invariant idx[|shape|..] == old(idx[|shape|..])
      {
        i := i - 1;
        assert shape[i..][1..] == shape[i + 1..];
        MixedRadixStep(linear, shape[i], Product(shape[i + 1..]));
        idx[i] := l % shape[i];
        l := l / shape[i];
        assert idx[i..|shape|] == [idx[i]] + idx[i + 1..|shape|];
      }
      assert shape[0..] == shape;
    }
  }

  /** The size of a two-dimensional shape is the product of its two dimensions. */
  lemma ProductOfPair(s: seq<int>)
    requires |s| == 2
    ensures Product(s) == s[0] * s[1]
  {
    assert s[1..][1..] == [];
    assert Product(s[1..]) == s[1] * Product(s[1..][1..]);
  }

  /**
   * Reshaping to `s2` and back to the original shape gives back an array
   * with the original shape and the original elements in the original order.
   */
  method ReshapeRoundTrip(a: NDArray, s2: seq<int>) returns (r: Result<NDArray>)
    requires a.Valid() && PositiveShape(s2) && Product(s2) == a.size
    ensures r.Ok? && r.value.Valid()
    ensures r.value.shape == a.shape && r.value.data[..] == a.data[..]
  {
    var b := a.Reshape(s2);
    r := b.value.Reshape(a.shape);
  }

  /**
   * On a `2 x 3` array the unchecked `Get` accepts the tuple `(0, 3)` and
   * returns the first element of the second row, while `CheckedGet`
   * rejects the same tuple.
   */
  method UncheckedGetReadsNextRow(a: NDArray) returns (unchecked: Result<int>, checked: Result<int>)
    requires a.Valid() && a.shape == [2, 3]
    ensures a.data.Length == 6 && unchecked == Ok(a.data[3])
    ensures checked.Err? && checked.error.IllegalArgument?
  {
    UncheckedTupleAliases();
    ProductOfPair(a.shape);
    unchecked := a.Get([0, 3]);
    checked := a.CheckedGet([0, 3]);
  }
}
