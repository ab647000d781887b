# numpy4j NDArray core in Dafny

This project models the dense n-dimensional array of numpy4j:

- the class `NDArray`: a shape, its size and a flat row-major buffer;
- its element access (`get`, `set` and the private `linearIndex`);
- addition with NumPy broadcasting;
- reshape, sum, the two-dimensional slice and the two-dimensional matrix product;
- the free-standing vector dot product `LinearAlgebra.dot`.

Layout of the project:

- `outcomes.dfy` (module `Outcomes`): the exceptions the array code throws, as values. `IllegalArgumentException` and `UnsupportedOperationException` carry their messages. The bounds failure of a Java array access carries the offending offset. A method that throws returns `Err`/`Failed` instead.
- `shape_math.dfy` (module `ShapeMath`): index arithmetic. It defines:
  - `Product`, the size of a shape;
  - `RowMajorOffset`, the offset of a tuple, where each component is weighted by the product of the dimensions to its right;
  - `Digits`, the mixed-radix decomposition that `indexFromLinear` computes;
  - the broadcasting rules: `Compatible`, `BroadcastDims`, and `Reduce`/`StretchIndex` for the operand element behind a tuple of the result.
  It proves the round trips between offsets and tuples and the algebra of broadcasting.
- `buffers.dfy` (module `Buffers`): what the operations compute, as functions of flat buffers:
  - `SumOf` and `SumProducts`;
  - `MatMul`, the matrix product, row after row;
  - `Window`, the block a slice copies;
  - `BroadcastSum`.
  It also holds element lemmas that connect each function to the places the loops write, and the worked examples from the source's documentation and tests.
- `ndarray.dfy` (module `Core`): the class `NDArray`. Every method that loops in Java is a Dafny method with the same loop and its invariants. Each method's `ensures` ties its result to the matching function: element access and the broadcasting helpers to the functions of `ShapeMath`, and add, sum, slice and dot to those of `Buffers`.
- `linear_algebra.dfy` (module `LinearAlgebra`): `Dot` on two arrays, read as flat buffers.

The fields of the Java class are `final`, so `shape`, `size` and `data` are `const`. Only the contents of `data` change, through `Set`. `Valid()` is the class invariant: every dimension is positive, `size` is the product of the shape, and the buffer holds `size` elements.

## Model

| member | source | states |
|---|---|---|
| `Core.NDArray.constructor` | src/main/java/org/numpy4j/core/NDArray.java:58-62 | the new array is valid, has the given shape, and holds `Product(shape)` zeros in a fresh buffer |
| `Core.NDArray.Copy` | src/main/java/org/numpy4j/core/NDArray.java:64-70 | the new array is valid, has the given shape, and holds a fresh copy of the given buffer |
| `Core.NDArray.FromData` | src/main/java/org/numpy4j/core/NDArray.java:64-70 | fails with "Data size does not match shape" exactly when the buffer length differs from the size of the shape; otherwise returns a valid array that copies the buffer |
| `Core.NDArray.Get` | src/main/java/org/numpy4j/core/NDArray.java:79-82 | a wrong number of indices fails with "Incorrect number of indices"; otherwise returns the element at the row-major offset of the tuple, or fails with an out-of-bounds error when that offset is outside the buffer; an in-range tuple never fails |
| `Core.NDArray.Set` | src/main/java/org/numpy4j/core/NDArray.java:91-94 | the same failures as `Get`; on success exactly the element at the tuple's offset becomes `value`; a failed call leaves the buffer unchanged |
| `Core.NDArray.LinearIndex` | src/main/java/org/numpy4j/core/NDArray.java:96-105 | fails exactly when the number of indices differs from the number of dimensions; otherwise the result is the row-major offset, and lies inside the array when the tuple is in range |
| `Core.WriteThenRead` | src/main/java/org/numpy4j/core/NDArray.java:79-94 | after a write at one in-range tuple, a read at another in-range tuple sees the new value exactly when the two tuples are equal |
| `Core.UncheckedTupleAliases` | src/main/java/org/numpy4j/core/NDArray.java:96-105 | in a `2 x 3` array the out-of-range tuple `(0, 3)` has the same offset as the in-range tuple `(1, 0)` |
| `Core.UncheckedGetReadsNextRow` | src/main/java/org/numpy4j/core/NDArray.java:72-82 | on a `2 x 3` array, `Get` accepts `(0, 3)` and returns element 3, the first element of the second row, while `CheckedGet` rejects the same tuple |
| `Core.NDArray.CheckedLinearIndex` | src/main/java/org/numpy4j/core/NDArray.java:72-105 | fails exactly when the tuple is not in range, with "Incorrect number of indices" for a wrong count and an illegal-argument error for a component outside its dimension; otherwise the result is the row-major offset and lies inside the buffer |
| `Core.NDArray.CheckedGet` | src/main/java/org/numpy4j/core/NDArray.java:72-82 | succeeds exactly on in-range tuples and returns the element at the tuple's offset; every failure is an illegal-argument error |
| `Core.NDArray.CheckedSet` | src/main/java/org/numpy4j/core/NDArray.java:84-94 | succeeds exactly on in-range tuples and then changes only the element at the tuple's offset; a rejected tuple is an illegal-argument error and leaves the buffer unchanged |
| `Core.NDArray.Add` | src/main/java/org/numpy4j/core/NDArray.java:114-126 | fails with "Shapes cannot be broadcast" exactly when the shapes are not compatible; otherwise the result is a fresh valid array of the broadcast shape whose buffer is `BroadcastSum` of the operands |
| `Core.NDArray.AddAt` | src/main/java/org/numpy4j/core/NDArray.java:120-123 | one pass of the loop body: it leaves the digits of `i` in the scratch tuple and writes slot `i` of `BroadcastSum` into the result, changing no other slot |
| `Core.NDArray.GetData` | src/main/java/org/numpy4j/core/NDArray.java:147-149 | returns a fresh array with the same contents as the buffer |
| `Core.NDArray.GetShape` | src/main/java/org/numpy4j/core/NDArray.java:138-140 | the shape, one entry per dimension |
| `Core.NDArray.GetNdims` | src/main/java/org/numpy4j/core/NDArray.java:404-406 | the number of dimensions |
| `Core.NDArray.GetSize` | src/main/java/org/numpy4j/core/NDArray.java:396-401 | fails with "Data length does not match shape" exactly when the recorded size differs from the buffer length; a valid array reports its buffer length |
| `Core.NDArray.Reshape` | src/main/java/org/numpy4j/core/NDArray.java:172-177 | fails with "Total size must remain unchanged" exactly when the new shape has a different size; otherwise returns a fresh valid array with the new shape and the same elements in the same order |
| `Core.ReshapeRoundTrip` | src/main/java/org/numpy4j/core/NDArray.java:172-177 | reshaping to a shape of the same size and back restores the original shape and elements, and neither step fails |
| `Core.NDArray.Sum` | src/main/java/org/numpy4j/core/NDArray.java:187-191 | the sum of every element of the buffer, accumulated in buffer order |
| `Core.NDArray.Slice` | src/main/java/org/numpy4j/core/NDArray.java:246-273 | the error order of the source (count of ranges, then bounds of each range, then rank); succeeds exactly for a two-dimensional array with valid ranges, and the result has the range lengths as its shape and the `Window` of the ranges as its buffer |
| `Core.NDArray.SliceWindow` | src/main/java/org/numpy4j/core/NDArray.java:262-268 | the two nested copy loops fill a fresh buffer with exactly the `rows x cols` window at `(r0, c0)` |
| `Core.NDArray.Dot` | src/main/java/org/numpy4j/core/NDArray.java:302-327 | fails with the unsupported-operation error unless both arrays are two-dimensional, and with "Inner dimensions must match for dot product" when the inner dimensions differ, and otherwise succeeds; the result is an `m x p` array whose buffer is `MatMul` of the operands |
| `Core.NDArray.DotLoops` | src/main/java/org/numpy4j/core/NDArray.java:314-324 | the loops over `i` and `j` fill a fresh buffer with exactly the matrix product |
| `Core.NDArray.DotStore` | src/main/java/org/numpy4j/core/NDArray.java:318-322 | one pass of the loop over `j`: it writes entry `(i, j)` of the matrix product into slot `i * p + j` and changes no other slot |
| `Core.NDArray.DotCell` | src/main/java/org/numpy4j/core/NDArray.java:318-321 | the innermost loop accumulates entry `(i, j)` of the product: row `i` against column `j` |
| `Core.NDArray.BroadcastShape` | src/main/java/org/numpy4j/core/NDArray.java:363-373 | fails with "Shapes cannot be broadcast" exactly when some right-aligned pair of dimensions differs and neither is 1; otherwise returns the broadcast shape |
| `Core.NDArray.LinearIndexWithBroadcast` | src/main/java/org/numpy4j/core/NDArray.java:376-385 | the offset, inside an operand, of the element that broadcasts to the tuple; it always lies inside the operand's buffer |
| `Core.NDArray.IndexFromLinear` | src/main/java/org/numpy4j/core/NDArray.java:388-393 | writes the mixed-radix digits of `linear` into the first entries of `idx` and leaves the rest of `idx` unchanged |
| `Core.ProductOfPair` | src/main/java/org/numpy4j/core/NDArray.java:307-314 | the size of an `m x n` shape is `m * n`, the length of the buffer the two-dimensional loops index |
| `LinearAlgebra.Dot` | src/main/java/org/numpy4j/linalg/LinearAlgebra.java:6-15 | fails with "Arrays must be the same length for dot product" exactly when the buffers differ in length, whatever the shapes; otherwise returns the sum of the products of corresponding elements; it modifies neither array |
| `ShapeMath.Product` | src/main/java/org/numpy4j/core/NDArray.java:60 | the size of a shape with positive dimensions is positive |
| `ShapeMath.RowMajorOffset` | src/main/java/org/numpy4j/core/NDArray.java:96-105 | the offset of an in-range tuple lies in `[0, Product(s))` |
| `ShapeMath.OffsetStep` | src/main/java/org/numpy4j/core/NDArray.java:100-103 | one step of the right-to-left loop: dimension `i` is weighted by the size of the dimensions after it |
| `ShapeMath.Digits` | src/main/java/org/numpy4j/core/NDArray.java:388-393 | the digits of a non-negative offset always form an in-range tuple |
| `ShapeMath.DigitsSkipsWholeBlocks` | src/main/java/org/numpy4j/core/NDArray.java:388-393 | adding whole multiples of the size does not change the digits |
| `ShapeMath.MixedRadixStep` | src/main/java/org/numpy4j/core/NDArray.java:389-392 | dividing by `a * b` is dividing by `b` and then by `a`, and the remainders combine the same way |
| `ShapeMath.OffsetOfDigits` | src/main/java/org/numpy4j/core/NDArray.java:388-393 | the offset of the digits of `l` is `l` modulo the size |
| `ShapeMath.DigitsOfOffset` | src/main/java/org/numpy4j/core/NDArray.java:96-105 | an in-range tuple is recovered from its offset |
| `ShapeMath.DigitsRoundTrip` | src/main/java/org/numpy4j/core/NDArray.java:388-393 | for an offset inside the array, the digits are an in-range tuple whose offset is the original offset |
| `ShapeMath.OffsetInjective` | src/main/java/org/numpy4j/core/NDArray.java:96-105 | two in-range tuples share an offset if and only if they are equal |
| `ShapeMath.Offset2` | src/main/java/org/numpy4j/core/NDArray.java:266 | the offset of `(i, j)` in an `m x n` shape is `i * n + j` |
| `ShapeMath.BroadcastDims` | src/main/java/org/numpy4j/core/NDArray.java:363-373 | the broadcast shape is as long as the longer operand, and is positive when both operands are |
| `ShapeMath.BroadcastFromEnd` | src/main/java/org/numpy4j/core/NDArray.java:366-370 | read from the right, each dimension of the broadcast shape is the larger of the aligned pair, with a missing dimension read as 1 |
| `ShapeMath.BroadcastStretches` | src/main/java/org/numpy4j/core/NDArray.java:363-373 | each operand of a compatible pair stretches to the broadcast shape: every aligned dimension is 1 or equal to the result's |
| `ShapeMath.BroadcastSymmetric` | src/main/java/org/numpy4j/core/NDArray.java:363-373 | compatibility and the broadcast shape do not depend on the order of the operands |
| `ShapeMath.BroadcastSelf` | src/main/java/org/numpy4j/core/NDArray.java:363-373 | a shape broadcasts with itself to itself |
| `ShapeMath.Reduce` | src/main/java/org/numpy4j/core/NDArray.java:376-385 | the reduced operand tuple is always in range for the operand |
| `ShapeMath.BroadcastOffset` | src/main/java/org/numpy4j/core/NDArray.java:376-385 | the operand offset always lies inside the operand |
| `ShapeMath.StretchIndex` | src/main/java/org/numpy4j/core/NDArray.java:107-113 | one component per operand dimension |
| `ShapeMath.ReduceIsStretch` | src/main/java/org/numpy4j/core/NDArray.java:380 | on tuples of the broadcast shape, the `% shape[i]` of the code is the NumPy rule: a stretched dimension reads index 0, any other reads the tuple's own component |
| `ShapeMath.ReduceOwnShape` | src/main/java/org/numpy4j/core/NDArray.java:376-385 | on a tuple of the operand's own shape, reduction is the identity |
| `Buffers.SumProductsIsSumOfProducts` | src/main/java/org/numpy4j/linalg/LinearAlgebra.java:11-14 | the accumulated dot product equals the sum of the element-wise products |
| `Buffers.SumOfPointwise` | src/main/java/org/numpy4j/core/NDArray.java:187-191 | the sum of an element-wise sum is the sum of the two sums |
| `Buffers.SumProductsSymmetric` | src/main/java/org/numpy4j/linalg/LinearAlgebra.java:6-15 | the dot product does not depend on the order of its operands |
| `Buffers.Row` | src/main/java/org/numpy4j/core/NDArray.java:319-320 | row `i` has `n` elements |
| `Buffers.Column` | src/main/java/org/numpy4j/core/NDArray.java:319-320 | column `j` has `n` elements |
| `Buffers.ProductRow` | src/main/java/org/numpy4j/core/NDArray.java:317-323 | entry `k` of a row of the product is `Cell(i, k)` |
| `Buffers.CellStep` | src/main/java/org/numpy4j/core/NDArray.java:319-321 | one more pass of the `k` loop adds `x[i*n+k] * y[k*p+j]` to the partial inner product, and both reads lie inside the buffers |
| `Buffers.CellDone` | src/main/java/org/numpy4j/core/NDArray.java:318-322 | the finished `k` loop gives the product's entry |
| `Buffers.MatMul` | src/main/java/org/numpy4j/core/NDArray.java:314 | the product of `m` rows has `m * p` entries |
| `Buffers.MatMulNextRow` | src/main/java/org/numpy4j/core/NDArray.java:316-324 | one more pass of the `i` loop appends row `i` of the product |
| `Buffers.MatMulAt` | src/main/java/org/numpy4j/core/NDArray.java:322 | entry `(i, j)` of the product sits at offset `i * p + j` |
| `Buffers.VectorDotIsMatMul` | src/main/java/org/numpy4j/linalg/LinearAlgebra.java:6-15 | the vector dot product is the `1 x 1` matrix product of a row with a column |
| `Buffers.Window` | src/main/java/org/numpy4j/core/NDArray.java:263 | the window holds `rows * width` elements |
| `Buffers.WindowLastRow` | src/main/java/org/numpy4j/core/NDArray.java:255-266 | the last row segment of a window ends inside the matrix |
| `Buffers.WindowNextRow` | src/main/java/org/numpy4j/core/NDArray.java:264-267 | one more pass of the row loop appends the next row segment |
| `Buffers.WindowAt` | src/main/java/org/numpy4j/core/NDArray.java:266 | element `(r, c)` of the window is element `(r0 + r, c0 + c)` of the matrix |
| `Buffers.BroadcastSum` | src/main/java/org/numpy4j/core/NDArray.java:114-126 | the sum has one slot per element of the broadcast shape |
| `Buffers.BroadcastSumSlot` | src/main/java/org/numpy4j/core/NDArray.java:120-123 | slot `i` adds the operand elements that the digits of `i` reduce to |
| `Buffers.BroadcastSumAt` | src/main/java/org/numpy4j/core/NDArray.java:107-126 | read at a tuple of the result, the sum adds the elements NumPy names: index 0 in stretched dimensions and the tuple's own component elsewhere |
| `Buffers.SameShapeOffset` | src/main/java/org/numpy4j/core/NDArray.java:120-122 | with no dimension stretched, slot `i` of the result reads slot `i` of the operand |
| `Buffers.AddSameShape` | src/main/java/org/numpy4j/core/NDArray.java:114-126 | operands of the same shape broadcast to that shape and add slot by slot |
| `Buffers.AddCommutes` | src/main/java/org/numpy4j/core/NDArray.java:114-126 | broadcast addition is commutative |
| `Buffers.ColumnRowShape` | src/main/java/org/numpy4j/core/NDArray.java:363-373 | an `m x 1` column and a `1 x n` row are compatible and broadcast to `m x n` |
| `Buffers.ColumnPlusRow` | src/main/java/org/numpy4j/core/NDArray.java:114-126 | a column plus a row is their table of pairwise sums: slot `i` of the `m x n` result adds element `i / n` of the column to element `i % n` of the row |
| `Buffers.SumProductsOfThree` | src/test/java/org/numpy4j/tests/linalg/TestLinearAlgebra.java:13-18 | a dot product of length three, written out |
| `Buffers.DotExample` | src/test/java/org/numpy4j/tests/linalg/TestLinearAlgebra.java:13-18 | `[1, 2, 3]` dot `[4, 5, 6]` is 32 |
| `Buffers.Cell2x3x2` | src/test/java/org/numpy4j/tests/core/NDArrayTest.java:17-23 | an entry of a `2 x 3` by `3 x 2` product, written out |
| `Buffers.MatMul2x3x2` | src/test/java/org/numpy4j/tests/core/NDArrayTest.java:17-23 | the `2 x 3` by `3 x 2` product lists its four entries row by row |
| `Buffers.MatMulExamples` | src/main/java/org/numpy4j/core/NDArray.java:284-294 | the products in the documentation of `dot` and its test: `[20, 14, 56, 41]` and `[58, 64, 139, 154]` |
| `Buffers.WindowExample` | src/main/java/org/numpy4j/core/NDArray.java:226-238 | the slice in the documentation of `slice`: rows `[0, 2)` and columns `[1, 3)` of the `3 x 3` matrix are `[2, 3, 5, 6]` |
| `Buffers.AddExample` | src/test/java/org/numpy4j/tests/core/NDArrayTest.java:10-15 | `[1..6]` plus `[6..1]`, both `2 x 3`, is six sevens |
| `Buffers.BroadcastExampleShape` | src/test/python/generate_tests.py:74-85 | the broadcast case of the generated tests: a `(2, 1)` column and a `(1, 3)` row broadcast to `(2, 3)` |
| `Buffers.BroadcastExampleSlot` | src/test/python/generate_tests.py:74-85 | for any `(2, 1)` and `(1, 3)` operands, as the generated tests draw them at random, slot `i` of the sum is element `i / 3` of the column plus element `i % 3` of the row |

## Left out

- Elements are mathematical integers, not `double`. Rounding, NaN, infinities and the test tolerance `1e-10` are not modelled. `SumOfPointwise` regroups a sum, which holds for integers but not in general for rounded `double` sums. `SumProductsSymmetric`, `SumProductsIsSumOfProducts` and `AddCommutes` keep the order of accumulation and use only the commutativity of a single `+` or `*`, so they hold for `double` too.
- Java `int` overflow of sizes, strides and offsets is not modelled. Index arithmetic is unbounded.
- `Valid()` requires every dimension to be at least 1, and the constructors, `FromData` and `Reshape` require a positive shape. The source accepts any dimensions. A zero dimension gives an empty array. A negative product makes `new double[size]` throw `NegativeArraySizeException`. An even number of negative dimensions gives a positive size, so `new NDArray(-2, -3)` builds a six-element array, and `reshape(-2, -3)` of a six-element array succeeds. None of these shapes is modelled.
- `Core.NDArray.Reshape`: requires a positive new shape, where the source also runs on zero or negative dimensions.
- The shape is an immutable `seq<int>`, so `GetShape` returns the value itself. In Java `getShape` returns a cloned array. Both let no caller alter the array's shape.
- `slice` takes an `int[][]` of `{start, end}` pairs. The model takes a sequence of `SliceRange` values, so two cases are not represented: a sub-array with fewer than two entries, on which Java throws `ArrayIndexOutOfBoundsException`, and a longer one, whose extra entries Java ignores.
- The private helpers `broadcastShape`, `linearIndexWithBroadcast` and `indexFromLinear` ignore `this` and are modelled as static methods. `linearIndexWithBroadcast` takes the scratch array that `indexFromLinear` filled.
- `AddAt`, `SliceWindow`, `DotLoops`, `DotStore` and `DotCell` are loop bodies and inner loops split out of `add`, `slice` and `dot`. They keep the same loops.
- Inside the loops of `Slice` and `Dot` every tuple is in range, so the model reads through `CheckedGet`. On in-range tuples `CheckedGet` and `Get` return the same element.
- `toString` and `formatArray` (text formatting), `power` and `mean` (floating point) are not modelled. Neither is the unused private `checkShapeMatch`.
- The comment about optional multithreading describes nothing in this code. The model is sequential.
- `Activations`, `ActivationFunction`, `Numpy` and `RandomUtils` are not part of this model, and neither are the `LinearAlgebra` operations other than `dot`. The tests call `transpose`, `matmul` and `eye`, which do not appear in `LinearAlgebra.java`.

## Findings

| source | as written | input that shows it | evidently intended | confidence | as-written member | corrected member |
|---|---|---|---|---|---|---|
| src/main/java/org/numpy4j/core/NDArray.java:72-105 | `get` and `set` are documented to throw `IllegalArgumentException` when an index value is invalid, but `linearIndex` checks only the number of indices | `get(0, 3)` on a `2 x 3` array has offset 3 and returns the element at `(1, 0)` instead of throwing | every component is checked against its dimension, so that only in-range tuples are accepted | high; not executed | `Core.UncheckedGetReadsNextRow` | `Core.NDArray.CheckedGet` |

In the model, `Get`, `Set` and `LinearIndex` follow the code as written. An out-of-range tuple whose offset falls inside the buffer reads or writes another element. An offset outside the buffer is the array bounds failure (`IndexOutOfBounds`). `CheckedLinearIndex`, `CheckedGet` and `CheckedSet` are the corrected versions, and the loops of `Slice` and `Dot` use `CheckedGet`.
