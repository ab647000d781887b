/**
 * Index arithmetic of a row-major dense array: sizes, flat offsets,
 * mixed-radix decomposition and NumPy-style broadcasting.
 */
module ShapeMath {

  // ---------------------------------------------------------------------
  // Arithmetic facts about Euclidean division used below
  // ---------------------------------------------------------------------

  /** Quotient and remainder are determined by the defining equation. */
  lemma DivModUnique(a: int, d: int, q: int, r: int)
    requires 0 < d && 0 <= r < d && a == q * d + r
    ensures a / d == q && a % d == r
  {
    var q', r' := a / d, a % d;
    assert a == q' * d + r';
    if q' < q {
      MulMonotone(q' + 1, q, d);
      assert false;
    } else if q < q' {
      MulMonotone(q + 1, q', d);
      assert false;
    }
  }

  /** Multiplying by a non-negative number keeps the order. */
  lemma MulMonotone(x: int, y: int, d: int)
    requires x <= y && 0 <= d
    ensures x * d <= y * d
  {
    assert y * d - x * d == (y - x) * d;
  }

  /** One more row of `b` elements. */
  lemma NextRow(a: int, b: int)
    ensures (a - 1) * b + b == a * b && (a + 1) * b == a * b + b
  {
  }

  /** Expanding `(q * a + r2) * b + r`, the form of a two-digit mixed-radix number. */
  lemma Regroup(q: int, a: int, r2: int, b: int, r: int)
    ensures (q * a + r2) * b + r == q * (a * b) + (r2 * b + r)
  {
    assert (q * a + r2) * b == (q * a) * b + r2 * b;
    assert (q * a) * b == q * (a * b);
  }

  /** One step of mixed-radix arithmetic: dividing by `a * b` is dividing by `b`, then by `a`. */
  lemma MixedRadixStep(l: int, a: int, b: int)
    requires 0 <= l && 0 < a && 0 < b
    ensures l / (a * b) == (l / b) / a
    ensures l % (a * b) == ((l / b) % a) * b + l % b
  {
    var q, r := l / b, l % b;
    var q2, r2 := q / a, q % a;
    Regroup(q2, a, r2, b, r);
    MulMonotone(r2, a - 1, b);
    NextRow(a, b);
    DivModUnique(l, a * b, q2, r2 * b + r);
  }

  /** The quotient of a non-negative number by a positive one is non-negative. */
  lemma DivNonNegative(a: int, d: int)
    requires 0 <= a && 0 < d
    ensures 0 <= a / d
  {
  }

  /** Adding whole multiples of the divisor shifts the quotient and keeps the remainder. */
  lemma DivModAddMultiple(k: int, d: int, r: int)
    requires 0 <= k && 0 < d && 0 <= r
    ensures (k * d + r) / d == k + r / d
    ensures (k * d + r) % d == r % d
  {
    assert k * d + r == (k + r / d) * d + r % d;
    DivModUnique(k * d + r, d, k + r / d, r % d);
  }

  /** `a * p + b` stays below `m * p` when `a < m` and `b < p`. */
  lemma MixedBound(a: int, m: int, b: int, p: int)
    requires 0 <= a < m && 0 <= b < p
    ensures 0 <= a * p + b < m * p
  {
    assert a * p <= (m - 1) * p;
  }

  // ---------------------------------------------------------------------
  // Shapes and sizes
  // ---------------------------------------------------------------------

  /** Every dimension of the shape is at least one. */
  predicate PositiveShape(s: seq<int>)
  {
    forall i :: 0 <= i < |s| ==> s[i] > 0
  }

  /** Number of elements an array of shape `s` holds; 1 for the empty shape. */
  function Product(s: seq<int>): (r: int)
    ensures PositiveShape(s) ==> r > 0
  {
    if |s| == 0 then 1 else s[0] * Product(s[1..])
  }

  /** The tuple names an element: one component per dimension, each in `[0, s[i])`. */
  predicate InBox(idx: seq<int>, s: seq<int>)
  {
    |idx| == |s| && forall i :: 0 <= i < |s| ==> 0 <= idx[i] < s[i]
  }

  /** No component is negative. */
  predicate NonNegative(idx: seq<int>)
  {
    forall i :: 0 <= i < |idx| ==> idx[i] >= 0
  }

  // ---------------------------------------------------------------------
  // Row-major offsets and their inverse
  // ---------------------------------------------------------------------

  /**
   * Row-major offset of a tuple: component `i` is weighted by its stride,
   * the product of the dimensions to the right of `i`.
   */
  function RowMajorOffset(idx: seq<int>, s: seq<int>): (r: int)
    requires |idx| == |s|
    ensures InBox(idx, s) ==> 0 <= r < Product(s)
  {
    if |s| == 0 then 0
    else
      var rest := RowMajorOffset(idx[1..], s[1..]);
      assert InBox(idx, s) ==> 0 <= idx[0] * Product(s[1..]) + rest < Product(s) by {
        if InBox(idx, s) {
          assert InBox(idx[1..], s[1..]);
          MixedBound(idx[0], s[0], rest, Product(s[1..]));
        }
      }
      idx[0] * Product(s[1..]) + rest
  }

  /** Peeling dimension `i` off the suffix starting there: its component is weighted by the size of the rest. */
  lemma OffsetStep(idx: seq<int>, s: seq<int>, i: int)
    requires |idx| == |s| && 0 <= i < |s|
    ensures RowMajorOffset(idx[i..], s[i..]) == idx[i] * Product(s[i + 1..]) + RowMajorOffset(idx[i + 1..], s[i + 1..])
    ensures Product(s[i..]) == s[i] * Product(s[i + 1..])
  {
    var t, u := idx[i..], s[i..];
    assert t[1..] == idx[i + 1..] && u[1..] == s[i + 1..];
    assert t[0] == idx[i] && u[0] == s[i];
  }

  /**
   * Mixed-radix digits of `l`: digit `i` is `l` divided by the stride of
   * dimension `i`, reduced modulo that dimension.
   */
  function Digits(l: int, s: seq<int>): (d: seq<int>)
    requires 0 <= l && PositiveShape(s)
    ensures InBox(d, s)
  {
    if |s| == 0 then []
    else [(l / Product(s[1..])) % s[0]] + Digits(l, s[1..])
  }

  /** The digits of `l` depend on `l` only modulo the size of the shape. */
  lemma {:induction false} DigitsSkipsWholeBlocks(q: int, r: int, s: seq<int>)
    requires 0 <= q && 0 <= r && PositiveShape(s)
    ensures Digits(q * Product(s) + r, s) == Digits(r, s)
    decreases |s|
  {
    if |s| > 0 {
      var t := s[1..];
      var pt := Product(t);
      assert s[0] > 0 && pt > 0;
      var rq := r / pt;
      DivNonNegative(r, pt);
      var l := q * Product(s) + r;
      assert Product(s) == s[0] * pt;
      Regroup(q, s[0], 0, pt, r);
      assert l == (q * s[0]) * pt + r;
      DigitsSkipsWholeBlocks(q * s[0], r, t);
      DivModAddMultiple(q * s[0], pt, r);
      assert l / pt == q * s[0] + rq;
      DivModAddMultiple(q, s[0], rq);
      assert (l / pt) % s[0] == rq % s[0];
    }
  }

  /** Round trip, digits first: the offset of the digits of `l` is `l` modulo the size. */
  lemma {:induction false} OffsetOfDigits(l: int, s: seq<int>)
    requires 0 <= l && PositiveShape(s)
    ensures RowMajorOffset(Digits(l, s), s) == l % Product(s)
  {
    if |s| > 0 {
      var t := s[1..];
      var d := Digits(l, s);
      assert d[1..] == Digits(l, t);
      OffsetOfDigits(l, t);
      MixedRadixStep(l, s[0], Product(t));
    }
  }

  /** Round trip, offset first: an in-range tuple is recovered from its offset. */
  lemma {:induction false} DigitsOfOffset(idx: seq<int>, s: seq<int>)
    requires PositiveShape(s) && InBox(idx, s)
    ensures RowMajorOffset(idx, s) >= 0
    ensures Digits(RowMajorOffset(idx, s), s) == idx
  {
    if |s| > 0 {
      var t := s[1..];
      var pt := Product(t);
      var rest := RowMajorOffset(idx[1..], t);
      assert InBox(idx[1..], t);
      var o := RowMajorOffset(idx, s);
      assert o == idx[0] * pt + rest;
      DivModUnique(o, pt, idx[0], rest);
      DivModUnique(idx[0], s[0], 0, idx[0]);
      DigitsSkipsWholeBlocks(idx[0], rest, t);
      DigitsOfOffset(idx[1..], t);
      assert Digits(o, s) == [idx[0]] + idx[1..];
    }
  }

  /** For offsets inside the array the decomposition is exact. */
  lemma DigitsRoundTrip(l: int, s: seq<int>)
    requires PositiveShape(s) && 0 <= l < Product(s)
    ensures InBox(Digits(l, s), s)
    ensures RowMajorOffset(Digits(l, s), s) == l
  {
    OffsetOfDigits(l, s);
    DivModUnique(l, Product(s), 0, l);
  }

  /** Distinct in-range tuples have distinct offsets. */
  lemma OffsetInjective(i1: seq<int>, i2: seq<int>, s: seq<int>)
    requires PositiveShape(s) && InBox(i1, s) && InBox(i2, s)
    ensures RowMajorOffset(i1, s) == RowMajorOffset(i2, s) <==> i1 == i2
  {
    DigitsOfOffset(i1, s);
    DigitsOfOffset(i2, s);
  }

  /** The offset of a tuple of a two-dimensional shape `(m, n)`. */
  lemma Offset2(i: int, j: int, m: int, n: int)
    ensures RowMajorOffset([i, j], [m, n]) == i * n + j
  {
    assert [i, j][1..] == [j] && [m, n][1..] == [n];
    assert [j][1..] == [] && [n][1..] == [];
  }

  // ---------------------------------------------------------------------
  // Broadcasting
  // ---------------------------------------------------------------------

  function Max(a: int, b: int): int
  {
    if a >= b then a else b
  }

  /** Dimension `k` counted from the right, reading a missing dimension as 1. */
  function FromEnd(s: seq<int>, k: nat): int
  {
    if k < |s| then s[|s| - 1 - k] else 1
  }

  /** Two dimensions broadcast together when they agree or one of them is 1. */
  predicate DimsAgree(x: int, y: int)
  {
    x == y || x == 1 || y == 1
  }

  /** Right-aligned, every pair of dimensions broadcasts together. */
  predicate Compatible(a: seq<int>, b: seq<int>)
  {
    forall k :: 0 <= k < Max(|a|, |b|) ==> DimsAgree(FromEnd(a, k), FromEnd(b, k))
  }

  /**
   * The broadcast shape: as long as the longer operand, each dimension the
   * larger of the right-aligned pair.
   */
  function BroadcastDims(a: seq<int>, b: seq<int>): (r: seq<int>)
    ensures |r| == Max(|a|, |b|)
    ensures PositiveShape(a) && PositiveShape(b) ==> PositiveShape(r)
  {
    var n := Max(|a|, |b|);
    seq(n, i requires 0 <= i < n => Max(FromEnd(a, n - 1 - i), FromEnd(b, n - 1 - i)))
  }

  /** `s` stretches to `r`: right-aligned, each of its dimensions is 1 or the dimension of `r`. */
  predicate StretchesTo(s: seq<int>, r: seq<int>)
  {
    |s| <= |r| && forall k :: 0 <= k < |s| ==> FromEnd(s, k) == 1 || FromEnd(s, k) == FromEnd(r, k)
  }

  /** Reading the broadcast shape from the right gives the larger dimension of each aligned pair. */
  lemma BroadcastFromEnd(a: seq<int>, b: seq<int>, k: nat)
    requires k < Max(|a|, |b|)
    ensures FromEnd(BroadcastDims(a, b), k) == Max(FromEnd(a, k), FromEnd(b, k))
  {
  }

  /** Both operands of a compatible pair stretch to the broadcast shape. */
  lemma BroadcastStretches(a: seq<int>, b: seq<int>)
    requires Compatible(a, b) && PositiveShape(a) && PositiveShape(b)
    ensures StretchesTo(a, BroadcastDims(a, b)) && StretchesTo(b, BroadcastDims(a, b))
  {
    var r := BroadcastDims(a, b);
    forall k | 0 <= k < |a|
      ensures FromEnd(a, k) == 1 || FromEnd(a, k) == FromEnd(r, k)
    {
      BroadcastFromEnd(a, b, k);
    }
    forall k | 0 <= k < |b|
      ensures FromEnd(b, k) == 1 || FromEnd(b, k) == FromEnd(r, k)
    {
      BroadcastFromEnd(a, b, k);
    }
  }

  /** Broadcasting does not depend on the order of the operands. */
  lemma BroadcastSymmetric(a: seq<int>, b: seq<int>)
    ensures Compatible(a, b) <==> Compatible(b, a)
    ensures BroadcastDims(a, b) == BroadcastDims(b, a)
  {
    var r, r' := BroadcastDims(a, b), BroadcastDims(b, a);
    assert |r| == |r'|;
    forall i | 0 <= i < |r| ensures r[i] == r'[i] {
      var n := |r|;
      assert r[i] == Max(FromEnd(a, n - 1 - i), FromEnd(b, n - 1 - i));
      assert r'[i] == Max(FromEnd(b, n - 1 - i), FromEnd(a, n - 1 - i));
    }
  }

  /** A shape broadcasts with itself to itself. */
  lemma BroadcastSelf(s: seq<int>)
    ensures Compatible(s, s)
    ensures BroadcastDims(s, s) == s
  {
    var r := BroadcastDims(s, s);
    assert |r| == |s|;
    forall i | 0 <= i < |s| ensures r[i] == s[i] {
      assert FromEnd(s, |s| - 1 - i) == s[i];
      assert r[i] == Max(FromEnd(s, |s| - 1 - i), FromEnd(s, |s| - 1 - i));
    }
  }

  /**
   * The operand tuple for a tuple `idx` of the broadcast result: the trailing
   * `|s|` components of `idx`, each reduced modulo the operand's dimension.
   */
  function Reduce(idx: seq<int>, s: seq<int>): (r: seq<int>)
    requires |s| <= |idx| && PositiveShape(s) && NonNegative(idx)
    ensures InBox(r, s)
  {
    seq(|s|, j requires 0 <= j < |s| => idx[j + |idx| - |s|] % s[j])
  }

  /** Offset, inside an operand of shape `s`, of the element that broadcasts to `idx`. */
  function BroadcastOffset(idx: seq<int>, s: seq<int>): (r: int)
    requires |s| <= |idx| && PositiveShape(s) && NonNegative(idx)
    ensures 0 <= r < Product(s)
  {
    RowMajorOffset(Reduce(idx, s), s)
  }

  /**
   * The NumPy reading of a broadcast index: a stretched dimension (size 1)
   * contributes index 0, any other dimension the matching component of `idx`.
   */
  function StretchIndex(idx: seq<int>, s: seq<int>): (r: seq<int>)
    requires |s| <= |idx|
    ensures |r| == |s|
  {
    seq(|s|, j requires 0 <= j < |s| => if s[j] == 1 then 0 else idx[j + |idx| - |s|])
  }

  /** Reducing modulo the operand's dimensions is exactly the NumPy stretch rule. */
  lemma ReduceIsStretch(idx: seq<int>, s: seq<int>, r: seq<int>)
    requires PositiveShape(s) && StretchesTo(s, r) && InBox(idx, r)
    ensures Reduce(idx, s) == StretchIndex(idx, s)
  {
    forall j | 0 <= j < |s|
      ensures Reduce(idx, s)[j] == StretchIndex(idx, s)[j]
    {
      var k := |s| - 1 - j;
      assert FromEnd(s, k) == s[j];
      assert FromEnd(r, k) == r[j + |idx| - |s|];
      if s[j] == 1 {
        DivModUnique(idx[j + |idx| - |s|], 1, idx[j + |idx| - |s|], 0);
      } else {
        DivModUnique(idx[j + |idx| - |s|], s[j], 0, idx[j + |idx| - |s|]);
      }
    }
  }

  /** On a tuple of its own shape, reduction is the identity. */
  lemma ReduceOwnShape(idx: seq<int>, s: seq<int>)
    requires PositiveShape(s) && InBox(idx, s)
    ensures Reduce(idx, s) == idx
  {
    forall j | 0 <= j < |s| ensures Reduce(idx, s)[j] == idx[j] {
      DivModUnique(idx[j], s[j], 0, idx[j]);
    }
  }
}
