/**
 * The free-standing vector dot product: both arrays are read as flat
 * buffers, whatever their shapes.
 */
module LinearAlgebra {
  import opened Outcomes
  import opened Buffers
  import opened Core

  const LENGTH_MISMATCH := "Arrays must be the same length for dot product"

  /**
   * Sum of the products of corresponding buffer elements, accumulated in
   * buffer order; throws when the buffers differ in length.
   */
  method Dot(a: NDArray, b: NDArray) returns (r: Result<int>)
    requires a.Valid() && b.Valid()
    ensures r.Err? <==> a.data.Length != b.data.Length
    ensures r.Err? ==> r.error == IllegalArgument(LENGTH_MISMATCH)
    ensures r.Ok? ==> r.value == SumProducts(a.data[..], b.data[..])
  {
    var ad := a.GetData();
    var bd := b.GetData();
    if ad.Length != bd.Length {
      return Err(IllegalArgument(LENGTH_MISMATCH));
    }
    var sum := 0;
    for i := 0 to ad.Length
      invariant sum == SumProducts(ad[..i], bd[..i])
    {
      assert ad[..i + 1][..i] == ad[..i] && bd[..i + 1][..i] == bd[..i];
      sum := sum + ad[i] * bd[i];
    }
    assert ad[..] == ad[..ad.Length] && bd[..] == bd[..bd.Length];
    return Ok(sum);
  }
}
