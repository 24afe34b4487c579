/** Extensions/MathEx.cs: the minimum of a non-empty list of C# ints. */
module MathEx {
  import opened Bytes

  datatype Result<T> = Success(value: T) | ArgumentException(message: string)

  /** The least element of a non-empty sequence, as a reference for Min. */
  function Smallest(values: seq<int32>): (r: int32)
    requires |values| > 0
    ensures r in values
    ensures forall i | 0 <= i < |values| :: r <= values[i]
  {
    if |values| == 1 then values[0]
    else
      var rest := Smallest(values[1..]);
      if values[0] <= rest then values[0] else rest
  }

  /**
   * Min(params int[] values): an empty list is an ArgumentException; otherwise the
   * accumulator starts at int.MaxValue and keeps the smaller of itself and each element.
   */
  method Min(values: seq<int32>) returns (r: Result<int32>)
    ensures r.ArgumentException? <==> |values| == 0
    ensures r.Success? ==> r.value in values
    ensures r.Success? ==> forall i | 0 <= i < |values| :: r.value <= values[i]
    ensures r.Success? ==> r.value == Smallest(values)
  {
    if |values| < 1 {
      return ArgumentException("values should have at least one element");
    }
    var result := Int32MaxValue;
    for k := 0 to |values|
      invariant forall i | 0 <= i < k :: result <= values[i]
      invariant result == Int32MaxValue || result in values[..k]
    {
      result := if result <= values[k] then result else values[k];
    }
    assert result <= values[0];
    assert result in values[..|values|];
    assert values[..|values|] == values;
    return Success(result);
  }

  /** The minimum does not depend on the order of the elements. */
  lemma {:induction false} SmallestIgnoresOrder(a: seq<int32>, b: seq<int32>)
    requires |a| > 0 && |b| > 0 && multiset(a) == multiset(b)
    ensures Smallest(a) == Smallest(b)
  {
    var x, y := Smallest(a), Smallest(b);
    assert x in multiset(b) && y in multiset(a);
    assert y in a && x in b;
    var i :| 0 <= i < |a| && a[i] == y;
    var j :| 0 <= j < |b| && b[j] == x;
  }
}
