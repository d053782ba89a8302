/** np_array_fromiter: a new array of the given shape, filled slot by slot
    from an iterator. */
module FromIter {
  import opened Results

  /** `blank` stands for what np.empty(shape) leaves in the new array, so
      shape[0] == |blank|; `items` is what the iterator yields, in order.
      Slot idx receives item idx; an item past the end raises IndexError. */
  method ArrayFromIter<T>(items: seq<T>, blank: seq<T>) returns (r: Result<array<T>>)
    ensures r.Err? <==> |items| > |blank|
    ensures r.Err? ==> r.error == IndexOutOfBounds(|blank|, |blank|)
    ensures r.Ok? ==> fresh(r.value) && r.value.Length == |blank|
    ensures r.Ok? ==> forall idx :: 0 <= idx < |items| ==> r.value[idx] == items[idx]
    ensures r.Ok? ==> forall k :: |items| <= k < |blank| ==> r.value[k] == blank[k]
  {
    var arr := new T[|blank|](k requires 0 <= k < |blank| => blank[k]);
    for idx := 0 to |items|
      invariant idx <= arr.Length == |blank|
      invariant forall k :: 0 <= k < idx ==> arr[k] == items[k]
      invariant forall k :: idx <= k < arr.Length ==> arr[k] == blank[k]
    {
      if idx >= arr.Length {
        return Err(IndexOutOfBounds(idx, arr.Length));
      }
      arr[idx] := items[idx];
    }
    return Ok(arr);
  }
}
