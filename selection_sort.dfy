/** SelectionSortAlgorithm.SelectionSort (ADP_2024/SelectionSort/SelectionSortAlgorithm.cs). */
module SelectionSortAlgorithm {
  import opened SortSpec

  /** Swap(ref a, ref b) on two cells of the array. */
  method Swap<T>(a: array<T>, i: int, j: int)
    requires 0 <= i < a.Length && 0 <= j < a.Length
    modifies a
    ensures a[..] == old(a[..])[i := old(a[j])][j := old(a[i])]
    ensures multiset(a[..]) == old(multiset(a[..]))
  {
    var temp := a[i];
    a[i] := a[j];
    a[j] := temp;
  }

  /** Repeatedly moves the first minimum of the unsorted part to its front.
      The result is sorted and a permutation of the input; arrays of length
      0 and 1 are left as they are. */
  method SelectionSort<T>(a: array<T>, key: T -> int)
    modifies a
    ensures SortedBy(a[..], key)
    ensures multiset(a[..]) == old(multiset(a[..]))
    ensures a.Length <= 1 ==> a[..] == old(a[..])
  {
    var length := a.Length;
    var i := 0;
    while i < length - 1
      invariant 0 <= i <= length
      invariant length <= 1 ==> a[..] == old(a[..])
      // a[0..i) holds the i smallest elements, in order
      invariant SortedBy(a[..i], key)
      invariant forall p, q :: 0 <= p < i <= q < length ==> key(a[p]) <= key(a[q])
      invariant multiset(a[..]) == old(multiset(a[..]))
    {
      var minIndex := i;
      var j := i + 1;
      while j < length
        invariant i + 1 <= j <= length
        invariant i <= minIndex < j
        // minIndex is the first index of a minimum of a[i..j)
        invariant forall k :: i <= k < j ==> key(a[minIndex]) <= key(a[k])
        invariant forall k :: i <= k < minIndex ==> key(a[minIndex]) < key(a[k])
      {
        if key(a[j]) < key(a[minIndex]) {
          minIndex := j;
        }
        j := j + 1;
      }
      Swap(a, minIndex, i);
      i := i + 1;
    }
  }
}
