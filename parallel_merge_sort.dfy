/** ParallelMergeSortAlgorithm (ADP_2024/ParallelMergeSort/ParallelMergeSortAlgorithm.cs):
    a merge sort whose top levels run the two halves through Parallel.Invoke
    as long as the range spans at least `threshold` cells. The halves are
    disjoint, so the two calls are composed one after the other here. */
module ParallelMergeSort {
  import opened Wrappers
  import opened SortSpec
  import opened Merging

  /** The static class, with its static mutable `threshold` as a field. */
  class ParallelMergeSortAlgorithm {
    var threshold: int

    /** The static initialiser: the threshold starts at 5000. */
    constructor ()
      ensures threshold == 5000
    {
      threshold := 5000;
    }

    /** SetThreshold(newThreshold). */
    method SetThreshold(newThreshold: int)
      modifies this
      ensures threshold == newThreshold
    {
      threshold := newThreshold;
    }

    /** Sort(array): a null array is refused; otherwise the whole array is
        merge-sorted through a fresh `temp` of the same length. The result
        is sorted, a permutation of the input and stable, whatever the
        threshold. */
    method Sort<T(0)>(a: array?<T>, key: T -> int) returns (r: Outcome)
      modifies a
      ensures a == null <==> r == Fail(ArgumentNull)
      ensures a != null ==> r == Pass && a[..] == MergeSorted(old(a[..]), key)
      ensures a != null ==> SortedBy(a[..], key) && multiset(a[..]) == multiset(old(a[..]))
      ensures a != null ==> StableArrangementOf(a[..], old(a[..]), key)
    {
      if a == null {
        return Fail(ArgumentNull);
      }
      ghost var before := a[..];
      var temp := new T[a.Length];
      ParallelMergeSort(a, 0, a.Length - 1, temp, key);
      if a.Length > 0 {
        SortedRangeWhole(before, key);
      } else {
        assert MergeSorted(before, key) == before;
      }
      MergeSortedCorrect(before, key);
      r := Pass;
    }

    /** ParallelMergeSort(array, left, right, temp): below the threshold the
        halves go to the sequential MergeSort, from it on to this method
        again; then the halves are merged. Either way the range ends up as
        the sequential MergeSort leaves it. */
    method ParallelMergeSort<T>(a: array<T>, left: int, right: int, temp: array<T>, key: T -> int)
      requires a != temp && temp.Length == a.Length
      requires left >= right || (0 <= left && right < a.Length)
      modifies a, temp
      ensures 0 <= left <= right < a.Length ==> a[..] == SortedRange(old(a[..]), left, right, key)
      ensures !(0 <= left <= right < a.Length) ==> a[..] == old(a[..])
      decreases right - left
    {
      if left < right {
        var mid := (left + right) / 2;
        MidpointSplit(left, mid, right);
        ghost var s0 := a[..];
        ghost var s1: seq<T>;
        if right - left < threshold {
          MergeSort(a, left, mid, temp, key);
          s1 := a[..];
          MergeSort(a, mid + 1, right, temp, key);
        } else {
          ParallelMergeSort(a, left, mid, temp, key);
          s1 := a[..];
          ParallelMergeSort(a, mid + 1, right, temp, key);
        }
        ghost var s2 := a[..];
        Merge(a, left, mid, right, temp, key);
        SortHalvesThenMerge(s0, s1, s2, a[..], left, mid, right, key);
      } else if 0 <= left <= right < a.Length {
        SortedRangeOfOne(a[..], left, key);
      }
    }
  }
}
