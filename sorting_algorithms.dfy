/** The ADP_2024.SortingAlgorithms namespace: instance-method front ends for
    the quicksort of ADP_2024/SortingAlgorithms/QuickSort.cs and the merge
    sort of ADP_2024/SortingAlgorithms/ParallelMergeSort.cs. Their bodies
    are line-for-line copies of QuickSortAlgorithm.Quicksort and of the
    shared Merge and MergeSort, so they delegate to those models. */
module SortingAlgorithms {
  import opened Wrappers
  import opened SortSpec
  import QuickSortAlgorithm
  import opened Merging

  /** QuickSort: a class without state. */
  class QuickSort {
    constructor ()
    {
    }

    /** QuicksortAlgorithm(array, left, right): the range is sorted and
        rearranged in place, nothing outside it changes, and
        `left >= right` leaves the array alone. */
    method QuicksortAlgorithm<T>(a: array<T>, left: int, right: int, key: T -> int)
      requires left >= right || (0 <= left && right < a.Length)
      modifies a
      ensures left < right ==> Rearranged(old(a[..]), a[..], left, right)
      ensures left < right ==> SortedBy(a[left..right + 1], key)
      ensures multiset(a[..]) == old(multiset(a[..]))
      ensures left >= right ==> a[..] == old(a[..])
    {
      QuickSortAlgorithm.Quicksort(a, left, right, key);
    }

    /** MedianOfThree(array, left, mid, right): one of the three sampled
        cells, and the median one when their keys differ. */
    function MedianOfThree<T>(a: array<T>, left: int, mid: int, right: int, key: T -> int): (r: T)
      requires 0 <= left < a.Length && 0 <= mid < a.Length && 0 <= right < a.Length
      reads a
      ensures r == a[left] || r == a[mid] || r == a[right]
      ensures key(a[left]) != key(a[mid]) && key(a[mid]) != key(a[right]) && key(a[left]) != key(a[right]) ==>
                (key(a[left]) < key(r) || key(a[mid]) < key(r) || key(a[right]) < key(r)) &&
                (key(r) < key(a[left]) || key(r) < key(a[mid]) || key(r) < key(a[right]))
    {
      QuickSortAlgorithm.MedianOfThree(a[left], a[mid], a[right], key)
    }

    /** Swap(array, i, j). */
    method Swap<T>(a: array<T>, i: int, j: int)
      requires 0 <= i < a.Length && 0 <= j < a.Length
      modifies a
      ensures a[..] == old(a[..])[i := old(a[j])][j := old(a[i])]
    {
      QuickSortAlgorithm.Swap(a, i, j);
    }
  }

  /** ParallelMergeSort<T>: the threshold is fixed when the sorter is made. */
  class ParallelMergeSort {
    const threshold: int

    /** ParallelMergeSort(threshold = 5000). */
    constructor (threshold: int := 5000)
      ensures this.threshold == threshold
    {
      this.threshold := threshold;
    }

    /** Sort(array): a null array is refused; otherwise the whole array is
        merge-sorted, the result sorted, a permutation and stable. */
    method Sort<T(0)>(a: array?<T>, key: T -> int) returns (r: Outcome)
      modifies a
      ensures a == null <==> r == Fail(ArgumentNull)
      ensures a != null ==> r == Pass && a[..] == MergeSorted(old(a[..]), key)
      ensures a != null ==> SortedBy(a[..], key) && multiset(a[..]) == multiset(old(a[..]))
      ensures a != null ==> StableArrangementOf(a[..], old(a[..]), key)
    {
      if a == null {
        return Fail(ArgumentNull);
      }
      ghost var before := a[..];
      var temp := new T[a.Length];
      ParallelMergeSortAlgorithm(a, 0, a.Length - 1, temp, key);
      if a.Length > 0 {
        SortedRangeWhole(before, key);
      } else {
        assert MergeSorted(before, key) == before;
      }
      MergeSortedCorrect(before, key);
      r := Pass;
    }

    /** ParallelMergeSortAlgorithm(array, left, right, temp): the threshold
        only chooses who sorts the halves; the range ends up as the
        sequential MergeSort leaves it. */
    method ParallelMergeSortAlgorithm<T>(a: array<T>, left: int, right: int, temp: array<T>, key: T -> int)
      requires a != temp && temp.Length == a.Length
      requires left >= right || (0 <= left && right < a.Length)
      modifies a, temp
      ensures 0 <= left <= right < a.Length ==> a[..] == SortedRange(old(a[..]), left, right, key)
      ensures !(0 <= left <= right < a.Length) ==> a[..] == old(a[..])
      decreases right - left
    {
      if left < right {
        var mid := (left + right) / 2;
        MidpointSplit(left, mid, right);
        ghost var s0 := a[..];
        ghost var s1: seq<T>;
        if right - left < threshold {
          MergeSort(a, left, mid, temp, key);
          s1 := a[..];
          MergeSort(a, mid + 1, right, temp, key);
        } else {
          ParallelMergeSortAlgorithm(a, left, mid, temp, key);
          s1 := a[..];
          ParallelMergeSortAlgorithm(a, mid + 1, right, temp, key);
        }
        ghost var s2 := a[..];
        Merge(a, left, mid, right, temp, key);
        SortHalvesThenMerge(s0, s1, s2, a[..], left, mid, right, key);
      } else if 0 <= left <= right < a.Length {
        SortedRangeOfOne(a[..], left, key);
      }
    }
  }
}
