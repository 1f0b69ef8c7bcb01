/** QuickSortAlgorithm.Quicksort (ADP_2024/QuickSort/QuickSortAlgorithm.cs):
    Hoare partitioning around a median-of-three pivot value. */
module QuickSortAlgorithm {
  import opened SortSpec

  /** MedianOfThree(array, left, mid, right): `x` is returned when exactly
      one of the other two is below it, `y` likewise, and otherwise `z`. */
  function MedianOfThree<T>(x: T, y: T, z: T, key: T -> int): (r: T)
    ensures r == x || r == y || r == z
    // three different keys: the result is neither the least nor the greatest
    ensures key(x) != key(y) && key(y) != key(z) && key(x) != key(z) ==>
              (key(x) < key(r) || key(y) < key(r) || key(z) < key(r)) &&
              (key(x) > key(r) || key(y) > key(r) || key(z) > key(r))
  {
    if (key(x) > key(y)) != (key(x) > key(z)) then x
    else if (key(y) > key(x)) != (key(y) > key(z)) then y
    else z
  }

  /** With a tie the exclusive-or tests pick the third value, which need not
      be a median: for keys 1, 1, 2 the pivot is 2, the maximum. */
  lemma MedianOfThreeWithTie()
    ensures MedianOfThree(1, 1, 2, x => x) == 2
  {
  }

  /** Swap(array, i, j). */
  method Swap<T>(a: array<T>, i: int, j: int)
    requires 0 <= i < a.Length && 0 <= j < a.Length
    modifies a
    ensures a[..] == old(a[..])[i := old(a[j])][j := old(a[i])]
  {
    var temp := a[i];
    a[i] := a[j];
    a[j] := temp;
  }

  /** Quicksort(array, left, right): sorts `a[left..right]` (both ends
      included) in place, by rearranging that range and touching nothing
      outside it. `left >= right` returns at once, which covers the call on
      an empty array with right = -1. */
  method Quicksort<T>(a: array<T>, left: int, right: int, key: T -> int)
    requires left >= right || (0 <= left && right < a.Length)
    modifies a
    ensures left < right ==> Rearranged(old(a[..]), a[..], left, right)
    ensures left < right ==> SortedBy(a[left..right + 1], key)
    ensures multiset(a[..]) == old(multiset(a[..]))
    ensures left >= right ==> a[..] == old(a[..])
    decreases right - left
  {
    if left >= right {
      return;
    }
    ghost var before := a[..];
    var mid := left + (right - left) / 2;
    var pivot := MedianOfThree(a[left], a[mid], a[right], key);
    ghost var p := if pivot == a[left] then left else if pivot == a[mid] then mid else right;
    var i, j := Partition(a, left, right, pivot, key, p);
    ghost var parted := a[..];

    if left < j {
      Quicksort(a, left, j, key);
    } else {
      assert a[..] == parted;
      RearrangedRefl(parted, left, j);
    }
    ghost var leftDone := a[..];
    if i < right {
      Quicksort(a, i, right, key);
    } else {
      assert a[..] == leftDone;
      RearrangedRefl(leftDone, i, right);
    }
    SortedByRecursion(parted, leftDone, a[..], left, right, i, j, key(pivot), key);
    RearrangedByRecursion(before, parted, leftDone, a[..], left, right, i, j);
    RearrangedWhole(before, a[..], left, right);
  }

  /** The loop of Quicksort: `i` scans right over keys below the pivot's, `j`
      scans left over keys above it, and out-of-place pairs are swapped.
      When the scans cross, `a[left..i)` holds keys at most the pivot's,
      `a(j..right]` keys at least the pivot's, and both ranges left for the
      recursive calls are strictly shorter than `[left, right]`. */
  method Partition<T>(a: array<T>, left: int, right: int, pivot: T, key: T -> int, ghost p: int)
      returns (i: int, j: int)
    requires 0 <= left < right < a.Length
    requires left <= p <= right && a[p] == pivot
    modifies a
    ensures left < i <= right + 1 && left - 1 <= j < right && j < i
    ensures AllAtMost(a[left..i], key, key(pivot))
    ensures AllAtLeast(a[j + 1..right + 1], key, key(pivot))
    ensures Rearranged(old(a[..]), a[..], left, right)
  {
    var pk := key(pivot);
    ghost var si, sj := p, p;
    i, j := left, right;
    while i <= j
      invariant left <= i <= right + 1 && left - 1 <= j <= right
      invariant (i == left && j == right) || (left < i && j < right)
      invariant left <= si <= right && left <= sj <= right
      invariant i == left && j == right ==> si == sj && key(a[si]) == pk
      // sentinels that stop the two inner scans
      invariant i <= j ==> i <= si <= right && key(a[si]) >= pk
      invariant i <= j ==> left <= sj <= j && key(a[sj]) <= pk
      invariant forall k :: left <= k < i ==> key(a[k]) <= pk
      invariant forall k :: j < k <= right ==> key(a[k]) >= pk
      invariant multiset(a[left..right + 1]) == old(multiset(a[left..right + 1]))
      invariant forall k :: 0 <= k < a.Length && !(left <= k <= right) ==> a[k] == old(a[k])
      decreases (right + 1 - i) + (j - left + 1)
    {
      ghost var firstRound := i == left && j == right;
      i := ScanRight(a, left, i, si, pk, key);
      j := ScanLeft(a, right, j, sj, pk, key);
      assert firstRound ==> i <= j;
      if i <= j {
        SwapInRange(a, left, right, i, j);
        si, sj := j, i;
        i := i + 1;
        j := j - 1;
      }
    }
    ShowBounds(a[..], left, right, i, j, pk, key);
  }

  /** `while (array[i].CompareTo(pivot) < 0) i++;`: starting at `i`, the
      first index whose key is not below the pivot's; `sentinel` is an index
      that stops the scan. Everything from `left` to the result has a key at
      most the pivot's. */
  method ScanRight<T>(a: array<T>, left: int, i: int, ghost sentinel: int, pk: int, key: T -> int) returns (r: int)
    requires 0 <= left <= i <= sentinel < a.Length && key(a[sentinel]) >= pk
    requires forall k :: left <= k < i ==> key(a[k]) <= pk
    ensures i <= r <= sentinel && key(a[r]) >= pk
    ensures forall k :: i <= k < r ==> key(a[k]) < pk
    ensures forall k :: left <= k < r ==> key(a[k]) <= pk
  {
    r := i;
    while key(a[r]) < pk
      invariant i <= r <= sentinel
      invariant forall k :: i <= k < r ==> key(a[k]) < pk
      decreases sentinel - r
    {
      r := r + 1;
    }
  }

  /** `while (array[j].CompareTo(pivot) > 0) j--;`: starting at `j`, the
      last index whose key is not above the pivot's; `sentinel` stops the
      scan. Everything from the result to `right` has a key at least the
      pivot's. */
  method ScanLeft<T>(a: array<T>, right: int, j: int, ghost sentinel: int, pk: int, key: T -> int) returns (r: int)
    requires 0 <= sentinel <= j <= right < a.Length && key(a[sentinel]) <= pk
    requires forall k :: j < k <= right ==> key(a[k]) >= pk
    ensures sentinel <= r <= j && key(a[r]) <= pk
    ensures forall k :: r < k <= j ==> key(a[k]) > pk
    ensures forall k :: r < k <= right ==> key(a[k]) >= pk
  {
    r := j;
    while key(a[r]) > pk
      invariant sentinel <= r <= j
      invariant forall k :: r < k <= j ==> key(a[k]) > pk
      decreases r - sentinel
    {
      r := r - 1;
    }
  }

  /** Swap, seen from the range [left, right] that holds both cells. */
  method SwapInRange<T>(a: array<T>, left: int, right: int, i: int, j: int)
    requires 0 <= left <= i <= right < a.Length && left <= j <= right
    modifies a
    ensures a[i] == old(a[j]) && a[j] == old(a[i])
    ensures forall k :: 0 <= k < a.Length && k != i && k != j ==> a[k] == old(a[k])
    ensures multiset(a[left..right + 1]) == old(multiset(a[left..right + 1]))
  {
    ghost var before := a[left..right + 1];
    Swap(a, i, j);
    assert a[left..right + 1] == before[i - left := before[j - left]][j - left := before[i - left]];
  }

  /** The index-wise bounds of Partition's loop, stated on slices. */
  lemma ShowBounds<T>(s: seq<T>, left: int, right: int, i: int, j: int, pk: int, key: T -> int)
    requires 0 <= left <= i <= right + 1 <= |s| && left - 1 <= j <= right
    requires forall k :: left <= k < i ==> key(s[k]) <= pk
    requires forall k :: j < k <= right ==> key(s[k]) >= pk
    ensures AllAtMost(s[left..i], key, pk)
    ensures AllAtLeast(s[j + 1..right + 1], key, pk)
  {
    var lo, hi := s[left..i], s[j + 1..right + 1];
    forall k | 0 <= k < |lo| ensures key(lo[k]) <= pk {
      assert lo[k] == s[left + k];
    }
    forall k | 0 <= k < |hi| ensures key(hi[k]) >= pk {
      assert hi[k] == s[j + 1 + k];
    }
  }

  /** Partitioning and the two recursive calls together rearrange the
      range [left, right]. */
  lemma RearrangedByRecursion<T>(before: seq<T>, parted: seq<T>, leftDone: seq<T>, done: seq<T>,
                                 left: int, right: int, i: int, j: int)
    requires 0 <= left < right < |before|
    requires left < i <= right + 1 && left - 1 <= j < right
    requires Rearranged(before, parted, left, right)
    requires Rearranged(parted, leftDone, left, j)
    requires Rearranged(leftDone, done, i, right)
    ensures Rearranged(before, done, left, right)
  {
    RearrangedWiden(parted, leftDone, left, j, left, right);
    RearrangedWiden(leftDone, done, i, right, left, right);
    RearrangedTrans(before, parted, leftDone, left, right);
    RearrangedTrans(before, leftDone, done, left, right);
  }

  /** After partitioning and the two recursive calls the range is sorted:
      the left part holds keys at most the pivot's, the right part keys at
      least the pivot's, and whatever lies strictly between them has both. */
  lemma SortedByRecursion<T>(parted: seq<T>, leftDone: seq<T>, done: seq<T>,
                             left: int, right: int, i: int, j: int, pk: int, key: T -> int)
    requires 0 <= left < right < |parted|
    requires left < i <= right + 1 && left - 1 <= j < right && j < i
    requires AllAtMost(parted[left..i], key, pk)
    requires AllAtLeast(parted[j + 1..right + 1], key, pk)
    requires Rearranged(parted, leftDone, left, j)
    requires left < j ==> SortedBy(leftDone[left..j + 1], key)
    requires Rearranged(leftDone, done, i, right)
    requires i < right ==> SortedBy(done[i..right + 1], key)
    ensures SortedBy(done[left..right + 1], key)
  {
    PartsBounded(parted, leftDone, done, left, right, i, j, pk, key);
    var lo, hi := done[left..j + 1], done[i..right + 1];
    assert lo == leftDone[left..j + 1];
    forall x, y | left <= x < y <= right ensures key(done[x]) <= key(done[y]) {
      if y <= j {
        assert done[x] == lo[x - left] && done[y] == lo[y - left];
      } else if i <= x {
        assert done[x] == hi[x - i] && done[y] == hi[y - i];
      }
    }
  }

  /** Where each part of the range ends up after the recursive calls: keys
      at most the pivot's up to `j`, exactly the pivot's strictly between `j`
      and `i`, at least the pivot's from `i`. */
  lemma PartsBounded<T>(parted: seq<T>, leftDone: seq<T>, done: seq<T>,
                        left: int, right: int, i: int, j: int, pk: int, key: T -> int)
    requires 0 <= left < right < |parted|
    requires left < i <= right + 1 && left - 1 <= j < right && j < i
    requires AllAtMost(parted[left..i], key, pk)
    requires AllAtLeast(parted[j + 1..right + 1], key, pk)
    requires Rearranged(parted, leftDone, left, j)
    requires Rearranged(leftDone, done, i, right)
    ensures forall k :: left <= k <= j ==> key(done[k]) <= pk
    ensures forall k :: j < k < i ==> key(done[k]) == pk
    ensures forall k :: i <= k <= right ==> key(done[k]) >= pk
  {
    LeftPartBounded(parted, leftDone, done, left, right, i, j, pk, key);
    RightPartBounded(parted, leftDone, done, left, right, i, j, pk, key);
    MiddlePartPivot(parted, leftDone, done, left, right, i, j, pk, key);
  }

  /** The left part is a rearrangement of parted[left..j + 1], whose keys
      are at most the pivot's. */
  lemma LeftPartBounded<T>(parted: seq<T>, leftDone: seq<T>, done: seq<T>,
                           left: int, right: int, i: int, j: int, pk: int, key: T -> int)
    requires 0 <= left < right < |parted|
    requires left < i <= right + 1 && left - 1 <= j < right && j < i
    requires AllAtMost(parted[left..i], key, pk)
    requires Rearranged(parted, leftDone, left, j)
    requires Rearranged(leftDone, done, i, right)
    ensures forall k :: left <= k <= j ==> key(done[k]) <= pk
  {
    var lo := done[left..j + 1];
    assert lo == leftDone[left..j + 1];
    assert parted[left..j + 1] == parted[left..i][..j + 1 - left];
    BoundsOfPermutation(lo, parted[left..j + 1], key, pk);
    forall k | left <= k <= j ensures key(done[k]) <= pk {
      assert done[k] == lo[k - left];
    }
  }

  /** The right part is a rearrangement of parted[i..right + 1], whose keys
      are at least the pivot's. */
  lemma RightPartBounded<T>(parted: seq<T>, leftDone: seq<T>, done: seq<T>,
                            left: int, right: int, i: int, j: int, pk: int, key: T -> int)
    requires 0 <= left < right < |parted|
    requires left < i <= right + 1 && left - 1 <= j < right && j < i
    requires AllAtLeast(parted[j + 1..right + 1], key, pk)
    requires Rearranged(parted, leftDone, left, j)
    requires Rearranged(leftDone, done, i, right)
    ensures forall k :: i <= k <= right ==> key(done[k]) >= pk
  {
    var hi := done[i..right + 1];
    assert leftDone[i..right + 1] == parted[i..right + 1];
    assert parted[i..right + 1] == parted[j + 1..right + 1][i - j - 1..];
    BoundsOfPermutation(hi, parted[i..right + 1], key, pk);
    forall k | i <= k <= right ensures key(done[k]) >= pk {
      assert done[k] == hi[k - i];
    }
  }

  /** The cells strictly between j and i are moved by neither recursive
      call, and their keys are the pivot's. */
  lemma MiddlePartPivot<T>(parted: seq<T>, leftDone: seq<T>, done: seq<T>,
                           left: int, right: int, i: int, j: int, pk: int, key: T -> int)
    requires 0 <= left < right < |parted|
    requires left < i <= right + 1 && left - 1 <= j < right && j < i
    requires AllAtMost(parted[left..i], key, pk)
    requires AllAtLeast(parted[j + 1..right + 1], key, pk)
    requires Rearranged(parted, leftDone, left, j)
    requires Rearranged(leftDone, done, i, right)
    ensures forall k :: j < k < i ==> key(done[k]) == pk
  {
    forall k | j < k < i ensures key(done[k]) == pk {
      assert done[k] == parted[k];
      assert parted[k] == parted[left..i][k - left];
      assert parted[k] == parted[j + 1..right + 1][k - j - 1];
    }
  }
}
