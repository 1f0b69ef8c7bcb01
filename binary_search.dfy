/** BinarySearchAlgorithm.BinarySearch (ADP_2024/BinarySearch/BinarySearchAlgorithm.cs). */
module BinarySearchAlgorithm {

  /** Ascending (non-strictly) order. */
  ghost predicate Ascending(s: seq<int>) {
    forall i, j :: 0 <= i < j < |s| ==> s[i] <= s[j]
  }

  /** The probes the search makes on the range [left, right], one call per
      iteration of the loop: the index it returns, or -1. */
  function Probe(s: seq<int>, target: int, left: int, right: int): int
    requires 0 <= left && right < |s|
    decreases right - left
  {
    if left > right then -1
    else
      var mid := left + (right - left) / 2;
      if s[mid] == target then mid
      else if s[mid] < target then Probe(s, target, mid + 1, right)
      else Probe(s, target, left, mid - 1)
  }

  /** Whatever the order of the input, a result other than -1 is an index of
      the range that holds `target`. */
  lemma {:induction false} ProbeSound(s: seq<int>, target: int, left: int, right: int)
    requires 0 <= left && right < |s|
    ensures var r := Probe(s, target, left, right);
            r == -1 || (left <= r <= right && s[r] == target)
    decreases right - left
  {
    if left <= right {
      var mid := left + (right - left) / 2;
      if s[mid] != target {
        if s[mid] < target {
          ProbeSound(s, target, mid + 1, right);
        } else {
          ProbeSound(s, target, left, mid - 1);
        }
      }
    }
  }

  /** On an ascending sequence the search finds `target` whenever it lies in
      the range. */
  lemma {:induction false} ProbeComplete(s: seq<int>, target: int, left: int, right: int, k: int)
    requires 0 <= left && right < |s|
    requires Ascending(s)
    requires left <= k <= right && s[k] == target
    ensures Probe(s, target, left, right) != -1
    decreases right - left
  {
    var mid := left + (right - left) / 2;
    if s[mid] != target {
      if s[mid] < target {
        assert mid < k;
        assert s[mid] <= s[k];
        ProbeComplete(s, target, mid + 1, right, k);
      } else {
        assert k < mid;
        ProbeComplete(s, target, left, mid - 1, k);
      }
    }
  }

  /** One probe of the range [left, right], at its midpoint. */
  lemma ProbeUnfold(s: seq<int>, target: int, left: int, right: int, mid: int)
    requires 0 <= left <= right < |s| && mid == left + (right - left) / 2
    ensures left <= mid <= right
    ensures s[mid] == target ==> Probe(s, target, left, right) == mid
    ensures s[mid] < target ==> Probe(s, target, left, right) == Probe(s, target, mid + 1, right)
    ensures s[mid] > target ==> Probe(s, target, left, right) == Probe(s, target, left, mid - 1)
  {
  }

  /** In ascending order, everything up to a key below `target` is below it. */
  lemma AscendingBelow(s: seq<int>, mid: int, target: int)
    requires 0 <= mid < |s| && s[mid] < target
    ensures Ascending(s) ==> forall k :: 0 <= k <= mid ==> s[k] < target
  {
  }

  /** In ascending order, everything from a key above `target` on is above it. */
  lemma AscendingAbove(s: seq<int>, mid: int, target: int)
    requires 0 <= mid < |s| && s[mid] > target
    ensures Ascending(s) ==> forall k :: mid <= k < |s| ==> target < s[k]
  {
  }

  /** BinarySearch(array, target): a non-negative result is an index holding
      `target`, whatever the order of the array; on an ascending array -1
      means exactly that `target` is absent. */
  method BinarySearch(a: array<int>, target: int) returns (r: int)
    ensures r == Probe(a[..], target, 0, a.Length - 1)
    ensures r == -1 || (0 <= r < a.Length && a[r] == target)
    ensures Ascending(a[..]) ==> (r == -1 <==> target !in a[..])
  {
    ghost var s := a[..];
    var left, right := 0, a.Length - 1;
    while left <= right
      invariant 0 <= left <= right + 1 <= |s|
      invariant Probe(s, target, left, right) == Probe(s, target, 0, |s| - 1)
      invariant Ascending(s) ==> forall k :: 0 <= k < left ==> s[k] < target
      invariant Ascending(s) ==> forall k :: right < k < |s| ==> target < s[k]
      decreases right - left
    {
      // left + (right - left) / 2 cannot overflow a 32-bit int
      var mid := left + (right - left) / 2;
      ProbeUnfold(s, target, left, right, mid);
      assert a[mid] == s[mid];
      if a[mid] == target {
        return mid;
      }
      if a[mid] < target {
        AscendingBelow(s, mid, target);
        left := mid + 1;
      } else {
        AscendingAbove(s, mid, target);
        right := mid - 1;
      }
    }
    r := -1;
  }

  /** A test expects -1 when searching the descending array [2, 1] for 1:
      the first probe sees 2 > 1 and leaves only the empty range to its
      left. The search depends on the ascending order. */
  lemma DescendingPairMisses()
    ensures Probe([2, 1], 1, 0, 1) == -1
  {
    assert Probe([2, 1], 1, 0, -1) == -1;
  }
}
