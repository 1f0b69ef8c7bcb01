/** The merge sort shared by ADP_2024/ParallelMergeSort/ParallelMergeSortAlgorithm.cs
    and ADP_2024/SortingAlgorithms/ParallelMergeSort.cs: the two files hold
    the same MergeSort and Merge, line for line. */
module Merging {
  import opened SortSpec

  /** The merge of two runs: the smaller head first, and the left run's head
      on a tie. */
  function Merged<T>(xs: seq<T>, ys: seq<T>, key: T -> int): seq<T>
    decreases |xs| + |ys|
  {
    if xs == [] then ys
    else if ys == [] then xs
    else if key(xs[0]) <= key(ys[0]) then [xs[0]] + Merged(xs[1..], ys, key)
    else [ys[0]] + Merged(xs, ys[1..], key)
  }

  /** The result of MergeSort on a range, as a function of the range's
      contents: the left half is [left..mid] with mid = (left + right) / 2,
      so it holds (|s| - 1) / 2 + 1 elements. */
  function MergeSorted<T>(s: seq<T>, key: T -> int): seq<T>
    decreases |s|
  {
    if |s| <= 1 then s
    else
      var h := (|s| - 1) / 2 + 1;
      Merged(MergeSorted(s[..h], key), MergeSorted(s[h..], key), key)
  }

  /** Merging keeps the total length. */
  lemma {:induction false} MergedLength<T>(xs: seq<T>, ys: seq<T>, key: T -> int)
    ensures |Merged(xs, ys, key)| == |xs| + |ys|
    decreases |xs| + |ys|
  {
    if xs != [] && ys != [] {
      if key(xs[0]) <= key(ys[0]) {
        MergedLength(xs[1..], ys, key);
      } else {
        MergedLength(xs, ys[1..], key);
      }
    }
  }

  /** Merging neither loses nor invents an element. */
  lemma {:induction false} MergedPermutes<T>(xs: seq<T>, ys: seq<T>, key: T -> int)
    ensures multiset(Merged(xs, ys, key)) == multiset(xs) + multiset(ys)
    decreases |xs| + |ys|
  {
    if xs != [] && ys != [] {
      if key(xs[0]) <= key(ys[0]) {
        MergedPermutes(xs[1..], ys, key);
        HeadTail(xs);
      } else {
        MergedPermutes(xs, ys[1..], key);
        HeadTail(ys);
      }
    }
  }

  /** Two sorted runs merge into a sorted run. */
  lemma {:induction false} MergedSorted<T>(xs: seq<T>, ys: seq<T>, key: T -> int)
    requires SortedBy(xs, key) && SortedBy(ys, key)
    ensures SortedBy(Merged(xs, ys, key), key)
    decreases |xs| + |ys|
  {
    if xs != [] && ys != [] {
      SortedTail(xs, key);
      SortedTail(ys, key);
      if key(xs[0]) <= key(ys[0]) {
        MergedSorted(xs[1..], ys, key);
        MergedPermutes(xs[1..], ys, key);
        BoundsOfUnion(Merged(xs[1..], ys, key), xs[1..], ys, key, key(xs[0]));
        SortedCons(xs[0], Merged(xs[1..], ys, key), key);
      } else {
        MergedSorted(xs, ys[1..], key);
        MergedPermutes(xs, ys[1..], key);
        BoundsOfUnion(Merged(xs, ys[1..], key), xs, ys[1..], key, key(ys[0]));
        SortedCons(ys[0], Merged(xs, ys[1..], key), key);
      }
    }
  }

  /** Merging is stable when the left run is sorted: for every key, the
      elements of the left run come first, in their order, and then those
      of the right run. */
  lemma {:induction false} MergedStable<T>(xs: seq<T>, ys: seq<T>, key: T -> int, k: int)
    requires SortedBy(xs, key)
    ensures WithKey(Merged(xs, ys, key), key, k) == WithKey(xs, key, k) + WithKey(ys, key, k)
    decreases |xs| + |ys|
  {
    if xs == [] {
      assert WithKey(xs, key, k) == [];
    } else if ys == [] {
      assert WithKey(ys, key, k) == [];
    } else if key(xs[0]) <= key(ys[0]) {
      SortedTail(xs, key);
      MergedStable(xs[1..], ys, key, k);
      MergedStableLeft(xs, ys, key, k);
    } else {
      MergedStable(xs, ys[1..], key, k);
      MergedStableRight(xs, ys, key, k);
    }
  }

  /** MergedStable's step when the left head is taken. */
  lemma MergedStableLeft<T>(xs: seq<T>, ys: seq<T>, key: T -> int, k: int)
    requires xs != [] && ys != [] && key(xs[0]) <= key(ys[0])
    requires WithKey(Merged(xs[1..], ys, key), key, k) == WithKey(xs[1..], key, k) + WithKey(ys, key, k)
    ensures WithKey(Merged(xs, ys, key), key, k) == WithKey(xs, key, k) + WithKey(ys, key, k)
  {
    WithKeyMergedHead(xs, ys, key, k);
    WithKeyHeadTail(xs, key, k);
    Regroup(WithKey(Merged(xs, ys, key), key, k), WithKey([xs[0]], key, k),
            WithKey(Merged(xs[1..], ys, key), key, k), WithKey(xs, key, k),
            WithKey(xs[1..], key, k), WithKey(ys, key, k));
  }

  /** MergedStable's step when the right head is taken: its key is below
      every key of the sorted left run, so no element of the left run with
      the same key is passed. */
  lemma MergedStableRight<T>(xs: seq<T>, ys: seq<T>, key: T -> int, k: int)
    requires SortedBy(xs, key)
    requires xs != [] && ys != [] && !(key(xs[0]) <= key(ys[0]))
    requires WithKey(Merged(xs, ys[1..], key), key, k) == WithKey(xs, key, k) + WithKey(ys[1..], key, k)
    ensures WithKey(Merged(xs, ys, key), key, k) == WithKey(xs, key, k) + WithKey(ys, key, k)
  {
    WithKeyMergedHead(xs, ys, key, k);
    WithKeyHeadTail(ys, key, k);
    WithKeySingle(ys[0], key, k);
    if key(ys[0]) == k {
      SortedTail(xs, key);
      WithKeyNone(xs, key, k);
    }
    Interleave(WithKey(Merged(xs, ys, key), key, k), WithKey([ys[0]], key, k),
               WithKey(Merged(xs, ys[1..], key), key, k), WithKey(xs, key, k),
               WithKey(ys[1..], key, k), WithKey(ys, key, k));
  }

  /** WithKey of a merge is WithKey of the head it takes followed by WithKey
      of the rest of the merge. */
  lemma WithKeyMergedHead<T>(xs: seq<T>, ys: seq<T>, key: T -> int, k: int)
    requires xs != [] && ys != []
    ensures key(xs[0]) <= key(ys[0]) ==>
              WithKey(Merged(xs, ys, key), key, k) == WithKey([xs[0]], key, k) + WithKey(Merged(xs[1..], ys, key), key, k)
    ensures !(key(xs[0]) <= key(ys[0])) ==>
              WithKey(Merged(xs, ys, key), key, k) == WithKey([ys[0]], key, k) + WithKey(Merged(xs, ys[1..], key), key, k)
  {
    if key(xs[0]) <= key(ys[0]) {
      WithKeyAppend([xs[0]], Merged(xs[1..], ys, key), key, k);
    } else {
      WithKeyAppend([ys[0]], Merged(xs, ys[1..], key), key, k);
    }
  }

  /** `w` is `h` then `m`, `m` is `t` then `y`, `x` is `h` then `t`: so `w`
      is `x` then `y`. */
  lemma Regroup<T>(w: seq<T>, h: seq<T>, m: seq<T>, x: seq<T>, t: seq<T>, y: seq<T>)
    requires w == h + m && m == t + y && x == h + t
    ensures w == x + y
  {
  }

  /** `w` is `h` then `m`, `m` is `x` then `t`, `y` is `h` then `t`, and `h`
      or `x` is empty: so `w` is `x` then `y`. */
  lemma Interleave<T>(w: seq<T>, h: seq<T>, m: seq<T>, x: seq<T>, t: seq<T>, y: seq<T>)
    requires w == h + m && m == x + t && y == h + t && (h == [] || x == [])
    ensures w == x + y
  {
    if h == [] {
      assert w == m && y == t;
    } else {
      assert w == h + t && m == t;
    }
  }

  /** MergeSort's result is sorted, a permutation of the range, and stable. */
  lemma {:induction false} MergeSortedCorrect<T>(s: seq<T>, key: T -> int)
    ensures SortedBy(MergeSorted(s, key), key)
    ensures multiset(MergeSorted(s, key)) == multiset(s)
    ensures StableArrangementOf(MergeSorted(s, key), s, key)
    decreases |s|
  {
    if |s| > 1 {
      var h := (|s| - 1) / 2 + 1;
      var l, r := MergeSorted(s[..h], key), MergeSorted(s[h..], key);
      MergeSortedCorrect(s[..h], key);
      MergeSortedCorrect(s[h..], key);
      MergedSorted(l, r, key);
      MergedPermutes(l, r, key);
      SplitAt(s, h);
      forall k ensures WithKey(MergeSorted(s, key), key, k) == WithKey(s, key, k) {
        MergedStable(l, r, key, k);
        WithKeyAppend(s[..h], s[h..], key, k);
      }
    }
  }

  /** MergeSort keeps the length of the range. */
  lemma {:induction false} MergeSortedLength<T>(s: seq<T>, key: T -> int)
    ensures |MergeSorted(s, key)| == |s|
    decreases |s|
  {
    if |s| > 1 {
      var h := (|s| - 1) / 2 + 1;
      MergeSortedLength(s[..h], key);
      MergeSortedLength(s[h..], key);
      MergedLength(MergeSorted(s[..h], key), MergeSorted(s[h..], key), key);
    }
  }

  /** A sorted range comes back unchanged. */
  lemma {:induction false} MergeSortedOfSorted<T>(s: seq<T>, key: T -> int)
    requires SortedBy(s, key)
    ensures MergeSorted(s, key) == s
    decreases |s|
  {
    if |s| > 1 {
      var h := (|s| - 1) / 2 + 1;
      SortedSlice(s, key, 0, h);
      SortedSlice(s, key, h, |s|);
      MergeSortedOfSorted(s[..h], key);
      MergeSortedOfSorted(s[h..], key);
      MergedOfOrdered(s[..h], s[h..], key);
      SplitAt(s, h);
    }
  }

  /** A left run entirely at or below the right run merges into the plain
      concatenation. */
  lemma {:induction false} MergedOfOrdered<T>(xs: seq<T>, ys: seq<T>, key: T -> int)
    requires forall p, q :: 0 <= p < |xs| && 0 <= q < |ys| ==> key(xs[p]) <= key(ys[q])
    ensures Merged(xs, ys, key) == xs + ys
    decreases |xs|
  {
    if xs != [] && ys != [] {
      assert key(xs[0]) <= key(ys[0]);
      MergedOfOrdered(xs[1..], ys, key);
      HeadTail(xs);
      assert [xs[0]] + (xs[1..] + ys) == xs + ys;
    }
  }

  /** One step of Merge's loops, where `target[n..]` is still to be
      written and is the merge of `xs[p..]` and `ys[q..]`: the left head is
      taken when the right run is used up or when it is not greater than the
      right head, otherwise the right head is taken. */
  lemma MergeStep<T>(target: seq<T>, n: int, xs: seq<T>, ys: seq<T>, p: int, q: int, key: T -> int)
    requires 0 <= p <= |xs| && 0 <= q <= |ys| && (p < |xs| || q < |ys|) && 0 <= n <= |target|
    requires target[n..] == Merged(xs[p..], ys[q..], key)
    ensures n < |target|
    ensures q == |ys| || (p < |xs| && key(xs[p]) <= key(ys[q])) ==>
              target[n] == xs[p] && target[n + 1..] == Merged(xs[p + 1..], ys[q..], key)
    ensures !(q == |ys| || (p < |xs| && key(xs[p]) <= key(ys[q]))) ==>
              target[n] == ys[q] && target[n + 1..] == Merged(xs[p..], ys[q + 1..], key)
  {
    var t := target[n..];
    assert t[1..] == target[n + 1..];
    if p < |xs| {
      assert xs[p..][1..] == xs[p + 1..];
      assert xs[p..][0] == xs[p];
    }
    if q < |ys| {
      assert ys[q..][1..] == ys[q + 1..];
      assert ys[q..][0] == ys[q];
    }
  }

  /** An array range that holds `t` element by element equals `t`. */
  lemma ArrayRangeIs<T>(a: array<T>, lo: int, hi: int, t: seq<T>)
    requires 0 <= lo <= hi <= a.Length && |t| == hi - lo
    requires forall r :: 0 <= r < |t| ==> a[lo + r] == t[r]
    ensures a[lo..hi] == t
  {
  }

  /** The first loop of Merge: while both runs have elements left, the
      smaller head (the left one on a tie) is written to `temp`. `p` and `q`
      count the elements taken from each run. */
  method MergeHeads<T>(a: array<T>, left: int, mid: int, right: int, temp: array<T>, key: T -> int,
                       ghost xs: seq<T>, ghost ys: seq<T>, ghost target: seq<T>)
      returns (i: int, j: int, ghost p: int, ghost q: int)
    requires a != temp && temp.Length == a.Length
    requires 0 <= left <= mid <= right < a.Length
    requires xs == a[left..mid + 1] && ys == a[mid + 1..right + 1]
    requires target == Merged(xs, ys, key) && |target| == |xs| + |ys|
    modifies temp
    ensures 0 <= p <= |xs| && 0 <= q <= |ys| && (p == |xs| || q == |ys|)
    ensures i == left + p && j == mid + 1 + q
    ensures forall r :: 0 <= r < p + q ==> temp[left + r] == target[r]
    ensures target[p + q..] == Merged(xs[p..], ys[q..], key)
    ensures forall r :: 0 <= r < temp.Length && !(left <= r <= right) ==> temp[r] == old(temp[r])
  {
    var k;
    ghost var n;
    i, j, k := left, mid + 1, left;
    p, q, n := 0, 0, 0;
    while i <= mid && j <= right
      invariant 0 <= p <= |xs| && 0 <= q <= |ys| && n == p + q
      decreases (mid + 1 - i) + (right + 1 - j)
      invariant i == left + p && j == mid + 1 + q && k == left + n
      invariant forall r :: 0 <= r < n ==> temp[left + r] == target[r]
      invariant target[n..] == Merged(xs[p..], ys[q..], key)
      invariant forall r :: 0 <= r < temp.Length && !(left <= r <= right) ==> temp[r] == old(temp[r])
    {
      i, j, p, q := TakeHead(a, left, mid, right, temp, key, i, j, k, xs, ys, target, p, q);
      k, n := k + 1, n + 1;
    }
  }

  /** One round of Merge's first loop: the smaller head, or the left one on
      a tie, is written to `temp[k]` and its run advances. */
  method TakeHead<T>(a: array<T>, left: int, mid: int, right: int, temp: array<T>, key: T -> int,
                     i0: int, j0: int, k: int, ghost xs: seq<T>, ghost ys: seq<T>, ghost target: seq<T>,
                     ghost p0: int, ghost q0: int)
      returns (i: int, j: int, ghost p: int, ghost q: int)
    requires a != temp && temp.Length == a.Length
    requires 0 <= left <= mid <= right < a.Length
    requires xs == a[left..mid + 1] && ys == a[mid + 1..right + 1] && |target| == |xs| + |ys|
    requires 0 <= p0 < |xs| && 0 <= q0 < |ys|
    requires i0 == left + p0 && j0 == mid + 1 + q0 && k == left + (p0 + q0)
    requires target[p0 + q0..] == Merged(xs[p0..], ys[q0..], key)
    requires forall r :: 0 <= r < p0 + q0 ==> temp[left + r] == target[r]
    modifies temp
    ensures 0 <= p <= |xs| && 0 <= q <= |ys| && p + q == p0 + q0 + 1
    ensures i == left + p && j == mid + 1 + q
    ensures forall r :: 0 <= r < p + q ==> temp[left + r] == target[r]
    ensures target[p + q..] == Merged(xs[p..], ys[q..], key)
    ensures forall r :: 0 <= r < temp.Length && r != k ==> temp[r] == old(temp[r])
  {
    MergeStep(target, p0 + q0, xs, ys, p0, q0, key);
    assert a[i0] == xs[p0] && a[j0] == ys[q0];
    i, j, p, q := i0, j0, p0, q0;
    if key(a[i]) <= key(a[j]) {
      temp[k] := a[i];
      assert temp[k] == target[p0 + q0];
      i, p := i + 1, p + 1;
    } else {
      temp[k] := a[j];
      assert temp[k] == target[p0 + q0];
      j, q := j + 1, q + 1;
    }
  }

  /** The second loop of Merge: what is left of the left run is copied to
      `temp`. */
  method CopyLeftRest<T>(a: array<T>, left: int, mid: int, right: int, temp: array<T>, key: T -> int,
                         i0: int, j: int, ghost xs: seq<T>, ghost ys: seq<T>, ghost target: seq<T>,
                         ghost p0: int, ghost q: int)
      returns (i: int, ghost p: int)
    requires a != temp && temp.Length == a.Length
    requires 0 <= left <= mid <= right < a.Length
    requires xs == a[left..mid + 1] && ys == a[mid + 1..right + 1] && |target| == |xs| + |ys|
    requires 0 <= p0 <= |xs| && 0 <= q <= |ys| && (p0 == |xs| || q == |ys|)
    requires i0 == left + p0 && j == mid + 1 + q
    requires forall r :: 0 <= r < p0 + q ==> temp[left + r] == target[r]
    requires target[p0 + q..] == Merged(xs[p0..], ys[q..], key)
    modifies temp
    ensures p == |xs| && i == left + p
    ensures forall r :: 0 <= r < p + q ==> temp[left + r] == target[r]
    ensures target[p + q..] == Merged(xs[p..], ys[q..], key)
    ensures forall r :: 0 <= r < temp.Length && !(left <= r <= right) ==> temp[r] == old(temp[r])
  {
    var k := i0 + j - mid - 1;
    ghost var n := p0 + q;
    i, p := i0, p0;
    while i <= mid
      invariant 0 <= p <= |xs| && n == p + q && (p < |xs| ==> q == |ys|)
      invariant i == left + p && k == left + n
      invariant forall r :: 0 <= r < n ==> temp[left + r] == target[r]
      invariant target[n..] == Merged(xs[p..], ys[q..], key)
      invariant forall r :: 0 <= r < temp.Length && !(left <= r <= right) ==> temp[r] == old(temp[r])
    {
      MergeStep(target, n, xs, ys, p, q, key);
      assert a[i] == xs[p];
      temp[k] := a[i];
      i, p := i + 1, p + 1;
      k, n := k + 1, n + 1;
    }
  }

  /** The third loop of Merge: what is left of the right run is copied to
      `temp`, which then holds the whole merge. */
  method CopyRightRest<T>(a: array<T>, left: int, mid: int, right: int, temp: array<T>, key: T -> int,
                          i: int, j0: int, ghost xs: seq<T>, ghost ys: seq<T>, ghost target: seq<T>,
                          ghost q0: int)
    requires a != temp && temp.Length == a.Length
    requires 0 <= left <= mid <= right < a.Length
    requires xs == a[left..mid + 1] && ys == a[mid + 1..right + 1] && |target| == |xs| + |ys|
    requires 0 <= q0 <= |ys|
    requires i == left + |xs| && j0 == mid + 1 + q0
    requires forall r :: 0 <= r < |xs| + q0 ==> temp[left + r] == target[r]
    requires target[|xs| + q0..] == Merged(xs[|xs|..], ys[q0..], key)
    modifies temp
    ensures forall r :: 0 <= r < |target| ==> temp[left + r] == target[r]
    ensures forall r :: 0 <= r < temp.Length && !(left <= r <= right) ==> temp[r] == old(temp[r])
  {
    var j, k := j0, i + j0 - mid - 1;
    ghost var p, q, n := |xs|, q0, |xs| + q0;
    while j <= right
      invariant p == |xs| && 0 <= q <= |ys| && n == p + q
      invariant j == mid + 1 + q && k == left + n
      invariant forall r :: 0 <= r < n ==> temp[left + r] == target[r]
      invariant target[n..] == Merged(xs[p..], ys[q..], key)
      invariant forall r :: 0 <= r < temp.Length && !(left <= r <= right) ==> temp[r] == old(temp[r])
    {
      MergeStep(target, n, xs, ys, p, q, key);
      assert a[j] == ys[q];
      temp[k] := a[j];
      j, q := j + 1, q + 1;
      k, n := k + 1, n + 1;
    }
  }

  /** The three loops of Merge: the merge of the sorted runs `a[left..mid]`
      and `a[mid+1..right]` is written to `temp[left..right]`, and no other
      cell of `temp` changes. */
  method MergeIntoTemp<T>(a: array<T>, left: int, mid: int, right: int, temp: array<T>, key: T -> int)
    requires a != temp && temp.Length == a.Length
    requires 0 <= left <= mid <= right < a.Length
    modifies temp
    ensures temp[left..right + 1] == Merged(a[..][left..mid + 1], a[..][mid + 1..right + 1], key)
    ensures forall r :: 0 <= r < temp.Length && !(left <= r <= right) ==> temp[r] == old(temp[r])
  {
    ghost var xs, ys := a[left..mid + 1], a[mid + 1..right + 1];
    ghost var target := Merged(xs, ys, key);
    MergedLength(xs, ys, key);
    var i, j, p, q := MergeHeads(a, left, mid, right, temp, key, xs, ys, target);
    i, p := CopyLeftRest(a, left, mid, right, temp, key, i, j, xs, ys, target, p, q);
    CopyRightRest(a, left, mid, right, temp, key, i, j, xs, ys, target, q);
    ArrayRangeIs(temp, left, right + 1, target);
  }

  /** `s` with the range [lo, hi) replaced by `t`. */
  function Splice<T>(s: seq<T>, lo: int, hi: int, t: seq<T>): seq<T>
    requires 0 <= lo <= hi <= |s|
  {
    s[..lo] + t + s[hi..]
  }

  /** Splicing in a `t` as long as the range keeps the length, puts `t`
      at [lo, hi) and keeps every other cell. */
  lemma SpliceAt<T>(s: seq<T>, lo: int, hi: int, t: seq<T>)
    requires 0 <= lo <= hi <= |s| && |t| == hi - lo
    ensures |Splice(s, lo, hi, t)| == |s|
    ensures forall p :: 0 <= p < |s| && !(lo <= p < hi) ==> Splice(s, lo, hi, t)[p] == s[p]
    ensures forall p :: 0 <= p < |t| ==> Splice(s, lo, hi, t)[lo + p] == t[p]
  {
  }

  /** A sequence that agrees with Splice(s, lo, hi, t) index by index is
      it. */
  lemma SpliceByIndex<T>(s: seq<T>, r: seq<T>, lo: int, hi: int, t: seq<T>)
    requires 0 <= lo <= hi <= |s| && |t| == hi - lo && |r| == |s|
    requires forall p :: 0 <= p < |s| && !(lo <= p < hi) ==> r[p] == s[p]
    requires forall p :: 0 <= p < |t| ==> r[lo + p] == t[p]
    ensures r == Splice(s, lo, hi, t)
  {
    var u := Splice(s, lo, hi, t);
    SpliceAt(s, lo, hi, t);
    forall p | 0 <= p < |s| ensures r[p] == u[p] {
      if lo <= p < hi {
        assert r[lo + (p - lo)] == t[p - lo] == u[lo + (p - lo)];
      }
    }
  }

  /** The slice [lo, hi) of Splice(s, lo, hi, t) is `t`; slices that do not
      meet [lo, hi) are those of `s`. */
  lemma SpliceSlices<T>(s: seq<T>, lo: int, hi: int, t: seq<T>, a: int, b: int)
    requires 0 <= lo <= hi <= |s| && |t| == hi - lo && 0 <= a <= b <= |s|
    ensures Splice(s, lo, hi, t)[lo..hi] == t
    ensures b <= lo || hi <= a ==> Splice(s, lo, hi, t)[a..b] == s[a..b]
  {
    var r := Splice(s, lo, hi, t);
    SpliceAt(s, lo, hi, t);
    assert forall p :: 0 <= p < |t| ==> r[lo..hi][p] == r[lo + p];
    if b <= lo || hi <= a {
      assert forall p :: 0 <= p < b - a ==> r[a..b][p] == r[a + p];
    }
  }

  /** Merge(array, left, mid, right, temp): merges the sorted runs
      `a[left..mid]` and `a[mid+1..right]` through `temp[left..right]` and
      copies the result back. Only those two ranges are written. */
  method Merge<T>(a: array<T>, left: int, mid: int, right: int, temp: array<T>, key: T -> int)
    requires a != temp && temp.Length == a.Length
    requires 0 <= left <= mid <= right < a.Length
    modifies a, temp
    ensures a[..] == Splice(old(a[..]), left, right + 1, Merged(old(a[..])[left..mid + 1], old(a[..])[mid + 1..right + 1], key))
    ensures temp[left..right + 1] == a[left..right + 1]
    ensures forall r :: 0 <= r < temp.Length && !(left <= r <= right) ==> temp[r] == old(temp[r])
  {
    ghost var before := a[..];
    MergeIntoTemp(a, left, mid, right, temp, key);
    ghost var merged := temp[left..right + 1];
    var i := left;
    while i <= right
      modifies a
      invariant left <= i <= right + 1
      invariant forall r :: left <= r < i ==> a[r] == temp[r]
      invariant forall r :: 0 <= r < a.Length && !(left <= r < i) ==> a[r] == old(a[r])
    {
      a[i] := temp[i];
      i := i + 1;
    }
    assert forall r :: 0 <= r < |merged| ==> a[..][left + r] == merged[r];
    SpliceByIndex(before, a[..], left, right + 1, merged);
    assert a[left..right + 1] == temp[left..right + 1];
  }

  /** The array after MergeSort on [left, right]: the range replaced by
      its merge-sorted contents. */
  function SortedRange<T>(s: seq<T>, left: int, right: int, key: T -> int): (r: seq<T>)
    requires 0 <= left <= right < |s|
  {
    Splice(s, left, right + 1, MergeSorted(s[left..right + 1], key))
  }

  /** MergeSort(array, left, right, temp): sorts `a[left..right]` through
      `temp`; nothing outside [left, right] of either array is written, and
      `left >= right` does nothing. */
  method MergeSort<T>(a: array<T>, left: int, right: int, temp: array<T>, key: T -> int)
    requires a != temp && temp.Length == a.Length
    requires left >= right || (0 <= left && right < a.Length)
    modifies a, temp
    ensures 0 <= left <= right < a.Length ==> a[..] == SortedRange(old(a[..]), left, right, key)
    ensures !(0 <= left <= right < a.Length) ==> a[..] == old(a[..])
    decreases right - left
  {
    if left < right {
      var mid := (left + right) / 2;
      MidpointSplit(left, mid, right);
      ghost var s0 := a[..];
      MergeSort(a, left, mid, temp, key);
      ghost var s1 := a[..];
      assert s1 == SortedRange(s0, left, mid, key);
      MergeSort(a, mid + 1, right, temp, key);
      ghost var s2 := a[..];
      assert s2 == SortedRange(s1, mid + 1, right, key);
      Merge(a, left, mid, right, temp, key);
      SortHalvesThenMerge(s0, s1, s2, a[..], left, mid, right, key);
    } else if 0 <= left <= right < a.Length {
      SortedRangeOfOne(a[..], left, key);
    }
  }

  /** SortedRange over the whole of a non-empty sequence is MergeSorted. */
  lemma SortedRangeWhole<T>(s: seq<T>, key: T -> int)
    requires |s| > 0
    ensures SortedRange(s, 0, |s| - 1, key) == MergeSorted(s, key)
  {
    assert s[0..|s|] == s;
    assert s[..0] == [] && s[|s|..] == [];
  }

  /** MergeSort on a single element changes nothing. */
  lemma SortedRangeOfOne<T>(s: seq<T>, i: int, key: T -> int)
    requires 0 <= i < |s|
    ensures SortedRange(s, i, i, key) == s
  {
    SpliceByIndex(s, s, i, i + 1, MergeSorted(s[i..i + 1], key));
  }

  /** SortedRange on [lo, hi] holds the merge-sorted range there and
      leaves every slice that does not meet it as it was. */
  lemma SortedRangeSlices<T>(s: seq<T>, lo: int, hi: int, a: int, b: int, key: T -> int)
    requires 0 <= lo <= hi < |s| && 0 <= a <= b <= |s|
    ensures |SortedRange(s, lo, hi, key)| == |s|
    ensures SortedRange(s, lo, hi, key)[lo..hi + 1] == MergeSorted(s[lo..hi + 1], key)
    ensures b <= lo || hi < a ==> SortedRange(s, lo, hi, key)[a..b] == s[a..b]
  {
    MergeSortedLength(s[lo..hi + 1], key);
    SpliceAt(s, lo, hi + 1, MergeSorted(s[lo..hi + 1], key));
    SpliceSlices(s, lo, hi + 1, MergeSorted(s[lo..hi + 1], key), a, b);
  }

  /** MergeSort's recursion: sorting [left, mid], then [mid + 1, right],
      then merging the two is SortedRange on [left, right]. */
  lemma SortHalvesThenMerge<T>(s0: seq<T>, s1: seq<T>, s2: seq<T>, s3: seq<T>,
                               left: int, mid: int, right: int, key: T -> int)
    requires 0 <= left < right < |s0| && mid == (left + right) / 2
    requires |s1| == |s0| && |s2| == |s0|
    requires s1 == SortedRange(s0, left, mid, key)
    requires s2 == SortedRange(s1, mid + 1, right, key)
    requires s3 == Splice(s2, left, right + 1, Merged(s2[left..mid + 1], s2[mid + 1..right + 1], key))
    ensures s3 == SortedRange(s0, left, right, key)
  {
    var x := s0[left..right + 1];
    var h := mid + 1 - left;
    MidpointSplit(left, mid, right);
    HalvesOfRange(s0, left, mid, right);
    SortedRangeSlices(s0, left, mid, mid + 1, right + 1, key);
    SortedRangeSlices(s1, mid + 1, right, left, mid + 1, key);
    MergeSortedSplit(x, h, s2[left..mid + 1], s2[mid + 1..right + 1], key);
    MergeSortedLength(x, key);
    SpliceTwice(s0, s1, s2, s3, left, mid, right, MergeSorted(x, key), key);
  }

  /** The two halves of the range [left, right] split after mid. */
  lemma HalvesOfRange<T>(s: seq<T>, left: int, mid: int, right: int)
    requires 0 <= left <= mid <= right < |s|
    ensures s[left..right + 1][..mid + 1 - left] == s[left..mid + 1]
    ensures s[left..right + 1][mid + 1 - left..] == s[mid + 1..right + 1]
  {
  }

  /** MergeSort's split point mid = (left + right) / 2 leaves
      (right - left) / 2 + 1 elements in the left half. */
  lemma MidpointSplit(left: int, mid: int, right: int)
    requires 0 <= left < right && mid == (left + right) / 2
    ensures left <= mid < right
    ensures (right + 1 - left - 1) / 2 + 1 == mid + 1 - left
  {
  }

  /** Sorting [left, mid], then [mid + 1, right], then overwriting
      [left, right] with `m` is overwriting [left, right] with `m`. */
  lemma SpliceTwice<T>(s0: seq<T>, s1: seq<T>, s2: seq<T>, s3: seq<T>,
                       left: int, mid: int, right: int, m: seq<T>, key: T -> int)
    requires 0 <= left <= mid < right < |s0| && |m| == right + 1 - left
    requires |s1| == |s0| && |s2| == |s0|
    requires s1 == SortedRange(s0, left, mid, key) && s2 == SortedRange(s1, mid + 1, right, key)
    requires s3 == Splice(s2, left, right + 1, m)
    ensures s3 == Splice(s0, left, right + 1, m)
  {
    MergeSortedLength(s0[left..mid + 1], key);
    SpliceAt(s0, left, mid + 1, MergeSorted(s0[left..mid + 1], key));
    MergeSortedLength(s1[mid + 1..right + 1], key);
    SpliceAt(s1, mid + 1, right + 1, MergeSorted(s1[mid + 1..right + 1], key));
    SpliceAt(s2, left, right + 1, m);
    SpliceByIndex(s0, s3, left, right + 1, m);
  }

  /** MergeSorted on at least two elements is the merge of its sorted
      halves, the left one holding `h` elements. */
  lemma MergeSortedSplit<T>(s: seq<T>, h: int, l: seq<T>, r: seq<T>, key: T -> int)
    requires |s| > 1 && h == (|s| - 1) / 2 + 1
    requires l == MergeSorted(s[..h], key) && r == MergeSorted(s[h..], key)
    ensures MergeSorted(s, key) == Merged(l, r, key)
  {
  }
}
