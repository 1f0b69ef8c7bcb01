/** InsertionSortAlgorithm.InsertionSort (ADP_2024/InsertionSort/InsertionSortAlgorithm.cs). */
module InsertionSortAlgorithm {
  import opened SortSpec

  /** One pass of the inner loop: `x` walks left over every element whose
      key is strictly greater than its own and stops behind the first one
      that is not. */
  function Insert<T>(s: seq<T>, x: T, key: T -> int): seq<T>
    decreases |s|
  {
    if s == [] || !(key(x) < key(s[|s| - 1])) then s + [x]
    else Insert(s[..|s| - 1], x, key) + [s[|s| - 1]]
  }

  /** The array after the outer loop has inserted every element, left to right. */
  function InsertionSorted<T>(s: seq<T>, key: T -> int): seq<T>
    decreases |s|
  {
    if s == [] then [] else Insert(InsertionSorted(s[..|s| - 1], key), s[|s| - 1], key)
  }

  /** Insert adds exactly `x`. */
  lemma {:induction false} InsertPermutes<T>(s: seq<T>, x: T, key: T -> int)
    ensures multiset(Insert(s, x, key)) == multiset(s) + multiset{x}
    decreases |s|
  {
    if !(s == [] || !(key(x) < key(s[|s| - 1]))) {
      var init, last := s[..|s| - 1], s[|s| - 1];
      assert s == init + [last];
      InsertPermutes(init, x, key);
    }
  }

  /** Inserting into a sorted sequence keeps it sorted. */
  lemma {:induction false} InsertSorted<T>(s: seq<T>, x: T, key: T -> int)
    requires SortedBy(s, key)
    ensures SortedBy(Insert(s, x, key), key)
    decreases |s|
  {
    if !(s == [] || !(key(x) < key(s[|s| - 1]))) {
      var init, last := s[..|s| - 1], s[|s| - 1];
      assert s == init + [last];
      SortedSlice(s, key, 0, |s| - 1);
      InsertSorted(init, x, key);
      InsertPermutes(init, x, key);
      var r := Insert(init, x, key);
      assert Insert(s, x, key) == r + [last];
      forall i | 0 <= i < |r| ensures key(r[i]) <= key(last) {
        var y := r[i];
        assert y in multiset(r);
        if y != x {
          assert y in multiset(init);
          var p :| 0 <= p < |init| && init[p] == y;
          assert s[p] == y;
        }
      }
    }
  }

  /** Insert places `x` behind every element of `s` with the same key and
      moves no other element past an equal one. */
  lemma {:induction false} InsertStable<T>(s: seq<T>, x: T, key: T -> int, k: int)
    ensures WithKey(Insert(s, x, key), key, k) == WithKey(s, key, k) + WithKey([x], key, k)
    decreases |s|
  {
    if s == [] || !(key(x) < key(s[|s| - 1])) {
      WithKeyAppend(s, [x], key, k);
    } else {
      InsertStable(s[..|s| - 1], x, key, k);
      InsertStableStep(s, x, key, k);
    }
  }

  /** One step of InsertStable: `x` passes the last element of `s`, whose
      key is strictly greater, so at most one of the two has key `k`. */
  lemma {:induction false} InsertStableStep<T>(s: seq<T>, x: T, key: T -> int, k: int)
    requires s != [] && key(x) < key(s[|s| - 1])
    requires WithKey(Insert(s[..|s| - 1], x, key), key, k) == WithKey(s[..|s| - 1], key, k) + WithKey([x], key, k)
    ensures WithKey(Insert(s, x, key), key, k) == WithKey(s, key, k) + WithKey([x], key, k)
  {
    var init, last := s[..|s| - 1], s[|s| - 1];
    var r := Insert(init, x, key);
    assert Insert(s, x, key) == r + [last];
    WithKeyAppend(r, [last], key, k);
    WithKeyInitLast(s, key, k);
    WithKeySingle(x, key, k);
    WithKeySingle(last, key, k);
    SwapPast(WithKey(Insert(s, x, key), key, k), WithKey(r, key, k), WithKey(init, key, k),
             WithKey([x], key, k), WithKey([last], key, k), WithKey(s, key, k));
  }

  /** Sequence algebra for InsertStableStep: when one of `x` and `l` is
      empty, `i + x + l` and `i + l + x` agree. */
  lemma SwapPast<T>(w: seq<T>, m: seq<T>, i: seq<T>, x: seq<T>, l: seq<T>, s: seq<T>)
    requires w == m + l && m == i + x && s == i + l && (x == [] || l == [])
    ensures w == s + x
  {
    if x == [] {
      assert m == i;
    } else {
      assert w == m && s == i;
    }
  }

  /** The outer loop's result is sorted, a permutation of the input and
      stable. */
  lemma {:induction false} InsertionSortedCorrect<T>(s: seq<T>, key: T -> int)
    ensures SortedBy(InsertionSorted(s, key), key)
    ensures multiset(InsertionSorted(s, key)) == multiset(s)
    ensures StableArrangementOf(InsertionSorted(s, key), s, key)
    decreases |s|
  {
    if s != [] {
      var init, last := s[..|s| - 1], s[|s| - 1];
      InsertionSortedCorrect(init, key);
      var sortedInit := InsertionSorted(init, key);
      InsertSorted(sortedInit, last, key);
      InsertPermutes(sortedInit, last, key);
      assert s == init + [last];
      forall k ensures WithKey(InsertionSorted(s, key), key, k) == WithKey(s, key, k) {
        InsertStable(sortedInit, last, key, k);
        WithKeyAppend(init, [last], key, k);
      }
    }
  }

  /** An already sorted input comes back unchanged: the inner loop never
      runs. */
  lemma {:induction false} InsertionSortedOfSorted<T>(s: seq<T>, key: T -> int)
    requires SortedBy(s, key)
    ensures InsertionSorted(s, key) == s
    decreases |s|
  {
    if s != [] {
      var init, last := s[..|s| - 1], s[|s| - 1];
      SortedSlice(s, key, 0, |s| - 1);
      InsertionSortedOfSorted(init, key);
      assert s == init + [last];
      if init != [] {
        assert key(init[|init| - 1]) <= key(last);
      }
      assert Insert(init, last, key) == init + [last];
    }
  }

  /** The inner loop moves `x` past `s[j - 1]`. */
  lemma InsertPasses<T>(s: seq<T>, x: T, key: T -> int, j: int)
    requires 0 < j <= |s| && key(x) < key(s[j - 1])
    ensures Insert(s[..j], x, key) == Insert(s[..j - 1], x, key) + [s[j - 1]]
  {
    assert s[..j][..j - 1] == s[..j - 1];
  }

  /** The inner loop stops and drops `x` behind `s[..j]`. */
  lemma InsertStops<T>(s: seq<T>, x: T, key: T -> int, j: int)
    requires 0 <= j <= |s| && (j == 0 || !(key(x) < key(s[j - 1])))
    ensures Insert(s[..j], x, key) == s[..j] + [x]
  {
  }

  /** The outer loop's step: one more element of the input inserted. */
  lemma InsertionSortedStep<T>(s: seq<T>, key: T -> int, i: int)
    requires 0 <= i < |s|
    ensures InsertionSorted(s[..i + 1], key) == Insert(InsertionSorted(s[..i], key), s[i], key)
  {
    assert s[..i + 1][..i] == s[..i];
  }

  /** The body of InsertionSort's outer loop for index `i`: `a[i]` is
      shifted left past the strictly greater elements of `a[..i]`. */
  method InsertAt<T>(a: array<T>, i: int, key: T -> int)
    requires 0 < i < a.Length
    modifies a
    ensures a[..] == Insert(old(a[..i]), old(a[i]), key) + old(a[i + 1..])
  {
    ghost var s := a[..];
    ghost var prefix := s[..i];
    var toBeInserted := a[i];
    var j := i;
    ShiftEmpty(s, i);
    assert prefix[..i] == prefix && prefix[i..] == [];
    while j > 0 && key(toBeInserted) < key(a[j - 1])
      invariant 0 <= j <= i
      // cell j still holds its old value, cells j + 1 .. i hold s[j..i]
      invariant a[..] == s[..j + 1] + s[j..i] + s[i + 1..]
      invariant Insert(prefix, toBeInserted, key) == Insert(prefix[..j], toBeInserted, key) + prefix[j..]
    {
      ShiftRead(s, j, i);
      assert Insert(prefix, toBeInserted, key) == Insert(prefix[..j - 1], toBeInserted, key) + prefix[j - 1..] by {
        InsertPasses(prefix, toBeInserted, key, j);
        assert prefix[j - 1] == a[j - 1];
        assert prefix[j - 1..] == [prefix[j - 1]] + prefix[j..];
      }
      ShiftStep(s, j, i);
      a[j] := a[j - 1];
      j := j - 1;
    }
    ShiftRead(s, j, i);
    InsertStops(prefix, toBeInserted, key, j);
    ShiftDone(s, j, i, toBeInserted);
    a[j] := toBeInserted;
  }

  /** Before the inner loop, nothing is shifted. */
  lemma ShiftEmpty<T>(s: seq<T>, i: int)
    requires 0 <= i < |s|
    ensures s == s[..i + 1] + s[i..i] + s[i + 1..]
  {
  }

  /** The cells the inner loop reads: those before `j` are untouched. */
  lemma ShiftRead<T>(s: seq<T>, j: int, i: int)
    requires 0 <= j <= i < |s|
    ensures forall r :: 0 <= r < j ==> (s[..j + 1] + s[j..i] + s[i + 1..])[r] == s[r]
    ensures |s[..j + 1] + s[j..i] + s[i + 1..]| == |s|
    ensures (s[..i])[..j] == s[..j] && (s[..i])[j..] == s[j..i]
  {
  }

  /** One step of the inner loop: `s[j - 1]` is copied one cell to the right. */
  lemma ShiftStep<T>(s: seq<T>, j: int, i: int)
    requires 0 < j <= i < |s|
    ensures (s[..j + 1] + s[j..i] + s[i + 1..])[j := s[j - 1]] == s[..j] + s[j - 1..i] + s[i + 1..]
  {
    var t := (s[..j + 1] + s[j..i] + s[i + 1..])[j := s[j - 1]];
    var u := s[..j] + s[j - 1..i] + s[i + 1..];
    assert |t| == |u|;
    forall r | 0 <= r < |t| ensures t[r] == u[r] {
      if r < j {
      } else if r <= i {
        assert u[r] == s[j - 1..i][r - j];
      } else {
        assert u[r] == s[i + 1..][r - i - 1];
      }
    }
  }

  /** The last write of the inner loop: `x` goes to cell `j`. */
  lemma ShiftDone<T>(s: seq<T>, j: int, i: int, x: T)
    requires 0 <= j <= i < |s|
    ensures (s[..j + 1] + s[j..i] + s[i + 1..])[j := x] == (s[..i][..j] + [x] + s[..i][j..]) + s[i + 1..]
  {
    var t := (s[..j + 1] + s[j..i] + s[i + 1..])[j := x];
    var u := (s[..i][..j] + [x] + s[..i][j..]) + s[i + 1..];
    assert |t| == |u|;
    forall r | 0 <= r < |t| ensures t[r] == u[r] {
      if r < j {
      } else if r == j {
      } else if r <= i {
        assert u[r] == s[..i][j..][r - j - 1];
      } else {
        assert u[r] == s[i + 1..][r - i - 1];
      }
    }
  }

  /** One round of InsertionSort's outer loop, from the loop's point of
      view: one more element of the input inserted. */
  method InsertAtLoop<T>(a: array<T>, i: int, ghost orig: seq<T>, key: T -> int)
    requires 0 < i < a.Length && |orig| == a.Length
    requires a[..i] == InsertionSorted(orig[..i], key) && a[i..] == orig[i..]
    modifies a
    ensures a[..i + 1] == InsertionSorted(orig[..i + 1], key) && a[i + 1..] == orig[i + 1..]
  {
    assert a[i] == orig[i..][0];
    assert a[i + 1..] == orig[i..][1..];
    InsertAt(a, i, key);
    InsertionSortedStep(orig, key, i);
    InsertPrefix(a[..], Insert(InsertionSorted(orig[..i], key), orig[i], key), orig[i + 1..], i + 1);
  }

  /** Cutting a concatenation at the length of its first part. */
  lemma InsertPrefix<T>(s: seq<T>, x: seq<T>, y: seq<T>, n: int)
    requires s == x + y && |x| == n
    ensures s[..n] == x && s[n..] == y
  {
  }

  /** InsertionSort(array): every element in turn is shifted left past the
      strictly greater elements before it. The result is sorted, a
      permutation of the input and stable. */
  method InsertionSort<T>(a: array<T>, key: T -> int)
    modifies a
    ensures a[..] == InsertionSorted(old(a[..]), key)
    ensures SortedBy(a[..], key) && multiset(a[..]) == multiset(old(a[..]))
    ensures StableArrangementOf(a[..], old(a[..]), key)
  {
    ghost var orig := a[..];
    if a.Length > 0 {
      InsertionSortedStep(orig, key, 0);
      assert orig[..0] == [];
    }
    var i := 1;
    while i < a.Length
      invariant a.Length > 0 ==> i <= a.Length
      invariant a.Length > 0 ==> a[..i] == InsertionSorted(orig[..i], key)
      invariant a.Length > 0 ==> a[i..] == orig[i..]
    {
      InsertAtLoop(a, i, orig, key);
      i := i + 1;
    }
    assert a.Length > 0 ==> a[..] == a[..a.Length] && orig == orig[..a.Length];
    InsertionSortedCorrect(orig, key);
  }
}
