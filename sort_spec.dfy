/** What the sorting algorithms promise, shared by all of them.

    The C# sorts work on `T : IComparable<T>`. Here an element's position in
    the order is given by an integer key: `x.CompareTo(y) < 0` is
    `key(x) < key(y)`, `x.CompareTo(y) > 0` is `key(x) > key(y)`, and two
    elements with the same key compare equal without being the same value,
    which is what makes stability observable. */
module SortSpec {

  /** Non-decreasing by key. */
  ghost predicate SortedBy<T>(s: seq<T>, key: T -> int) {
    forall i, j :: 0 <= i < j < |s| ==> key(s[i]) <= key(s[j])
  }

  /** The elements of `s` whose key is `k`, in their order in `s`. */
  function WithKey<T>(s: seq<T>, key: T -> int, k: int): seq<T>
  {
    if s == [] then []
    else WithKey(s[..|s| - 1], key, k) + (if key(s[|s| - 1]) == k then [s[|s| - 1]] else [])
  }

  /** `t` keeps, for every key, the elements of `s` with that key in the order
      they have in `s`: no element passes another with an equal key. */
  ghost predicate StableArrangementOf<T>(t: seq<T>, s: seq<T>, key: T -> int) {
    forall k :: WithKey(t, key, k) == WithKey(s, key, k)
  }

  /** WithKey distributes over concatenation. */
  lemma {:induction false} WithKeyAppend<T>(s: seq<T>, t: seq<T>, key: T -> int, k: int)
    ensures WithKey(s + t, key, k) == WithKey(s, key, k) + WithKey(t, key, k)
    decreases |t|
  {
    if t == [] {
      assert s + t == s;
    } else {
      var t' := t[..|t| - 1];
      assert (s + t)[..|s + t| - 1] == s + t';
      WithKeyAppend(s, t', key, k);
    }
  }

  /** One element contributes itself exactly when its key is `k`. */
  lemma WithKeySingle<T>(x: T, key: T -> int, k: int)
    ensures WithKey([x], key, k) == if key(x) == k then [x] else []
  {
    assert [x][..0] == [];
  }

  /** WithKey of a non-empty sequence: its head's part, then its tail's. */
  lemma WithKeyHeadTail<T>(s: seq<T>, key: T -> int, k: int)
    requires s != []
    ensures WithKey(s, key, k) == WithKey([s[0]], key, k) + WithKey(s[1..], key, k)
  {
    assert s == [s[0]] + s[1..];
    WithKeyAppend([s[0]], s[1..], key, k);
  }

  /** WithKey of a non-empty sequence: its front's part, then its last
      element's. */
  lemma WithKeyInitLast<T>(s: seq<T>, key: T -> int, k: int)
    requires s != []
    ensures WithKey(s, key, k) == WithKey(s[..|s| - 1], key, k) + WithKey([s[|s| - 1]], key, k)
  {
    WithKeySingle(s[|s| - 1], key, k);
  }

  /** A sequence none of whose keys is `k` contributes nothing. */
  lemma {:induction false} WithKeyNone<T>(s: seq<T>, key: T -> int, k: int)
    requires forall i :: 0 <= i < |s| ==> key(s[i]) != k
    ensures WithKey(s, key, k) == []
    decreases |s|
  {
    if s != [] {
      WithKeyNone(s[..|s| - 1], key, k);
    }
  }

  /** A sorted sequence stays sorted when cut. */
  lemma SortedSlice<T>(s: seq<T>, key: T -> int, lo: int, hi: int)
    requires SortedBy(s, key) && 0 <= lo <= hi <= |s|
    ensures SortedBy(s[lo..hi], key)
  {
  }

  /** A non-empty sequence is its head followed by its tail. */
  lemma HeadTail<T>(s: seq<T>)
    requires s != []
    ensures s == [s[0]] + s[1..]
    ensures multiset(s) == multiset{s[0]} + multiset(s[1..])
  {
    assert s == [s[0]] + s[1..];
  }

  /** A sequence is its two pieces either side of a cut. */
  lemma SplitAt<T>(s: seq<T>, h: int)
    requires 0 <= h <= |s|
    ensures s == s[..h] + s[h..]
    ensures multiset(s) == multiset(s[..h]) + multiset(s[h..])
  {
    assert s == s[..h] + s[h..];
  }

  /** The tail of a sorted sequence is sorted and bounded below by its
      head. */
  lemma SortedTail<T>(s: seq<T>, key: T -> int)
    requires SortedBy(s, key) && s != []
    ensures SortedBy(s[1..], key)
    ensures AllAtLeast(s, key, key(s[0])) && AllAtLeast(s[1..], key, key(s[0]))
  {
    assert forall k :: 0 <= k < |s| - 1 ==> s[1..][k] == s[k + 1];
  }

  /** An element at or below a sorted sequence can be put in front of it. */
  lemma SortedCons<T>(x: T, s: seq<T>, key: T -> int)
    requires SortedBy(s, key) && AllAtLeast(s, key, key(x))
    ensures SortedBy([x] + s, key)
  {
    assert forall k :: 0 <= k < |s| ==> ([x] + s)[k + 1] == s[k];
  }

  /** Every element of `s` has a key of at most `p`. */
  ghost predicate AllAtMost<T>(s: seq<T>, key: T -> int, p: int) {
    forall k :: 0 <= k < |s| ==> key(s[k]) <= p
  }

  /** Every element of `s` has a key of at least `p`. */
  ghost predicate AllAtLeast<T>(s: seq<T>, key: T -> int, p: int) {
    forall k :: 0 <= k < |s| ==> key(s[k]) >= p
  }

  /** Rearranging a sequence keeps every bound on its keys. */
  lemma {:induction false} BoundsOfPermutation<T>(s: seq<T>, t: seq<T>, key: T -> int, p: int)
    requires multiset(s) == multiset(t)
    ensures AllAtMost(t, key, p) ==> AllAtMost(s, key, p)
    ensures AllAtLeast(t, key, p) ==> AllAtLeast(s, key, p)
  {
    forall k | 0 <= k < |s| ensures exists m :: 0 <= m < |t| && t[m] == s[k] {
      assert s[k] in multiset(s);
      assert s[k] in t;
    }
  }

  /** A lower bound on two sequences bounds anything made of their
      elements. */
  lemma {:induction false} BoundsOfUnion<T>(s: seq<T>, t: seq<T>, u: seq<T>, key: T -> int, p: int)
    requires multiset(s) == multiset(t) + multiset(u)
    requires AllAtLeast(t, key, p) && AllAtLeast(u, key, p)
    ensures AllAtLeast(s, key, p)
  {
    forall k | 0 <= k < |s| ensures key(s[k]) >= p {
      assert s[k] in multiset(s);
      if s[k] in multiset(t) {
        assert s[k] in t;
      } else {
        assert s[k] in u;
      }
    }
  }

  /** `t` is `s` with the cells of [lo, hi] (both ends included) rearranged
      among themselves and every other cell unchanged; an empty range means
      `t == s`. */
  ghost predicate Rearranged<T>(s: seq<T>, t: seq<T>, lo: int, hi: int) {
    && |t| == |s|
    && (forall k :: 0 <= k < |s| && !(lo <= k <= hi) ==> t[k] == s[k])
    && (lo <= hi ==> 0 <= lo && hi < |s| && multiset(t[lo..hi + 1]) == multiset(s[lo..hi + 1]))
  }

  /** Leaving a sequence as it is rearranges nothing. */
  lemma RearrangedRefl<T>(s: seq<T>, lo: int, hi: int)
    requires lo <= hi ==> 0 <= lo && hi < |s|
    ensures Rearranged(s, s, lo, hi)
  {
  }

  /** A rearrangement of a range is a rearrangement of every range that
      contains it, the whole sequence included. */
  lemma RearrangedWiden<T>(s: seq<T>, t: seq<T>, lo: int, hi: int, outerLo: int, outerHi: int)
    requires Rearranged(s, t, lo, hi)
    requires 0 <= outerLo <= outerHi < |s| && (lo <= hi ==> outerLo <= lo && hi <= outerHi)
    ensures Rearranged(s, t, outerLo, outerHi)
  {
    if lo <= hi {
      assert s[outerLo..outerHi + 1] == s[outerLo..lo] + s[lo..hi + 1] + s[hi + 1..outerHi + 1];
      assert t[outerLo..outerHi + 1] == t[outerLo..lo] + t[lo..hi + 1] + t[hi + 1..outerHi + 1];
      assert t[outerLo..lo] == s[outerLo..lo];
      assert t[hi + 1..outerHi + 1] == s[hi + 1..outerHi + 1];
    } else {
      assert t == s;
    }
  }

  /** Two rearrangements of the same range make one. */
  lemma RearrangedTrans<T>(s: seq<T>, t: seq<T>, u: seq<T>, lo: int, hi: int)
    requires Rearranged(s, t, lo, hi) && Rearranged(t, u, lo, hi)
    ensures Rearranged(s, u, lo, hi)
  {
  }

  /** A rearrangement keeps the multiset of the whole sequence. */
  lemma RearrangedWhole<T>(s: seq<T>, t: seq<T>, lo: int, hi: int)
    requires Rearranged(s, t, lo, hi)
    ensures multiset(t) == multiset(s)
  {
    if |s| > 0 {
      RearrangedWiden(s, t, lo, hi, 0, |s| - 1);
      assert s == s[0..|s| - 1 + 1] && t == t[0..|s| - 1 + 1];
    }
  }
}
