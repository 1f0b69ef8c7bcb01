/** PriorityQueue<T> (ADP_2024/PriorityQueue/PriorityQueue.cs): a circular
    array of (item, priority) pairs kept in non-increasing priority order by
    bubbling each new pair toward the front.

    Resize sets `_rear = _size` where the last live slot is `_size - 1`.
    From then on the slots `front .. rear` are one more than the `size`
    live ones: the ghost field `lag` counts that extra slot (0 or 1), and
    Extended() is the whole run `front .. rear`, the live window being its
    first `size` pairs. The next Add bubbles its pair up from behind the
    extra slot, which right after a resize holds (default(T), 0); a pair
    whose priority is not above the extra slot's stays behind it, outside
    the live window. AddCorrected and ResizeCorrected set the rear to
    `_size - 1` and keep the order for all histories. */
module PriorityQueue {
  import opened Wrappers

  const DefaultCapacity := 4

  /** An (item, Priority) pair. */
  type Entry<T> = (T, int)

  /** Non-increasing priorities from front to back. */
  ghost predicate NonIncreasing<T>(e: seq<Entry<T>>) {
    forall i, j :: 0 <= i < j < |e| ==> e[i].1 >= e[j].1
  }

  /** The slot `i` places after `front` in a circular buffer of `m` slots. */
  function Slot(front: int, i: int, m: int): (r: int)
    requires 0 <= front < m && 0 <= i <= m
    ensures 0 <= r < m
  {
    if front + i < m then front + i else front + i - m
  }

  /** The slot after `r`; the rear of an empty queue is the slot before the
      front, and -1 before the first Add. */
  function Next(r: int, m: int): int {
    if r + 1 < m then r + 1 else 0
  }

  /** The circular run of `n` slots of `s` starting at `front`. */
  function Window<T>(s: seq<Entry<T>>, front: int, n: int): seq<Entry<T>>
    requires 0 <= front < |s| && 0 <= n <= |s|
  {
    seq(n, i requires 0 <= i < n => s[Slot(front, i, |s|)])
  }

  /** Reduction modulo m of a number below 2m: the source's `%` on buffer
      indices. */
  lemma ModSmall(x: int, m: int)
    requires m > 0 && 0 <= x < 2 * m
    ensures x % m == if x < m then x else x - m
  {
    if x >= m {
      assert x == m * 1 + (x - m);
    }
  }

  /** The length of the longest prefix of `e` after which every pair has a
      priority below `p`: the place where a new pair of priority `p` comes
      to rest when it bubbles up from the back. */
  function PrefixAtLeast<T>(e: seq<Entry<T>>, p: int): nat
    decreases |e|
  {
    if e == [] || e[|e| - 1].1 >= p then |e| else PrefixAtLeast(e[..|e| - 1], p)
  }

  lemma {:induction false} PrefixAtLeastBound<T>(e: seq<Entry<T>>, p: int)
    ensures PrefixAtLeast(e, p) <= |e|
    decreases |e|
  {
    if !(e == [] || e[|e| - 1].1 >= p) {
      PrefixAtLeastBound(e[..|e| - 1], p);
    }
  }

  /** `x` inserted behind the longest prefix after which every pair has a
      lower priority than its own. */
  function InsertBehind<T>(e: seq<Entry<T>>, x: Entry<T>): seq<Entry<T>>
  {
    PrefixAtLeastBound(e, x.1);
    var k := PrefixAtLeast(e, x.1);
    e[..k] + [x] + e[k..]
  }

  /** Where PrefixAtLeast stops: every later pair has a lower priority than
      `p`, the pair just before it (if any) does not, and on a
      non-increasing `e` no pair before it does. */
  lemma {:induction false} PrefixAtLeastPlaces<T>(e: seq<Entry<T>>, p: int)
    ensures PrefixAtLeast(e, p) <= |e|
    ensures forall i :: PrefixAtLeast(e, p) <= i < |e| ==> e[i].1 < p
    ensures PrefixAtLeast(e, p) > 0 ==> e[PrefixAtLeast(e, p) - 1].1 >= p
    ensures NonIncreasing(e) ==> forall i :: 0 <= i < PrefixAtLeast(e, p) ==> e[i].1 >= p
    decreases |e|
  {
    if !(e == [] || e[|e| - 1].1 >= p) {
      var init := e[..|e| - 1];
      PrefixAtLeastPlaces(init, p);
      assert forall i :: 0 <= i < |init| ==> init[i] == e[i];
    }
  }

  /** The pairs of InsertBehind(e, x): those of `e` before the resting
      place, then `x`, then the rest of `e`. */
  lemma InsertBehindAt<T>(e: seq<Entry<T>>, x: Entry<T>, i: int)
    requires 0 <= i <= |e|
    ensures PrefixAtLeast(e, x.1) <= |e| && |InsertBehind(e, x)| == |e| + 1
    ensures InsertBehind(e, x)[i] ==
              var k := PrefixAtLeast(e, x.1);
              if i < k then e[i] else if i == k then x else e[i - 1]
  {
    PrefixAtLeastBound(e, x.1);
  }

  /** InsertBehind adds exactly `x`. */
  lemma InsertBehindCounts<T>(e: seq<Entry<T>>, x: Entry<T>)
    ensures |InsertBehind(e, x)| == |e| + 1
    ensures multiset(InsertBehind(e, x)) == multiset(e) + multiset{x}
  {
    var k := PrefixAtLeast(e, x.1);
    PrefixAtLeastBound(e, x.1);
    assert e == e[..k] + e[k..];
  }

  /** InsertBehind keeps a non-increasing sequence non-increasing, and puts
      `x` behind every pair whose priority is at least its own and ahead of
      every pair of lower priority: equal priorities leave in the order they
      came in. */
  lemma InsertBehindOrdered<T>(e: seq<Entry<T>>, x: Entry<T>)
    requires NonIncreasing(e)
    ensures |InsertBehind(e, x)| == |e| + 1
    ensures NonIncreasing(InsertBehind(e, x))
    ensures forall i :: 0 <= i < |e| && e[i].1 >= x.1 ==> InsertBehind(e, x)[i] == e[i]
    ensures forall i :: 0 <= i < |e| && e[i].1 < x.1 ==> InsertBehind(e, x)[i + 1] == e[i]
  {
    var k := PrefixAtLeast(e, x.1);
    PrefixAtLeastPlaces(e, x.1);
    var r := InsertBehind(e, x);
    InsertBehindAt(e, x, 0);
    forall i, j | 0 <= i < j < |r| ensures r[i].1 >= r[j].1 {
      InsertBehindAt(e, x, i);
      InsertBehindAt(e, x, j);
    }
    forall i | 0 <= i < |e| && e[i].1 >= x.1 ensures r[i] == e[i] {
      InsertBehindAt(e, x, i);
    }
    forall i | 0 <= i < |e| && e[i].1 < x.1 ensures r[i + 1] == e[i] {
      InsertBehindAt(e, x, i + 1);
    }
  }

  /** Writing the slot just behind a window extends it. */
  lemma WindowExtend<T>(s: seq<Entry<T>>, front: int, n: int, v: Entry<T>)
    requires 0 <= front < |s| && 0 <= n < |s|
    ensures Window(s[Slot(front, n, |s|) := v], front, n + 1) == Window(s, front, n) + [v]
  {
  }

  /** Swapping the slots at window positions a and b swaps the window's
      pairs at a and b. */
  lemma WindowSwap<T>(s: seq<Entry<T>>, front: int, n: int, a: int, b: int)
    requires 0 <= front < |s| && 0 <= n <= |s| && 0 <= a < n && 0 <= b < n
    ensures var m := |s|;
            var w := Window(s, front, n);
            Window(s[Slot(front, a, m) := s[Slot(front, b, m)]][Slot(front, b, m) := s[Slot(front, a, m)]], front, n)
              == w[a := w[b]][b := w[a]]
  {
  }

  /** Moving the front one slot on drops the window's first pair. */
  lemma WindowAdvance<T>(s: seq<Entry<T>>, front: int, n: int)
    requires 0 <= front < |s| && 1 <= n <= |s|
    ensures Next(front, |s|) < |s|
    ensures Window(s, Next(front, |s|), n - 1) == Window(s, front, n)[1..]
  {
  }

  /** The run starting at slot 0 of a plain sequence is its prefix. */
  lemma WindowAtZero<T>(s: seq<Entry<T>>, n: int)
    requires 0 < |s| && 0 <= n <= |s|
    ensures Window(s, 0, n) == s[..n]
  {
  }

  /** Reorder's step: the new pair at position pos passes the pair before
      it. */
  lemma PassStep<T>(e: seq<Entry<T>>, x: Entry<T>, pos: int)
    requires 0 < pos <= |e|
    ensures var w := e[..pos] + [x] + e[pos..];
            w[pos := w[pos - 1]][pos - 1 := w[pos]] == e[..pos - 1] + [x] + e[pos - 1..]
  {
    var w := e[..pos] + [x] + e[pos..];
    var u := e[..pos - 1] + [x] + e[pos - 1..];
    var v := w[pos := w[pos - 1]][pos - 1 := w[pos]];
    assert |v| == |u|;
    forall i | 0 <= i < |u| ensures v[i] == u[i] {
      if i > pos {
        assert v[i] == e[i - 1] == u[i];
      }
    }
  }

  /** Where Reorder stops, the pair rests at the place InsertBehind puts it. */
  lemma RestsAt<T>(e: seq<Entry<T>>, x: Entry<T>, pos: int)
    requires 0 <= pos <= |e| && forall i :: pos <= i < |e| ==> e[i].1 < x.1
    requires pos == 0 || e[pos - 1].1 >= x.1
    ensures InsertBehind(e, x) == e[..pos] + [x] + e[pos..]
  {
    PrefixAtLeastIs(e, x.1, pos);
  }

  /** PrefixAtLeast is the place after which all pairs have a lower
      priority and before which the last pair has not. */
  lemma {:induction false} PrefixAtLeastIs<T>(e: seq<Entry<T>>, p: int, k: int)
    requires 0 <= k <= |e| && forall i :: k <= i < |e| ==> e[i].1 < p
    requires k == 0 || e[k - 1].1 >= p
    ensures PrefixAtLeast(e, p) == k
    decreases |e|
  {
    if k < |e| {
      var init := e[..|e| - 1];
      assert forall i :: k <= i < |init| ==> init[i] == e[i];
      PrefixAtLeastIs(init, p, k);
    }
  }

  /** `x` behind all of `e`. */
  lemma LastApart<T>(e: seq<Entry<T>>, x: Entry<T>)
    ensures e + [x] == e[..|e|] + [x] + e[|e|..]
  {
    assert e[..|e|] == e && e[|e|..] == [];
  }

  /** Add's `(_rear + 1) % _capacity` is the slot behind the run of k
      slots, and the new rear is again one slot before the end of the run. */
  lemma RearAdvance(front: int, k: int, m: int, rear: int)
    requires 0 <= front < m && 0 <= k < m && -1 <= rear < m && Next(rear, m) == Slot(front, k, m)
    ensures (rear + 1) % m == Slot(front, k, m)
    ensures Next(Slot(front, k, m), m) == Slot(front, k + 1, m)
  {
    ModSmall(rear + 1, m);
  }

  /** Poll's `(_front + 1) % _capacity` starts the run one slot later: the
      run of k - 1 slots from there ends where the old run of k did. */
  lemma FrontAdvance(front: int, k: int, m: int)
    requires 0 <= front < m && 1 <= k <= m
    ensures (front + 1) % m == Next(front, m)
    ensures Slot(Next(front, m), k - 1, m) == Slot(front, k, m)
  {
    ModSmall(front + 1, m);
  }

  /** On a non-increasing run the first pair has the highest priority, and
      the rest of the run is still non-increasing. */
  lemma FrontIsHighest<T>(e: seq<Entry<T>>, k: int)
    requires 1 <= k <= |e|
    ensures NonIncreasing(e) ==> NonIncreasing(e[1..])
    ensures NonIncreasing(e) ==> forall y :: y in e[..k] ==> y.1 <= e[0].1
  {
    if NonIncreasing(e) {
      forall y | y in e[..k] ensures y.1 <= e[0].1 {
        var i :| 0 <= i < k && e[i] == y;
      }
      forall i, j | 0 <= i < j < |e[1..]| ensures e[1..][i].1 >= e[1..][j].1 {
        assert e[1..][i] == e[i + 1] && e[1..][j] == e[j + 1];
      }
    }
  }

  /** Dropping the first pair of the live prefix. */
  lemma TailOfPrefix<T>(e: seq<T>, k: int)
    requires 1 <= k <= |e|
    ensures e[..k][1..] == e[1..][..k - 1]
  {
  }

  /** The slot before window position pos, as Reorder computes it. */
  lemma PrevSlot(front: int, pos: int, m: int, current: int)
    requires 0 <= front < m && 0 < pos < m && current == Slot(front, pos, m)
    ensures (current - 1 + m) % m == Slot(front, pos - 1, m)
  {
    ModSmall(current - 1 + m, m);
  }

  /** The slots of the new pair and of the pair before it, while the new
      pair passes along `e`. */
  lemma Neighbours<T>(s: seq<Entry<T>>, front: int, n: int, pos: int, e: seq<Entry<T>>, x: Entry<T>)
    requires 0 <= front < |s| && 0 < pos < n <= |s| && pos <= |e|
    requires Window(s, front, n) == e[..pos] + [x] + e[pos..]
    ensures s[Slot(front, pos, |s|)] == x && s[Slot(front, pos - 1, |s|)] == e[pos - 1]
  {
    assert Window(s, front, n)[pos] == x;
    assert Window(s, front, n)[pos - 1] == e[pos - 1];
  }

  /** The pair at window position i. */
  lemma WindowAt<T>(s: seq<Entry<T>>, front: int, n: int, i: int)
    requires 0 <= front < |s| && 0 <= n <= |s| && 0 <= i < n
    ensures Window(s, front, n)[i] == s[Slot(front, i, |s|)]
  {
  }

  /** The pairs around `x` while it passes along `e`. */
  lemma Around<T>(e: seq<Entry<T>>, x: Entry<T>, pos: int)
    requires 0 < pos <= |e|
    ensures (e[..pos] + [x] + e[pos..])[pos] == x
    ensures (e[..pos] + [x] + e[pos..])[pos - 1] == e[pos - 1]
  {
  }

  class PriorityQueue<T> {
    var items: array<Entry<T>>
    var capacity: int
    var size: int
    var front: int
    var rear: int
    /** 1 once a Resize has put the rear one slot behind the last live pair. */
    ghost var lag: int
    /** default(T). */
    const dflt: T

    /** The fields fit together: `rear` is `lag` slots behind the last live
        slot, and the run front .. rear fits in the buffer. */
    ghost predicate Shape()
      reads this
    {
      && items.Length == capacity && capacity >= 1
      && 0 <= front < capacity && 0 <= size < capacity
      && (lag == 0 || lag == 1) && size + lag <= capacity
      && -1 <= rear < capacity && Next(rear, capacity) == Slot(front, size + lag, capacity)
    }

    /** The slots front .. rear, in order. */
    ghost function Extended(): seq<Entry<T>>
      reads this, items
      requires Shape()
    {
      Window(items[..], front, size + lag)
    }

    /** The live pairs, front first. */
    ghost function Contents(): seq<Entry<T>>
      reads this, items
      requires Shape()
    {
      Extended()[..size]
    }

    /** The shape, and while no Resize has happened the order. */
    ghost predicate Valid()
      reads this, items
    {
      Shape() && (lag == 0 ==> NonIncreasing(Extended()))
    }

    /** PriorityQueue(capacity = 4). The capacity must be at least 1: with
        0, the first Add takes a remainder by zero. */
    constructor (dflt: T, capacity: int := DefaultCapacity)
      requires capacity >= 1
      ensures Valid() && Contents() == [] && lag == 0 && this.capacity == capacity
      ensures fresh(items) && this.dflt == dflt
    {
      this.dflt := dflt;
      this.capacity := capacity;
      items := new Entry<T>[capacity](_ => (dflt, 0));
      front := 0;
      rear := -1;
      size := 0;
      lag := 0;
    }

    /** IsEmpty. */
    function IsEmpty(): (r: bool)
      reads this, items
      requires Shape()
      ensures r <==> Contents() == []
    {
      size == 0
    }

    /** Count. */
    function Count(): (r: int)
      reads this, items
      requires Shape()
      ensures r == |Contents()|
    {
      size
    }

    /** Add(item, priority): grows the buffer when one slot is left, writes
        the pair behind the rear and bubbles it toward the front past every
        pair of strictly lower priority. */
    method Add(item: T, priority: int)
      requires Valid()
      modifies this, items
      ensures Valid() && size == old(size) + 1 && (items == old(items) || fresh(items))
      ensures old(size) == old(capacity) - 1 ==>
                lag == 1 && capacity == 2 * old(capacity) &&
                Extended() == InsertBehind(old(Extended())[..old(size)] + [(dflt, 0)], (item, priority))
      ensures old(size) != old(capacity) - 1 ==>
                lag == old(lag) && capacity == old(capacity) &&
                Extended() == InsertBehind(old(Extended()), (item, priority))
    {
      ghost var e := Extended();
      if size == capacity - 1 {
        Resize();
        e := Extended();
      }
      PutBehind(item, priority);
      Reorder(e, (item, priority));
      if lag == 0 {
        InsertBehindOrdered(e, (item, priority));
      }
    }

    /** The write of Add: the pair goes to the slot after the rear. */
    method PutBehind(item: T, priority: int)
      requires Shape() && size < capacity - 1
      modifies this, items
      ensures Shape() && size == old(size) + 1 && lag == old(lag) && 0 <= rear
      ensures capacity == old(capacity) && front == old(front) && items == old(items)
      ensures Extended() == old(Extended()) + [(item, priority)]
    {
      RearAdvance(front, size + lag, capacity, rear);
      WindowExtend(items[..], front, size + lag, (item, priority));
      rear := (rear + 1) % capacity;
      items[rear] := (item, priority);
      size := size + 1;
    }

    /** Reorder(): the pair at the rear is swapped toward the front while
        its priority is strictly greater than the one before it. */
    method Reorder(ghost eb: seq<Entry<T>>, ghost x: Entry<T>)
      requires Shape() && 0 <= rear && Extended() == eb + [x]
      modifies items
      ensures Shape()
      ensures Extended() == InsertBehind(eb, x)
    {
      ghost var n := size + lag;
      ghost var pos := |eb|;
      LastApart(eb, x);
      var current := rear;
      while current != front
        invariant 0 <= pos < n && current == Slot(front, pos, capacity)
        invariant Window(items[..], front, n) == eb[..pos] + [x] + eb[pos..]
        invariant forall i :: pos <= i < |eb| ==> eb[i].1 < x.1
        decreases pos
      {
        PrevSlot(front, pos, capacity, current);
        var prev := (current - 1 + capacity) % capacity;
        Neighbours(items[..], front, n, pos, eb, x);
        if items[current].1 > items[prev].1 {
          SwapSlots(current, prev, pos, n, eb, x);
          current := prev;
          pos := pos - 1;
        } else {
          break;
        }
      }
      RestsAt(eb, x, pos);
      assert Extended() == Window(items[..], front, n);
    }

    /** The swap of Reorder: the new pair `x`, at window position `pos`,
        trades slots with the pair before it. */
    method SwapSlots(current: int, prev: int, ghost pos: int, ghost n: int,
                     ghost eb: seq<Entry<T>>, ghost x: Entry<T>)
      requires Shape() && 0 < pos < n <= capacity && pos <= |eb|
      requires current == Slot(front, pos, capacity) && prev == Slot(front, pos - 1, capacity)
      requires Window(items[..], front, n) == eb[..pos] + [x] + eb[pos..]
      modifies items
      ensures Window(items[..], front, n) == eb[..pos - 1] + [x] + eb[pos - 1..]
    {
      ghost var w := items[..];
      var temp := items[current];
      items[current] := items[prev];
      items[prev] := temp;
      assert items[..] == w[current := w[prev]][prev := w[current]];
      WindowSwap(w, front, n, pos, pos - 1);
      PassStep(eb, x, pos);
    }

    /** Resize(), as written: doubles the buffer, copies the live pairs to
        its front and sets the rear to `size`, one slot behind the last
        live pair. The slot in between holds (default(T), 0). */
    method Resize()
      requires Shape() && size == capacity - 1
      modifies this
      ensures Shape() && lag == 1 && fresh(items)
      ensures capacity == 2 * old(capacity) && size == old(size) && front == 0 && rear == old(size)
      ensures Extended() == old(Extended())[..old(size)] + [(dflt, 0)]
    {
      var newItems := CopyWindow();
      items := newItems;
      front := 0;
      rear := size;
      capacity := capacity * 2;
      lag := 1;
      WindowAtZero(items[..], size + 1);
    }

    /** The copy loop of Resize into a buffer twice as long. */
    method CopyWindow() returns (newItems: array<Entry<T>>)
      requires Shape()
      ensures fresh(newItems) && newItems.Length == 2 * capacity
      ensures newItems[..size] == Contents()
      ensures forall p :: size <= p < newItems.Length ==> newItems[p] == (dflt, 0)
    {
      newItems := new Entry<T>[capacity * 2](_ => (dflt, 0));
      var i := 0;
      while i < size
        invariant 0 <= i <= size
        invariant forall p :: 0 <= p < i ==> newItems[p] == items[Slot(front, p, capacity)]
        invariant forall p :: size <= p < newItems.Length ==> newItems[p] == (dflt, 0)
        modifies newItems
      {
        ModSmall(front + i, capacity);
        newItems[i] := items[(front + i) % capacity];
        i := i + 1;
      }
    }

    /** Peek(): the front item, or InvalidOperationException on an empty
        queue. While no Resize has happened its priority is the highest. */
    function Peek(): (r: Result<T>)
      reads this, items
      requires Valid()
      ensures Contents() == [] <==> r == Failure(InvalidOperation)
      ensures Contents() != [] ==> r == Success(Contents()[0].0)
      ensures Contents() != [] && lag == 0 ==> forall e :: e in Contents() ==> e.1 <= Contents()[0].1
    {
      if size == 0 then Failure(InvalidOperation)
      else
        assert Contents()[0] == items[front];
        Success(items[front].0)
    }

    /** Poll(): the front item, with the front moved one slot on; no other
        slot changes and the buffer never shrinks. InvalidOperationException
        on an empty queue. */
    method Poll() returns (r: Result<T>)
      requires Valid()
      modifies this
      ensures Valid() && items == old(items) && capacity == old(capacity) && lag == old(lag)
      ensures old(size) == 0 ==> r == Failure(InvalidOperation) && Contents() == old(Contents())
      ensures old(size) > 0 ==> r == Success(old(Contents())[0].0) && Extended() == old(Extended())[1..]
      ensures old(size) > 0 ==> Contents() == old(Contents())[1..]
      ensures old(size) > 0 && lag == 0 ==> forall e :: e in old(Contents()) ==> e.1 <= old(Contents())[0].1
    {
      if size == 0 {
        return Failure(InvalidOperation);
      }
      var result := items[front].0;
      WindowAt(items[..], front, size + lag, 0);
      WindowAdvance(items[..], front, size + lag);
      FrontAdvance(front, size + lag, capacity);
      TailOfPrefix(Extended(), size);
      FrontIsHighest(Extended(), size);
      front := (front + 1) % capacity;
      size := size - 1;
      r := Success(result);
    }

    /** Resize with the rear set to the last live slot, `size - 1`. */
    method ResizeCorrected()
      requires Shape() && lag == 0 && size == capacity - 1
      modifies this
      ensures Shape() && lag == 0 && fresh(items)
      ensures capacity == 2 * old(capacity) && size == old(size) && front == 0
      ensures Extended() == old(Extended())
    {
      var newItems := CopyWindow();
      items := newItems;
      front := 0;
      rear := size - 1;
      capacity := capacity * 2;
      WindowAtZero(items[..], size);
    }

    /** Add on top of ResizeCorrected: the queue stays ordered through every
        resize. */
    method AddCorrected(item: T, priority: int)
      requires Valid() && lag == 0
      modifies this, items
      ensures Valid() && lag == 0 && (items == old(items) || fresh(items))
      ensures Contents() == InsertBehind(old(Contents()), (item, priority))
    {
      ghost var e := Extended();
      assert e == Contents();
      if size == capacity - 1 {
        ResizeCorrected();
      }
      PutBehind(item, priority);
      Reorder(e, (item, priority));
      InsertBehindOrdered(e, (item, priority));
      assert Contents() == Extended();
    }
  }

  /** Capacity 2: the second Add resizes, and its pair, of priority -1, does
      not pass the (0, 0) pair left in the extra slot. The second Poll then
      answers default(T) instead of the second item. */
  method PollAfterResize() returns (first: Result<int>, second: Result<int>)
    ensures first == Success(1) && second == Success(0)
  {
    var q := new PriorityQueue<int>(0, 2);
    q.Add(1, 5);
    q.Add(7, -1);
    first := q.Poll();
    second := q.Poll();
  }

  /** The same history on the corrected operations: the second Poll answers
      the second item. */
  method PollAfterResizeCorrected() returns (first: Result<int>, second: Result<int>)
    ensures first == Success(1) && second == Success(7)
  {
    var q := new PriorityQueue<int>(0, 2);
    q.AddCorrected(1, 5);
    q.AddCorrected(7, -1);
    first := q.Poll();
    second := q.Poll();
  }
}
