/** DynamicArray<T> (ADP_2024/DynamicArray/DynamicArray.cs and its copy
    ADP_2024/ADP_2024/DynamicArray/DynamicArray.cs): a growable array that
    doubles its buffer when full and halves it when a removal leaves it a
    quarter full.

    The two classes differ only in how an element is matched against the
    item searched for: the first asks `x.CompareTo(item) == 0`, the second
    asks an IEqualityComparer, by default EqualityComparer<T>.Default. Here
    one class holds the match as a function value, and each of the two
    C# constructors is a named constructor. */
module DynamicArray {
  import opened Wrappers

  const DefaultCapacity := 4

  /** Some element of `s` matches `item`. */
  ghost predicate HasMatch<T>(s: seq<T>, item: T, matches: (T, T) -> bool) {
    exists i :: 0 <= i < |s| && matches(s[i], item)
  }

  /** `k` is the first index of `s` whose element matches `item`. */
  ghost predicate IsFirstMatch<T>(s: seq<T>, item: T, matches: (T, T) -> bool, k: int) {
    0 <= k < |s| && matches(s[k], item) && forall j :: 0 <= j < k ==> !matches(s[j], item)
  }

  /** A fresh array of `capacity` cells, default-initialised, whose first
      `n` cells are those of `src`: the copy loops of Add and Remove. */
  method CopyPrefix<T(0)>(src: array<T>, n: int, capacity: int) returns (dst: array<T>)
    requires 0 <= n <= src.Length && n <= capacity
    ensures fresh(dst) && dst.Length == capacity
    ensures dst[..n] == src[..n]
  {
    dst := new T[capacity];
    var i := 0;
    while i < n
      invariant 0 <= i <= n
      invariant dst[..i] == src[..i]
      modifies dst
    {
      dst[i] := src[i];
      i := i + 1;
    }
  }

  class DynamicArray<T(0,==)> {
    var items: array<T>
    var maxSize: int
    var size: int
    /** x.CompareTo(item) == 0, or _comparer.Equals(x, item). */
    const matches: (T, T) -> bool

    /** The buffer is `maxSize` long, at least one cell, and holds the
        `size` elements at its front. */
    ghost predicate Valid()
      reads this, items
    {
      items.Length == maxSize && 1 <= maxSize && 0 <= size <= maxSize
    }

    /** The elements, in order. */
    function Contents(): seq<T>
      reads this, items
      requires Valid()
    {
      items[..size]
    }

    /** DynamicArray(capacity = 4) of the IComparable<T> class, with
        `compare` standing for CompareTo. The capacity must be at least 1:
        a zero-length buffer doubles to zero and the first Add then writes
        out of bounds. */
    constructor OfComparable(compare: (T, T) -> int, capacity: int := DefaultCapacity)
      requires capacity >= 1
      ensures Valid() && Contents() == [] && maxSize == capacity && fresh(items)
      ensures forall x, y :: matches(x, y) <==> compare(x, y) == 0
    {
      maxSize := capacity;
      items := new T[capacity];
      size := 0;
      matches := (x, y) => compare(x, y) == 0;
    }

    /** DynamicArray(capacity = 4, comparer = null) of the IEqualityComparer
        class: no comparer means the default one, equality of values. */
    constructor OfComparer(capacity: int := DefaultCapacity, comparer: Option<(T, T) -> bool> := None)
      requires capacity >= 1
      ensures Valid() && Contents() == [] && maxSize == capacity && fresh(items)
      ensures comparer.Some? ==> matches == comparer.value
      ensures comparer.None? ==> forall x, y :: matches(x, y) <==> x == y
    {
      maxSize := capacity;
      items := new T[capacity];
      size := 0;
      if comparer.Some? {
        matches := comparer.value;
      } else {
        matches := (x, y) => x == y;
      }
    }

    /** Count. */
    function Count(): (r: int)
      reads this, items
      requires Valid()
      ensures r == |Contents()|
    {
      size
    }

    /** Add(item): appends, doubling the buffer first when it is full. */
    method Add(item: T)
      requires Valid()
      modifies this, items
      ensures Valid() && Contents() == old(Contents()) + [item]
      ensures maxSize == if old(size) == old(maxSize) then 2 * old(maxSize) else old(maxSize)
      ensures items == old(items) || fresh(items)
    {
      if size == maxSize {
        maxSize := maxSize * 2;
        items := CopyPrefix(items, size, maxSize);
      }
      items[size] := item;
      size := size + 1;
    }

    /** Get(index): the element at `index`, or ArgumentOutOfRangeException
        outside [0, Count). */
    function Get(index: int): (r: Result<T>)
      reads this, items
      requires Valid()
      ensures r.Success? <==> 0 <= index < |Contents()|
      ensures r.Success? ==> r.value == Contents()[index]
      ensures r.Failure? ==> r.error == ArgumentOutOfRange
    {
      if index < 0 || index >= size then Failure(ArgumentOutOfRange) else Success(items[index])
    }

    /** Set(index, item): overwrites that one element, or throws
        ArgumentOutOfRangeException outside [0, Count). */
    method Set(index: int, item: T) returns (r: Outcome)
      requires Valid()
      modifies items
      ensures Valid()
      ensures 0 <= index < |old(Contents())| ==> r == Pass && Contents() == old(Contents())[index := item]
      ensures !(0 <= index < |old(Contents())|) ==> r == Fail(ArgumentOutOfRange) && Contents() == old(Contents())
    {
      if index < 0 || index >= size {
        return Fail(ArgumentOutOfRange);
      }
      items[index] := item;
      r := Pass;
    }

    /** Remove(int index): shifts the later elements one to the left,
        clears the freed cell and, when the array is left a quarter full
        and not empty, halves the buffer. Outside [0, Count) it throws
        ArgumentOutOfRangeException. */
    method Remove(index: int) returns (r: Outcome)
      requires Valid()
      modifies this, items
      ensures Valid()
      ensures 0 <= index < |old(Contents())| ==>
                r == Pass && Contents() == old(Contents())[..index] + old(Contents())[index + 1..]
      ensures 0 <= index < |old(Contents())| ==>
                maxSize == if 0 < old(size) - 1 == old(maxSize) / 4 then old(maxSize) / 2 else old(maxSize)
      ensures !(0 <= index < |old(Contents())|) ==>
                r == Fail(ArgumentOutOfRange) && Contents() == old(Contents()) && maxSize == old(maxSize)
      ensures items == old(items) || fresh(items)
    {
      if index < 0 || index >= size {
        return Fail(ArgumentOutOfRange);
      }
      ghost var s := items[..size];
      var i := index;
      while i < size - 1
        invariant index <= i <= size - 1
        invariant forall p :: 0 <= p < index ==> items[p] == s[p]
        invariant forall p :: index <= p < i ==> items[p] == s[p + 1]
        invariant forall p :: i <= p < size ==> items[p] == s[p]
        modifies items
      {
        items[i] := items[i + 1];
        i := i + 1;
      }
      ShiftedLeft(items[..size - 1], s, index);
      // default(T): the cell of a fresh array
      var blank := new T[1];
      items[size - 1] := blank[0];
      size := size - 1;
      assert items[..size] == s[..index] + s[index + 1..];
      if size > 0 && size == maxSize / 4 {
        maxSize := maxSize / 2;
        items := CopyPrefix(items, size, maxSize);
      }
      r := Pass;
    }

    /** Remove(T item): removes the first matching element and answers
        true, or answers false and changes nothing. */
    method RemoveItem(item: T) returns (removed: bool)
      requires Valid()
      modifies this, items
      ensures Valid()
      ensures removed <==> HasMatch(old(Contents()), item, matches)
      ensures removed ==> exists k :: IsFirstMatch(old(Contents()), item, matches, k) &&
                                      Contents() == old(Contents())[..k] + old(Contents())[k + 1..]
      ensures !removed ==> Contents() == old(Contents()) && maxSize == old(maxSize)
      ensures items == old(items) || fresh(items)
    {
      var index := IndexOf(item);
      if index != -1 {
        var _ := Remove(index);
        return true;
      }
      return false;
    }

    /** Contains(item): some element matches `item`. */
    method Contains(item: T) returns (r: bool)
      requires Valid()
      ensures r <==> HasMatch(Contents(), item, matches)
    {
      var i := 0;
      while i < size
        invariant 0 <= i <= size
        invariant forall j :: 0 <= j < i ==> !matches(items[j], item)
      {
        var x := items[i];
        if matches(x, item) {
          assert Contents()[i] == x;
          return true;
        }
        i := i + 1;
      }
      assert forall j :: 0 <= j < size ==> Contents()[j] == items[j];
      return false;
    }

    /** IndexOf(item): the first index whose element matches `item`, or -1. */
    method IndexOf(item: T) returns (r: int)
      requires Valid()
      ensures r == -1 <==> !HasMatch(Contents(), item, matches)
      ensures r != -1 ==> IsFirstMatch(Contents(), item, matches, r)
    {
      var i := 0;
      while i < size
        invariant 0 <= i <= size
        invariant forall j :: 0 <= j < i ==> !matches(items[j], item)
      {
        if matches(items[i], item) {
          assert forall j :: 0 <= j <= i ==> Contents()[j] == items[j];
          return i;
        }
        i := i + 1;
      }
      assert forall j :: 0 <= j < size ==> Contents()[j] == items[j];
      return -1;
    }
  }

  /** The shift loop's result, as a sequence: `s` with the element at
      `index` taken out. */
  lemma ShiftedLeft<T>(t: seq<T>, s: seq<T>, index: int)
    requires 0 <= index < |s| && |t| == |s| - 1
    requires forall p :: 0 <= p < index ==> t[p] == s[p]
    requires forall p :: index <= p < |t| ==> t[p] == s[p + 1]
    ensures t == s[..index] + s[index + 1..]
  {
    var u := s[..index] + s[index + 1..];
    forall p | 0 <= p < |t| ensures t[p] == u[p] {
      if p >= index {
        assert u[p] == s[index + 1..][p - index];
      }
    }
  }
}
