/** AStack<T> (ADP_2024/Stack/AStack.cs): a stack over an array that
    doubles when full and halves when a Pop leaves it a quarter full.

    Both copy loops stop one cell short (`i < _top`), so the element at the
    top when the buffer is replaced is not carried over: the cell reads as
    default(T) afterwards. The model follows the code; `dflt` stands for
    default(T), the value the cells of a fresh C# array hold. PushLifo and
    PopLifo are the same operations with the copy loops running to the top,
    and they keep the stack discipline. */
module Stack {
  import opened Wrappers

  const DefaultCapacity := 10

  /** A fresh array of `capacity` cells holding `dflt`, except that its first
      `n` cells are copied from `src`. */
  method CopyPrefix<T>(src: array<T>, n: int, capacity: int, dflt: T) returns (dst: array<T>)
    requires 0 <= n <= src.Length && n <= capacity
    ensures fresh(dst) && dst.Length == capacity
    ensures dst[..n] == src[..n]
    ensures forall p :: n <= p < capacity ==> dst[p] == dflt
  {
    dst := new T[capacity](_ => dflt);
    var i := 0;
    while i < n
      invariant 0 <= i <= n
      invariant dst[..i] == src[..i]
      invariant forall p :: n <= p < capacity ==> dst[p] == dflt
      modifies dst
    {
      dst[i] := src[i];
      i := i + 1;
    }
  }

  class AStack<T> {
    var items: array<T>
    var maxSize: int
    var top: int
    /** default(T). */
    const dflt: T

    /** The buffer is `maxSize` long, at least one cell, and `top` is the
        index of the top element, -1 for an empty stack. */
    ghost predicate Valid()
      reads this, items
    {
      items.Length == maxSize && 1 <= maxSize && -1 <= top < maxSize
    }

    /** The cells from the bottom up to the top. */
    function Contents(): seq<T>
      reads this, items
      requires Valid()
    {
      items[..top + 1]
    }

    /** AStack(capacity = 10). The capacity must be at least 1: a
        zero-length buffer doubles to zero and the first Push writes out of
        bounds. */
    constructor (dflt: T, capacity: int := DefaultCapacity)
      requires capacity >= 1
      ensures Valid() && Contents() == [] && maxSize == capacity && this.dflt == dflt
      ensures fresh(items)
    {
      this.dflt := dflt;
      maxSize := capacity;
      items := new T[capacity](_ => dflt);
      top := -1;
    }

    /** Size(). */
    function Size(): (r: int)
      reads this, items
      requires Valid()
      ensures r == |Contents()|
    {
      top + 1
    }

    /** Push(item): the stack grows by one with `item` on top, and Push
        answers true. When the buffer was full it doubles, and the copy
        leaves the old top cell behind as default(T). */
    method Push(item: T) returns (r: bool)
      requires Valid()
      modifies this, items
      ensures r && Valid()
      ensures |Contents()| == |old(Contents())| + 1 && Contents()[|Contents()| - 1] == item
      ensures old(top) == old(maxSize) - 1 ==>
                maxSize == 2 * old(maxSize) && Contents() == old(Contents())[old(top) := dflt] + [item]
      ensures old(top) < old(maxSize) - 1 ==>
                maxSize == old(maxSize) && Contents() == old(Contents()) + [item]
      ensures items == old(items) || fresh(items)
    {
      if top == maxSize - 1 {
        maxSize := maxSize * 2;
        ghost var before := items[..top + 1];
        items := CopyPrefix(items, top, maxSize, dflt);
        assert items[..top + 1] == before[top := dflt];
      }
      top := top + 1;
      items[top] := item;
      r := true;
    }

    /** Pop(): the top element, read before any shrink, with the stack one
        shorter; InvalidOperationException on an empty stack. When the new
        top index is positive and a quarter of the capacity, the buffer
        halves, and the copy leaves the new top cell behind as default(T). */
    method Pop() returns (r: Result<T>)
      requires Valid()
      modifies this, items
      ensures Valid()
      ensures old(top) == -1 ==> r == Failure(InvalidOperation) && Contents() == old(Contents()) && maxSize == old(maxSize)
      ensures old(top) >= 0 ==> r == Success(old(Contents())[old(top)]) && |Contents()| == |old(Contents())| - 1
      ensures old(top) >= 0 && 0 < old(top) - 1 == old(maxSize) / 4 ==>
                maxSize == old(maxSize) / 2 && Contents() == old(Contents())[..old(top) - 1] + [dflt]
      ensures old(top) >= 0 && !(0 < old(top) - 1 == old(maxSize) / 4) ==>
                maxSize == old(maxSize) && Contents() == old(Contents())[..old(top)]
      ensures items == old(items) || fresh(items)
    {
      if top == -1 {
        return Failure(InvalidOperation);
      }
      var item := items[top];
      top := top - 1;
      if top > 0 && top == maxSize / 4 {
        maxSize := maxSize / 2;
        ghost var before := items[..top];
        items := CopyPrefix(items, top, maxSize, dflt);
        assert items[..top + 1] == before + [dflt];
      }
      r := Success(item);
    }

    /** TopValue(): the top element, or InvalidOperationException on an
        empty stack; nothing changes. */
    function TopValue(): (r: Result<T>)
      reads this, items
      requires Valid()
      ensures Contents() == [] <==> r == Failure(InvalidOperation)
      ensures Contents() != [] ==> r == Success(Contents()[|Contents()| - 1])
    {
      if top == -1 then Failure(InvalidOperation) else Success(items[top])
    }

    /** Push with the growth copy running up to and including the top: the
        stack discipline holds. */
    method PushLifo(item: T) returns (r: bool)
      requires Valid()
      modifies this, items
      ensures r && Valid() && Contents() == old(Contents()) + [item]
      ensures items == old(items) || fresh(items)
    {
      if top == maxSize - 1 {
        maxSize := maxSize * 2;
        items := CopyPrefix(items, top + 1, maxSize, dflt);
      }
      top := top + 1;
      items[top] := item;
      r := true;
    }

    /** Pop with the shrink copy running up to and including the new top:
        the stack discipline holds. */
    method PopLifo() returns (r: Result<T>)
      requires Valid()
      modifies this, items
      ensures Valid()
      ensures old(top) == -1 ==> r == Failure(InvalidOperation) && Contents() == old(Contents())
      ensures old(top) >= 0 ==> r == Success(old(Contents())[old(top)]) && Contents() == old(Contents())[..old(top)]
      ensures items == old(items) || fresh(items)
    {
      if top == -1 {
        return Failure(InvalidOperation);
      }
      var item := items[top];
      top := top - 1;
      if top > 0 && top == maxSize / 4 {
        maxSize := maxSize / 2;
        items := CopyPrefix(items, top + 1, maxSize, dflt);
      }
      r := Success(item);
    }
  }

  /** Capacity 8, four pushes and one pop: the pop leaves top index 2, a
      quarter of 8, so the buffer halves and only cells 0 and 1 are copied.
      TopValue then answers default(T) instead of the third item. */
  method ShrinkLosesTop() returns (after: Result<int>)
    ensures after == Success(0)
  {
    var s := new AStack<int>(0, 8);
    var _ := s.Push(1);
    var _ := s.Push(2);
    var _ := s.Push(3);
    var _ := s.Push(4);
    var popped := s.Pop();
    assert popped == Success(4);
    after := s.TopValue();
  }

  /** The same history on the corrected operations: the third item is on
      top after the pop. */
  method ShrinkKeepsTop() returns (after: Result<int>)
    ensures after == Success(3)
  {
    var s := new AStack<int>(0, 8);
    var _ := s.PushLifo(1);
    var _ := s.PushLifo(2);
    var _ := s.PushLifo(3);
    var _ := s.PushLifo(4);
    var popped := s.PopLifo();
    assert popped == Success(4);
    after := s.TopValue();
  }

  /** A push that fills a stack of capacity 1 its second time: the first
      item reads as default(T) afterwards. */
  method GrowthLosesBottom() returns (contents: seq<int>)
    ensures contents == [0, 2]
  {
    var s := new AStack<int>(0, 1);
    var _ := s.Push(1);
    var _ := s.Push(2);
    contents := s.Contents();
  }

  /** On the corrected operations a push followed by a pop gives back the
      pushed item and the stack as it was. */
  method LifoRoundTrip<T>(s: AStack<T>, x: T) returns (r: Result<T>)
    requires s.Valid()
    modifies s, s.items
    ensures s.Valid() && r == Success(x) && s.Contents() == old(s.Contents())
  {
    var _ := s.PushLifo(x);
    r := s.PopLifo();
  }
}
