/** DoublyLinkedList<T> (ADP_2024/DoublyLinkedList/DoublyLinkedList.cs) and
    its Node<T> (ADP_2024/DoublyLinkedList/Node.cs).

    The ghost sequence `nodes` lists the nodes from head to tail and the
    ghost sequence `contents` their data; Valid() ties the links, the ends
    and the length to them. Elements are matched with `compare(x, value)
    == 0`, standing for x.CompareTo(value) == 0. */
module DoublyLinkedList {
  import opened Wrappers

  /** Node<T>: Data, Next and Previous are plain fields; the list sets both
      directions of a link itself. */
  class Node<T> {
    var data: T
    var next: Node?<T>
    var previous: Node?<T>

    /** Node(data): a node holding `data`, linked to nothing. */
    constructor (data: T)
      ensures this.data == data && next == null && previous == null
    {
      this.data := data;
      next := null;
      previous := null;
    }
  }

  /** Some element of `s` compares equal to `value`. */
  ghost predicate HasMatch<T>(s: seq<T>, value: T, compare: (T, T) -> int) {
    exists i :: 0 <= i < |s| && compare(s[i], value) == 0
  }

  /** `k` is the first index of `s` whose element compares equal to `value`. */
  ghost predicate IsFirstMatch<T>(s: seq<T>, value: T, compare: (T, T) -> int, k: int) {
    0 <= k < |s| && compare(s[k], value) == 0 && forall j :: 0 <= j < k ==> compare(s[j], value) != 0
  }

  /** Following Next from `first` visits exactly `ns`, in order. */
  ghost predicate Forward<T>(ns: seq<Node<T>>, first: Node?<T>)
    reads ns
  {
    && (ns == [] ==> first == null)
    && (ns != [] ==> first == ns[0] && ns[|ns| - 1].next == null)
    && (forall i :: 0 <= i < |ns| - 1 ==> ns[i].next == ns[i + 1])
  }

  /** Following Previous from `last` visits exactly `ns`, backwards. */
  ghost predicate Backward<T>(ns: seq<Node<T>>, last: Node?<T>)
    reads ns
  {
    && (ns == [] ==> last == null)
    && (ns != [] ==> last == ns[|ns| - 1] && ns[0].previous == null)
    && (forall i :: 0 < i < |ns| ==> ns[i].previous == ns[i - 1])
  }

  /** No node occurs twice. */
  ghost predicate Distinct<T>(ns: seq<Node<T>>) {
    forall i, j :: 0 <= i < j < |ns| ==> ns[i] != ns[j]
  }

  /** The nodes hold the elements of `s`, in order. */
  ghost predicate Holds<T>(ns: seq<Node<T>>, s: seq<T>)
    reads ns
  {
    |ns| == |s| && forall i :: 0 <= i < |ns| ==> ns[i].data == s[i]
  }

  /** The nodes with position k taken out. */
  function Without<T>(ns: seq<Node<T>>, k: int): seq<Node<T>>
    requires 0 <= k < |ns|
  {
    ns[..k] + ns[k + 1..]
  }

  class DoublyLinkedList<T> {
    var head: Node?<T>
    var tail: Node?<T>
    var length: int
    /** The nodes from head to tail. */
    ghost var nodes: seq<Node<T>>
    /** Their data, in the same order. */
    ghost var contents: seq<T>
    /** x.CompareTo(value). */
    const compare: (T, T) -> int

    /** The link invariant: head and tail are the two ends, with no link
        beyond them, Next and Previous are inverse along the chain, Length
        counts the nodes, and no node occurs twice. */
    ghost predicate Valid()
      reads this, nodes
    {
      && |nodes| == length
      && Forward(nodes, head) && Backward(nodes, tail)
      && Distinct(nodes) && Holds(nodes, contents)
    }

    /** DoublyLinkedList(): the empty list. */
    constructor (compare: (T, T) -> int)
      ensures Valid() && contents == [] && this.compare == compare
    {
      head := null;
      tail := null;
      length := 0;
      nodes := [];
      contents := [];
      this.compare := compare;
    }

    /** Add(data): appends a new node at the tail. */
    method Add(data: T)
      requires Valid()
      modifies this, nodes
      ensures Valid() && contents == old(contents) + [data] && length == old(length) + 1
      ensures |nodes| == |old(nodes)| + 1 && nodes[..|old(nodes)|] == old(nodes) && fresh(nodes[|old(nodes)|])
    {
      var newNode := new Node(data);
      ghost var ns := nodes + [newNode];
      assert Distinct(ns);
      if tail == null {
        head := newNode;
      } else {
        newNode.previous := tail;
        tail.next := newNode;
        assert forall i :: 0 <= i < |ns| - 2 ==> ns[i].next == ns[i + 1];
      }
      tail := newNode;
      length := length + 1;
      nodes := ns;
      contents := contents + [data];
    }

    /** The walk of Get, Set and RemoveAt from the head. */
    method WalkFromHead(index: int) returns (current: Node<T>)
      requires Valid() && 0 <= index < length
      ensures current == nodes[index]
    {
      current := head;
      for i := 0 to index
        invariant current == nodes[i]
      {
        assert current.next == nodes[i + 1];
        current := current.next;
      }
    }

    /** The walk of RemoveAt from the tail. */
    method WalkFromTail(index: int) returns (current: Node<T>)
      requires Valid() && 0 <= index < length
      ensures current == nodes[index]
    {
      current := tail;
      var i := length - 1;
      while i > index
        invariant index <= i < length && current == nodes[i]
      {
        assert current.previous == nodes[i - 1];
        current := current.previous;
        i := i - 1;
      }
    }

    /** Get(index): the element at `index`, or IndexOutOfRangeException
        outside [0, Length). */
    method Get(index: int) returns (r: Result<T>)
      requires Valid()
      ensures 0 <= index < |contents| ==> r == Success(contents[index])
      ensures !(0 <= index < |contents|) ==> r == Failure(IndexOutOfRange)
    {
      if index < 0 || index >= length {
        return Failure(IndexOutOfRange);
      }
      var current := WalkFromHead(index);
      return Success(current.data);
    }

    /** Set(index, element): replaces the element at `index` only, or throws
        IndexOutOfRangeException outside [0, Length). */
    method Set(index: int, element: T) returns (r: Outcome)
      requires Valid()
      modifies this, nodes
      ensures Valid() && nodes == old(nodes)
      ensures 0 <= index < |old(contents)| ==> r == Pass && contents == old(contents)[index := element]
      ensures !(0 <= index < |old(contents)|) ==> r == Fail(IndexOutOfRange) && contents == old(contents)
    {
      if index < 0 || index >= length {
        return Fail(IndexOutOfRange);
      }
      var current := WalkFromHead(index);
      current.data := element;
      contents := contents[index := element];
      r := Pass;
    }

    /** The unlinking shared by Remove and RemoveAt: the neighbours of the
        node at position k are linked to each other, or the ends move. */
    method Unlink(current: Node<T>, ghost k: int)
      requires Valid() && 0 <= k < |nodes| && current == nodes[k]
      modifies this, nodes
      ensures Valid() && length == old(length) - 1
      ensures nodes == old(nodes)[..k] + old(nodes)[k + 1..]
      ensures contents == old(contents)[..k] + old(contents)[k + 1..]
    {
      ghost var n := nodes;
      ghost var c := contents;
      LinkForward(current, k);
      LinkBackward(current, k);
      length := length - 1;
      nodes := Without(n, k);
      contents := c[..k] + c[k + 1..];
      WithoutKeeps(n, c, k);
    }

    /** The first half of the unlinking, lines that set the head or the
        Next of the node before: Next now runs past position k. */
    method LinkForward(current: Node<T>, ghost k: int)
      requires Valid() && 0 <= k < |nodes| && current == nodes[k]
      modifies this, nodes
      ensures nodes == old(nodes) && contents == old(contents) && tail == old(tail) && length == old(length)
      ensures HalfUnlinked(nodes, k, current, head, tail, contents)
    {
      ghost var n := nodes;
      assert current.previous == (if k > 0 then n[k - 1] else null);
      assert current.next == (if k < |n| - 1 then n[k + 1] else null);
      if current.previous == null {
        head := current.next;
        if head != null {
          head.previous := null;
        }
      } else {
        current.previous.next := current.next;
      }
      ghost var m := Without(n, k);
      forall i | 0 <= i < |m| - 1 ensures m[i].next == m[i + 1] {
        if i >= k {
          assert m[i] == n[i + 1] && m[i + 1] == n[i + 2];
        } else if i < k - 1 {
          assert m[i] == n[i] && m[i + 1] == n[i + 1];
        }
      }
    }

    /** The second half, lines that set the tail or the Previous of the node
        after: Previous now runs past position k too. */
    method LinkBackward(current: Node<T>, ghost k: int)
      requires 0 <= k < |nodes| && HalfUnlinked(nodes, k, current, head, tail, contents)
      modifies this, nodes
      ensures nodes == old(nodes) && contents == old(contents) && head == old(head) && length == old(length)
      ensures var m := Without(nodes, k);
              Forward(m, head) && Backward(m, tail) && Distinct(nodes) && Holds(nodes, contents)
    {
      ghost var n := nodes;
      if current.next == null {
        tail := current.previous;
      } else {
        current.next.previous := current.previous;
      }
      ghost var m := Without(n, k);
      forall i | 0 < i < |m| ensures m[i].previous == m[i - 1] {
        if i > k {
          assert m[i] == n[i + 1] && m[i - 1] == n[i];
        } else if i < k {
          assert m[i] == n[i] && m[i - 1] == n[i - 1];
        }
      }
      forall i | 0 <= i < |m| - 1 ensures m[i].next == m[i + 1] {
      }
    }

    /** Remove(value): unlinks the first node whose data compares equal to
        `value` and answers true, or answers false and changes nothing. */
    method Remove(value: T) returns (removed: bool)
      requires Valid()
      modifies this, nodes
      ensures Valid()
      ensures removed <==> HasMatch(old(contents), value, compare)
      ensures removed ==> exists k :: IsFirstMatch(old(contents), value, compare, k) &&
                                      contents == old(contents)[..k] + old(contents)[k + 1..]
      ensures !removed ==> contents == old(contents) && nodes == old(nodes)
    {
      var current := head;
      ghost var k := 0;
      while current != null
        invariant 0 <= k <= |nodes| && current == (if k < |nodes| then nodes[k] else null)
        invariant forall j :: 0 <= j < k ==> compare(contents[j], value) != 0
        decreases |nodes| - k
      {
        if compare(current.data, value) == 0 {
          assert IsFirstMatch(contents, value, compare, k);
          Unlink(current, k);
          return true;
        }
        current := current.next;
        k := k + 1;
      }
      return false;
    }

    /** RemoveAt(index): walks from the nearer end, the head when index <
        Length / 2, and unlinks that node; IndexOutOfRangeException outside
        [0, Length). Both walks reach the same node. */
    method RemoveAt(index: int) returns (r: Outcome)
      requires Valid()
      modifies this, nodes
      ensures Valid()
      ensures 0 <= index < |old(contents)| ==>
                r == Pass && contents == old(contents)[..index] + old(contents)[index + 1..]
      ensures !(0 <= index < |old(contents)|) ==>
                r == Fail(IndexOutOfRange) && contents == old(contents) && nodes == old(nodes)
    {
      if index < 0 || index >= length {
        return Fail(IndexOutOfRange);
      }
      var current: Node<T>;
      if index < length / 2 {
        current := WalkFromHead(index);
      } else {
        current := WalkFromTail(index);
      }
      Unlink(current, index);
      r := Pass;
    }

    /** Contains(value): some element compares equal to `value`. */
    method Contains(value: T) returns (r: bool)
      requires Valid()
      ensures r <==> HasMatch(contents, value, compare)
    {
      var current := head;
      ghost var k := 0;
      while current != null
        invariant 0 <= k <= |nodes| && current == (if k < |nodes| then nodes[k] else null)
        invariant forall j :: 0 <= j < k ==> compare(contents[j], value) != 0
        decreases |nodes| - k
      {
        if compare(current.data, value) == 0 {
          return true;
        }
        current := current.next;
        k := k + 1;
      }
      return false;
    }

    /** Find(value): the first node whose data compares equal to `value`, or
        null. */
    method Find(value: T) returns (r: Node?<T>)
      requires Valid()
      ensures r == null <==> !HasMatch(contents, value, compare)
      ensures r != null ==> exists k :: IsFirstMatch(contents, value, compare, k) && r == nodes[k]
    {
      var current := head;
      ghost var k := 0;
      while current != null
        invariant 0 <= k <= |nodes| && current == (if k < |nodes| then nodes[k] else null)
        invariant forall j :: 0 <= j < k ==> compare(contents[j], value) != 0
        decreases |nodes| - k
      {
        if compare(current.data, value) == 0 {
          assert IsFirstMatch(contents, value, compare, k);
          return current;
        }
        current := current.next;
        k := k + 1;
      }
      return null;
    }

    /** IndexOf(value): the first index whose element compares equal to
        `value`, or -1. */
    method IndexOf(value: T) returns (r: int)
      requires Valid()
      ensures r == -1 <==> !HasMatch(contents, value, compare)
      ensures r != -1 ==> IsFirstMatch(contents, value, compare, r)
    {
      var index := 0;
      var current := head;
      while current != null
        invariant 0 <= index <= |nodes| && current == (if index < |nodes| then nodes[index] else null)
        invariant forall j :: 0 <= j < index ==> compare(contents[j], value) != 0
        decreases |nodes| - index
      {
        if compare(current.data, value) == 0 {
          return index;
        }
        current := current.next;
        index := index + 1;
      }
      return -1;
    }
  }

  /** Between the two halves of the unlinking of position k: Next already
      runs past it, Previous still runs through it except that a new head
      has none, and the node itself is as it was. */
  ghost predicate HalfUnlinked<T>(ns: seq<Node<T>>, k: int, current: Node<T>,
                                  head: Node?<T>, tail: Node?<T>, s: seq<T>)
    reads ns
    requires 0 <= k < |ns|
  {
    && current == ns[k]
    && current.previous == (if k > 0 then ns[k - 1] else null)
    && current.next == (if k < |ns| - 1 then ns[k + 1] else null)
    && Forward(Without(ns, k), head)
    && tail == ns[|ns| - 1] && ns[0].previous == null
    && (forall i :: 0 < i < |ns| && i != k + 1 ==> ns[i].previous == ns[i - 1])
    && Distinct(ns) && Holds(ns, s)
  }

  /** Taking position k out of distinct nodes and of the elements they hold
      leaves distinct nodes holding the remaining elements. */
  lemma WithoutKeeps<T>(ns: seq<Node<T>>, s: seq<T>, k: int)
    requires 0 <= k < |ns| && Distinct(ns) && Holds(ns, s)
    ensures Distinct(Without(ns, k)) && Holds(Without(ns, k), s[..k] + s[k + 1..])
  {
    var m := Without(ns, k);
    var t := s[..k] + s[k + 1..];
    forall i, j | 0 <= i < j < |m| ensures m[i] != m[j] {
      assert m[i] == ns[if i < k then i else i + 1];
      assert m[j] == ns[if j < k then j else j + 1];
    }
    forall i | 0 <= i < |m| ensures m[i].data == t[i] {
      assert m[i] == ns[if i < k then i else i + 1];
      assert t[i] == s[if i < k then i else i + 1];
    }
  }
}
