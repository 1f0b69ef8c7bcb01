/** Deque<T> (ADP_2024/Deque/Deque.cs): a double-ended queue over a chain of
    doubly linked nodes, with insertion and deletion at both ends.

    The node class the deque uses is not part of this model; Node below is
    a plain Data/Next/Previous cell of the same shape. The ghost sequence
    `nodes` lists the nodes from head to tail and `contents` their data. */
module Deque {
  import opened Wrappers

  /** A cell with its data and its two links. */
  class Node<T> {
    var data: T
    var next: Node?<T>
    var previous: Node?<T>

    /** Node(data): a cell holding `data`, linked to nothing. */
    constructor (data: T)
      ensures this.data == data && next == null && previous == null
    {
      this.data := data;
      next := null;
      previous := null;
    }
  }

  /** Following Next from `first` visits exactly `ns`, in order. */
  ghost predicate Forward<T>(ns: seq<Node<T>>, first: Node?<T>)
    reads ns
  {
    && (ns == [] ==> first == null)
    && (ns != [] ==> first == ns[0] && ns[|ns| - 1].next == null)
    && (forall i :: 0 <= i < |ns| - 1 ==> ns[i].next == ns[i + 1])
  }

  /** Following Previous from `last` visits exactly `ns`, backwards. */
  ghost predicate Backward<T>(ns: seq<Node<T>>, last: Node?<T>)
    reads ns
  {
    && (ns == [] ==> last == null)
    && (ns != [] ==> last == ns[|ns| - 1] && ns[0].previous == null)
    && (forall i :: 0 < i < |ns| ==> ns[i].previous == ns[i - 1])
  }

  /** No node occurs twice. */
  ghost predicate Distinct<T>(ns: seq<Node<T>>) {
    forall i, j :: 0 <= i < j < |ns| ==> ns[i] != ns[j]
  }

  /** The nodes hold the elements of `s`, in order. */
  ghost predicate Holds<T>(ns: seq<Node<T>>, s: seq<T>)
    reads ns
  {
    |ns| == |s| && forall i :: 0 <= i < |ns| ==> ns[i].data == s[i]
  }

  class Deque<T> {
    var head: Node?<T>
    var tail: Node?<T>
    var size: int
    /** The nodes from head to tail. */
    ghost var nodes: seq<Node<T>>
    /** Their data, in the same order: the deque from left to right. */
    ghost var contents: seq<T>

    /** The link invariant: head is the left end and tail the right end,
        Next and Previous are inverse along the chain, size counts the
        nodes, and no node occurs twice. */
    ghost predicate Valid()
      reads this, nodes
    {
      && |nodes| == size
      && Forward(nodes, head) && Backward(nodes, tail)
      && Distinct(nodes) && Holds(nodes, contents)
    }

    /** Deque(): the empty deque. */
    constructor ()
      ensures Valid() && contents == []
    {
      head := null;
      tail := null;
      size := 0;
      nodes := [];
      contents := [];
    }

    /** Size(). */
    function Size(): (r: int)
      reads this, nodes
      requires Valid()
      ensures r == |contents|
    {
      size
    }

    /** The two ends are both absent exactly when the deque is empty, and a
        deque of one element has the same node at both ends. */
    lemma EndsAgree()
      requires Valid()
      ensures head == null <==> size == 0
      ensures tail == null <==> size == 0
      ensures size == 1 ==> head == tail && head.next == null && head.previous == null
    {
    }

    /** InsertLeft(item): a new node becomes the head. */
    method InsertLeft(item: T)
      requires Valid()
      modifies this, nodes
      ensures Valid() && contents == [item] + old(contents) && size == old(size) + 1
      ensures |nodes| == |old(nodes)| + 1 && nodes[1..] == old(nodes) && fresh(nodes[0])
    {
      var newNode := new Node(item);
      if head == null {
        head := newNode;
        tail := newNode;
      } else {
        newNode.next := head;
        head.previous := newNode;
        head := newNode;
      }
      size := size + 1;
      nodes := [newNode] + nodes;
      contents := [item] + contents;
    }

    /** InsertRight(item): a new node becomes the tail. */
    method InsertRight(item: T)
      requires Valid()
      modifies this, nodes
      ensures Valid() && contents == old(contents) + [item] && size == old(size) + 1
      ensures |nodes| == |old(nodes)| + 1 && nodes[..|old(nodes)|] == old(nodes) && fresh(nodes[|old(nodes)|])
    {
      var newNode := new Node(item);
      if tail == null {
        head := newNode;
        tail := newNode;
      } else {
        newNode.previous := tail;
        tail.next := newNode;
        tail := newNode;
      }
      size := size + 1;
      nodes := nodes + [newNode];
      contents := contents + [item];
    }

    /** DeleteLeft(): the leftmost element, with the deque one shorter, or
        InvalidOperationException on an empty deque. */
    method DeleteLeft() returns (r: Result<T>)
      requires Valid()
      modifies this, nodes
      ensures Valid()
      ensures old(contents) == [] ==> r == Failure(InvalidOperation) && contents == [] && nodes == old(nodes)
      ensures old(contents) != [] ==>
                r == Success(old(contents)[0]) && contents == old(contents)[1..] && nodes == old(nodes)[1..]
    {
      if size == 0 {
        return Failure(InvalidOperation);
      }
      var data := head.data;
      if size == 1 {
        head := null;
        tail := null;
      } else {
        ghost var n := nodes;
        assert head.next == n[1];
        head := head.next;
        head.previous := null;
        forall i | 1 <= i < |n[1..]| ensures n[1..][i].previous == n[1..][i - 1] {
          assert n[1..][i] == n[i + 1] && n[i + 1] != n[1];
        }
      }
      size := size - 1;
      nodes := nodes[1..];
      contents := contents[1..];
      r := Success(data);
    }

    /** DeleteRight(): the rightmost element, with the deque one shorter, or
        InvalidOperationException on an empty deque. */
    method DeleteRight() returns (r: Result<T>)
      requires Valid()
      modifies this, nodes
      ensures Valid()
      ensures old(contents) == [] ==> r == Failure(InvalidOperation) && contents == [] && nodes == old(nodes)
      ensures old(contents) != [] ==>
                r == Success(old(contents)[|old(contents)| - 1]) &&
                contents == old(contents)[..|old(contents)| - 1] && nodes == old(nodes)[..|old(nodes)| - 1]
    {
      if size == 0 {
        return Failure(InvalidOperation);
      }
      var data := tail.data;
      if size == 1 {
        head := null;
        tail := null;
      } else {
        ghost var n := nodes;
        ghost var last := |n| - 1;
        assert tail.previous == n[last - 1];
        tail := tail.previous;
        tail.next := null;
        forall i | 0 <= i < |n[..last]| - 1 ensures n[..last][i].next == n[..last][i + 1] {
          assert n[..last][i] == n[i] && n[i] != n[last - 1];
        }
      }
      size := size - 1;
      nodes := nodes[..size];
      contents := contents[..size];
      r := Success(data);
    }
  }

  /** InsertLeft then DeleteLeft: the item comes straight back and the deque
      is as it was (stack order at the left end). */
  method LeftIsLifo<T>(d: Deque<T>, x: T) returns (r: Result<T>)
    requires d.Valid()
    modifies d, d.nodes
    ensures d.Valid() && r == Success(x) && d.contents == old(d.contents)
  {
    d.InsertLeft(x);
    r := d.DeleteLeft();
  }

  /** InsertRight then DeleteLeft: the element that comes out is the one
      inserted first (queue order), and the new item stays at the right. */
  method RightToLeftIsFifo<T>(d: Deque<T>, x: T) returns (r: Result<T>)
    requires d.Valid()
    modifies d, d.nodes
    ensures d.Valid()
    ensures r == Success((old(d.contents) + [x])[0]) && d.contents == (old(d.contents) + [x])[1..]
  {
    d.InsertRight(x);
    r := d.DeleteLeft();
  }

  /** InsertLeft(a), InsertRight(b), DeleteLeft, DeleteRight: a and b come
      back from their own ends and the elements between them are unchanged. */
  method BothEnds<T>(d: Deque<T>, a: T, b: T) returns (left: Result<T>, right: Result<T>)
    requires d.Valid()
    modifies d, d.nodes
    ensures d.Valid() && left == Success(a) && right == Success(b) && d.contents == old(d.contents)
    ensures d.Size() == |old(d.contents)|
  {
    ghost var c := d.contents;
    d.InsertLeft(a);
    d.InsertRight(b);
    assert d.contents == [a] + (c + [b]);
    left := d.DeleteLeft();
    assert d.contents == c + [b];
    right := d.DeleteRight();
    assert (c + [b])[..|c|] == c;
  }

  /** Emptying a deque from the right and deleting once more from the left:
      the last deletion fails with InvalidOperation. */
  method DeleteAfterDrain<T>(d: Deque<T>) returns (r: Result<T>)
    requires d.Valid()
    modifies d, d.nodes
    ensures d.Valid() && d.Size() == 0 && r == Failure(InvalidOperation)
  {
    while d.size > 0
      invariant d.Valid()
      invariant 0 <= d.size <= |old(d.nodes)| && d.nodes == old(d.nodes)[..d.size]
      decreases d.size
    {
      assert forall o :: o in d.nodes ==> o in old(d.nodes);
      var _ := d.DeleteRight();
    }
    r := d.DeleteLeft();
  }
}
