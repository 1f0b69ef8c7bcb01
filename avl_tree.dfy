/** AvlTree<T> (ADP_2024/AVLTree/AvlTree.cs, ADP_2024/AVLTree/Node.cs): a
    binary search tree of distinct keys whose nodes store their height and
    which rebalances by rotations on the way back up from every insertion
    and removal.

    The nodes are modelled as values of the datatype Tree; Nil stands for a
    null reference. Every node of the C# tree has exactly one parent, so
    rewriting Left, Right, Key and Height of a node in place and returning
    it is the same as building the updated value. Keys are integers;
    CompareTo is integer comparison. */
module AvlTree {
  import opened Wrappers

  /** A node with its Key, its stored Height and its two children. */
  datatype Tree = Nil | Node(key: int, height: int, left: Tree, right: Tree)

  function Max(a: int, b: int): int {
    if a >= b then a else b
  }

  // ---------------------------------------------------------------------
  // Reference definitions: the key set, the in-order sequence, the real
  // height, and what makes a tree a search tree with correct heights.
  // ---------------------------------------------------------------------

  /** The keys of the tree. */
  function Keys(t: Tree): set<int> {
    match t
    case Nil => {}
    case Node(k, _, l, r) => Keys(l) + {k} + Keys(r)
  }

  /** The keys in in-order (left, node, right). */
  function Inorder(t: Tree): seq<int> {
    match t
    case Nil => []
    case Node(k, _, l, r) => Inorder(l) + [k] + Inorder(r)
  }

  /** The in-order sequence holds exactly the keys. */
  lemma {:induction false} InorderHasKeys(t: Tree)
    ensures forall x :: x in Inorder(t) <==> x in Keys(t)
  {
    if t.Node? {
      InorderHasKeys(t.left);
      InorderHasKeys(t.right);
    }
  }

  /** The real height: -1 for the empty tree, 0 for a leaf. */
  function Depth(t: Tree): (d: int)
    ensures d >= -1 && (t.Node? <==> d >= 0)
  {
    match t
    case Nil => -1
    case Node(_, _, l, r) => 1 + Max(Depth(l), Depth(r))
  }

  /** Every node stores its real height. */
  predicate HeightsOk(t: Tree) {
    match t
    case Nil => true
    case Node(_, h, l, r) => h == Depth(t) && HeightsOk(l) && HeightsOk(r)
  }

  /** Every key in a left subtree is smaller and every key in a right
      subtree larger than the key of the node above it. */
  predicate Bst(t: Tree) {
    match t
    case Nil => true
    case Node(k, _, l, r) =>
      && Bst(l) && Bst(r)
      && (forall x :: x in Keys(l) ==> x < k)
      && (forall x :: x in Keys(r) ==> k < x)
  }

  /** `s` is `t` or one of its subtrees. */
  predicate Within(s: Tree, t: Tree) {
    s == t || (t.Node? && (Within(s, t.left) || Within(s, t.right)))
  }

  /** A subtree of a subtree is a subtree. */
  lemma {:induction false} WithinChild(s: Tree, t: Tree)
    requires Within(s, t) && s.Node?
    ensures Within(s.left, t) && Within(s.right, t)
    decreases t
  {
    if s != t {
      if Within(s, t.left) {
        WithinChild(s, t.left);
      } else {
        WithinChild(s, t.right);
      }
    }
  }

  /** The in-order sequence of a search tree is strictly ascending. */
  lemma {:induction false} InorderAscending(t: Tree)
    requires Bst(t)
    ensures forall i, j :: 0 <= i < j < |Inorder(t)| ==> Inorder(t)[i] < Inorder(t)[j]
  {
    match t
    case Nil =>
    case Node(k, _, l, r) =>
      InorderAscending(l);
      InorderAscending(r);
      InorderHasKeys(l);
      InorderHasKeys(r);
      var L, R := Inorder(l), Inorder(r);
      var s := Inorder(t);
      assert s == L + [k] + R;
      forall i, j | 0 <= i < j < |s| ensures s[i] < s[j] {
        if j < |L| {
          assert s[i] == L[i] && s[j] == L[j];
        } else if i < |L| {
          assert s[i] == L[i] && s[i] in Keys(l);
          if j > |L| {
            assert s[j] == R[j - |L| - 1] && s[j] in Keys(r);
          }
        } else if i == |L| {
          assert s[j] == R[j - |L| - 1] && s[j] in Keys(r);
        } else {
          assert s[i] == R[i - |L| - 1] && s[j] == R[j - |L| - 1];
        }
      }
  }

  // ---------------------------------------------------------------------
  // Node, Height, UpdateHeight, GetBalance, GetTreeSize and CheckBalance.
  // ---------------------------------------------------------------------

  /** Node(key): a leaf of height 0. */
  function NewNode(key: int): (r: Tree)
    ensures r.Node? && r.key == key && r.left == Nil && r.right == Nil
    ensures HeightsOk(r) && Keys(r) == {key}
  {
    Node(key, 0, Nil, Nil)
  }

  /** The private Height(node): the stored height, -1 for null. */
  function NodeHeight(t: Tree): (h: int)
    ensures HeightsOk(t) ==> h == Depth(t)
  {
    if t.Nil? then -1 else t.height
  }

  /** A node over `l` and `r` whose stored height is one more than the
      stored height of the taller of the two. */
  function Make(k: int, l: Tree, r: Tree): (t: Tree)
    ensures t.Node? && t.key == k && t.left == l && t.right == r
    ensures HeightsOk(l) && HeightsOk(r) ==> HeightsOk(t)
  {
    Node(k, 1 + Max(NodeHeight(l), NodeHeight(r)), l, r)
  }

  /** UpdateHeight(node): one more than the taller child. */
  function UpdateHeight(t: Tree): (r: Tree)
    requires t.Node?
    ensures r.Node? && r.key == t.key && r.left == t.left && r.right == t.right
    ensures HeightsOk(t.left) && HeightsOk(t.right) ==> HeightsOk(r)
  {
    Make(t.key, t.left, t.right)
  }

  /** GetBalance(node): right height minus left height, 0 for null. With
      correct stored heights it is the difference of the real heights. */
  function GetBalance(t: Tree): (r: int)
    ensures t.Nil? ==> r == 0
    ensures HeightsOk(t) && t.Node? ==> r == Depth(t.right) - Depth(t.left)
  {
    if t.Nil? then 0 else NodeHeight(t.right) - NodeHeight(t.left)
  }

  /** GetTreeSize(node): the number of nodes. */
  function GetTreeSize(t: Tree): (n: nat)
    ensures n == |Inorder(t)|
  {
    if t.Nil? then 0 else 1 + GetTreeSize(t.left) + GetTreeSize(t.right)
  }

  /** Keys on either side of `k` add up. */
  lemma SplitCard(a: set<int>, k: int, b: set<int>)
    requires forall x :: x in a ==> x < k
    requires forall x :: x in b ==> k < x
    ensures |a + {k} + b| == |a| + 1 + |b|
  {
    assert a * b == {} by {
      forall x | x in a ensures x !in b {
        assert x < k;
      }
    }
    assert |a + b| == |a| + |b|;
    assert a + {k} + b == (a + b) + {k};
  }

  /** The keys of a search tree are as many as its nodes. */
  lemma {:induction false} SizeIsKeyCount(t: Tree)
    requires Bst(t)
    ensures GetTreeSize(t) == |Keys(t)|
  {
    if t.Node? {
      SizeIsKeyCount(t.left);
      SizeIsKeyCount(t.right);
      SplitCard(Keys(t.left), t.key, Keys(t.right));
    }
  }

  /** CheckBalance(node): every node's balance, on the stored heights, lies
      between -1 and 1. */
  predicate Balanced(t: Tree) {
    t.Nil? || (-1 <= GetBalance(t) <= 1 && Balanced(t.left) && Balanced(t.right))
  }

  /** The AVL condition on real heights. */
  predicate AvlShape(t: Tree) {
    match t
    case Nil => true
    case Node(_, _, l, r) => -1 <= Depth(r) - Depth(l) <= 1 && AvlShape(l) && AvlShape(r)
  }

  /** With correct heights, CheckBalance accepts exactly the trees in which
      no two sibling subtrees differ in height by more than one. */
  lemma {:induction false} CheckBalanceMeans(t: Tree)
    requires HeightsOk(t)
    ensures Balanced(t) <==> AvlShape(t)
  {
    if t.Node? {
      CheckBalanceMeans(t.left);
      CheckBalanceMeans(t.right);
    }
  }

  // ---------------------------------------------------------------------
  // Rotations and Rebalance.
  // ---------------------------------------------------------------------

  /** RotateRight(y): the left child x rises, y becomes its right child and
      takes x's former right subtree as its left; y's height and then x's
      are updated. */
  function RotateRight(y: Tree): (r: Tree)
    requires y.Node? && y.left.Node? && HeightsOk(y.left) && HeightsOk(y.right)
    ensures r.Node? && HeightsOk(r)
  {
    var x := y.left;
    Make(x.key, x.left, Make(y.key, x.right, y.right))
  }

  /** RotateLeft(y): the mirror image of RotateRight. */
  function RotateLeft(y: Tree): (r: Tree)
    requires y.Node? && y.right.Node? && HeightsOk(y.left) && HeightsOk(y.right)
    ensures r.Node? && HeightsOk(r)
  {
    var x := y.right;
    Make(x.key, Make(y.key, y.left, x.left), x.right)
  }

  /** Regrouping the in-order sequence of a rotated node. */
  lemma Regroup(a: seq<int>, x: int, b: seq<int>, y: int, c: seq<int>)
    ensures a + [x] + (b + [y] + c) == (a + [x] + b) + [y] + c
  {
  }

  /** `b` has the in-order sequence and the keys of `a`, and is a search
      tree when `a` is. */
  predicate Reorders(a: Tree, b: Tree) {
    Inorder(b) == Inorder(a) && Keys(b) == Keys(a) && (Bst(a) ==> Bst(b))
  }

  /** A right rotation keeps the in-order sequence, the keys and the order. */
  lemma RotateRightReorders(y: Tree)
    requires y.Node? && y.left.Node? && HeightsOk(y.left) && HeightsOk(y.right)
    ensures Reorders(y, RotateRight(y))
  {
    var x := y.left;
    Regroup(Inorder(x.left), x.key, Inorder(x.right), y.key, Inorder(y.right));
    if Bst(y) {
      RotateRightKeepsBst(y);
    }
  }

  /** The order half of RotateRightReorders. */
  lemma RotateRightKeepsBst(y: Tree)
    requires y.Node? && y.left.Node? && HeightsOk(y.left) && HeightsOk(y.right) && Bst(y)
    ensures Bst(RotateRight(y))
  {
    var x := y.left;
    var inner := Make(y.key, x.right, y.right);
    assert x.key in Keys(x);
    assert Bst(inner);
    assert forall v :: v in Keys(inner) ==> x.key < v;
  }

  /** A left rotation keeps the in-order sequence, the keys and the order. */
  lemma RotateLeftReorders(y: Tree)
    requires y.Node? && y.right.Node? && HeightsOk(y.left) && HeightsOk(y.right)
    ensures Reorders(y, RotateLeft(y))
  {
    var x := y.right;
    Regroup(Inorder(y.left), y.key, Inorder(x.left), x.key, Inorder(x.right));
    if Bst(y) {
      RotateLeftKeepsBst(y);
    }
  }

  /** The order half of RotateLeftReorders. */
  lemma RotateLeftKeepsBst(y: Tree)
    requires y.Node? && y.right.Node? && HeightsOk(y.left) && HeightsOk(y.right) && Bst(y)
    ensures Bst(RotateLeft(y))
  {
    var x := y.right;
    var inner := Make(y.key, y.left, x.left);
    assert x.key in Keys(x);
    assert Bst(inner);
    assert forall v :: v in Keys(inner) ==> v < x.key;
  }

  /** Replacing a child by a tree it reorders into reorders the parent. */
  lemma ReplaceLeft(u: Tree, c: Tree)
    requires u.Node? && Reorders(u.left, c)
    ensures Reorders(u, u.(left := c))
  {
  }

  /** The same on the right. */
  lemma ReplaceRight(u: Tree, c: Tree)
    requires u.Node? && Reorders(u.right, c)
    ensures Reorders(u, u.(right := c))
  {
  }

  /** The right-left double rotation reorders. */
  lemma DoubleLeftReorders(u: Tree)
    requires u.Node? && u.right.Node? && u.right.left.Node? && HeightsOk(u.left) && HeightsOk(u.right)
    ensures Reorders(u, RotateLeft(u.(right := RotateRight(u.right))))
  {
    var v := u.(right := RotateRight(u.right));
    RotateRightReorders(u.right);
    ReplaceRight(u, RotateRight(u.right));
    RotateLeftReorders(v);
  }

  /** The left-right double rotation reorders. */
  lemma DoubleRightReorders(u: Tree)
    requires u.Node? && u.left.Node? && u.left.right.Node? && HeightsOk(u.left) && HeightsOk(u.right)
    ensures Reorders(u, RotateRight(u.(left := RotateLeft(u.left))))
  {
    var v := u.(left := RotateLeft(u.left));
    RotateLeftReorders(u.left);
    ReplaceLeft(u, RotateLeft(u.left));
    RotateRightReorders(v);
  }

  /** Rebalance(z) as written: after updating z's height, a balance above 1
      rotates left, with a right rotation of the right child first unless
      its right subtree is strictly taller than its left; a balance below
      -1 is the mirror image. */
  function Rebalance(z: Tree): (r: Tree)
    requires z.Node? && HeightsOk(z.left) && HeightsOk(z.right)
    ensures r.Node? && HeightsOk(r)
  {
    var z := UpdateHeight(z);
    var balance := GetBalance(z);
    if balance > 1 then
      if NodeHeight(z.right.right) > NodeHeight(z.right.left) then RotateLeft(z)
      else RotateLeft(z.(right := RotateRight(z.right)))
    else if balance < -1 then
      if NodeHeight(z.left.left) > NodeHeight(z.left.right) then RotateRight(z)
      else RotateRight(z.(left := RotateLeft(z.left)))
    else z
  }

  /** Rebalance with the comparisons at AvlTree.cs:115 and :127 made
      non-strict, so that a taller child whose own subtrees are equally
      tall gets a single rotation. */
  function RebalanceCorrected(z: Tree): (r: Tree)
    requires z.Node? && HeightsOk(z.left) && HeightsOk(z.right)
    ensures r.Node? && HeightsOk(r)
  {
    var z := UpdateHeight(z);
    var balance := GetBalance(z);
    if balance > 1 then
      if NodeHeight(z.right.right) >= NodeHeight(z.right.left) then RotateLeft(z)
      else RotateLeft(z.(right := RotateRight(z.right)))
    else if balance < -1 then
      if NodeHeight(z.left.left) >= NodeHeight(z.left.right) then RotateRight(z)
      else RotateRight(z.(left := RotateLeft(z.left)))
    else z
  }

  /** Rebalance keeps the in-order sequence, the keys and the order. */
  lemma RebalanceReorders(z: Tree)
    requires z.Node? && HeightsOk(z.left) && HeightsOk(z.right)
    ensures Reorders(z, Rebalance(z))
  {
    var u := UpdateHeight(z);
    assert Reorders(z, u);
    if GetBalance(u) > 1 {
      if NodeHeight(u.right.right) > NodeHeight(u.right.left) {
        assert Rebalance(z) == RotateLeft(u);
        RotateLeftReorders(u);
      } else {
        DoubleLeftReorders(u);
      }
    } else if GetBalance(u) < -1 {
      if NodeHeight(u.left.left) > NodeHeight(u.left.right) {
        assert Rebalance(z) == RotateRight(u);
        RotateRightReorders(u);
      } else {
        DoubleRightReorders(u);
      }
    }
  }

  /** So does RebalanceCorrected. */
  lemma RebalanceCorrectedReorders(z: Tree)
    requires z.Node? && HeightsOk(z.left) && HeightsOk(z.right)
    ensures Reorders(z, RebalanceCorrected(z))
  {
    var u := UpdateHeight(z);
    assert Reorders(z, u);
    if GetBalance(u) > 1 {
      if NodeHeight(u.right.right) >= NodeHeight(u.right.left) {
        assert RebalanceCorrected(z) == RotateLeft(u);
        RotateLeftReorders(u);
      } else {
        DoubleLeftReorders(u);
      }
    } else if GetBalance(u) < -1 {
      if NodeHeight(u.left.left) >= NodeHeight(u.left.right) {
        assert RebalanceCorrected(z) == RotateRight(u);
        RotateRightReorders(u);
      } else {
        DoubleRightReorders(u);
      }
    }
  }

  // ---------------------------------------------------------------------
  // Insert, MostLeftChild and Remove.
  // ---------------------------------------------------------------------

  /** The private Insert(root, key): descend to the empty place for `key`, put a new
      leaf there and rebalance every node on the way back up; an equal key
      throws InvalidOperationException before anything is changed. */
  function InsertInto(t: Tree, key: int): (r: Result<Tree>)
    requires HeightsOk(t)
    ensures r.Success? ==> HeightsOk(r.value)
    ensures r.Failure? ==> r.error == InvalidOperation
  {
    match t
    case Nil => Success(NewNode(key))
    case Node(k, h, l, rt) =>
      if k > key then
        match InsertInto(l, key)
        case Failure(e) => Failure(e)
        case Success(l2) => Success(Rebalance(Node(k, h, l2, rt)))
      else if k < key then
        match InsertInto(rt, key)
        case Failure(e) => Failure(e)
        case Success(r2) => Success(Rebalance(Node(k, h, l, r2)))
      else
        Failure(InvalidOperation)
  }

  /** The node reached from `t` by following Left until it is null. */
  function Leftmost(t: Tree): (r: Tree)
    requires t.Node?
    ensures r.Node? && r.left == Nil && r.key in Keys(t)
    ensures Bst(t) ==> forall x :: x in Keys(t) ==> r.key <= x
  {
    if t.left.Nil? then t else Leftmost(t.left)
  }

  /** The node reached from `t` by following Right until it is null. */
  function Rightmost(t: Tree): (r: Tree)
    requires t.Node?
    ensures r.Node? && r.right == Nil && r.key in Keys(t)
    ensures Bst(t) ==> forall x :: x in Keys(t) ==> x <= r.key
  {
    if t.right.Nil? then t else Rightmost(t.right)
  }

  /** The private Remove(node, key) as written: descend to `key`; a node with at most
      one child is replaced by that child, a node with two children takes
      the smallest key of its right subtree, which is then removed from
      there; every node on the way back up is rebalanced. */
  function RemoveFrom(t: Tree, key: int): (r: Tree)
    requires HeightsOk(t)
    ensures HeightsOk(r)
  {
    match t
    case Nil => Nil
    case Node(k, h, l, rt) =>
      if k > key then Rebalance(Node(k, h, RemoveFrom(l, key), rt))
      else if k < key then Rebalance(Node(k, h, l, RemoveFrom(rt, key)))
      else if l.Nil? || rt.Nil? then
        if l.Nil? && rt.Nil? then Nil
        else if l.Nil? then Rebalance(rt)
        else Rebalance(l)
      else
        var m := Leftmost(rt).key;
        Rebalance(Node(m, h, l, RemoveFrom(rt, m)))
  }

  /** RemoveFrom with RebalanceCorrected in place of Rebalance. */
  function RemoveFromCorrected(t: Tree, key: int): (r: Tree)
    requires HeightsOk(t)
    ensures HeightsOk(r)
  {
    match t
    case Nil => Nil
    case Node(k, h, l, rt) =>
      if k > key then RebalanceCorrected(Node(k, h, RemoveFromCorrected(l, key), rt))
      else if k < key then RebalanceCorrected(Node(k, h, l, RemoveFromCorrected(rt, key)))
      else if l.Nil? || rt.Nil? then
        if l.Nil? && rt.Nil? then Nil
        else if l.Nil? then RebalanceCorrected(rt)
        else RebalanceCorrected(l)
      else
        var m := Leftmost(rt).key;
        RebalanceCorrected(Node(m, h, l, RemoveFromCorrected(rt, m)))
  }

  /** A node over two search trees, with smaller keys on the left and
      larger ones on the right, is a search tree. */
  lemma JoinBst(k: int, h: int, l: Tree, r: Tree)
    requires Bst(l) && Bst(r)
    requires forall x :: x in Keys(l) ==> x < k
    requires forall x :: x in Keys(r) ==> k < x
    ensures Bst(Node(k, h, l, r))
  {
  }

  /** InsertInto adds exactly `key` and one node, keeps the search-tree order,
      and on a search tree fails exactly when `key` is already present. */
  lemma {:induction false} InsertIntoKeys(t: Tree, key: int)
    requires HeightsOk(t)
    ensures InsertInto(t, key).Success? ==>
              Keys(InsertInto(t, key).value) == Keys(t) + {key} &&
              |Inorder(InsertInto(t, key).value)| == |Inorder(t)| + 1
    ensures Bst(t) ==> (InsertInto(t, key).Failure? <==> key in Keys(t))
    ensures Bst(t) && InsertInto(t, key).Success? ==> Bst(InsertInto(t, key).value)
  {
    match t
    case Nil =>
    case Node(k, h, l, rt) =>
      if k > key {
        InsertIntoKeys(l, key);
        if InsertInto(l, key).Success? {
          var l2 := InsertInto(l, key).value;
          var z := Node(k, h, l2, rt);
          assert InsertInto(t, key) == Success(Rebalance(z));
          RebalanceReorders(z);
          if Bst(t) {
            JoinBst(k, h, l2, rt);
          }
        }
      } else if k < key {
        InsertIntoKeys(rt, key);
        if InsertInto(rt, key).Success? {
          var r2 := InsertInto(rt, key).value;
          var z := Node(k, h, l, r2);
          assert InsertInto(t, key) == Success(Rebalance(z));
          RebalanceReorders(z);
          if Bst(t) {
            JoinBst(k, h, l, r2);
          }
        }
      }
  }

  /** Removing `key` from the left subtree removes it from the node. */
  lemma ShrinkLeft(t: Tree, key: int, l2: Tree)
    requires t.Node? && Bst(t) && key < t.key
    requires Bst(l2) && Keys(l2) == Keys(t.left) - {key}
    requires |Inorder(l2)| == |Inorder(t.left)| - (if key in Keys(t.left) then 1 else 0)
    ensures Bst(t.(left := l2)) && Keys(t.(left := l2)) == Keys(t) - {key}
    ensures |Inorder(t.(left := l2))| == |Inorder(t)| - (if key in Keys(t) then 1 else 0)
  {
    JoinBst(t.key, t.height, l2, t.right);
    assert key !in Keys(t.right);
  }

  /** Removing `key` from the right subtree removes it from the node. */
  lemma ShrinkRight(t: Tree, key: int, r2: Tree)
    requires t.Node? && Bst(t) && t.key < key
    requires Bst(r2) && Keys(r2) == Keys(t.right) - {key}
    requires |Inorder(r2)| == |Inorder(t.right)| - (if key in Keys(t.right) then 1 else 0)
    ensures Bst(t.(right := r2)) && Keys(t.(right := r2)) == Keys(t) - {key}
    ensures |Inorder(t.(right := r2))| == |Inorder(t)| - (if key in Keys(t) then 1 else 0)
  {
    JoinBst(t.key, t.height, t.left, r2);
    assert key !in Keys(t.left);
  }

  /** With the smallest key m of the right subtree moved up and removed from
      there, the node has lost exactly its own key. */
  lemma MoveSuccessor(t: Tree, m: int, r2: Tree)
    requires t.Node? && Bst(t) && t.right.Node? && m == Leftmost(t.right).key
    requires Bst(r2) && Keys(r2) == Keys(t.right) - {m}
    requires |Inorder(r2)| == |Inorder(t.right)| - 1
    ensures Bst(Node(m, t.height, t.left, r2)) && Keys(Node(m, t.height, t.left, r2)) == Keys(t) - {t.key}
    ensures |Inorder(Node(m, t.height, t.left, r2))| == |Inorder(t)| - 1
  {
    assert t.key < m;
    JoinBst(m, t.height, t.left, r2);
    assert t.key !in Keys(t.left) && t.key !in Keys(t.right);
  }

  /** RemoveFrom deletes exactly `key` (one node when it is present) and keeps
      the search-tree order. */
  lemma {:induction false} RemoveFromKeys(t: Tree, key: int)
    requires HeightsOk(t) && Bst(t)
    ensures Bst(RemoveFrom(t, key)) && Keys(RemoveFrom(t, key)) == Keys(t) - {key}
    ensures |Inorder(RemoveFrom(t, key))| == |Inorder(t)| - (if key in Keys(t) then 1 else 0)
  {
    match t
    case Nil =>
    case Node(k, h, l, rt) =>
      var r := RemoveFrom(t, key);
      if k > key {
        var l2 := RemoveFrom(l, key);
        RemoveFromKeys(l, key);
        ShrinkLeft(t, key, l2);
        assert r == Rebalance(t.(left := l2));
        RebalanceReorders(t.(left := l2));
        RemovedVia(t.(left := l2), r, t, key);
      } else if k < key {
        var r2 := RemoveFrom(rt, key);
        RemoveFromKeys(rt, key);
        ShrinkRight(t, key, r2);
        assert r == Rebalance(t.(right := r2));
        RebalanceReorders(t.(right := r2));
        RemovedVia(t.(right := r2), r, t, key);
      } else if l.Nil? && rt.Nil? {
      } else if l.Nil? {
        RebalanceReorders(rt);
      } else if rt.Nil? {
        RebalanceReorders(l);
      } else {
        var m := Leftmost(rt).key;
        var r2 := RemoveFrom(rt, m);
        RemoveFromKeys(rt, m);
        MoveSuccessor(t, m, r2);
        assert r == Rebalance(Node(m, h, l, r2));
        RebalanceReorders(Node(m, h, l, r2));
        RemovedVia(Node(m, h, l, r2), r, t, key);
      }
  }

  /** The same for RemoveFromCorrected. */
  lemma {:induction false} RemoveFromCorrectedKeys(t: Tree, key: int)
    requires HeightsOk(t) && Bst(t)
    ensures Bst(RemoveFromCorrected(t, key)) && Keys(RemoveFromCorrected(t, key)) == Keys(t) - {key}
    ensures |Inorder(RemoveFromCorrected(t, key))| == |Inorder(t)| - (if key in Keys(t) then 1 else 0)
  {
    match t
    case Nil =>
    case Node(k, h, l, rt) =>
      var r := RemoveFromCorrected(t, key);
      if k > key {
        var l2 := RemoveFromCorrected(l, key);
        RemoveFromCorrectedKeys(l, key);
        ShrinkLeft(t, key, l2);
        assert r == RebalanceCorrected(t.(left := l2));
        RebalanceCorrectedReorders(t.(left := l2));
        RemovedVia(t.(left := l2), r, t, key);
      } else if k < key {
        var r2 := RemoveFromCorrected(rt, key);
        RemoveFromCorrectedKeys(rt, key);
        ShrinkRight(t, key, r2);
        assert r == RebalanceCorrected(t.(right := r2));
        RebalanceCorrectedReorders(t.(right := r2));
        RemovedVia(t.(right := r2), r, t, key);
      } else if l.Nil? && rt.Nil? {
      } else if l.Nil? {
        RebalanceCorrectedReorders(rt);
      } else if rt.Nil? {
        RebalanceCorrectedReorders(l);
      } else {
        var m := Leftmost(rt).key;
        var r2 := RemoveFromCorrected(rt, m);
        RemoveFromCorrectedKeys(rt, m);
        MoveSuccessor(t, m, r2);
        assert r == RebalanceCorrected(Node(m, h, l, r2));
        RebalanceCorrectedReorders(Node(m, h, l, r2));
        RemovedVia(Node(m, h, l, r2), r, t, key);
      }
  }

  /** A rebalanced removal result has what the removal had. */
  lemma RemovedVia(z: Tree, b: Tree, t: Tree, key: int)
    requires Reorders(z, b)
    requires Bst(z) && Keys(z) == Keys(t) - {key}
    requires |Inorder(z)| == |Inorder(t)| - (if key in Keys(t) then 1 else 0)
    ensures Bst(b) && Keys(b) == Keys(t) - {key}
    ensures |Inorder(b)| == |Inorder(t)| - (if key in Keys(t) then 1 else 0)
  {
  }

  // ---------------------------------------------------------------------
  // Balance.
  // ---------------------------------------------------------------------

  /** A single left rotation of a node whose right subtree is two levels
      taller, and whose right-right grandchild is at least as tall as the
      right-left one, gives a balanced tree. */
  lemma SingleLeftBalances(u: Tree)
    requires u.Node? && u.right.Node? && HeightsOk(u.left) && HeightsOk(u.right)
    requires Balanced(u.left) && Balanced(u.right)
    requires NodeHeight(u.right) - NodeHeight(u.left) == 2
    requires NodeHeight(u.right.right) >= NodeHeight(u.right.left)
    ensures Balanced(RotateLeft(u))
    ensures NodeHeight(RotateLeft(u)) ==
              if NodeHeight(u.right.right) > NodeHeight(u.right.left) then NodeHeight(u.right) else NodeHeight(u.right) + 1
  {
    var x := u.right;
    assert NodeHeight(x) == 1 + Max(NodeHeight(x.left), NodeHeight(x.right));
    assert Balanced(Make(u.key, u.left, x.left));
  }

  /** The mirror image of SingleLeftBalances. */
  lemma SingleRightBalances(u: Tree)
    requires u.Node? && u.left.Node? && HeightsOk(u.left) && HeightsOk(u.right)
    requires Balanced(u.left) && Balanced(u.right)
    requires NodeHeight(u.left) - NodeHeight(u.right) == 2
    requires NodeHeight(u.left.left) >= NodeHeight(u.left.right)
    ensures Balanced(RotateRight(u))
    ensures NodeHeight(RotateRight(u)) ==
              if NodeHeight(u.left.left) > NodeHeight(u.left.right) then NodeHeight(u.left) else NodeHeight(u.left) + 1
  {
    var x := u.left;
    assert NodeHeight(x) == 1 + Max(NodeHeight(x.left), NodeHeight(x.right));
    assert Balanced(Make(u.key, x.right, u.right));
  }

  /** A right-left double rotation of a node whose right subtree is two
      levels taller, and whose right-left grandchild is strictly taller than
      the right-right one, gives a balanced tree. */
  lemma DoubleLeftBalances(u: Tree)
    requires u.Node? && u.right.Node? && u.right.left.Node? && HeightsOk(u.left) && HeightsOk(u.right)
    requires Balanced(u.left) && Balanced(u.right)
    requires NodeHeight(u.right) - NodeHeight(u.left) == 2
    requires NodeHeight(u.right.left) > NodeHeight(u.right.right)
    ensures Balanced(RotateLeft(u.(right := RotateRight(u.right))))
    ensures NodeHeight(RotateLeft(u.(right := RotateRight(u.right)))) == NodeHeight(u.right)
  {
    var x := u.right;
    var b := x.left;
    assert NodeHeight(x) == 1 + Max(NodeHeight(b), NodeHeight(x.right));
    assert NodeHeight(b) == 1 + Max(NodeHeight(b.left), NodeHeight(b.right));
    var v := u.(right := RotateRight(x));
    assert RotateLeft(v) == Make(b.key, Make(u.key, u.left, b.left), Make(x.key, b.right, x.right));
    assert Balanced(Make(u.key, u.left, b.left));
    assert Balanced(Make(x.key, b.right, x.right));
  }

  /** The mirror image of DoubleLeftBalances. */
  lemma DoubleRightBalances(u: Tree)
    requires u.Node? && u.left.Node? && u.left.right.Node? && HeightsOk(u.left) && HeightsOk(u.right)
    requires Balanced(u.left) && Balanced(u.right)
    requires NodeHeight(u.left) - NodeHeight(u.right) == 2
    requires NodeHeight(u.left.right) > NodeHeight(u.left.left)
    ensures Balanced(RotateRight(u.(left := RotateLeft(u.left))))
    ensures NodeHeight(RotateRight(u.(left := RotateLeft(u.left)))) == NodeHeight(u.left)
  {
    var x := u.left;
    var b := x.right;
    assert NodeHeight(x) == 1 + Max(NodeHeight(x.left), NodeHeight(b));
    assert NodeHeight(b) == 1 + Max(NodeHeight(b.left), NodeHeight(b.right));
    var v := u.(left := RotateLeft(x));
    assert RotateRight(v) == Make(b.key, Make(x.key, x.left, b.left), Make(u.key, b.right, u.right));
    assert Balanced(Make(x.key, x.left, b.left));
    assert Balanced(Make(u.key, b.right, u.right));
  }

  /** Rebalance of a node over two balanced subtrees whose heights differ by
      at most two: a difference of at most one only updates the height; a
      difference of two ends balanced, one level lower, provided the taller
      child is not itself evenly balanced. */
  lemma RebalanceBalances(z: Tree)
    requires z.Node? && HeightsOk(z.left) && HeightsOk(z.right) && Balanced(z.left) && Balanced(z.right)
    requires -2 <= NodeHeight(z.right) - NodeHeight(z.left) <= 2
    requires NodeHeight(z.right) - NodeHeight(z.left) == 2 ==> GetBalance(z.right) != 0
    requires NodeHeight(z.right) - NodeHeight(z.left) == -2 ==> GetBalance(z.left) != 0
    ensures Balanced(Rebalance(z))
    ensures -1 <= NodeHeight(z.right) - NodeHeight(z.left) <= 1 ==> Rebalance(z) == UpdateHeight(z)
    ensures NodeHeight(Rebalance(z)) ==
              if -1 <= NodeHeight(z.right) - NodeHeight(z.left) <= 1 then 1 + Max(NodeHeight(z.left), NodeHeight(z.right))
              else Max(NodeHeight(z.left), NodeHeight(z.right))
  {
    var u := UpdateHeight(z);
    if GetBalance(u) > 1 {
      if NodeHeight(u.right.right) > NodeHeight(u.right.left) {
        SingleLeftBalances(u);
      } else {
        DoubleLeftBalances(u);
      }
    } else if GetBalance(u) < -1 {
      if NodeHeight(u.left.left) > NodeHeight(u.left.right) {
        SingleRightBalances(u);
      } else {
        DoubleRightBalances(u);
      }
    }
  }

  /** RebalanceCorrected of a node over two balanced subtrees whose heights
      differ by at most two always ends balanced. */
  lemma RebalanceCorrectedBalances(z: Tree)
    requires z.Node? && HeightsOk(z.left) && HeightsOk(z.right) && Balanced(z.left) && Balanced(z.right)
    requires -2 <= NodeHeight(z.right) - NodeHeight(z.left) <= 2
    ensures Balanced(RebalanceCorrected(z))
    ensures -1 <= NodeHeight(z.right) - NodeHeight(z.left) <= 1 ==> RebalanceCorrected(z) == UpdateHeight(z)
    ensures var m := Max(NodeHeight(z.left), NodeHeight(z.right));
            if -1 <= NodeHeight(z.right) - NodeHeight(z.left) <= 1 then NodeHeight(RebalanceCorrected(z)) == 1 + m
            else m <= NodeHeight(RebalanceCorrected(z)) <= m + 1
  {
    var u := UpdateHeight(z);
    if GetBalance(u) > 1 {
      if NodeHeight(u.right.right) >= NodeHeight(u.right.left) {
        SingleLeftBalances(u);
      } else {
        DoubleLeftBalances(u);
      }
    } else if GetBalance(u) < -1 {
      if NodeHeight(u.left.left) >= NodeHeight(u.left.right) {
        SingleRightBalances(u);
      } else {
        DoubleRightBalances(u);
      }
    }
  }

  /** InsertInto keeps a tree balanced; its height grows by at most one, and
      when it grows the new root is not evenly balanced. */
  lemma {:induction false} InsertIntoBalances(t: Tree, key: int)
    requires HeightsOk(t) && Balanced(t) && InsertInto(t, key).Success?
    ensures Balanced(InsertInto(t, key).value)
    ensures NodeHeight(t) <= NodeHeight(InsertInto(t, key).value) <= NodeHeight(t) + 1
    ensures t.Node? && NodeHeight(InsertInto(t, key).value) == NodeHeight(t) + 1 ==> GetBalance(InsertInto(t, key).value) != 0
  {
    match t
    case Nil =>
    case Node(k, h, l, rt) =>
      if k > key {
        InsertIntoBalances(l, key);
        var z := Node(k, h, InsertInto(l, key).value, rt);
        RebalanceBalances(z);
      } else {
        InsertIntoBalances(rt, key);
        var z := Node(k, h, l, InsertInto(rt, key).value);
        RebalanceBalances(z);
      }
  }

  /** RemoveFromCorrected keeps a tree balanced; its height drops by at most
      one. */
  lemma {:induction false} RemoveFromCorrectedBalances(t: Tree, key: int)
    requires HeightsOk(t) && Balanced(t)
    ensures Balanced(RemoveFromCorrected(t, key))
    ensures NodeHeight(t) - 1 <= NodeHeight(RemoveFromCorrected(t, key)) <= NodeHeight(t)
  {
    match t
    case Nil =>
    case Node(k, h, l, rt) =>
      var r := RemoveFromCorrected(t, key);
      assert NodeHeight(t) == 1 + Max(NodeHeight(l), NodeHeight(rt));
      if k > key {
        RemoveFromCorrectedBalances(l, key);
        var z := Node(k, h, RemoveFromCorrected(l, key), rt);
        assert r == RebalanceCorrected(z);
        RebalanceCorrectedBalances(z);
      } else if k < key {
        RemoveFromCorrectedBalances(rt, key);
        var z := Node(k, h, l, RemoveFromCorrected(rt, key));
        assert r == RebalanceCorrected(z);
        RebalanceCorrectedBalances(z);
      } else if l.Nil? && rt.Nil? {
      } else if l.Nil? {
        RebalanceCorrectedBalances(rt);
      } else if rt.Nil? {
        RebalanceCorrectedBalances(l);
      } else {
        var m := Leftmost(rt).key;
        RemoveFromCorrectedBalances(rt, m);
        var z := Node(m, h, l, RemoveFromCorrected(rt, m));
        assert r == RebalanceCorrected(z);
        RebalanceCorrectedBalances(z);
      }
  }

  // ---------------------------------------------------------------------
  // The tree object.
  // ---------------------------------------------------------------------

  class AvlTree {
    /** _root; Nil for an empty tree. */
    var root: Tree

    /** Every tree the class builds is a search tree with correct heights. */
    ghost predicate Valid()
      reads this
    {
      HeightsOk(root) && Bst(root)
    }

    /** The implicit constructor: an empty tree. */
    constructor ()
      ensures Valid() && root == Nil
    {
      root := Nil;
    }

    /** Find(key): walk down from the root, right past smaller keys and left
        past larger ones, until a node with an equal key or null. */
    method Find(key: int) returns (r: Tree)
      requires Valid()
      ensures r.Nil? <==> key !in Keys(root)
      ensures r.Node? ==> r.key == key && Within(r, root)
    {
      var current := root;
      while current.Node?
        invariant Within(current, root) && Bst(current)
        invariant key in Keys(root) <==> key in Keys(current)
        decreases current
      {
        if current.key == key {
          break;
        }
        WithinChild(current, root);
        current := if current.key < key then current.right else current.left;
      }
      r := current;
    }

    /** Insert(key): the tree with `key` added, or InvalidOperationException
        for a key already present, with the tree unchanged. */
    method Insert(key: int) returns (r: Outcome)
      requires Valid()
      modifies this
      ensures Valid()
      ensures key in old(Keys(root)) ==> r == Fail(InvalidOperation) && root == old(root)
      ensures key !in old(Keys(root)) ==>
                r == Pass && InsertInto(old(root), key) == Success(root) &&
                Keys(root) == old(Keys(root)) + {key} && GetTreeSize(root) == old(GetTreeSize(root)) + 1
      ensures old(Balanced(root)) ==> Balanced(root)
    {
      InsertIntoKeys(root, key);
      match InsertInto(root, key)
      case Failure(e) =>
        r := Fail(e);
      case Success(t) =>
        if Balanced(root) {
          InsertIntoBalances(root, key);
        }
        root := t;
        r := Pass;
    }

    /** Remove(key) as written: the tree without `key`; nothing happens when
        the key is absent. */
    method Remove(key: int)
      requires Valid()
      modifies this
      ensures Valid() && root == RemoveFrom(old(root), key)
      ensures Keys(root) == old(Keys(root)) - {key}
      ensures GetTreeSize(root) == old(GetTreeSize(root)) - (if key in old(Keys(root)) then 1 else 0)
    {
      RemoveFromKeys(root, key);
      root := RemoveFrom(root, key);
    }

    /** Remove with RebalanceCorrected: the same keys, and a balanced tree
        stays balanced. */
    method RemoveCorrected(key: int)
      requires Valid()
      modifies this
      ensures Valid() && root == RemoveFromCorrected(old(root), key)
      ensures Keys(root) == old(Keys(root)) - {key}
      ensures GetTreeSize(root) == old(GetTreeSize(root)) - (if key in old(Keys(root)) then 1 else 0)
      ensures old(Balanced(root)) ==> Balanced(root)
    {
      RemoveFromCorrectedKeys(root, key);
      if Balanced(root) {
        RemoveFromCorrectedBalances(root, key);
      }
      root := RemoveFromCorrected(root, key);
    }

    /** Height(): the height of the tree, -1 exactly when it is empty. */
    function Height(): (h: int)
      reads this
      requires Valid()
      ensures h == Depth(root) && (h == -1 <==> root.Nil?)
    {
      NodeHeight(root)
    }

    /** MostLeftChild(node): follow Left from a non-null node to its end. */
    method MostLeftChild(node: Tree) returns (r: Tree)
      requires node.Node?
      ensures r == Leftmost(node)
    {
      var current := node;
      while current.left.Node?
        invariant current.Node? && Leftmost(current) == Leftmost(node)
        decreases current
      {
        current := current.left;
      }
      r := current;
    }

    /** FindMin(): the smallest key, or InvalidOperationException on an
        empty tree. */
    method FindMin() returns (r: Result<int>)
      requires Valid()
      ensures root.Nil? ==> r == Failure(InvalidOperation)
      ensures root.Node? ==> r.Success? && r.value in Keys(root) && forall x :: x in Keys(root) ==> r.value <= x
    {
      if root.Nil? {
        return Failure(InvalidOperation);
      }
      var m := MostLeftChild(root);
      r := Success(m.key);
    }

    /** FindMax(): the largest key, or InvalidOperationException on an empty
        tree. */
    method FindMax() returns (r: Result<int>)
      requires Valid()
      ensures root.Nil? ==> r == Failure(InvalidOperation)
      ensures root.Node? ==> r.Success? && r.value in Keys(root) && forall x :: x in Keys(root) ==> x <= r.value
    {
      if root.Nil? {
        return Failure(InvalidOperation);
      }
      var current := root;
      while current.right.Node?
        invariant current.Node? && Rightmost(current) == Rightmost(root)
        decreases current
      {
        current := current.right;
      }
      r := Success(current.key);
    }

    /** IsBalanced(): no two sibling subtrees differ in height by more than
        one. */
    function IsBalanced(): (b: bool)
      reads this
      requires Valid()
      ensures b <==> AvlShape(root)
    {
      CheckBalanceMeans(root);
      Balanced(root)
    }
  }

  /** A tree of one node. */
  function Tip(k: int): Tree {
    Node(k, 0, Nil, Nil)
  }

  lemma TipIsAvl(k: int)
    ensures HeightsOk(Tip(k)) && Bst(Tip(k)) && Balanced(Tip(k)) && Keys(Tip(k)) == {k}
  {
    assert Keys(Nil) == {};
  }

  /** The tree that inserting k3, k2, k6, k1, k5, k7, k4, k8 builds (for
      instance 10, 5, 20, 3, 15, 25, 12, 30). */
  function Example(k1: int, k2: int, k3: int, k4: int, k5: int, k6: int, k7: int, k8: int): Tree {
    Node(k3, 3,
      Node(k2, 1, Tip(k1), Nil),
      Node(k6, 2, Node(k5, 1, Tip(k4), Nil), Node(k7, 1, Nil, Tip(k8))))
  }

  /** An insertion into the left subtree that leaves the node balanced
      only refreshes the node's height. */
  lemma InsertLeftNoRotation(k: int, h: int, l: Tree, rt: Tree, key: int, l2: Tree)
    requires HeightsOk(Node(k, h, l, rt)) && key < k
    requires InsertInto(l, key) == Success(l2)
    requires -1 <= NodeHeight(rt) - NodeHeight(l2) <= 1
    ensures InsertInto(Node(k, h, l, rt), key) == Success(Make(k, l2, rt))
  {
  }

  /** The mirror image of InsertLeftNoRotation. */
  lemma InsertRightNoRotation(k: int, h: int, l: Tree, rt: Tree, key: int, r2: Tree)
    requires HeightsOk(Node(k, h, l, rt)) && k < key
    requires InsertInto(rt, key) == Success(r2)
    requires -1 <= NodeHeight(r2) - NodeHeight(l) <= 1
    ensures InsertInto(Node(k, h, l, rt), key) == Success(Make(k, l, r2))
  {
  }

  /** Inserting k3, k2, k6, k1, k5, k7, k4, k8 in that order into an empty
      tree builds Example; no insertion rotates. */
  lemma ExampleBuilt(k1: int, k2: int, k3: int, k4: int, k5: int, k6: int, k7: int, k8: int)
    requires k1 < k2 < k3 < k4 < k5 < k6 < k7 < k8
    ensures InsertInto(Nil, k3) == Success(Tip(k3))
    ensures InsertInto(Tip(k3), k2) == Success(Node(k3, 1, Tip(k2), Nil))
    ensures InsertInto(Node(k3, 1, Tip(k2), Nil), k6) == Success(Node(k3, 1, Tip(k2), Tip(k6)))
    ensures InsertInto(Node(k3, 1, Tip(k2), Tip(k6)), k1) ==
              Success(Node(k3, 2, Node(k2, 1, Tip(k1), Nil), Tip(k6)))
    ensures InsertInto(Node(k3, 2, Node(k2, 1, Tip(k1), Nil), Tip(k6)), k5) ==
              Success(Node(k3, 2, Node(k2, 1, Tip(k1), Nil), Node(k6, 1, Tip(k5), Nil)))
    ensures InsertInto(Node(k3, 2, Node(k2, 1, Tip(k1), Nil), Node(k6, 1, Tip(k5), Nil)), k7) ==
              Success(Node(k3, 2, Node(k2, 1, Tip(k1), Nil), Node(k6, 1, Tip(k5), Tip(k7))))
    ensures InsertInto(Node(k3, 2, Node(k2, 1, Tip(k1), Nil), Node(k6, 1, Tip(k5), Tip(k7))), k4) ==
              Success(Node(k3, 3, Node(k2, 1, Tip(k1), Nil), Node(k6, 2, Node(k5, 1, Tip(k4), Nil), Tip(k7))))
    ensures InsertInto(Node(k3, 3, Node(k2, 1, Tip(k1), Nil), Node(k6, 2, Node(k5, 1, Tip(k4), Nil), Tip(k7))), k8) ==
              Success(Example(k1, k2, k3, k4, k5, k6, k7, k8))
  {
    var a := Node(k2, 1, Tip(k1), Nil);
    InsertLeftNoRotation(k3, 0, Nil, Nil, k2, Tip(k2));
    InsertRightNoRotation(k3, 1, Tip(k2), Nil, k6, Tip(k6));
    InsertLeftNoRotation(k2, 0, Nil, Nil, k1, Tip(k1));
    InsertLeftNoRotation(k3, 1, Tip(k2), Tip(k6), k1, a);
    InsertLeftNoRotation(k6, 0, Nil, Nil, k5, Tip(k5));
    InsertRightNoRotation(k3, 2, a, Tip(k6), k5, Node(k6, 1, Tip(k5), Nil));
    InsertRightNoRotation(k6, 1, Tip(k5), Nil, k7, Tip(k7));
    InsertRightNoRotation(k3, 2, a, Node(k6, 1, Tip(k5), Nil), k7, Node(k6, 1, Tip(k5), Tip(k7)));
    InsertLeftNoRotation(k5, 0, Nil, Nil, k4, Tip(k4));
    InsertLeftNoRotation(k6, 1, Tip(k5), Tip(k7), k4, Node(k5, 1, Tip(k4), Nil));
    InsertRightNoRotation(k3, 2, a, Node(k6, 1, Tip(k5), Tip(k7)), k4,
                          Node(k6, 2, Node(k5, 1, Tip(k4), Nil), Tip(k7)));
    InsertRightNoRotation(k7, 0, Nil, Nil, k8, Tip(k8));
    InsertRightNoRotation(k6, 2, Node(k5, 1, Tip(k4), Nil), Tip(k7), k8, Node(k7, 1, Nil, Tip(k8)));
    InsertRightNoRotation(k3, 3, a, Node(k6, 2, Node(k5, 1, Tip(k4), Nil), Tip(k7)), k8,
                          Node(k6, 2, Node(k5, 1, Tip(k4), Nil), Node(k7, 1, Nil, Tip(k8))));
  }

  /** For ascending keys, Example is a balanced search tree with correct
      heights. */
  lemma ExampleIsAvl(k1: int, k2: int, k3: int, k4: int, k5: int, k6: int, k7: int, k8: int)
    requires k1 < k2 < k3 < k4 < k5 < k6 < k7 < k8
    ensures var t := Example(k1, k2, k3, k4, k5, k6, k7, k8);
            HeightsOk(t) && Bst(t) && Balanced(t)
  {
    TipIsAvl(k1);
    TipIsAvl(k4);
    TipIsAvl(k8);
    var l := Node(k2, 1, Tip(k1), Nil);
    var rl := Node(k5, 1, Tip(k4), Nil);
    var rr := Node(k7, 1, Nil, Tip(k8));
    var r := Node(k6, 2, rl, rr);
    assert Keys(l) == {k1, k2} && Keys(rl) == {k4, k5} && Keys(rr) == {k7, k8};
    assert HeightsOk(l) && HeightsOk(rl) && HeightsOk(rr);
    assert HeightsOk(r);
    assert Balanced(l) && Balanced(rl) && Balanced(rr);
    assert Balanced(r);
    assert Bst(l) && Bst(rl) && Bst(rr);
    assert Keys(r) == {k4, k5, k6, k7, k8};
  }

  /** Removing the smallest key k1 from Example with Remove as written: at
      the root the right subtree is two levels taller and its own two
      subtrees are equally tall, so the strict comparison picks the double
      rotation, which leaves node k6 with an empty left subtree and a right
      subtree of height 1. With RebalanceCorrected the result is balanced. */
  lemma RemoveUnbalances(k1: int, k2: int, k3: int, k4: int, k5: int, k6: int, k7: int, k8: int)
    requires k1 < k2 < k3 < k4 < k5 < k6 < k7 < k8
    ensures var t := Example(k1, k2, k3, k4, k5, k6, k7, k8);
            && HeightsOk(t) && Bst(t) && Balanced(t)
            && RemoveFrom(t, k1) ==
                 Node(k5, 3, Node(k3, 1, Tip(k2), Tip(k4)), Node(k6, 2, Nil, Node(k7, 1, Nil, Tip(k8))))
            && !Balanced(RemoveFrom(t, k1))
            && Balanced(RemoveFromCorrected(t, k1))
  {
    ExampleIsAvl(k1, k2, k3, k4, k5, k6, k7, k8);
    var t := Example(k1, k2, k3, k4, k5, k6, k7, k8);
    assert RemoveFrom(Tip(k1), k1) == Nil;
    assert RemoveFrom(t.left, k1) == Tip(k2);
    var u := Make(k3, Tip(k2), t.right);
    var x := RotateRight(t.right);
    assert x == Node(k5, 3, Tip(k4), Node(k6, 2, Nil, Node(k7, 1, Nil, Tip(k8))));
    assert RemoveFrom(t, k1) == RotateLeft(u.(right := x));
    RemoveFromCorrectedBalances(t, k1);
  }
}
