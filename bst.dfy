/**
 * The unbalanced binary search tree of `myBST/bst.cpp`.
 *
 * A `TreeNode*` subtree is modelled as the inductive value `Subtree`: the
 * recursive operations (`insert`, `remove`, the traversals) become
 * functions that return the new subtree, and the read-only cursor loops
 * (`minValueLeaf`, `min`, `max`, `contains`) become methods with `while`
 * loops over a cursor of type `Subtree`.  The class `Tree` holds the root
 * and models the public wrappers.
 */
module Bst {

  datatype Subtree = Nil | Node(left: Subtree, value: int, right: Subtree)

  /** The keys stored in a subtree, with their multiplicities. */
  function Keys(t: Subtree): multiset<int>
  {
    match t
    case Nil => multiset{}
    case Node(l, k, r) => Keys(l) + multiset{k} + Keys(r)
  }

  /** Number of nodes. */
  function Size(t: Subtree): nat
  {
    match t
    case Nil => 0
    case Node(l, _, r) => Size(l) + 1 + Size(r)
  }

  /** Every key of `t` is smaller than `k`. */
  predicate AllBelow(t: Subtree, k: int)
  {
    match t
    case Nil => true
    case Node(l, x, r) => x < k && AllBelow(l, k) && AllBelow(r, k)
  }

  /** Every key of `t` is at least `k`. */
  predicate AllAtLeast(t: Subtree, k: int)
  {
    match t
    case Nil => true
    case Node(l, x, r) => k <= x && AllAtLeast(l, k) && AllAtLeast(r, k)
  }

  /**
   * The ordering invariant: every key of the left subtree is smaller than
   * the node's key, every key of the right subtree is at least the node's
   * key (equal keys are sent right).
   */
  predicate IsBst(t: Subtree)
  {
    match t
    case Nil => true
    case Node(l, k, r) => IsBst(l) && IsBst(r) && AllBelow(l, k) && AllAtLeast(r, k)
  }

  /** A bound on the nodes is a bound on the key multiset. */
  lemma {:induction false} AllBelowKeys(t: Subtree, k: int)
    requires AllBelow(t, k)
    ensures forall x | x in Keys(t) :: x < k
  {
    match t
    case Nil =>
    case Node(l, y, r) =>
      AllBelowKeys(l, k);
      AllBelowKeys(r, k);
      forall x | x in Keys(t)
        ensures x < k
      {
        assert x in Keys(l) || x == y || x in Keys(r);
      }
  }

  /** A bound on the nodes is a bound on the key multiset. */
  lemma {:induction false} AllAtLeastKeys(t: Subtree, k: int)
    requires AllAtLeast(t, k)
    ensures forall x | x in Keys(t) :: k <= x
  {
    match t
    case Nil =>
    case Node(l, y, r) =>
      AllAtLeastKeys(l, k);
      AllAtLeastKeys(r, k);
      forall x | x in Keys(t)
        ensures k <= x
      {
        assert x in Keys(l) || x == y || x in Keys(r);
      }
  }

  lemma {:induction false} AllAtLeastWeaken(t: Subtree, k: int, j: int)
    requires AllAtLeast(t, k) && j <= k
    ensures AllAtLeast(t, j)
  {
    match t
    case Nil =>
    case Node(l, _, r) =>
      AllAtLeastWeaken(l, k, j);
      AllAtLeastWeaken(r, k, j);
  }

  lemma {:induction false} AllBelowWeaken(t: Subtree, k: int, j: int)
    requires AllBelow(t, k) && k <= j
    ensures AllBelow(t, j)
  {
    match t
    case Nil =>
    case Node(l, _, r) =>
      AllBelowWeaken(l, k, j);
      AllBelowWeaken(r, k, j);
  }

  /** Every node of `t` sits at the same position, with the same key, in `u`. */
  predicate Embeds(t: Subtree, u: Subtree)
  {
    match t
    case Nil => true
    case Node(l, k, r) =>
      u.Node? && u.value == k && Embeds(l, u.left) && Embeds(r, u.right)
  }

  /** `s` is non-decreasing. */
  predicate Sorted(s: seq<int>)
  {
    forall i, j :: 0 <= i < j < |s| ==> s[i] <= s[j]
  }

  // ---------------------------------------------------------------------
  // insert
  // ---------------------------------------------------------------------

  /** `insert(v, subtree)`: descend left on smaller keys, right otherwise,
      and put a new leaf in the empty slot reached. */
  function InsertInto(v: int, t: Subtree): (r: Subtree)
    ensures Keys(r) == Keys(t) + multiset{v}
    ensures Size(r) == Size(t) + 1
  {
    match t
    case Nil => Node(Nil, v, Nil)
    case Node(l, k, rt) =>
      if v < k then Node(InsertInto(v, l), k, rt)
      else Node(l, k, InsertInto(v, rt))
  }

  lemma {:induction false} InsertKeepsBounds(v: int, t: Subtree, lo: int, hi: int)
    ensures AllBelow(t, hi) && v < hi ==> AllBelow(InsertInto(v, t), hi)
    ensures AllAtLeast(t, lo) && lo <= v ==> AllAtLeast(InsertInto(v, t), lo)
  {
    match t
    case Nil =>
    case Node(l, k, r) =>
      InsertKeepsBounds(v, l, lo, hi);
      InsertKeepsBounds(v, r, lo, hi);
  }

  lemma {:induction false} InsertPreservesBst(v: int, t: Subtree)
    requires IsBst(t)
    ensures IsBst(InsertInto(v, t))
  {
    match t
    case Nil =>
    case Node(l, k, r) =>
      InsertKeepsBounds(v, l, k, k);
      InsertKeepsBounds(v, r, k, k);
      if v < k {
        InsertPreservesBst(v, l);
      } else {
        InsertPreservesBst(v, r);
      }
  }

  /** The new key is one new node: every old node keeps its place and key. */
  lemma {:induction false} InsertAddsOneLeaf(v: int, t: Subtree)
    ensures Embeds(t, InsertInto(v, t))
    ensures Size(InsertInto(v, t)) == Size(t) + 1
  {
    match t
    case Nil =>
    case Node(l, k, r) =>
      EmbedsRefl(l);
      EmbedsRefl(r);
      if v < k {
        InsertAddsOneLeaf(v, l);
      } else {
        InsertAddsOneLeaf(v, r);
      }
  }

  lemma {:induction false} EmbedsRefl(t: Subtree)
    ensures Embeds(t, t)
  {
    match t
    case Nil =>
    case Node(l, _, r) =>
      EmbedsRefl(l);
      EmbedsRefl(r);
  }

  // ---------------------------------------------------------------------
  // traversals
  // ---------------------------------------------------------------------

  /** `preOrderTraversal`: the keys it prints, node before its subtrees. */
  function PreOrder(t: Subtree): (s: seq<int>)
    ensures |s| == Size(t)
  {
    match t
    case Nil => []
    case Node(l, k, r) => [k] + PreOrder(l) + PreOrder(r)
  }

  /** `inOrderTraversal`: the keys it prints, node between its subtrees. */
  function InOrder(t: Subtree): (s: seq<int>)
    ensures |s| == Size(t)
  {
    match t
    case Nil => []
    case Node(l, k, r) => InOrder(l) + [k] + InOrder(r)
  }

  /** `postOrderTraversal`: the keys it prints, node after its subtrees. */
  function PostOrder(t: Subtree): (s: seq<int>)
    ensures |s| == Size(t)
  {
    match t
    case Nil => []
    case Node(l, k, r) => PostOrder(l) + PostOrder(r) + [k]
  }

  /** The pre-order output holds every key of the tree as often as it occurs. */
  lemma {:induction false} PreOrderKeys(t: Subtree)
    ensures multiset(PreOrder(t)) == Keys(t)
  {
    match t
    case Nil =>
    case Node(l, _, r) =>
      PreOrderKeys(l);
      PreOrderKeys(r);
  }

  /** The in-order output holds every key of the tree as often as it occurs. */
  lemma {:induction false} InOrderKeys(t: Subtree)
    ensures multiset(InOrder(t)) == Keys(t)
  {
    match t
    case Nil =>
    case Node(l, _, r) =>
      InOrderKeys(l);
      InOrderKeys(r);
  }

  /** The post-order output holds every key of the tree as often as it occurs. */
  lemma {:induction false} PostOrderKeys(t: Subtree)
    ensures multiset(PostOrder(t)) == Keys(t)
  {
    match t
    case Nil =>
    case Node(l, _, r) =>
      PostOrderKeys(l);
      PostOrderKeys(r);
  }

  /** A bound on the nodes bounds every key printed in order. */
  lemma {:induction false} InOrderBounds(t: Subtree, lo: int, hi: int)
    ensures AllBelow(t, hi) ==> forall x | x in InOrder(t) :: x < hi
    ensures AllAtLeast(t, lo) ==> forall x | x in InOrder(t) :: lo <= x
  {
    match t
    case Nil =>
    case Node(l, _, r) =>
      InOrderBounds(l, lo, hi);
      InOrderBounds(r, lo, hi);
  }

  /** On a search tree the in-order output is non-decreasing. */
  lemma {:induction false} InOrderSorted(t: Subtree)
    requires IsBst(t)
    ensures Sorted(InOrder(t))
  {
    match t
    case Nil =>
    case Node(l, k, r) =>
      InOrderSorted(l);
      InOrderSorted(r);
      InOrderBounds(l, k, k);
      InOrderBounds(r, k, k);
      var sl, sr := InOrder(l), InOrder(r);
      var s := sl + [k] + sr;
      forall i, j | 0 <= i < j < |s|
        ensures s[i] <= s[j]
      {
        if j < |sl| {
          assert s[i] == sl[i] && s[j] == sl[j];
        } else if i > |sl| {
          assert s[i] == sr[i - |sl| - 1] && s[j] == sr[j - |sl| - 1];
        } else {
          assert s[i] == k || s[i] in sl;
          assert s[j] == k || s[j] in sr;
        }
      }
  }

  /** The tree with root 50, children 30 and 70, and leaves 20, 40, 60, 80. */
  function SampleTree(): Subtree
  {
    Node(Node(Node(Nil, 20, Nil), 30, Node(Nil, 40, Nil)), 50,
         Node(Node(Nil, 60, Nil), 70, Node(Nil, 80, Nil)))
  }

  /** Inserting 50, 30, 70, 20, 40, 60, 80 into an empty tree builds `SampleTree`. */
  lemma SampleInserts()
    ensures InsertInto(80, InsertInto(60, InsertInto(40, InsertInto(20,
              InsertInto(70, InsertInto(30, InsertInto(50, Nil))))))) == SampleTree()
  {
  }

  /** Pre-order output for `SampleTree`. */
  lemma SamplePreOrder()
    ensures PreOrder(SampleTree()) == [50, 30, 20, 40, 70, 60, 80]
  {
    var t := SampleTree();
    assert PreOrder(t.left) == [30, 20, 40];
    assert PreOrder(t.right) == [70, 60, 80];
  }

  /** In-order output for `SampleTree`: the keys in ascending order. */
  lemma SampleInOrder()
    ensures InOrder(SampleTree()) == [20, 30, 40, 50, 60, 70, 80]
  {
    var t := SampleTree();
    assert InOrder(t.left) == [20, 30, 40];
    assert InOrder(t.right) == [60, 70, 80];
  }

  /** Post-order output for `SampleTree`. */
  lemma SamplePostOrder()
    ensures PostOrder(SampleTree()) == [20, 40, 30, 60, 80, 70, 50]
  {
    var t := SampleTree();
    assert PostOrder(t.left) == [20, 40, 30];
    assert PostOrder(t.right) == [60, 80, 70];
  }

  // ---------------------------------------------------------------------
  // minValueLeaf, min, max, contains
  // ---------------------------------------------------------------------

  /** The node reached by following left links from the root of `t`. */
  function Leftmost(t: Subtree): (m: Subtree)
    requires t.Node?
    ensures m.Node? && m.left == Nil
  {
    if t.left == Nil then t else Leftmost(t.left)
  }

  /** The node reached by following right links from the root of `t`. */
  function Rightmost(t: Subtree): (m: Subtree)
    requires t.Node?
    ensures m.Node? && m.right == Nil
  {
    if t.right == Nil then t else Rightmost(t.right)
  }

  lemma {:induction false} LeftmostIn(t: Subtree)
    requires t.Node?
    ensures Leftmost(t).value in Keys(t)
  {
    if t.left != Nil {
      LeftmostIn(t.left);
    }
  }

  lemma {:induction false} RightmostIn(t: Subtree)
    requires t.Node?
    ensures Rightmost(t).value in Keys(t)
  {
    if t.right != Nil {
      RightmostIn(t.right);
    }
  }

  /** On a search tree no key is below the end of the left spine. */
  lemma {:induction false} LeftmostIsLowerBound(t: Subtree)
    requires t.Node? && IsBst(t)
    ensures AllAtLeast(t, Leftmost(t).value)
  {
    var m := Leftmost(t).value;
    if t.left != Nil {
      LeftmostIsLowerBound(t.left);
      LeftmostIn(t.left);
      AllBelowKeys(t.left, t.value);
      AllAtLeastWeaken(t.right, t.value, m);
    }
  }

  /** On a search tree the left spine ends at a least key. */
  lemma LeftmostIsMin(t: Subtree)
    requires t.Node? && IsBst(t)
    ensures Leftmost(t).value in Keys(t)
    ensures forall x | x in Keys(t) :: Leftmost(t).value <= x
  {
    LeftmostIn(t);
    LeftmostIsLowerBound(t);
    AllAtLeastKeys(t, Leftmost(t).value);
  }

  /** On a search tree the right spine ends at a greatest key. */
  lemma {:induction false} RightmostIsMax(t: Subtree)
    requires t.Node? && IsBst(t)
    ensures Rightmost(t).value in Keys(t)
    ensures forall x | x in Keys(t) :: x <= Rightmost(t).value
  {
    RightmostIn(t);
    var m := Rightmost(t).value;
    var y := t.value;
    AllBelowKeys(t.left, y);
    if t.right != Nil {
      RightmostIsMax(t.right);
      AllAtLeastKeys(t.right, y);
    }
    forall x | x in Keys(t)
      ensures x <= m
    {
      assert x in Keys(t.left) || x == y || x in Keys(t.right);
    }
  }

  /** `minValueLeaf(node)`: null for null, otherwise the end of the left spine. */
  method MinValueLeaf(node: Subtree) returns (r: Subtree)
    ensures node == Nil ==> r == Nil
    ensures node != Nil ==> r == Leftmost(node)
    ensures node != Nil && IsBst(node) ==>
      r.left == Nil && r.value in Keys(node) && forall x | x in Keys(node) :: r.value <= x
  {
    r := node;
    while r != Nil && r.left != Nil
      invariant node == Nil ==> r == Nil
      invariant node != Nil ==> r.Node? && Leftmost(r) == Leftmost(node)
      decreases r
    {
      r := r.left;
    }
    if node != Nil && IsBst(node) {
      LeftmostIsMin(node);
    }
  }

  /** `min(subtree)`: the key at the end of the left spine (never called on null). */
  method SubtreeMin(t: Subtree) returns (m: int)
    requires t.Node?
    ensures m == Leftmost(t).value
    ensures IsBst(t) ==> m in Keys(t) && forall x | x in Keys(t) :: m <= x
  {
    var cur := t;
    while cur.left != Nil
      invariant cur.Node? && Leftmost(cur) == Leftmost(t)
      decreases cur
    {
      cur := cur.left;
    }
    m := cur.value;
    if IsBst(t) {
      LeftmostIsMin(t);
    }
  }

  /** `max(subtree)`: the key at the end of the right spine (never called on null). */
  method SubtreeMax(t: Subtree) returns (m: int)
    requires t.Node?
    ensures m == Rightmost(t).value
    ensures IsBst(t) ==> m in Keys(t) && forall x | x in Keys(t) :: x <= m
  {
    var cur := t;
    while cur.right != Nil
      invariant cur.Node? && Rightmost(cur) == Rightmost(t)
      decreases cur
    {
      cur := cur.right;
    }
    m := cur.value;
    if IsBst(t) {
      RightmostIsMax(t);
    }
  }

  /** `contains(value, subtree)`: one descent guided by the keys. */
  method SubtreeContains(v: int, t: Subtree) returns (found: bool)
    ensures IsBst(t) ==> (found <==> v in Keys(t))
  {
    var cur := t;
    while cur != Nil
      invariant IsBst(t) ==> IsBst(cur) && (v in Keys(t) <==> v in Keys(cur))
      decreases cur
    {
      if v == cur.value {
        return true;
      }
      if IsBst(t) {
        AllBelowKeys(cur.left, cur.value);
        AllAtLeastKeys(cur.right, cur.value);
      }
      if v < cur.value {
        cur := cur.left;
      } else {
        cur := cur.right;
      }
    }
    found := false;
  }

  // ---------------------------------------------------------------------
  // remove
  // ---------------------------------------------------------------------

  /**
   * `remove(value, root)`: returns the new subtree.  A node holding the
   * key with no left child is replaced by its right child, one with no
   * right child by its left child; a node with two children takes the key
   * of the leftmost node of its right subtree, which is then removed from
   * that subtree.
   */
  function RemoveFrom(v: int, t: Subtree): (r: Subtree)
    ensures Size(r) <= Size(t)
    decreases t
  {
    match t
    case Nil => Nil
    case Node(l, k, rt) =>
      if v < k then Node(RemoveFrom(v, l), k, rt)
      else if v > k then Node(l, k, RemoveFrom(v, rt))
      else if l == Nil then rt
      else if rt == Nil then l
      else
        var m := Leftmost(rt).value;
        Node(l, m, RemoveFrom(m, rt))
  }

  /** Removing an absent key gives back the same tree. */
  lemma {:induction false} RemoveAbsent(v: int, t: Subtree)
    requires v !in Keys(t)
    ensures RemoveFrom(v, t) == t
  {
    match t
    case Nil =>
    case Node(l, k, r) =>
      if v < k {
        RemoveAbsent(v, l);
      } else if v > k {
        RemoveAbsent(v, r);
      }
  }

  /** Removal keeps every bound that held on the tree. */
  lemma {:induction false} RemoveKeepsBounds(v: int, t: Subtree, lo: int, hi: int)
    ensures AllBelow(t, hi) ==> AllBelow(RemoveFrom(v, t), hi)
    ensures AllAtLeast(t, lo) ==> AllAtLeast(RemoveFrom(v, t), lo)
    decreases t
  {
    match t
    case Nil =>
    case Node(l, k, r) =>
      if v < k {
        RemoveKeepsBounds(v, l, lo, hi);
      } else if v > k {
        RemoveKeepsBounds(v, r, lo, hi);
      } else if l != Nil && r != Nil {
        var m := Leftmost(r).value;
        RemoveKeepsBounds(m, r, lo, hi);
        LeftmostIn(r);
        if AllBelow(t, hi) {
          AllBelowKeys(r, hi);
        }
        if AllAtLeast(t, lo) {
          AllAtLeastKeys(r, lo);
        }
      }
  }

  // Multiset steps behind the cases of removal: `a`, `b` are the key
  // multisets of the left and right subtrees, `k` the node's key.

  lemma MinusFromLeft(a: multiset<int>, a': multiset<int>, k: int, b: multiset<int>, v: int)
    requires v != k && v !in b && a' == a - multiset{v}
    ensures a' + multiset{k} + b == (a + multiset{k} + b) - multiset{v}
  {
  }

  lemma MinusFromRight(a: multiset<int>, k: int, b: multiset<int>, b': multiset<int>, v: int)
    requires v != k && v !in a && b' == b - multiset{v}
    ensures a + multiset{k} + b' == (a + multiset{k} + b) - multiset{v}
  {
  }

  lemma MinusRoot(a: multiset<int>, k: int, b: multiset<int>)
    ensures a + b == (a + multiset{k} + b) - multiset{k}
  {
  }

  lemma SwapForSuccessor(a: multiset<int>, b: multiset<int>, b': multiset<int>, m: int, k: int)
    requires m in b && b' == b - multiset{m}
    ensures a + multiset{m} + b' == (a + multiset{k} + b) - multiset{k}
  {
  }

  /** On a search tree, removal takes away exactly one occurrence of the
      key when it is present, and nothing when it is absent. */
  lemma {:induction false} RemoveKeys(v: int, t: Subtree)
    requires IsBst(t)
    ensures Keys(RemoveFrom(v, t)) == Keys(t) - multiset{v}
    decreases t
  {
    match t
    case Nil =>
    case Node(l, k, r) =>
      if v < k {
        AllAtLeastKeys(r, k);
        RemoveKeys(v, l);
        assert RemoveFrom(v, t) == Node(RemoveFrom(v, l), k, r);
        MinusFromLeft(Keys(l), Keys(RemoveFrom(v, l)), k, Keys(r), v);
      } else if v > k {
        AllBelowKeys(l, k);
        RemoveKeys(v, r);
        assert RemoveFrom(v, t) == Node(l, k, RemoveFrom(v, r));
        MinusFromRight(Keys(l), k, Keys(r), Keys(RemoveFrom(v, r)), v);
      } else if l == Nil || r == Nil {
        MinusRoot(Keys(l), k, Keys(r));
      } else {
        var m := Leftmost(r).value;
        LeftmostIn(r);
        RemoveKeys(m, r);
        assert RemoveFrom(v, t) == Node(l, m, RemoveFrom(m, r));
        SwapForSuccessor(Keys(l), Keys(r), Keys(RemoveFrom(m, r)), m, k);
      }
  }

  /** Removal keeps the ordering invariant. */
  lemma {:induction false} RemovePreservesBst(v: int, t: Subtree)
    requires IsBst(t)
    ensures IsBst(RemoveFrom(v, t))
    decreases t
  {
    match t
    case Nil =>
    case Node(l, k, r) =>
      if v < k {
        RemovePreservesBst(v, l);
        RemoveKeepsBounds(v, l, k, k);
      } else if v > k {
        RemovePreservesBst(v, r);
        RemoveKeepsBounds(v, r, k, k);
      } else if l != Nil && r != Nil {
        var m := Leftmost(r).value;
        RemovePreservesBst(m, r);
        LeftmostIsLowerBound(r);
        RemoveKeepsBounds(m, r, m, m);
        LeftmostIn(r);
        AllAtLeastKeys(r, k);
        AllBelowWeaken(l, k, m);
      }
  }

  // ---------------------------------------------------------------------
  // the public wrapper `remove(int)` as written
  // ---------------------------------------------------------------------

  /** What `root` refers to after the public `remove(int)` returns. */
  datatype RootAfterRemove = Root(tree: Subtree) | Dangling

  /**
   * The public `remove(int)` calls `remove(value, root)` and drops the
   * returned subtree.  Below the root the recursive call relinks in place,
   * and a root with two children is kept (only its key is overwritten), so
   * `root` then holds the new tree; but when the root node itself holds
   * the key and lacks a child it is freed and `root` is left pointing at it.
   */
  function RemoveWrapperAsWritten(v: int, root: Subtree): (r: RootAfterRemove)
    ensures r.Dangling? ==> v in Keys(root) && Size(RemoveFrom(v, root)) + 1 == Size(root)
  {
    if root.Node? && root.value == v && (root.left == Nil || root.right == Nil) then Dangling
    else Root(RemoveFrom(v, root))
  }

  /** The wrapper as written leaves the root dangling exactly when the root
      node is the one freed; removing the key of a one-node tree is such a case,
      while `RemoveFrom` gives the empty tree there. */
  lemma RemoveWrapperDangles(v: int, root: Subtree)
    ensures RemoveWrapperAsWritten(v, root).Dangling? ==>
      RemoveFrom(v, root) == root.left || RemoveFrom(v, root) == root.right
    ensures RemoveWrapperAsWritten(5, Node(Nil, 5, Nil)) == Dangling
    ensures RemoveFrom(5, Node(Nil, 5, Nil)) == Nil
  {
  }

  // ---------------------------------------------------------------------
  // class Tree: the root and the public wrappers
  // ---------------------------------------------------------------------

  class Tree {
    var root: Subtree

    /** Every tree reachable through the public operations is a search tree. */
    ghost predicate Valid()
      reads this
    {
      IsBst(root)
    }

    /** A new tree is empty. */
    constructor ()
      ensures Valid() && root == Nil && Keys(root) == multiset{}
    {
      root := Nil;
    }

    /** `insert(int)`: inserts into the subtree held by `root`. */
    method Insert(v: int)
      requires Valid()
      modifies this
      ensures Valid()
      ensures root == InsertInto(v, old(root))
      ensures Keys(root) == old(Keys(root)) + multiset{v}
    {
      InsertPreservesBst(v, root);
      root := InsertInto(v, root);
    }

    /** `remove(int)`, with the returned subtree stored back in `root`. */
    method Remove(v: int)
      requires Valid()
      modifies this
      ensures Valid()
      ensures root == RemoveFrom(v, old(root))
      ensures Keys(root) == old(Keys(root)) - multiset{v}
    {
      RemovePreservesBst(v, root);
      RemoveKeys(v, root);
      root := RemoveFrom(v, root);
    }

    /** `preOrderTraversal()`: the keys it prints. */
    method PreOrderTraversal() returns (s: seq<int>)
      ensures s == PreOrder(root) && multiset(s) == Keys(root)
    {
      PreOrderKeys(root);
      s := PreOrder(root);
    }

    /** `inOrderTraversal()`: the keys it prints, in ascending order. */
    method InOrderTraversal() returns (s: seq<int>)
      requires Valid()
      ensures s == InOrder(root) && multiset(s) == Keys(root) && Sorted(s)
    {
      InOrderKeys(root);
      InOrderSorted(root);
      s := InOrder(root);
    }

    /** `postOrderTraversal()`: the keys it prints. */
    method PostOrderTraversal() returns (s: seq<int>)
      ensures s == PostOrder(root) && multiset(s) == Keys(root)
    {
      PostOrderKeys(root);
      s := PostOrder(root);
    }

    /** `min()`: never called on an empty tree. */
    method Min() returns (m: int)
      requires Valid() && root.Node?
      ensures m in Keys(root) && forall x | x in Keys(root) :: m <= x
    {
      m := SubtreeMin(root);
    }

    /** `max()`: never called on an empty tree. */
    method Max() returns (m: int)
      requires Valid() && root.Node?
      ensures m in Keys(root) && forall x | x in Keys(root) :: x <= m
    {
      m := SubtreeMax(root);
    }

    /** `contains(int)`. */
    method Contains(v: int) returns (found: bool)
      requires Valid()
      ensures found <==> v in Keys(root)
    {
      found := SubtreeContains(v, root);
    }
  }
}
