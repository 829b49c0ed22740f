/**
  The AVL tree of avl_tree.c on the heap.  An AVLNode holds its key, its
  height field and two child pointers; the ghost fields `Repr` (the nodes of
  its subtree) and `Subtree` (the AvlSpec value, height fields included) tie
  it to the value model, and `Valid()` says the pointers form a tree that the
  ghost fields describe.  Rotations and insert relink nodes in place; each
  method is specified by the AvlSpec function it implements.
 */
module AvlHeap {
  import opened Sequences
  import opened Trees
  import opened AvlSpec

  class AvlNode {
    var data: int
    var height: int
    var left: AvlNode?
    var right: AvlNode?
    ghost var Repr: set<object>
    ghost var Subtree: AvlTree

    ghost predicate Valid()
      reads this, Repr
      decreases Repr
    {
      this in Repr &&
      (left != null ==> left in Repr && left.Repr <= Repr && this !in left.Repr && left.Valid()) &&
      (right != null ==> right in Repr && right.Repr <= Repr && this !in right.Repr && right.Valid()) &&
      (left != null && right != null ==> left.Repr !! right.Repr) &&
      Repr == {this} + ReprOf(left) + ReprOf(right) &&
      Subtree == Bin(TreeOf(left), data, height, TreeOf(right))
    }

    /** new_avl_node(data, height, left, right): a fresh node over two existing disjoint subtrees. */
    constructor (x: int, h: int, l: AvlNode?, r: AvlNode?)
      requires l != null ==> l.Valid()
      requires r != null ==> r.Valid()
      requires l != null && r != null ==> l.Repr !! r.Repr
      ensures Valid()
      ensures data == x && height == h && left == l && right == r
      ensures Repr == {this} + ReprOf(l) + ReprOf(r)
      ensures Subtree == Bin(TreeOf(l), x, h, TreeOf(r))
    {
      data, height, left, right := x, h, l, r;
      Repr := {this} + ReprOf(l) + ReprOf(r);
      Subtree := Bin(TreeOf(l), x, h, TreeOf(r));
    }
  }

  ghost function ReprOf(n: AvlNode?): set<object>
    reads n
  {
    if n == null then {} else n.Repr
  }

  /** The AvlSpec value at a (possibly NULL) node pointer. */
  ghost function TreeOf(n: AvlNode?): AvlTree
    reads n
  {
    if n == null then Nil else n.Subtree
  }

  lemma ChildValid(n: AvlNode, child: AvlNode?)
    requires n.Valid() && (child == n.left || child == n.right)
    ensures child != null ==> child.Valid() && child.Repr <= n.Repr && n !in child.Repr
  {
  }

  /** get_avl_height: the height field of the node, 0 for NULL. */
  function GetAvlHeight(node: AvlNode?): (h: int)
    requires node != null ==> node.Valid()
    reads if node == null then {} else {node} + node.Repr
    ensures h == Height(TreeOf(node))
  {
    if node == null then 0 else node.height
  }

  /** get_avl_balance: left height minus right height, 0 for NULL. */
  function GetAvlBalance(node: AvlNode?): (b: int)
    requires node != null ==> node.Valid()
    reads if node == null then {} else {node} + node.Repr
    ensures b == Balance(TreeOf(node))
  {
    if node == null then 0 else GetAvlHeight(node.left) - GetAvlHeight(node.right)
  }

  /**
    Point n at the subtrees l and r and give it height h, refreshing its
    ghost fields; l and r must be valid, disjoint and not hold n.
   */
  method SetNode(n: AvlNode, l: AvlNode?, r: AvlNode?, h: int)
    requires l != null ==> l.Valid() && n !in l.Repr
    requires r != null ==> r.Valid() && n !in r.Repr
    requires l != null && r != null ==> l.Repr !! r.Repr
    modifies n
    ensures n.Valid() && n.left == l && n.right == r && n.height == h && n.data == old(n.data)
    ensures n.Repr == {n} + ReprOf(l) + ReprOf(r)
    ensures n.Subtree == Bin(TreeOf(l), n.data, h, TreeOf(r))
  {
    n.left, n.right, n.height := l, r, h;
    n.Repr := {n} + ReprOf(l) + ReprOf(r);
    n.Subtree := Bin(TreeOf(l), n.data, h, TreeOf(r));
    assert l != null ==> l.Valid();
    assert r != null ==> r.Valid();
  }

  /**
    right_rotate_avl(y): y's left child x becomes the root of the subtree, y
    becomes x's right child and takes x's old right subtree; y's height is
    recomputed before x's.  No node enters or leaves the subtree.
   */
  method RightRotateAvl(y: AvlNode) returns (x: AvlNode)
    requires y.Valid() && TreeOf(y).left.Bin?
    modifies y, y.left
    ensures x == old(y.left) && x.right == y && y.left == old(y.left.right)
    ensures x.Valid() && x.Repr == old(y.Repr)
    ensures TreeOf(x) == RotateRight(old(TreeOf(y)))
  {
    x := y.left;
    var a, t2, c := x.left, x.right, y.right;
    ChildValid(y, x);
    ChildValid(x, a);
    ChildValid(x, t2);
    ChildValid(y, c);
    ghost var ta, tb, tc := TreeOf(a), TreeOf(t2), TreeOf(c);
    ghost var ra, rb, rc := ReprOf(a), ReprOf(t2), ReprOf(c);
    assert TreeOf(y) == Bin(Bin(ta, x.data, x.height, tb), y.data, y.height, tc);
    assert y.Repr == {y} + ({x} + ra + rb) + rc;
    SetNode(y, t2, c, Max(GetAvlHeight(t2), GetAvlHeight(c)) + 1);
    SetNode(x, a, y, Max(GetAvlHeight(a), GetAvlHeight(y)) + 1);
    RegroupRepr(x, y, ra, rb, rc);
    assert TreeOf(x) == Fix(ta, x.data, Fix(tb, y.data, tc));
  }

  /** The footprint of a rotated subtree: the same objects, grouped the other way. */
  lemma RegroupRepr(x: object, y: object, ra: set<object>, rb: set<object>, rc: set<object>)
    ensures {x} + ra + ({y} + rb + rc) == {y} + ({x} + ra + rb) + rc
  {
  }

  /** left_rotate_avl(x): the mirror image of right_rotate_avl. */
  method LeftRotateAvl(x: AvlNode) returns (y: AvlNode)
    requires x.Valid() && TreeOf(x).right.Bin?
    modifies x, x.right
    ensures y == old(x.right) && y.left == x && x.right == old(x.right.left)
    ensures y.Valid() && y.Repr == old(x.Repr)
    ensures TreeOf(y) == RotateLeft(old(TreeOf(x)))
  {
    y := x.right;
    var a, t2, c := x.left, y.left, y.right;
    ChildValid(x, y);
    ChildValid(x, a);
    ChildValid(y, t2);
    ChildValid(y, c);
    ghost var ta, tb, tc := TreeOf(a), TreeOf(t2), TreeOf(c);
    ghost var ra, rb, rc := ReprOf(a), ReprOf(t2), ReprOf(c);
    assert TreeOf(x) == Bin(ta, x.data, x.height, Bin(tb, y.data, y.height, tc));
    assert x.Repr == {x} + ra + ({y} + rb + rc);
    SetNode(x, a, t2, Max(GetAvlHeight(a), GetAvlHeight(t2)) + 1);
    SetNode(y, x, c, Max(GetAvlHeight(x), GetAvlHeight(c)) + 1);
    RegroupRepr(x, y, ra, rb, rc);
    assert TreeOf(y) == Fix(Fix(ta, x.data, tb), y.data, tc);
  }

  /**
    The tail of insert_avl: the balance of `node` (its height already
    recomputed) selects one of the four rotation cases or none.  The node set
    is unchanged and the new subtree is AvlSpec.Rebalance of the old one; the
    requirement is that none of the child pointers read is NULL.
   */
  method RebalanceAvl(node: AvlNode, x: int) returns (r: AvlNode)
    requires node.Valid() && Rebalance(TreeOf(node), x).Built?
    modifies node.Repr
    ensures r.Valid() && r.Repr == old(node.Repr)
    ensures TreeOf(r) == Rebalance(old(TreeOf(node)), x).tree
  {
    ChildValid(node, node.left);
    ChildValid(node, node.right);
    var balance := GetAvlBalance(node);
    if balance > 1 && x < node.left.data {
      r := RightRotateAvl(node);
      return;
    }
    if balance < -1 && x > node.right.data {
      r := LeftRotateAvl(node);
      return;
    }
    if balance > 1 && x > node.left.data {
      r := LeftRightAvl(node);
      return;
    }
    if balance < -1 && x < node.right.data {
      r := RightLeftAvl(node);
      return;
    }
    r := node;
  }

  /** The left-right case of insert_avl: rotate the left child left, relink it, rotate right. */
  method LeftRightAvl(node: AvlNode) returns (r: AvlNode)
    requires node.Valid() && TreeOf(node).left.Bin? && TreeOf(node).left.right.Bin?
    modifies node.Repr
    ensures r.Valid() && r.Repr == old(node.Repr)
    ensures TreeOf(r) == RotateRight(old(TreeOf(node)).(left := RotateLeft(old(TreeOf(node)).left)))
  {
    ChildValid(node, node.left);
    ChildValid(node, node.right);
    var rt := node.right;
    ghost var t0, tr, RR := TreeOf(node), TreeOf(rt), ReprOf(rt);
    var l := LeftRotateAvl(node.left);
    assert rt != null ==> rt.Valid() && rt.Repr == RR && TreeOf(rt) == tr;
    SetNode(node, l, rt, node.height);
    assert TreeOf(node) == t0.(left := RotateLeft(t0.left));
    r := RightRotateAvl(node);
  }

  /** The right-left case of insert_avl: the mirror of LeftRightAvl. */
  method RightLeftAvl(node: AvlNode) returns (r: AvlNode)
    requires node.Valid() && TreeOf(node).right.Bin? && TreeOf(node).right.left.Bin?
    modifies node.Repr
    ensures r.Valid() && r.Repr == old(node.Repr)
    ensures TreeOf(r) == RotateLeft(old(TreeOf(node)).(right := RotateRight(old(TreeOf(node)).right)))
  {
    ChildValid(node, node.left);
    ChildValid(node, node.right);
    var l := node.left;
    ghost var t0, tl, RL := TreeOf(node), TreeOf(l), ReprOf(l);
    var rt := RightRotateAvl(node.right);
    assert l != null ==> l.Valid() && l.Repr == RL && TreeOf(l) == tl;
    SetNode(node, l, rt, node.height);
    assert TreeOf(node) == t0.(right := RotateRight(t0.right));
    r := LeftRotateAvl(node);
  }

  /**
    insert_avl(node, data): the subtree after the call is AvlSpec.Insert of
    the subtree before it (allocation always succeeds).  The requirement is
    that the code as written dereferences no NULL pointer on this input,
    which AvlSpec.InsertBalanced guarantees for balanced trees and new keys.
    The nodes are the old ones and one fresh node.
   */
  method InsertAvl(node: AvlNode?, x: int) returns (r: AvlNode, ghost added: AvlNode)
    requires node != null ==> node.Valid()
    requires Insert(TreeOf(node), x).Built?
    modifies ReprOf(node)
    ensures r.Valid() && TreeOf(r) == Insert(old(TreeOf(node)), x).tree
    ensures fresh(added) && r.Repr == old(ReprOf(node)) + {added}
    decreases ReprOf(node), 1
  {
    if node == null {
      r := new AvlNode(x, 1, null, null);
      added := r;
      return;
    }
    var n: AvlNode := node;
    if x < n.data {
      added := InsertLeftBelow(n, x);
    } else {
      added := InsertRightBelow(n, x);
    }
    r := RebalanceAvl(n, x);
  }

  /**
    The first part of insert_avl at a non-NULL node when data is smaller than
    the key: data goes into the left subtree, the returned subtree root is
    linked in and the height recomputed.  What remains for RebalanceAvl is
    AvlSpec.Insert of the old subtree.
   */
  method InsertLeftBelow(n: AvlNode, x: int) returns (ghost added: AvlNode)
    requires n.Valid() && x < n.data && Insert(TreeOf(n), x).Built?
    modifies n.Repr
    ensures n.Valid() && Rebalance(TreeOf(n), x) == Insert(old(TreeOf(n)), x)
    ensures fresh(added) && n.Repr == old(n.Repr) + {added}
    decreases n.Repr, 0
  {
    var l, rt := n.left, n.right;
    ChildValid(n, l);
    ChildValid(n, rt);
    ghost var k, tl, tr, RL, RR := n.data, TreeOf(l), TreeOf(rt), ReprOf(l), ReprOf(rt);
    var temp;
    temp, added := InsertAvl(l, x);
    assert rt != null ==> rt.Valid() && rt.Repr == RR && TreeOf(rt) == tr;
    SetNode(n, temp, rt, Max(GetAvlHeight(temp), GetAvlHeight(rt)) + 1);
    assert TreeOf(n) == Fix(Insert(tl, x).tree, k, tr);
    GrowRepr(n, RL, RR, added, true);
  }

  /** The mirror of InsertLeftBelow, for data not smaller than the key. */
  method InsertRightBelow(n: AvlNode, x: int) returns (ghost added: AvlNode)
    requires n.Valid() && !(x < n.data) && Insert(TreeOf(n), x).Built?
    modifies n.Repr
    ensures n.Valid() && Rebalance(TreeOf(n), x) == Insert(old(TreeOf(n)), x)
    ensures fresh(added) && n.Repr == old(n.Repr) + {added}
    decreases n.Repr, 0
  {
    var l, rt := n.left, n.right;
    ChildValid(n, l);
    ChildValid(n, rt);
    ghost var k, tl, tr, RL, RR := n.data, TreeOf(l), TreeOf(rt), ReprOf(l), ReprOf(rt);
    var temp;
    temp, added := InsertAvl(rt, x);
    assert l != null ==> l.Valid() && l.Repr == RL && TreeOf(l) == tl;
    SetNode(n, l, temp, Max(GetAvlHeight(l), GetAvlHeight(temp)) + 1);
    assert TreeOf(n) == Fix(tl, k, Insert(tr, x).tree);
    GrowRepr(n, RL, RR, added, false);
  }

  /** The footprint of a node after one of its subtrees gained the object a. */
  lemma GrowRepr(n: object, RL: set<object>, RR: set<object>, a: object, inLeft: bool)
    ensures inLeft ==> {n} + (RL + {a}) + RR == {n} + RL + RR + {a}
    ensures !inLeft ==> {n} + RL + (RR + {a}) == {n} + RL + RR + {a}
  {
  }

  // ---------------------------------------------------------------------------
  // destroy_avl: free is modelled by the sequence of nodes freed, in order.

  /** The nodes below n in post-order: left subtree, right subtree, then n. */
  ghost function PostOrderNodes(n: AvlNode?): seq<AvlNode>
    requires n != null ==> n.Valid()
    reads if n == null then {} else {n} + n.Repr
    decreases ReprOf(n)
  {
    if n == null then [] else PostOrderNodes(n.left) + PostOrderNodes(n.right) + [n]
  }

  lemma PostOrderUnfold(n: AvlNode)
    requires n.Valid()
    ensures PostOrderNodes(n) == PostOrderNodes(n.left) + PostOrderNodes(n.right) + [n]
  {
  }

  /**
    Each node of R freed exactly once, after both of its children. This and the
    two lemmas below repeat BstHeap.FreesEachOnce, FreesJoin and
    PostOrderFreesEachOnce for AvlNode on purpose: the node classes share no type.
   */
  ghost predicate FreesEachOnce(freed: seq<AvlNode>, R: set<object>)
    reads set i | 0 <= i < |freed| :: freed[i]
  {
    (forall i, j :: 0 <= i < j < |freed| ==> freed[i] != freed[j]) &&
    (forall i :: 0 <= i < |freed| ==> freed[i] in R) &&
    (forall o :: o in R ==> o in multiset(freed)) &&
    (forall i :: 0 <= i < |freed| ==>
      (freed[i].left != null ==> freed[i].left in freed[..i]) &&
      (freed[i].right != null ==> freed[i].right in freed[..i]))
  }

  lemma FreesJoin(L: seq<AvlNode>, R: seq<AvlNode>, n: AvlNode, RL: set<object>, RR: set<object>)
    requires FreesEachOnce(L, RL) && FreesEachOnce(R, RR)
    requires RL !! RR && n !in RL && n !in RR
    requires n.left != null ==> n.left in RL
    requires n.right != null ==> n.right in RR
    ensures FreesEachOnce(L + R + [n], {n} + RL + RR)
  {
    var P := L + R + [n];
    forall i | 0 <= i < |P|
      ensures (P[i].left != null ==> P[i].left in P[..i]) && (P[i].right != null ==> P[i].right in P[..i])
    {
      if i < |L| {
        assert P[..i] == L[..i];
      } else if i < |L| + |R| {
        assert P[i] == R[i - |L|];
        assert P[..i] == L + R[..i - |L|];
      } else {
        assert P[..i] == L + R;
        assert n.left != null ==> n.left in multiset(L);
        assert n.right != null ==> n.right in multiset(R);
      }
    }
    forall i, j | 0 <= i < j < |P| ensures P[i] != P[j] {
      assert P[i] in {n} + RL + RR;
    }
  }

  /** The post-order walk frees every node of the subtree once, children first. */
  lemma {:induction false} PostOrderFreesEachOnce(n: AvlNode?)
    requires n != null ==> n.Valid()
    ensures FreesEachOnce(PostOrderNodes(n), ReprOf(n))
    decreases ReprOf(n)
  {
    if n != null {
      ChildValid(n, n.left);
      ChildValid(n, n.right);
      PostOrderFreesEachOnce(n.left);
      PostOrderFreesEachOnce(n.right);
      FreesJoin(PostOrderNodes(n.left), PostOrderNodes(n.right), n, ReprOf(n.left), ReprOf(n.right));
    }
  }

  /** destroy_avl: the left subtree, then the right subtree, then the node itself. */
  method DestroyAvl(node: AvlNode?) returns (freed: seq<AvlNode>)
    requires node != null ==> node.Valid()
    ensures freed == PostOrderNodes(node)
    decreases ReprOf(node)
  {
    if node == null {
      return [];
    }
    var n: AvlNode := node;
    ChildValid(n, n.left);
    ChildValid(n, n.right);
    PostOrderUnfold(n);
    var fromLeft := DestroyAvl(n.left);
    var fromRight := DestroyAvl(n.right);
    freed := fromLeft + fromRight + [n];
  }

  // ---------------------------------------------------------------------------
  // print_avl_sideways.

  /**
    print_avl_sideways(node, depth): the lines printed, each a key and its
    depth; the right subtree comes first, so the keys come out in reverse
    in-order.
   */
  method PrintAvlSideways(node: AvlNode?, depth: int) returns (lines: seq<Line>)
    requires node != null ==> node.Valid()
    ensures lines == Sideways(Strip(TreeOf(node)), depth)
    ensures LineKeys(lines) == Reverse(InOrder(Strip(TreeOf(node))))
    decreases ReprOf(node)
  {
    if node == null {
      return [];
    }
    ChildValid(node, node.left);
    ChildValid(node, node.right);
    var upper := PrintAvlSideways(node.right, depth + 1);
    var lower := PrintAvlSideways(node.left, depth + 1);
    lines := upper + [Line(depth, node.data)] + lower;
    SidewaysIsReverseInOrder(Strip(TreeOf(node)), depth);
  }

  /** The picture in the header of avl_tree.c, for the tree of AvlSpec.DocExample. */
  lemma DocPicture()
    ensures Sideways(Strip(DocTree), 0) ==
      [Line(3, 489), Line(2, 95), Line(3, 78), Line(1, 10), Line(2, 4),
       Line(3, 3), Line(0, 3), Line(2, 2), Line(1, 1), Line(2, -100)]
  {
  }
}
