/**
  The heap representation of the unbalanced binary search tree shared by
  simple_bst.c, tree_sort.c and tree_sort_no_recursion.c (their BSTNode and BST
  structs are identical).  Every node carries two ghost fields: its footprint
  `Repr` (the nodes of its subtree) and its abstract value `Subtree`.  `Valid()`
  says that the pointers form a tree and that the ghost fields describe it.

  The C code walks down the tree with a loop and then rewrites one child link.
  The nodes it passed on the way down are recorded as a ghost *trail*: at each
  level the node, the sibling it did not enter and the zipper frame of Trees.
  After the write, `Reattach` refreshes the ghost fields of the trail bottom-up.
 */
module BstHeap {
  import opened Trees

  class BstNode {
    var data: int
    var left: BstNode?
    var right: BstNode?
    ghost var Repr: set<object>
    ghost var Subtree: Tree

    ghost predicate Valid()
      reads this, Repr
      decreases Repr
    {
      this in Repr &&
      (left != null ==> left in Repr && left.Repr <= Repr && this !in left.Repr && left.Valid()) &&
      (right != null ==> right in Repr && right.Repr <= Repr && this !in right.Repr && right.Valid()) &&
      (left != null && right != null ==> left.Repr !! right.Repr) &&
      Repr == {this} + ReprOf(left) + ReprOf(right) &&
      Subtree == Node(TreeOf(left), data, TreeOf(right))
    }

    /** new_bst_node(data, NULL, NULL): a fresh leaf. */
    constructor Leaf(x: int)
      ensures Valid() && fresh(Repr)
      ensures data == x && left == null && right == null
      ensures Repr == {this} && Subtree == Node(Tree.Leaf, x, Tree.Leaf)
    {
      data, left, right := x, null, null;
      Repr := {this};
      Subtree := Node(Tree.Leaf, x, Tree.Leaf);
    }

  }

  ghost function ReprOf(n: BstNode?): set<object>
    reads n
  {
    if n == null then {} else n.Repr
  }

  /** The abstract tree at a (possibly NULL) node pointer. */
  ghost function TreeOf(n: BstNode?): Tree
    reads n
  {
    if n == null then Leaf else n.Subtree
  }

  /** The BST handle: a root pointer. */
  class Bst {
    var root: BstNode?
    ghost var Repr: set<object>

    ghost predicate Valid()
      reads this, Repr
    {
      this in Repr &&
      (root != null ==> root in Repr && root.Repr <= Repr && this !in root.Repr && root.Valid()) &&
      Repr == {this} + ReprOf(root)
    }

    ghost function Contents(): Tree
      reads this, root
    {
      TreeOf(root)
    }

    /** new_bst(): an empty tree. */
    constructor ()
      ensures Valid() && fresh(Repr) && root == null && Contents() == Leaf
    {
      root := null;
      Repr := {this};
    }
  }

  /** A `BST **` handle, so that a NULL reference and a reference to NULL can both be expressed. */
  class BstRef {
    var tree: Bst?

    constructor (t: Bst?)
      ensures tree == t
    {
      tree := t;
    }
  }

  // ---------------------------------------------------------------------------
  // Freeing a tree.  `free` is modelled by the sequence of nodes freed, in order;
  // the heap itself is left as it is.

  /** The nodes below n in post-order: left subtree, right subtree, then n. */
  ghost function PostOrderNodes(n: BstNode?): seq<BstNode>
    requires n != null ==> n.Valid()
    reads if n == null then {} else {n} + n.Repr
    decreases ReprOf(n)
  {
    if n == null then [] else PostOrderNodes(n.left) + PostOrderNodes(n.right) + [n]
  }

  lemma PostOrderUnfold(n: BstNode)
    requires n.Valid()
    ensures PostOrderNodes(n) == PostOrderNodes(n.left) + PostOrderNodes(n.right) + [n]
  {
  }

  /**
    The nodes freed are exactly the nodes of R, each freed once, and every node
    is freed after its children: no node is freed twice, none is leaked, and no
    child link is followed out of a freed node.
    AvlHeap.FreesEachOnce, FreesJoin and PostOrderFreesEachOnce repeat this
    proof for AvlNode on purpose: the two node classes share no common type.
   */
  ghost predicate FreesEachOnce(freed: seq<BstNode>, R: set<object>)
    reads set i | 0 <= i < |freed| :: freed[i]
  {
    (forall i, j :: 0 <= i < j < |freed| ==> freed[i] != freed[j]) &&
    (forall i :: 0 <= i < |freed| ==> freed[i] in R) &&
    (forall o :: o in R ==> o in multiset(freed)) &&
    (forall i :: 0 <= i < |freed| ==>
      (freed[i].left != null ==> freed[i].left in freed[..i]) &&
      (freed[i].right != null ==> freed[i].right in freed[..i]))
  }

  /** Freeing two disjoint subtrees one after the other and then their parent frees the parent's tree. */
  lemma FreesJoin(L: seq<BstNode>, R: seq<BstNode>, n: BstNode, RL: set<object>, RR: set<object>)
    requires FreesEachOnce(L, RL) && FreesEachOnce(R, RR)
    requires RL !! RR && n !in RL && n !in RR
    requires n.left != null ==> n.left in RL
    requires n.right != null ==> n.right in RR
    ensures FreesEachOnce(L + R + [n], {n} + RL + RR)
  {
    var P := L + R + [n];
    forall i | 0 <= i < |P|
      ensures (P[i].left != null ==> P[i].left in P[..i]) && (P[i].right != null ==> P[i].right in P[..i])
    {
      if i < |L| {
        assert P[..i] == L[..i];
      } else if i < |L| + |R| {
        assert P[i] == R[i - |L|];
        assert P[..i] == L + R[..i - |L|];
      } else {
        assert P[..i] == L + R;
        assert n.left != null ==> n.left in multiset(L);
        assert n.right != null ==> n.right in multiset(R);
      }
    }
    forall i, j | 0 <= i < j < |P| ensures P[i] != P[j] {
      assert P[i] in {n} + RL + RR;
    }
  }

  lemma {:induction false} PostOrderFreesEachOnce(n: BstNode?)
    requires n != null ==> n.Valid()
    ensures FreesEachOnce(PostOrderNodes(n), ReprOf(n))
    decreases ReprOf(n)
  {
    if n != null {
      ChildValid(n, n.left);
      ChildValid(n, n.right);
      PostOrderFreesEachOnce(n.left);
      PostOrderFreesEachOnce(n.right);
      FreesJoin(PostOrderNodes(n.left), PostOrderNodes(n.right), n, ReprOf(n.left), ReprOf(n.right));
    }
  }

  /** One node freed per key of the tree. */
  lemma {:induction false} PostOrderSize(n: BstNode?)
    requires n != null ==> n.Valid()
    ensures |PostOrderNodes(n)| == Size(TreeOf(n))
    decreases ReprOf(n)
  {
    if n != null {
      ChildValid(n, n.left);
      ChildValid(n, n.right);
      PostOrderSize(n.left);
      PostOrderSize(n.right);
    }
  }

  // ---------------------------------------------------------------------------
  // Trails: a descent from the root, with the last node's link pointing at `bottom`.

  /**
    The nodes a descent passed, the deepest last: at each one the node, the child
    it did not enter (its sibling on the way down) and the frame left behind.
   */
  datatype Trail = Start | Visit(above: Trail, node: BstNode, sib: BstNode?, frame: Frame)

  ghost function Frames(t: Trail): Path {
    match t
    case Start => Top
    case Visit(above, _, _, f) => Down(Frames(above), f)
  }

  /** The nodes of a trail, as a set. */
  ghost function Nodes(t: Trail): set<object> {
    match t
    case Start => {}
    case Visit(above, n, _, _) => Nodes(above) + {n}
  }

  /** The siblings of a trail, as a set. */
  ghost function Sibs(t: Trail): set<object> {
    match t
    case Start => {}
    case Visit(above, _, s, _) => Sibs(above) + (if s == null then {} else {s})
  }

  /** The footprints of the siblings. */
  ghost function SibRepr(t: Trail): set<object>
    reads Sibs(t)
  {
    match t
    case Start => {}
    case Visit(above, _, s, _) => SibRepr(above) + ReprOf(s)
  }

  /** The nodes and siblings of a trail exist in the heap, so a write or an allocation elsewhere leaves them be. */
  lemma TrailAllocated(t: Trail)
    ensures forall o :: o in Nodes(t) ==> allocated(o)
    ensures forall o :: o in Sibs(t) ==> allocated(o)
  {
  }

  /** So do the footprints of its siblings. */
  lemma {:induction false} SibReprAllocated(t: Trail)
    ensures forall o :: o in SibRepr(t) ==> allocated(o)
  {
    match t
    case Start =>
    case Visit(above, _, _, _) => SibReprAllocated(above);
  }

  /** The first node of a trail: the root of the tree it descends. */
  ghost function TopNode(t: Trail): BstNode
    requires t.Visit?
  {
    if t.above.Start? then t.node else TopNode(t.above)
  }

  /**
    The link of the last node of t in the direction of its frame points at
    `bottom`, whose footprint is B; every node's key is its frame's key and its
    other link leads to its sibling, a valid tree holding the frame's subtree; the
    nodes, the siblings' footprints and B are pairwise disjoint.
   */
  ghost predicate Spine(t: Trail, bottom: BstNode?, B: set<object>)
    reads Nodes(t), Sibs(t), SibRepr(t)
  {
    match t
    case Start => true
    case Visit(above, n, s, f) =>
      n.data == f.key && n !in B &&
      (if f.WentLeft? then n.left == bottom && n.right == s && TreeOf(s) == f.right
       else n.right == bottom && n.left == s && TreeOf(s) == f.left) &&
      (s != null ==> s.Valid() && n !in s.Repr && s.Repr !! B) &&
      Spine(above, n, {n} + ReprOf(s) + B)
  }

  lemma {:induction false} SpineDisjoint(t: Trail, bottom: BstNode?, B: set<object>)
    requires Spine(t, bottom, B)
    ensures Nodes(t) !! B && SibRepr(t) !! B && Sibs(t) <= SibRepr(t)
  {
    match t
    case Start =>
    case Visit(above, n, s, f) => SpineDisjoint(above, n, {n} + ReprOf(s) + B);
  }

  /**
    The link a descent t ends at, which holds `bottom`: the root slot of `tree`
    when t is empty, and otherwise the link of its last node `parent` on the side
    `isRight`, with `tree` rooted at its first node.
   */
  ghost predicate Slot(tree: Bst, t: Trail, parent: BstNode?, isRight: bool, bottom: BstNode?)
    reads tree
  {
    if t.Start? then parent == null && tree.root == bottom
    else parent == t.node && tree.root == TopNode(t) && isRight == t.frame.WentRight?
  }

  /** The disjointness a spine demands of its bottom is all it knows about B. */
  lemma {:induction false} SpineRebase(t: Trail, bottom: BstNode?, B: set<object>, B': set<object>)
    requires Spine(t, bottom, B)
    requires (Nodes(t) + SibRepr(t)) !! B'
    ensures Spine(t, bottom, B')
  {
    match t
    case Start =>
    case Visit(above, n, s, f) =>
      SpineDisjoint(above, n, {n} + ReprOf(s) + B);
      SpineRebase(above, n, {n} + ReprOf(s) + B, {n} + ReprOf(s) + B');
  }

  /** The frame left behind when a descent leaves valid node n towards the left or the right. */
  ghost function FrameAt(n: BstNode, goRight: bool): Frame
    reads n, n.left, n.right
  {
    if goRight then WentRight(TreeOf(n.left), n.data) else WentLeft(n.data, TreeOf(n.right))
  }

  /**
    A descent step from a valid node n to its child c, leaving its other child s
    behind: the spine grows by one level, and the whole tree and the footprint the
    trail and the current subtree describe stay the same.
   */
  lemma DescendSpine(t: Trail, n: BstNode, s: BstNode?, f: Frame, c: BstNode?)
    requires Spine(t, n, n.Repr) && n.Valid()
    requires (s == n.right && c == n.left && f == FrameAt(n, false)) || (s == n.left && c == n.right && f == FrameAt(n, true))
    ensures Spine(Visit(t, n, s, f), c, ReprOf(c))
    ensures c != null ==> c.Valid() && c.Repr < n.Repr
    ensures Plug(Frames(Visit(t, n, s, f)), TreeOf(c)) == Plug(Frames(t), n.Subtree)
    ensures Nodes(Visit(t, n, s, f)) + SibRepr(Visit(t, n, s, f)) + ReprOf(c) == Nodes(t) + SibRepr(t) + n.Repr
  {
    assert n.Repr == {n} + ReprOf(s) + ReprOf(c);
  }

  /** A footprint holds tree nodes only, so an array of ints is never part of one. */
  lemma {:induction false} ArrayNotInRepr(n: BstNode?, a: array<int>)
    requires n != null ==> n.Valid()
    ensures a !in ReprOf(n)
    decreases ReprOf(n)
  {
    if n != null {
      ChildValid(n, n.left);
      ChildValid(n, n.right);
      ArrayNotInRepr(n.left, a);
      ArrayNotInRepr(n.right, a);
    }
  }

  /**
    A node with at most one child: its footprint is itself and that child's
    footprint, which does not contain it.
   */
  lemma OneChildRepr(n: BstNode, child: BstNode?)
    requires n.Valid() && (n.left == null || n.right == null)
    requires child == if n.left != null then n.left else n.right
    ensures n.Repr == {n} + ReprOf(child) && n !in ReprOf(child)
    ensures ReprOf(child) == n.Repr - {n}
  {
  }

  /** Unlinking one object `p` of the part `N` of a footprint `A + N` leaves the footprint without `p`. */
  lemma LosesOne(before: set<object>, after: set<object>, A: set<object>, N: set<object>, p: object)
    requires before == A + N && after == A + (N - {p}) && p in N && p !in A
    ensures p in before && after == before - {p}
  {
  }

  /** A child of a valid node is valid, with a smaller footprint that omits the node. */
  lemma ChildValid(n: BstNode, child: BstNode?)
    requires n.Valid() && (child == n.left || child == n.right)
    ensures child != null ==> child.Valid() && child.Repr < n.Repr && n !in child.Repr
  {
  }

  /** A node whose link in the frame's direction leads to `bottom` and whose other link leads to `s` is a valid tree once its ghost fields are set to match. */
  lemma FilledValid(n: BstNode, s: BstNode?, f: Frame, bottom: BstNode?, B: set<object>)
    requires bottom == null ==> B == {}
    requires bottom != null ==> bottom.Valid() && bottom.Repr == B
    requires n.data == f.key && n !in B
    requires if f.WentLeft? then n.left == bottom && n.right == s && TreeOf(s) == f.right
             else n.right == bottom && n.left == s && TreeOf(s) == f.left
    requires s != null ==> s.Valid() && n !in s.Repr && s.Repr !! B
    requires n.Repr == {n} + ReprOf(s) + B && n.Subtree == Fill(f, TreeOf(bottom))
    ensures n.Valid()
  {
  }

  /**
    Sets the ghost fields of node n, the last of a trail whose levels above are
    `above`, from its sibling s and its new bottom, leaving the spine above intact.
   */
  ghost method SetLevel(above: Trail, n: BstNode, s: BstNode?, f: Frame, bottom: BstNode?, B: set<object>)
    requires Spine(above, n, {n} + ReprOf(s) + B)
    requires n !in Nodes(above) && n !in Sibs(above) && n !in SibRepr(above)
    requires bottom == null ==> B == {}
    requires bottom != null ==> bottom.Valid() && bottom.Repr == B
    requires n.data == f.key && n !in B
    requires if f.WentLeft? then n.left == bottom && n.right == s && TreeOf(s) == f.right
             else n.right == bottom && n.left == s && TreeOf(s) == f.left
    requires s != null ==> s.Valid() && n !in s.Repr && s.Repr !! B
    modifies n
    ensures n.Valid() && n.Repr == {n} + old(ReprOf(s)) + B && n.Subtree == Fill(f, old(TreeOf(bottom)))
    ensures Spine(above, n, n.Repr)
    ensures SibRepr(above) == old(SibRepr(above))
  {
    n.Repr := {n} + ReprOf(s) + B;
    n.Subtree := Fill(f, TreeOf(bottom));
    FilledValid(n, s, f, bottom, B);
  }

  /** SetLevel at the last level of a non-empty trail. */
  ghost method FillLevel(t: Trail, bottom: BstNode?, B: set<object>)
    requires Spine(t, bottom, B) && t.Visit?
    requires bottom == null ==> B == {}
    requires bottom != null ==> bottom.Valid() && bottom.Repr == B
    modifies t.node
    ensures t.node.Valid() && t.node.Subtree == Fill(t.frame, old(TreeOf(bottom)))
    ensures Spine(t.above, t.node, t.node.Repr)
    ensures Nodes(t.above) + SibRepr(t.above) + t.node.Repr == old(Nodes(t) + SibRepr(t)) + B
  {
    var above, n, s, f := t.above, t.node, t.sib, t.frame;
    SpineDisjoint(above, n, {n} + ReprOf(s) + B);
    ghost var Foot := Nodes(t) + SibRepr(t);
    assert Foot == Nodes(above) + SibRepr(above) + ({n} + ReprOf(s));
    SetLevel(above, n, s, f, bottom, B);
  }

  /**
    The last level of a non-empty trail with its bottom link set aside, about to
    point at a structure with footprint B': the spine above the last node, the
    facts about that node the write does not disturb, and its sibling.
   */
  ghost predicate Cut(t: Trail, B': set<object>)
    requires t.Visit?
    reads Nodes(t), Sibs(t), SibRepr(t)
  {
    var above, n, s, f := t.above, t.node, t.sib, t.frame;
    Spine(above, n, {n} + ReprOf(s) + B') &&
    n !in Nodes(above) && n !in Sibs(above) && n !in SibRepr(above) &&
    n.data == f.key && n !in B' &&
    (if f.WentLeft? then n.right == s && TreeOf(s) == f.right else n.left == s && TreeOf(s) == f.left) &&
    (s != null ==> s.Valid() && n !in s.Repr && s.Repr !! B')
  }

  /**
    Before the link at the bottom of a non-empty spine is redirected to a
    structure with footprint B' that the trail does not touch: the trail is cut
    there, ready for the write.
   */
  lemma SpineRetarget(t: Trail, bottom: BstNode?, B: set<object>, B': set<object>)
    requires Spine(t, bottom, B) && t.Visit?
    requires (Nodes(t) + SibRepr(t)) !! B'
    ensures Cut(t, B')
  {
    var above, n, s := t.above, t.node, t.sib;
    SpineDisjoint(above, n, {n} + ReprOf(s) + B);
    SpineRebase(above, n, {n} + ReprOf(s) + B, {n} + ReprOf(s) + B');
  }

  /**
    The write `n->left = c` or `n->right = c` at the bottom of a cut trail: the
    spine then ends at `c`, whose footprint B' the trail does not touch.
   */
  method LinkChild(n: BstNode, goRight: bool, c: BstNode?, ghost t: Trail, ghost B': set<object>)
    requires t.Visit? && n == t.node && goRight == t.frame.WentRight?
    requires Cut(t, B')
    requires c == null ==> B' == {}
    requires c != null ==> c.Valid() && c.Repr == B'
    modifies n
    ensures Spine(t, c, B')
    ensures c != null ==> c.Valid()
    ensures TreeOf(c) == old(TreeOf(c))
    ensures Nodes(t) + SibRepr(t) == old(Nodes(t) + SibRepr(t))
  {
    if goRight {
      n.right := c;
    } else {
      n.left := c;
    }
  }

  /**
    After the link at the bottom of a trail has been rewritten, refreshes the
    ghost fields of its nodes from the bottom up.  The first node then holds the
    old tree with the frames plugged around the new bottom.
   */
  ghost method Reattach(t: Trail, bottom: BstNode?, B: set<object>)
    requires Spine(t, bottom, B)
    requires bottom == null ==> B == {}
    requires bottom != null ==> bottom.Valid() && bottom.Repr == B
    modifies Nodes(t)
    ensures t.Visit? ==> TopNode(t).Valid() && TopNode(t).Subtree == Plug(Frames(t), old(TreeOf(bottom)))
    ensures t.Visit? ==> TopNode(t).Repr == old(Nodes(t) + SibRepr(t)) + B
  {
    if t.Visit? {
      FillLevel(t, bottom, B);
      if t.above.Start? {
        assert TopNode(t) == t.node;
      } else {
        Reattach(t.above, t.node, t.node.Repr);
        assert TopNode(t) == TopNode(t.above);
      }
    }
  }

  /**
    After the link at the bottom of a trail that starts at the root of `tree` has
    been rewritten to `bottom` (the root pointer itself when the trail is empty):
    refreshes the trail and the handle.  The tree then holds the old tree with the
    frames plugged around the new bottom.
   */
  ghost method ReattachTree(tree: Bst, t: Trail, bottom: BstNode?, B: set<object>)
    requires Spine(t, bottom, B)
    requires bottom == null ==> B == {}
    requires bottom != null ==> bottom.Valid() && bottom.Repr == B
    requires tree.root == if t.Start? then bottom else TopNode(t)
    requires tree !in Nodes(t) + SibRepr(t) + B
    modifies tree, Nodes(t)
    ensures tree.Valid() && tree.root == old(tree.root)
    ensures tree.Contents() == Plug(Frames(t), old(TreeOf(bottom)))
    ensures tree.Repr == {tree} + old(Nodes(t) + SibRepr(t)) + B
  {
    Reattach(t, bottom, B);
    SetTreeRepr(tree);
  }

  /** Refreshes the footprint of a handle whose root is a valid tree. */
  ghost method SetTreeRepr(tree: Bst)
    requires tree.root != null ==> tree.root.Valid() && tree !in tree.root.Repr
    modifies tree
    ensures tree.Valid() && tree.root == old(tree.root)
    ensures tree.Repr == {tree} + ReprOf(tree.root)
  {
    tree.Repr := {tree} + ReprOf(tree.root);
  }
}
