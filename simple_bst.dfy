/**
  simple_bst.c: an unbalanced binary search tree of ints with push, pop, search,
  clear, destroy and a sideways printer.  Keys equal to a node's key are pushed
  into its left subtree; pop removes a node with two children by copying its
  in-order predecessor (the maximum of its left subtree) into it.

  Every operation is proved against the functions of Trees: push against
  BstInsert, pop against BstDelete, search against Contains, and the printer
  against Sideways.  Each mutating operation also keeps the search-tree order.
 */
module SimpleBst {
  import opened Sequences
  import opened Trees
  import opened BstHeap
  import opened Status

  /**
    bst_replace_node: writes `newNode` into the child slot of `parent` selected by
    `isRightChild`, or into the root slot when `parent` is NULL.  The ghost trail
    records the descent from the root to that slot, which held `bottom`: the tree
    then holds the old tree with `newNode`'s subtree in place of `bottom`'s, and
    its footprint loses `bottom`'s nodes and gains `newNode`'s.
   */
  method BstReplaceNode(tree: Bst, parent: BstNode?, isRightChild: bool, newNode: BstNode?, ghost t: Trail, ghost bottom: BstNode?)
    requires tree.Valid()
    requires Spine(t, bottom, ReprOf(bottom)) && (bottom != null ==> bottom.Valid())
    requires Nodes(t) + SibRepr(t) + ReprOf(bottom) == ReprOf(tree.root)
    requires Slot(tree, t, parent, isRightChild, bottom)
    requires newNode != null ==> newNode.Valid() && tree !in newNode.Repr
    requires ReprOf(newNode) !! Nodes(t) + SibRepr(t)
    modifies tree, Nodes(t)
    ensures tree.Valid()
    ensures tree.Contents() == Plug(Frames(t), old(TreeOf(newNode)))
    ensures tree.Repr == {tree} + old(Nodes(t) + SibRepr(t)) + old(ReprOf(newNode))
  {
    ghost var Foot, BN := Nodes(t) + SibRepr(t), ReprOf(newNode);
    if parent == null {
      tree.root := newNode;
    } else {
      SpineDisjoint(t, bottom, ReprOf(bottom));
      SpineRetarget(t, bottom, ReprOf(bottom), BN);
      LinkChild(parent, isRightChild, newNode, t, BN);
      assert Nodes(t) + SibRepr(t) == Foot;
    }
    ReattachTree(tree, t, newNode, BN);
  }

  /**
    The descent of push_bst: from the root, left when data <= key and right
    otherwise, until an empty link.  The link is returned as its parent and side
    (the root slot when parent is NULL), with the ghost trail of the descent: the
    tree is the frames plugged around that empty link, and every frame turns the
    way BstInsert turns for data.
   */
  method PushBstSlot(tree: Bst, data: int) returns (parent: BstNode?, isRight: bool, ghost t: Trail)
    requires tree.Valid()
    ensures Spine(t, null, ReprOf(null)) && InsertPath(Frames(t), data)
    ensures Plug(Frames(t), TreeOf(null)) == tree.Contents()
    ensures Nodes(t) + SibRepr(t) + ReprOf(null) == ReprOf(tree.root)
    ensures Slot(tree, t, parent, isRight, null)
  {
    parent, isRight := null, false;
    var current := tree.root;
    t := Start;
    while current != null
      invariant current != null ==> current.Valid()
      invariant Spine(t, current, ReprOf(current))
      invariant InsertPath(Frames(t), data)
      invariant Plug(Frames(t), TreeOf(current)) == tree.Contents()
      invariant Nodes(t) + SibRepr(t) + ReprOf(current) == ReprOf(tree.root)
      invariant Slot(tree, t, parent, isRight, current)
      decreases ReprOf(current)
    {
      var node: BstNode := current;
      if data <= node.data {
        DescendSpine(t, node, node.right, FrameAt(node, false), node.left);
        t := Visit(t, node, node.right, FrameAt(node, false));
        parent, isRight := node, false;
        current := node.left;
      } else {
        DescendSpine(t, node, node.left, FrameAt(node, true), node.right);
        t := Visit(t, node, node.left, FrameAt(node, true));
        parent, isRight := node, true;
        current := node.right;
      }
    }
  }

  /** push_bst: hangs a new leaf holding data at the empty link PushBstSlot finds. */
  method PushBst(tree: Bst?, data: int) returns (rc: Code)
    requires tree != null ==> tree.Valid()
    modifies if tree == null then {} else tree.Repr
    ensures tree == null ==> rc == Null
    ensures tree != null ==> rc == Ok && tree.Valid() && fresh(tree.Repr - old(tree.Repr))
    ensures tree != null ==> tree.Contents() == BstInsert(old(tree.Contents()), data)
  {
    if tree == null {
      return Null;
    }
    PushLeaf(tree, data);
    rc := Ok;
  }

  /** The part of push_bst past the NULL check: the descent, then the new leaf written into the empty link. */
  method PushLeaf(tree: Bst, data: int)
    requires tree.Valid()
    modifies tree.Repr
    ensures tree.Valid() && fresh(tree.Repr - old(tree.Repr))
    ensures tree.Contents() == BstInsert(old(tree.Contents()), data)
  {
    var parent, isRight, t := PushBstSlot(tree, data);
    TrailAllocated(t);
    var node := new BstNode.Leaf(data);
    BstReplaceNode(tree, parent, isRight, node, t, null);
    InsertThroughPath(Frames(t), Leaf, data);
  }

  /**
    pop_bst_search: the search for data from the root, left when data < key and
    right when data > key, stopping at a node holding data.  NotFound exactly when
    the search for data in the abstract tree fails; otherwise the node found, its
    parent (NULL at the root) and its side, with the ghost trail of the descent.
   */
  method PopBstSearch(tree: Bst, data: int) returns (rc: Code, parent: BstNode?, node: BstNode?, isRight: bool, ghost t: Trail)
    requires tree.Valid()
    ensures rc == Ok || rc == NotFound
    ensures rc == NotFound <==> !Contains(tree.Contents(), data)
    ensures rc == Ok ==> node != null && node.Valid() && node.data == data
    ensures rc == Ok ==> Spine(t, node, ReprOf(node)) && SearchPath(Frames(t), data)
    ensures rc == Ok ==> Plug(Frames(t), TreeOf(node)) == tree.Contents()
    ensures rc == Ok ==> Nodes(t) + SibRepr(t) + ReprOf(node) == ReprOf(tree.root)
    ensures rc == Ok ==> Slot(tree, t, parent, isRight, node)
  {
    node, parent, isRight := tree.root, null, false;
    t := Start;
    while node != null && node.data != data
      invariant node != null ==> node.Valid()
      invariant Spine(t, node, ReprOf(node))
      invariant SearchPath(Frames(t), data)
      invariant Plug(Frames(t), TreeOf(node)) == tree.Contents()
      invariant Nodes(t) + SibRepr(t) + ReprOf(node) == ReprOf(tree.root)
      invariant Slot(tree, t, parent, isRight, node)
      decreases ReprOf(node)
    {
      var n: BstNode := node;
      if data < n.data {
        DescendSpine(t, n, n.right, FrameAt(n, false), n.left);
        t := Visit(t, n, n.right, FrameAt(n, false));
        parent, isRight := n, false;
        node := n.left;
      } else {
        DescendSpine(t, n, n.left, FrameAt(n, true), n.right);
        t := Visit(t, n, n.left, FrameAt(n, true));
        parent, isRight := n, true;
        node := n.right;
      }
    }
    SearchThroughPath(Frames(t), TreeOf(node), data);
    if node == null {
      return NotFound, parent, node, isRight, t;
    }
    rc := Ok;
  }

  /**
    The walk of pop_bst's third case to the in-order predecessor: one step left
    from the node, then right while there is a right child.  The descent is
    recorded from the node itself, so that unlinking the predecessor can be
    reattached up to the node.
   */
  method PredecessorWalk(node: BstNode) returns (predParent: BstNode, pred: BstNode, ghost t: Trail)
    requires node.Valid() && node.left != null && node.right != null
    ensures pred.Valid() && pred.right == null
    ensures Spine(t, pred, pred.Repr) && PredecessorPath(Frames(t))
    ensures FirstFrame(Frames(t)) == WentLeft(node.data, node.right.Subtree)
    ensures Plug(Frames(t), pred.Subtree) == node.Subtree
    ensures Nodes(t) + SibRepr(t) + pred.Repr == node.Repr
    ensures t.Visit? && TopNode(t) == node && predParent == t.node
    ensures (predParent.right == pred) == t.frame.WentRight?
  {
    predParent, pred := node, node.left;
    DescendSpine(Start, node, node.right, FrameAt(node, false), pred);
    t := Visit(Start, node, node.right, FrameAt(node, false));
    assert node.right != pred;
    while pred.right != null
      invariant pred.Valid()
      invariant Spine(t, pred, pred.Repr) && PredecessorPath(Frames(t))
      invariant FirstFrame(Frames(t)) == WentLeft(node.data, node.right.Subtree)
      invariant Plug(Frames(t), pred.Subtree) == node.Subtree
      invariant Nodes(t) + SibRepr(t) + pred.Repr == node.Repr
      invariant t.Visit? && TopNode(t) == node && predParent == t.node
      invariant (predParent.right == pred) == t.frame.WentRight?
      decreases pred.Repr
    {
      var n: BstNode := pred;
      DescendSpine(t, n, n.left, FrameAt(n, true), n.right);
      t := Visit(t, n, n.left, FrameAt(n, true));
      predParent := n;
      pred := n.right;
    }
  }

  /**
    pop_bst's third case, for a node with two children: the predecessor is
    unlinked (its left child takes its place under its parent) and its key is
    copied into the node.  The node's subtree becomes DeleteRoot of the old one,
    and its footprint loses exactly the predecessor, the node freed, whose key
    (the maximum of the left subtree) is the one copied.
   */
  method ReplaceWithPredecessor(node: BstNode) returns (ghost freed: BstNode)
    requires node.Valid() && node.left != null && node.right != null && node.Subtree.left.Node?
    modifies node.Repr
    ensures node.Valid() && node.Subtree == DeleteRoot(old(node.Subtree))
    ensures freed != node && freed in old(node.Repr) && node.Repr == old(node.Repr) - {freed}
    ensures freed.data == node.data == MaxKey(old(node.Subtree).left)
  {
    ghost var T, NR := node.Subtree, node.Repr;
    var predParent, pred, t := PredecessorWalk(node);
    ghost var S, PR := pred.Subtree, pred.Repr;
    DeleteRootThroughPath(Frames(t), S);
    var isRight := predParent.right == pred;
    ghost var Foot := Nodes(t) + SibRepr(t);
    assert NR == Foot + PR;
    ghost var BL := ReprOf(pred.left);
    OneChildRepr(pred, pred.left);
    UnlinkBottom(predParent, isRight, pred, t);
    SetKey(node, pred.data);
    LosesOne(NR, node.Repr, Foot, PR, pred);
    freed := pred;
  }

  /**
    `pred_parent->right = pred->left` or `pred_parent->left = pred->left`: the
    bottom node of a descent, which has no right child, is replaced by its left
    child, and the ghost fields are refreshed up to the top of the descent.
   */
  method UnlinkBottom(predParent: BstNode, isRight: bool, pred: BstNode, ghost t: Trail)
    requires pred.Valid() && pred.right == null
    requires Spine(t, pred, pred.Repr) && t.Visit?
    requires predParent == t.node && isRight == t.frame.WentRight?
    modifies Nodes(t)
    ensures TopNode(t).Valid() && TopNode(t).Subtree == Plug(Frames(t), old(TreeOf(pred.left)))
    ensures TopNode(t).Repr == old(Nodes(t) + SibRepr(t)) + old(ReprOf(pred.left))
    ensures pred.data == old(pred.data) && pred !in Nodes(t) && pred !in old(SibRepr(t))
  {
    ghost var Foot, pl := Nodes(t) + SibRepr(t), pred.left;
    ghost var BL := ReprOf(pl);
    ChildValid(pred, pl);
    SpineDisjoint(t, pred, pred.Repr);
    SpineRetarget(t, pred, pred.Repr, BL);
    TrailAllocated(t);
    LinkChild(predParent, isRight, pred.left, t, BL);
    assert Nodes(t) + SibRepr(t) == Foot;
    Reattach(t, pl, BL);
  }

  /** `node->data = pred->data`: a node's key changes and nothing else. */
  method SetKey(n: BstNode, k: int)
    requires n.Valid()
    modifies n
    ensures n.Valid() && n.data == k && n.Repr == old(n.Repr)
    ensures n.Subtree == Node(old(n.Subtree).left, k, old(n.Subtree).right)
  {
    n.data := k;
    n.Subtree := Node(TreeOf(n.left), k, TreeOf(n.right));
  }

  /**
    pop_bst's first two cases: a found node with at most one child is replaced
    under its parent (or as the root) by that child, or by NULL; the whole tree
    becomes the descent's frames around DeleteRoot of the node's subtree.
   */
  method SpliceOut(tree: Bst, parent: BstNode?, isRight: bool, node: BstNode, child: BstNode?, ghost t: Trail)
    requires tree.Valid() && node.Valid() && Spine(t, node, node.Repr)
    requires Nodes(t) + SibRepr(t) + node.Repr == ReprOf(tree.root)
    requires Slot(tree, t, parent, isRight, node)
    requires node.left == null || node.right == null
    requires child == if node.left != null then node.left else node.right
    modifies tree, Nodes(t)
    ensures tree.Valid() && node in old(tree.Repr) && tree.Repr == old(tree.Repr) - {node}
    ensures tree.Contents() == Plug(Frames(t), DeleteRoot(old(node.Subtree)))
  {
    ChildValid(node, child);
    SpineDisjoint(t, node, node.Repr);
    SpliceFootprint(tree, node, child, t);
    BstReplaceNode(tree, parent, isRight, child, t, node);
  }

  /** Splicing out a node with at most one child removes exactly that node from the tree's footprint. */
  lemma SpliceFootprint(tree: Bst, node: BstNode, child: BstNode?, t: Trail)
    requires tree.Valid() && node.Valid() && Spine(t, node, node.Repr)
    requires Nodes(t) + SibRepr(t) + node.Repr == ReprOf(tree.root)
    requires node.left == null || node.right == null
    requires child == if node.left != null then node.left else node.right
    ensures node in tree.Repr && {tree} + (Nodes(t) + SibRepr(t)) + ReprOf(child) == tree.Repr - {node}
  {
    OneChildRepr(node, child);
    SpineDisjoint(t, node, node.Repr);
    LosesOne(tree.Repr, {tree} + (Nodes(t) + SibRepr(t)) + ReprOf(child), {tree} + (Nodes(t) + SibRepr(t)), node.Repr, node);
  }

  /**
    ReplaceWithPredecessor below a descent: the descent above the node is
    untouched, so it still leads to the node, whose footprint lost exactly the
    predecessor.
   */
  method ReplaceUnderSpine(node: BstNode, ghost t: Trail) returns (ghost freed: BstNode)
    requires node.Valid() && Spine(t, node, node.Repr)
    requires node.left != null && node.right != null && node.Subtree.left.Node?
    modifies node.Repr
    ensures node.Valid() && node.Subtree == DeleteRoot(old(node.Subtree))
    ensures freed in old(node.Repr) && node.Repr == old(node.Repr) - {freed}
    ensures freed.data == MaxKey(old(node.Subtree).left)
    ensures Spine(t, node, node.Repr) && freed !in Nodes(t)
    ensures Nodes(t) + SibRepr(t) == old(Nodes(t) + SibRepr(t))
  {
    SpineDisjoint(t, node, node.Repr);
    TrailAllocated(t);
    SibReprAllocated(t);
    ghost var NR := node.Repr;
    freed := ReplaceWithPredecessor(node);
    SpineRebase(t, node, NR, node.Repr);
  }

  /**
    pop_bst's third case, seen from the tree: after the node takes its
    predecessor's key, the ghost fields above it are refreshed.  Exactly the
    predecessor leaves the tree.
   */
  method RemoveTwoChildren(tree: Bst, node: BstNode, ghost t: Trail) returns (ghost freed: BstNode)
    requires tree.Valid() && node.Valid() && Spine(t, node, node.Repr)
    requires Nodes(t) + SibRepr(t) + node.Repr == ReprOf(tree.root)
    requires tree.root == if t.Start? then node else TopNode(t)
    requires node.left != null && node.right != null && node.Subtree.left.Node?
    modifies tree, Nodes(t), node.Repr
    ensures tree.Valid() && freed in old(node.Repr) && tree.Repr == old(tree.Repr) - {freed}
    ensures tree.Contents() == Plug(Frames(t), DeleteRoot(old(node.Subtree)))
    ensures freed.data == MaxKey(old(node.Subtree).left)
  {
    SpineDisjoint(t, node, node.Repr);
    ghost var NR, A := node.Repr, {tree} + (Nodes(t) + SibRepr(t));
    assert tree !in NR && old(tree.Repr) == A + NR;
    freed := ReplaceUnderSpine(node, t);
    ReattachTree(tree, t, node, node.Repr);
    LosesOne(old(tree.Repr), tree.Repr, A, NR, freed);
  }

  /**
    pop_bst: removes one occurrence of data.  NotFound (and nothing changes)
    exactly when the search for data fails; otherwise the tree becomes BstDelete
    of the old tree and loses exactly the freed node: the node found, or, when
    that node has two children, its in-order predecessor.
   */
  method PopBst(tree: Bst?, data: int) returns (rc: Code, ghost freed: BstNode?)
    requires tree != null ==> tree.Valid()
    modifies if tree == null then {} else tree.Repr
    ensures tree == null ==> rc == Null && freed == null
    ensures tree != null ==> (rc == Ok || rc == NotFound) && (rc == Ok <==> Contains(old(tree.Contents()), data))
    ensures tree != null ==> tree.Valid() && tree.Contents() == BstDelete(old(tree.Contents()), data)
    ensures tree != null && rc == NotFound ==> freed == null && tree.Repr == old(tree.Repr)
    ensures tree != null && rc == Ok ==> freed != null && freed in old(tree.Repr) && tree.Repr == old(tree.Repr) - {freed}
  {
    if tree == null {
      return Null, null;
    }
    ghost var T := tree.Contents();
    var parent, node, isRight;
    ghost var t;
    rc, parent, node, isRight, t := PopBstSearch(tree, data);
    if rc == NotFound {
      BstDeleteAbsent(T, data);
      return NotFound, null;
    }
    SearchThroughPath(Frames(t), node.Subtree, data);
    assert BstDelete(T, data) == Plug(Frames(t), DeleteRoot(node.Subtree));
    if node.left == null && node.right == null {
      SpliceOut(tree, parent, isRight, node, null, t);
      return Ok, node;
    }
    if node.left == null || node.right == null {
      SpliceOut(tree, parent, isRight, node, if node.left != null then node.left else node.right, t);
      return Ok, node;
    }
    freed := RemoveTwoChildren(tree, node, t);
    return Ok, freed;
  }


  /** search_bst: Ok exactly when the search path for data reaches a node holding it. */
  method SearchBst(tree: Bst?, data: int) returns (rc: Code)
    requires tree != null ==> tree.Valid()
    ensures tree == null ==> rc == Null
    ensures tree != null ==> (rc == Ok || rc == NotFound) && (rc == Ok <==> Contains(tree.Contents(), data))
  {
    if tree == null {
      return Null;
    }
    var node := tree.root;
    while node != null
      invariant node != null ==> node.Valid()
      invariant Contains(TreeOf(node), data) == Contains(tree.Contents(), data)
      decreases ReprOf(node)
    {
      if node.data == data {
        return Ok;
      }
      node := if node.data > data then node.left else node.right;
    }
    return NotFound;
  }

  /**
    clear_bst_recursive: frees the left subtree, then the right one, then the
    node.  The frees are returned in the order they happen: every node of the
    subtree exactly once, each after its children.
   */
  method ClearBstRecursive(node: BstNode?) returns (freed: seq<BstNode>)
    requires node != null ==> node.Valid()
    ensures freed == old(PostOrderNodes(node))
    decreases ReprOf(node)
  {
    if node == null {
      return [];
    }
    var n: BstNode := node;
    ChildValid(n, n.left);
    ChildValid(n, n.right);
    PostOrderUnfold(n);
    var fromLeft := ClearBstRecursive(n.left);
    assert PostOrderNodes(n.right) == old(PostOrderNodes(n.right));
    var fromRight := ClearBstRecursive(n.right);
    freed := fromLeft + fromRight + [n];
  }

  /**
    clear_bst: frees every node, in post-order, and empties the tree, which stays
    usable (PostOrderFreesEachOnce: each node exactly once, children first).
    NULL gives the NULL code and frees nothing.
   */
  method ClearBst(tree: Bst?) returns (rc: Code, freed: seq<BstNode>)
    requires tree != null ==> tree.Valid()
    modifies tree
    ensures tree == null ==> rc == Null && freed == []
    ensures tree != null ==> rc == Ok && tree.Valid() && tree.root == null && tree.Contents() == Leaf
    ensures tree != null ==> tree.Repr == {tree} && freed == old(PostOrderNodes(tree.root))
  {
    if tree == null {
      return Null, [];
    }
    freed := ClearBstRecursive(tree.root);
    tree.root := null;
    tree.Repr := {tree};
    rc := Ok;
  }

  /**
    destroy_bst: clears the tree the handle points to, frees the BST record too
    and sets the handle to NULL.  A NULL handle gives the NULL code; a handle to
    NULL is left alone and gives Ok.
   */
  method DestroyBst(ref: BstRef?) returns (rc: Code, freed: seq<BstNode>, freedTree: Bst?)
    requires ref != null && ref.tree != null ==> ref.tree.Valid()
    modifies ref, if ref == null then null else ref.tree
    ensures ref == null ==> rc == Null && freed == [] && freedTree == null
    ensures ref != null ==> rc == Ok && ref.tree == null && freedTree == old(ref.tree)
    ensures ref != null && old(ref.tree) == null ==> freed == []
    ensures ref != null && old(ref.tree) != null ==> freed == old(PostOrderNodes(ref.tree.root))
  {
    if ref == null {
      return Null, [], null;
    }
    freedTree := ref.tree;
    if freedTree == null {
      return Ok, [], null;
    }
    var _, f := ClearBst(freedTree);
    freed := f;
    ref.tree := null;
    rc := Ok;
  }

  /**
    print_bst_sideways_recursive: the lines printed for the subtree at `node`,
    each a key and its indentation level; the right subtree comes first, so the
    keys come out in reverse in-order, the root at `level`.
   */
  method PrintBstSidewaysRecursive(node: BstNode?, level: int) returns (lines: seq<Line>)
    requires node != null ==> node.Valid()
    ensures lines == Sideways(TreeOf(node), level)
    ensures LineKeys(lines) == Reverse(InOrder(TreeOf(node)))
    decreases ReprOf(node)
  {
    if node == null {
      return [];
    }
    ChildValid(node, node.left);
    ChildValid(node, node.right);
    var upper := PrintBstSidewaysRecursive(node.right, level + 1);
    var lower := PrintBstSidewaysRecursive(node.left, level + 1);
    lines := upper + [Line(level, node.data)] + lower;
    SidewaysIsReverseInOrder(TreeOf(node), level);
  }

  /** print_bst_sideways: the whole tree from level 0; NULL gives the NULL code and prints nothing. */
  method PrintBstSideways(tree: Bst?) returns (rc: Code, lines: seq<Line>)
    requires tree != null ==> tree.Valid()
    ensures tree == null ==> rc == Null && lines == []
    ensures tree != null ==> rc == Ok && lines == Sideways(tree.Contents(), 0)
    ensures tree != null ==> LineKeys(lines) == Reverse(InOrder(tree.Contents()))
  {
    if tree == null {
      return Null, [];
    }
    lines := PrintBstSidewaysRecursive(tree.root, 0);
    rc := Ok;
  }

  /**
    The example in the header of simple_bst.c: pushing 3 10 2 1 -100 4 95 3 489 78
    into an empty tree prints this picture; the second 3 goes left of the root
    and ends up as the right child of 2.
   */
  lemma DocExample()
    ensures Sideways(Build([3, 10, 2, 1, -100, 4, 95, 3, 489, 78]), 0) ==
      [Line(3, 489), Line(2, 95), Line(3, 78), Line(1, 10), Line(2, 4),
       Line(0, 3), Line(2, 3), Line(1, 2), Line(2, 1), Line(3, -100)]
  {
    DocTree();
  }

  /** The tree the example builds, one push at a time: the first five pushes. */
  lemma DocTreeFirstHalf()
    ensures Build([3, 10, 2, 1, -100]) ==
      Node(Node(Node(Node(Leaf, -100, Leaf), 1, Leaf), 2, Leaf), 3, Node(Leaf, 10, Leaf))
  {
    var a := Node(Leaf, 3, Leaf);
    var b := Node(Leaf, 3, Node(Leaf, 10, Leaf));
    var c := Node(Node(Leaf, 2, Leaf), 3, Node(Leaf, 10, Leaf));
    var d := Node(Node(Node(Leaf, 1, Leaf), 2, Leaf), 3, Node(Leaf, 10, Leaf));
    BuildStep([], 3, Leaf, [3]);
    BuildStep([3], 10, a, [3, 10]);
    BuildStep([3, 10], 2, b, [3, 10, 2]);
    BuildStep([3, 10, 2], 1, c, [3, 10, 2, 1]);
    BuildStep([3, 10, 2, 1], -100, d, [3, 10, 2, 1, -100]);
  }

  /** The last five pushes. */
  lemma DocTree()
    ensures Build([3, 10, 2, 1, -100, 4, 95, 3, 489, 78]) ==
      Node(Node(Node(Node(Leaf, -100, Leaf), 1, Leaf), 2, Node(Leaf, 3, Leaf)),
           3,
           Node(Node(Leaf, 4, Leaf), 10, Node(Node(Leaf, 78, Leaf), 95, Node(Leaf, 489, Leaf))))
  {
    var e := Node(Node(Node(Node(Leaf, -100, Leaf), 1, Leaf), 2, Leaf), 3, Node(Leaf, 10, Leaf));
    var f := Node(e.left, 3, Node(Node(Leaf, 4, Leaf), 10, Leaf));
    var g := Node(e.left, 3, Node(Node(Leaf, 4, Leaf), 10, Node(Leaf, 95, Leaf)));
    var h := Node(Node(e.left.left, 2, Node(Leaf, 3, Leaf)), 3, g.right);
    var i := Node(h.left, 3, Node(Node(Leaf, 4, Leaf), 10, Node(Leaf, 95, Node(Leaf, 489, Leaf))));
    DocTreeFirstHalf();
    BuildStep([3, 10, 2, 1, -100], 4, e, [3, 10, 2, 1, -100, 4]);
    BuildStep([3, 10, 2, 1, -100, 4], 95, f, [3, 10, 2, 1, -100, 4, 95]);
    BuildStep([3, 10, 2, 1, -100, 4, 95], 3, g, [3, 10, 2, 1, -100, 4, 95, 3]);
    BuildStep([3, 10, 2, 1, -100, 4, 95, 3], 489, h, [3, 10, 2, 1, -100, 4, 95, 3, 489]);
    BuildStep([3, 10, 2, 1, -100, 4, 95, 3, 489], 78, i, [3, 10, 2, 1, -100, 4, 95, 3, 489, 78]);
  }
}
