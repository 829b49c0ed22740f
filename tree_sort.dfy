/**
  tree_sort.c: tree sort with an unbalanced binary search tree.  The keys are
  pushed one after another (equal keys to the left), and an in-order walk of the
  tree writes them back into the array.  Its tree type is the one of simple_bst.c;
  clear_bst and destroy_bst are the same code as there and are modelled by
  SimpleBst.ClearBst and SimpleBst.DestroyBst.
 */
module TreeSort {
  import opened Sequences
  import opened Trees
  import opened BstHeap
  import opened Status
  import SimpleBst

  /**
    push_bst of tree_sort.c (and of tree_sort_no_recursion.c): the root slot when
    the tree is empty, otherwise a walk down from the root to the first node
    whose link on the side data goes is NULL, where the new leaf is hung.  The
    tree must exist (the code reads tree->root unchecked).
   */
  method PushBst(tree: Bst, data: int) returns (rc: Code)
    requires tree.Valid()
    modifies tree.Repr
    ensures rc == Ok
    ensures tree.Valid() && fresh(tree.Repr - old(tree.Repr))
    ensures tree.Contents() == BstInsert(old(tree.Contents()), data)
  {
    if tree.root == null {
      var node := new BstNode.Leaf(data);
      tree.root := node;
      SetTreeRepr(tree);
      return Ok;
    }
    var parent, goRight, t := ParentWalk(tree, data);
    TrailAllocated(t);
    var node := new BstNode.Leaf(data);
    HangLeaf(tree, parent, goRight, node, t);
    InsertThroughPath(Frames(t), Leaf, data);
    rc := Ok;
  }

  /**
    The `while (1)` walk of push_bst over a non-empty tree: from the root, left
    when data <= key and right otherwise, until the link on that side is NULL.
    Returns that node and side, with the ghost trail of the descent down to the
    empty link: every frame turns the way BstInsert turns for data.
   */
  method ParentWalk(tree: Bst, data: int) returns (parent: BstNode, goRight: bool, ghost t: Trail)
    requires tree.Valid() && tree.root != null
    ensures Spine(t, null, {}) && t.Visit? && parent == t.node && goRight == t.frame.WentRight?
    ensures InsertPath(Frames(t), data)
    ensures Plug(Frames(t), Leaf) == tree.Contents()
    ensures Nodes(t) + SibRepr(t) == ReprOf(tree.root) && tree.root == TopNode(t)
  {
    parent := tree.root;
    t := Start;
    while true
      invariant parent.Valid() && Spine(t, parent, parent.Repr)
      invariant InsertPath(Frames(t), data)
      invariant Plug(Frames(t), parent.Subtree) == tree.Contents()
      invariant Nodes(t) + SibRepr(t) + parent.Repr == ReprOf(tree.root)
      invariant tree.root == if t.Start? then parent else TopNode(t)
      decreases parent.Repr
    {
      goRight := data > parent.data;
      var child := if goRight then parent.right else parent.left;
      var sib := if goRight then parent.left else parent.right;
      DescendSpine(t, parent, sib, FrameAt(parent, goRight), child);
      t := Visit(t, parent, sib, FrameAt(parent, goRight));
      if child == null {
        return;
      }
      parent := child;
    }
  }

  /**
    The write `parent->left = new_bst_node(data, NULL, NULL)` (or `->right`) at
    the empty link a descent t ends at: the tree then holds the frames of t
    plugged around the new leaf.
   */
  method HangLeaf(tree: Bst, parent: BstNode, goRight: bool, node: BstNode, ghost t: Trail)
    requires tree.Valid()
    requires Spine(t, null, {}) && t.Visit? && parent == t.node && goRight == t.frame.WentRight?
    requires Nodes(t) + SibRepr(t) == ReprOf(tree.root) && tree.root == TopNode(t)
    requires node.Valid() && node.Repr == {node} && node !in Nodes(t) + SibRepr(t)
    modifies tree, Nodes(t)
    ensures tree.Valid() && tree.Repr == old(tree.Repr) + {node}
    ensures tree.Contents() == Plug(Frames(t), old(node.Subtree))
  {
    SpineDisjoint(t, null, {});
    SpineRetarget(t, null, {}, node.Repr);
    assert tree !in Nodes(t) + SibRepr(t) + {node};
    LinkChild(parent, goRight, node, t, node.Repr);
    ReattachTree(tree, t, node, node.Repr);
  }

  /**
    tree_sort_recursive: an in-order walk of the subtree at `node` that stores
    each key at arr[*index_ref] and advances the index.  The keys land, in
    order, in the cells from `index` on; nothing else changes.
   */
  method TreeSortRecursive(arr: array<int>, index: nat, node: BstNode?) returns (next: nat)
    requires node != null ==> node.Valid()
    requires index + |InOrder(TreeOf(node))| <= arr.Length
    modifies arr
    ensures next == index + |InOrder(TreeOf(node))|
    ensures arr[index..next] == InOrder(TreeOf(node))
    ensures arr[..index] == old(arr[..index]) && arr[next..] == old(arr[next..])
    decreases ReprOf(node)
  {
    if node == null {
      return index;
    }
    var n: BstNode := node;
    ChildValid(n, n.left);
    ChildValid(n, n.right);
    ArrayNotInRepr(n, arr);
    ghost var L, R := InOrder(TreeOf(n.left)), InOrder(TreeOf(n.right));
    assert InOrder(TreeOf(n)) == L + [n.data] + R;
    ghost var a0 := arr[..];
    var i := TreeSortRecursive(arr, index, n.left);
    ghost var a1 := arr[..];
    arr[i] := n.data;
    ghost var a2 := arr[..];
    next := TreeSortRecursive(arr, i + 1, n.right);
    WalkJoin(a0, a1, a2, arr[..], index, i, next, L, n.data, R);
  }

  /**
    The three steps of tree_sort_recursive at one node, on the array contents
    before and after each: the left walk, the store of the key, the right walk.
   */
  lemma WalkJoin(a0: seq<int>, a1: seq<int>, a2: seq<int>, a3: seq<int>,
                 index: nat, i: nat, next: nat, L: seq<int>, k: int, R: seq<int>)
    requires |a0| == |a1| == |a2| == |a3| && index <= i < next <= |a0|
    requires a1[index..i] == L && a1[..index] == a0[..index] && a1[i..] == a0[i..]
    requires a2 == a1[i := k]
    requires a3[i + 1..next] == R && a3[..i + 1] == a2[..i + 1] && a3[next..] == a2[next..]
    ensures a3[index..next] == L + [k] + R
    ensures a3[..index] == a0[..index] && a3[next..] == a0[next..]
  {
    assert a3[index..next] == a3[index..i] + [a3[i]] + a3[i + 1..next];
    assert a3[index..i] == a2[index..i] == a1[index..i] by {
      assert a3[index..i] == a3[..i + 1][index..i];
      assert a2[index..i] == a2[..i + 1][index..i];
    }
    assert a3[..index] == a2[..index] == a1[..index] by {
      assert a3[..index] == a3[..i + 1][..index];
      assert a2[..index] == a2[..i + 1][..index];
    }
    assert a2[next..] == a1[next..] == a0[next..] by {
      assert a1[next..] == a1[i..][next - i..];
      assert a0[next..] == a0[i..][next - i..];
    }
  }

  /**
    tree_sort: sorts the first arr_count cells of arr in non-decreasing order.
    NULL gives the NULL code; fewer than two cells leave the array alone.
    Otherwise the keys are pushed into a fresh tree in array order, written
    back by an in-order walk, and the tree is destroyed: the result is the
    in-order sequence of the tree those pushes build, which is sorted and a
    permutation of the input.
   */
  method TreeSort(count: int, arr: array?<int>) returns (rc: Code)
    requires arr != null ==> count <= arr.Length
    modifies arr
    ensures arr == null ==> rc == Null
    ensures arr != null ==> rc == Ok
    ensures arr != null && count < 2 ==> arr[..] == old(arr[..])
    ensures arr != null && count >= 2 ==>
      arr[..count] == InOrder(Build(old(arr[..count]))) && arr[count..] == old(arr[count..])
    ensures arr != null && count >= 2 ==>
      Sorted(arr[..count]) && multiset(arr[..count]) == multiset(old(arr[..count]))
  {
    if arr == null {
      return Null;
    }
    if count < 2 {
      return Ok;
    }
    ghost var input, rest := arr[..count], arr[count..];
    var tree := new Bst();
    PushAll(tree, arr, count);
    BuildInOrder(input);
    WriteBack(arr, count, tree);
    ghost var output := arr[..count];
    assert output == InOrder(Build(input)) && arr[count..] == rest;
    var _ := DestroyTree(tree);
    assert arr[..count] == output && arr[count..] == rest;
    rc := Ok;
  }

  /**
    The traversal step of tree_sort, tree_sort_recursive(arr, &index, tree->root)
    from index 0: the first count cells receive the tree's keys in order, the
    tree itself is untouched.
   */
  method WriteBack(arr: array<int>, count: nat, tree: Bst)
    requires tree.Valid() && |InOrder(tree.Contents())| == count <= arr.Length
    modifies arr
    ensures arr[..count] == InOrder(tree.Contents()) && arr[count..] == old(arr[count..])
    ensures tree.Valid()
  {
    ArrayNotInRepr(tree.root, arr);
    var next := TreeSortRecursive(arr, 0, tree.root);
    assert arr[..count] == arr[0..next];
  }

  /**
    The cleanup of tree_sort, destroy_bst(&tree): every node is freed, in
    post-order, and the handle goes.
   */
  method DestroyTree(tree: Bst) returns (freed: seq<BstNode>)
    requires tree.Valid()
    modifies tree
    ensures freed == old(PostOrderNodes(tree.root))
  {
    var ref := new BstRef(tree);
    var _, f, _ := SimpleBst.DestroyBst(ref);
    freed := f;
  }

  /** The first loop of tree_sort: pushes arr[0], ..., arr[count - 1] in turn into the empty tree. */
  method PushAll(tree: Bst, arr: array<int>, count: nat)
    requires tree.Valid() && tree.root == null && count <= arr.Length
    modifies tree.Repr
    ensures tree.Valid() && fresh(tree.Repr - old(tree.Repr))
    ensures tree.Contents() == Build(arr[..count])
  {
    for i := 0 to count
      invariant tree.Valid() && fresh(tree.Repr - old(tree.Repr)) && tree.Repr >= old(tree.Repr)
      invariant tree.Contents() == Build(arr[..i])
    {
      BuildStep(arr[..i], arr[i], tree.Contents(), arr[..i + 1]);
      var _ := PushBst(tree, arr[i]);
    }
  }
}
