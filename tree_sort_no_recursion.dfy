/**
  tree_sort_no_recursion.c: the tree sort of tree_sort.c with both recursions
  replaced by an explicit stack of tree-node pointers.  clear_bst frees the
  nodes in post-order with two stacks; tree_sort walks the tree in order with
  one stack.  push_bst is the same code as in tree_sort.c and is modelled by
  TreeSort.PushBst; the push loop of tree_sort is TreeSort.PushAll.
 */
module TreeSortNoRecursion {
  import opened Sequences
  import opened Trees
  import opened BstHeap
  import opened Status
  import Recursive = TreeSort

  // ---------------------------------------------------------------------------
  // The stack.

  /**
    BSTStack, a singly linked list of BSTStackNode cells.  The cells are
    modelled by the sequence of the tree pointers they hold, top first; a
    pushed pointer may be NULL.
   */
  class BstStack {
    var items: seq<BstNode?>

    /** new_bst_stack(): an empty stack. */
    constructor ()
      ensures items == []
    {
      items := [];
    }
  }

  /** A `BSTStack **` handle, so that a NULL reference can be expressed. */
  class StackRef {
    var stack: BstStack?

    constructor (s: BstStack?)
      ensures stack == s
    {
      stack := s;
    }
  }

  /** push_bst_stack: a NULL stack gives the NULL code; otherwise the pointer goes on top. */
  method PushBstStack(stack: BstStack?, node: BstNode?) returns (rc: Code)
    modifies stack
    ensures stack == null ==> rc == Null
    ensures stack != null ==> rc == Ok && stack.items == [node] + old(stack.items)
  {
    if stack == null {
      return Null;
    }
    stack.items := [node] + stack.items;
    rc := Ok;
  }

  /**
    pop_bst_stack: a NULL stack gives the NULL code, an empty one the EMPTY code
    and stays empty; otherwise the top cell goes.  `wantNode` says whether the
    caller passed a node_ref: only then is the popped pointer handed back
    (`node` is NULL when it is not).
   */
  method PopBstStack(stack: BstStack?, wantNode: bool) returns (rc: Code, node: BstNode?)
    modifies stack
    ensures stack == null ==> rc == Null && node == null
    ensures stack != null && old(stack.items) == [] ==> rc == Empty && stack.items == [] && node == null
    ensures stack != null && old(stack.items) != [] ==> rc == Ok && stack.items == old(stack.items[1..])
    ensures stack != null && old(stack.items) != [] && wantNode ==> node == old(stack.items[0])
    ensures !wantNode ==> node == null
  {
    node := null;
    if stack == null {
      return Null, null;
    }
    if stack.items == [] {
      return Empty, null;
    }
    if wantNode {
      node := stack.items[0];
    }
    stack.items := stack.items[1..];
    rc := Ok;
  }

  /** The stack discipline: a pop right after a push gives back the pushed pointer and the stack as it was. */
  method PushThenPop(stack: BstStack, x: BstNode?) returns (popped: BstNode?)
    modifies stack
    ensures popped == x && stack.items == old(stack.items)
  {
    var _ := PushBstStack(stack, x);
    var _, node := PopBstStack(stack, true);
    popped := node;
  }

  /**
    destroy_bst_stack: a NULL handle gives the NULL code and a handle to NULL
    is left alone; otherwise the cells are freed top to bottom, the stack
    record goes and the handle is set to NULL.  Only the stack and the handle
    change: the tree nodes the cells point to are not touched.
   */
  method DestroyBstStack(ref: StackRef?) returns (rc: Code)
    modifies ref, if ref == null then null else ref.stack
    ensures ref == null ==> rc == Null
    ensures ref != null ==> rc == Ok && ref.stack == null
    ensures ref != null && old(ref.stack) != null ==> old(ref.stack).items == []
  {
    if ref == null {
      return Null;
    }
    var stack := ref.stack;
    if stack == null {
      return Ok;
    }
    while stack.items != []
      modifies stack
      decreases |stack.items|
    {
      stack.items := stack.items[1..];
    }
    ref.stack := null;
    rc := Ok;
  }

  // ---------------------------------------------------------------------------
  // What the stacks hold, in terms of the tree.  The loops below only read
  // fields of the tree nodes, so the tree is described once, before the loops,
  // by a value: its shape, a tree of cells each holding a node and its key.

  datatype Shape = Nil | Cell(left: Shape, node: BstNode, key: int, right: Shape)

  /** The shape of the subtree at n. */
  ghost function ShapeOf(n: BstNode?): Shape
    requires n != null ==> n.Valid()
    reads if n == null then {} else {n} + n.Repr
    decreases ReprOf(n)
  {
    if n == null then Nil else Cell(ShapeOf(n.left), n, n.data, ShapeOf(n.right))
  }

  /** The pointer a shape stands for: NULL for the empty one. */
  function Top(s: Shape): BstNode? {
    if s.Nil? then null else s.node
  }

  ghost function Tops(ss: seq<Shape>): seq<BstNode?> {
    if ss == [] then [] else [Top(ss[0])] + Tops(ss[1..])
  }

  ghost function Cells(s: Shape): set<Shape> {
    if s.Nil? then {} else {s} + Cells(s.left) + Cells(s.right)
  }

  ghost function NodesOf(s: Shape): set<BstNode> {
    if s.Nil? then {} else {s.node} + NodesOf(s.left) + NodesOf(s.right)
  }

  /** The abstract tree a shape describes. */
  ghost function TreeOfShape(s: Shape): Tree {
    if s.Nil? then Leaf else Node(TreeOfShape(s.left), s.key, TreeOfShape(s.right))
  }

  /** The nodes in post-order: left subtree, right subtree, then the node. */
  ghost function PostOrder(s: Shape): seq<BstNode> {
    if s.Nil? then [] else PostOrder(s.left) + PostOrder(s.right) + [s.node]
  }

  /** The nodes in reverse pre-order: the node, its right subtree, then its left subtree. */
  ghost function RevPre(s: Shape): seq<BstNode> {
    if s.Nil? then [] else [s.node] + RevPre(s.right) + RevPre(s.left)
  }

  /** The heap agrees with the shape: every cell's node has the cell's key and the cell's children as its children. */
  ghost predicate Linked(s: Shape)
    reads NodesOf(s)
  {
    forall c :: c in Cells(s) ==>
      c.Cell? && c.node in NodesOf(s) &&
      c.node.data == c.key && c.node.left == Top(c.left) && c.node.right == Top(c.right)
  }

  lemma {:induction false} ShapeLinked(n: BstNode?)
    requires n != null ==> n.Valid()
    ensures Linked(ShapeOf(n))
    decreases ReprOf(n)
  {
    if n != null {
      ChildValid(n, n.left);
      ChildValid(n, n.right);
      ShapeLinked(n.left);
      ShapeLinked(n.right);
    }
  }

  lemma {:induction false} ShapeOrders(n: BstNode?)
    requires n != null ==> n.Valid()
    ensures PostOrder(ShapeOf(n)) == PostOrderNodes(n)
    ensures TreeOfShape(ShapeOf(n)) == TreeOf(n)
    decreases ReprOf(n)
  {
    if n != null {
      ChildValid(n, n.left);
      ChildValid(n, n.right);
      ShapeOrders(n.left);
      ShapeOrders(n.right);
    }
  }

  lemma ShapeAllocated(s: Shape)
    ensures forall c :: c in NodesOf(s) ==> allocated(c)
  {
  }

  /** The cells below a cell are cells of the same shape. */
  lemma {:induction false} CellsClosed(s: Shape, c: Shape)
    requires c in Cells(s) && c.Cell?
    ensures c.left in Cells(s) || c.left.Nil?
    ensures c.right in Cells(s) || c.right.Nil?
  {
    if c != s {
      if c in Cells(s.left) {
        CellsClosed(s.left, c);
      } else {
        CellsClosed(s.right, c);
      }
    }
  }

  /** Read backwards, the reverse pre-order is the post-order. */
  lemma {:induction false} RevPreIsReversedPostOrder(s: Shape)
    ensures Reverse(RevPre(s)) == PostOrder(s)
  {
    if s.Cell? {
      RevPreIsReversedPostOrder(s.left);
      RevPreIsReversedPostOrder(s.right);
      var l, r := RevPre(s.left), RevPre(s.right);
      assert RevPre(s) == [s.node] + (r + l);
      ReverseAppend([s.node], r + l);
      ReverseAppend(r, l);
      assert Reverse([s.node]) == [s.node];
    }
  }

  /** Every entry is a non-empty cell of shape s. */
  ghost predicate OnStack(ss: seq<Shape>, s: Shape) {
    ss != [] ==> ss[0].Cell? && ss[0] in Cells(s) && OnStack(ss[1..], s)
  }

  /** The reverse pre-orders of the subtrees on stack s1 of clear_bst, top first, concatenated. */
  ghost function Flatten(ss: seq<Shape>): seq<BstNode> {
    if ss == [] then [] else RevPre(ss[0]) + Flatten(ss[1..])
  }

  /** The keys an in-order walk still owes for the nodes on its stack: each node's key, then its right subtree. */
  ghost function Pending(ss: seq<Shape>): seq<int> {
    if ss == [] then [] else Owed(ss[0]) + Pending(ss[1..])
  }

  ghost function Owed(c: Shape): seq<int> {
    if c.Nil? then [] else [c.key] + InOrder(TreeOfShape(c.right))
  }

  // ---------------------------------------------------------------------------
  // clear_bst and destroy_bst.

  /**
    clear_bst: a NULL tree gives the NULL code; otherwise every node is freed,
    in post-order, and the root becomes NULL.
   */
  method ClearBst(tree: Bst?) returns (rc: Code, freed: seq<BstNode>)
    requires tree != null ==> tree.Valid()
    modifies tree
    ensures tree == null ==> rc == Null && freed == []
    ensures tree != null ==> rc == Ok && tree.Valid() && tree.root == null && tree.Contents() == Leaf
    ensures tree != null ==> tree.Repr == {tree} && freed == old(PostOrderNodes(tree.root))
  {
    if tree == null {
      return Null, [];
    }
    if tree.root == null {
      return Ok, [];
    }
    ShapeLinked(tree.root);
    ShapeOrders(tree.root);
    freed := ClearNodes(tree.root, ShapeOf(tree.root));
    tree.root := null;
    tree.Repr := {tree};
    rc := Ok;
  }

  /**
    The two-stack loops of clear_bst over a non-empty tree of shape s.  The
    first loop moves the nodes from s1 to s2 in reverse pre-order (a node, then
    its right subtree, then its left), so that the second loop pops and frees
    them in post-order: every node once, children before their parent.
   */
  method ClearNodes(root: BstNode, ghost s: Shape) returns (freed: seq<BstNode>)
    requires s.Cell? && root == s.node && Linked(s)
    ensures freed == PostOrder(s)
  {
    ShapeAllocated(s);
    RevPreIsReversedPostOrder(s);
    var s1 := new BstStack();
    var s2 := new BstStack();
    var _ := PushBstStack(s1, root);
    assert Linked(s);
    MoveAll(s1, s2, s);
    ReverseReverse(s2.items);
    freed := FreeAll(s2, PostOrder(s));
    var r1 := new StackRef(s1);
    var r2 := new StackRef(s2);
    var _ := DestroyBstStack(r1);
    var _ := DestroyBstStack(r2);
  }

  /** The first loop of clear_bst: s1 starts with the root of shape s; s2 ends with its nodes, last in reverse pre-order on top. */
  method MoveAll(s1: BstStack, s2: BstStack, ghost s: Shape)
    requires s1 != s2 && s.Cell? && s1.items == [s.node] && s2.items == [] && Linked(s)
    requires forall c :: c in NodesOf(s) ==> allocated(c)
    modifies s1, s2
    ensures s1.items == [] && Reverse(s2.items) == RevPre(s)
  {
    ghost var ss := [s];
    assert Tops(ss) == s1.items;
    while s1.items != []
      invariant OnStack(ss, s) && Tops(ss) == s1.items
      invariant Reverse(s2.items) + Flatten(ss) == RevPre(s)
      decreases |Flatten(ss)|
    {
      ghost var next := Children(ss[0]) + ss[1..];
      MoveStep(s, ss, s2.items);
      MoveOne(s1, s2, s, ss[0]);
      ss := next;
    }
  }

  /** One round of the first loop of clear_bst: pop a node from s1, push it on s2, then its left and right children on s1. */
  method MoveOne(s1: BstStack, s2: BstStack, ghost s: Shape, ghost c: Shape)
    requires s1 != s2 && Linked(s) && c in Cells(s) && s1.items != [] && s1.items[0] == Top(c)
    modifies s1, s2
    ensures s2.items == [c.node] + old(s2.items)
    ensures s1.items == (if c.right.Cell? then [c.right.node] else []) + (if c.left.Cell? then [c.left.node] else []) + old(s1.items[1..])
  {
    var _, node := PopBstStack(s1, true);
    var n: BstNode := node;
    var _ := PushBstStack(s2, n);
    if n.left != null {
      var _ := PushBstStack(s1, n.left);
    }
    if n.right != null {
      var _ := PushBstStack(s1, n.right);
    }
  }

  /** The second loop of clear_bst: pop the nodes off s2 and free each. */
  method FreeAll(s2: BstStack, ghost order: seq<BstNode>) returns (freed: seq<BstNode>)
    requires s2.items == order
    modifies s2
    ensures freed == order && s2.items == []
  {
    freed := [];
    while s2.items != []
      invariant |freed| <= |order| && freed == order[..|freed|] && s2.items == order[|freed|..]
      decreases |s2.items|
    {
      var _, node := PopBstStack(s2, true);
      assert node == order[|freed|];
      var n: BstNode := node;
      freed := freed + [n];
    }
  }

  /** What the first loop of clear_bst pushes on s1 for a node: its right child over its left, each if not NULL. */
  ghost function Children(c: Shape): seq<Shape>
    requires c.Cell?
  {
    (if c.right.Cell? then [c.right] else []) + (if c.left.Cell? then [c.left] else [])
  }

  /** One round of the first loop of clear_bst, on the shapes on s1 and the nodes on s2. */
  lemma MoveStep(s: Shape, ss: seq<Shape>, done: seq<BstNode?>)
    requires OnStack(ss, s) && ss != []
    ensures OnStack(Children(ss[0]) + ss[1..], s)
    ensures Tops(Children(ss[0]) + ss[1..]) ==
      (if ss[0].right.Cell? then [ss[0].right.node] else []) + (if ss[0].left.Cell? then [ss[0].left.node] else []) + Tops(ss[1..])
    ensures Reverse([ss[0].node] + done) + Flatten(Children(ss[0]) + ss[1..]) == Reverse(done) + Flatten(ss)
    ensures |Flatten(Children(ss[0]) + ss[1..])| < |Flatten(ss)|
  {
    var c, rest := ss[0], ss[1..];
    CellsClosed(s, c);
    var mid := if c.left.Cell? then [c.left] + rest else rest;
    var top := if c.right.Cell? then [c.right] + mid else mid;
    if c.left.Cell? {
      Prepend(c.left, rest, s);
    }
    if c.right.Cell? {
      Prepend(c.right, mid, s);
    }
    assert Children(c) + rest == top;
    MoveAlgebra(c.node, RevPre(c.right), RevPre(c.left), Flatten(rest), Flatten(mid), Flatten(top), Flatten(ss), done);
  }

  /** Pushing a cell on a stack of shapes. */
  lemma Prepend(x: Shape, rest: seq<Shape>, s: Shape)
    requires x.Cell?
    ensures OnStack([x] + rest, s) <==> x in Cells(s) && OnStack(rest, s)
    ensures Tops([x] + rest) == [x.node] + Tops(rest)
    ensures Flatten([x] + rest) == RevPre(x) + Flatten(rest)
  {
    assert ([x] + rest)[0] == x && ([x] + rest)[1..] == rest;
  }

  lemma MoveAlgebra(n: BstNode, r: seq<BstNode>, l: seq<BstNode>, fr: seq<BstNode>, m: seq<BstNode>,
                    t: seq<BstNode>, f: seq<BstNode>, done: seq<BstNode?>)
    requires f == [n] + r + l + fr && m == l + fr && t == r + m
    ensures Reverse([n] + done) + t == Reverse(done) + f
    ensures |t| < |f|
  {
    assert ([n] + done)[1..] == done;
  }

  /**
    destroy_bst: a NULL handle gives the NULL code; a handle to NULL is left
    alone and gives Ok; otherwise the tree is cleared, its record freed and the
    handle set to NULL.
   */
  method DestroyBst(ref: BstRef?) returns (rc: Code, freed: seq<BstNode>, freedTree: Bst?)
    requires ref != null && ref.tree != null ==> ref.tree.Valid()
    modifies ref, if ref == null then null else ref.tree
    ensures ref == null ==> rc == Null && freed == [] && freedTree == null
    ensures ref != null ==> rc == Ok && ref.tree == null && freedTree == old(ref.tree)
    ensures ref != null && old(ref.tree) == null ==> freed == []
    ensures ref != null && old(ref.tree) != null ==> freed == old(PostOrderNodes(ref.tree.root))
  {
    if ref == null {
      return Null, [], null;
    }
    freedTree := ref.tree;
    if freedTree == null {
      return Ok, [], null;
    }
    var _, f := ClearBst(freedTree);
    freed := f;
    ref.tree := null;
    rc := Ok;
  }

  // ---------------------------------------------------------------------------
  // tree_sort.

  /**
    tree_sort of tree_sort_no_recursion.c: a NULL array gives the NULL code and
    fewer than two elements are left alone.  Otherwise the keys are pushed into
    a tree as in tree_sort.c and read back with an explicit stack; the array
    ends up exactly as tree_sort.c leaves it: the in-order sequence of the tree
    built from the input, hence sorted and a permutation of the input.
   */
  method TreeSort(count: int, arr: array?<int>) returns (rc: Code)
    requires arr != null ==> count <= arr.Length
    modifies arr
    ensures arr == null ==> rc == Null
    ensures arr != null ==> rc == Ok
    ensures arr != null && count < 2 ==> arr[..] == old(arr[..])
    ensures arr != null && count >= 2 ==>
      arr[..count] == InOrder(Build(old(arr[..count]))) && arr[count..] == old(arr[count..])
    ensures arr != null && count >= 2 ==>
      Sorted(arr[..count]) && multiset(arr[..count]) == multiset(old(arr[..count]))
  {
    if arr == null {
      return Null;
    }
    if count < 2 {
      return Ok;
    }
    ghost var input, rest := arr[..count], arr[count..];
    var stack := new BstStack();
    var tree := new Bst();
    Recursive.PushAll(tree, arr, count);
    BuildInOrder(input);
    ArrayNotInRepr(tree.root, arr);
    assert arr !in tree.Repr && stack !in tree.Repr;
    Traverse(arr, count, tree, stack);
    ghost var sorted := arr[..];
    assert sorted[..count] == InOrder(Build(input)) && sorted[count..] == rest;
    var _ := DestroyTree(tree);
    assert arr[..] == sorted;
    rc := Ok;
  }

  /** The traversal of tree_sort and the cleanup of its stack. */
  method Traverse(arr: array<int>, count: nat, tree: Bst, stack: BstStack)
    requires tree.Valid() && stack.items == [] && |InOrder(tree.Contents())| == count <= arr.Length
    requires arr !in tree.Repr && stack !in tree.Repr
    modifies arr, stack
    ensures arr[..count] == InOrder(old(tree.Contents())) && arr[count..] == old(arr[count..])
    ensures stack.items == [] && tree.Valid()
  {
    ShapeLinked(tree.root);
    ShapeOrders(tree.root);
    ShapeAllocated(ShapeOf(tree.root));
    var i := WalkInOrder(arr, tree.root, stack, ShapeOf(tree.root));
    DropStack(stack);
  }

  /** The cleanup of tree_sort, destroy_bst_stack(&stack): the stack is emptied and goes. */
  method DropStack(stack: BstStack)
    modifies stack
    ensures stack.items == []
  {
    var ref := new StackRef(stack);
    var _ := DestroyBstStack(ref);
  }

  /** The cleanup of tree_sort, destroy_bst(&tree): every node is freed, in post-order, and the handle goes. */
  method DestroyTree(tree: Bst) returns (freed: seq<BstNode>)
    requires tree.Valid()
    modifies tree
    ensures freed == old(PostOrderNodes(tree.root))
  {
    var ref := new BstRef(tree);
    var _, f, _ := DestroyBst(ref);
    freed := f;
  }

  /**
    The traversal loop of tree_sort over a tree of shape s: go left as far as
    possible pushing every node, pop one, store its key at arr[i++] and go to
    its right child.  The keys of the tree land in order at the front of the
    array, and the stack ends empty.
   */
  method WalkInOrder(arr: array<int>, root: BstNode?, stack: BstStack, ghost s: Shape) returns (i: nat)
    requires root == Top(s) && Linked(s) && stack.items == []
    requires forall c :: c in NodesOf(s) ==> allocated(c)
    requires |InOrder(TreeOfShape(s))| <= arr.Length
    modifies arr, stack
    ensures i == |InOrder(TreeOfShape(s))|
    ensures arr[..i] == InOrder(TreeOfShape(s)) && arr[i..] == old(arr[i..])
    ensures stack.items == []
  {
    ghost var whole := InOrder(TreeOfShape(s));
    var current := root;
    ghost var cur := s;
    ghost var ss: seq<Shape> := [];
    i := 0;
    while current != null || stack.items != []
      invariant Linked(s) && current == Top(cur) && (cur.Cell? ==> cur in Cells(s))
      invariant OnStack(ss, s) && Tops(ss) == stack.items
      invariant i <= |whole| <= arr.Length
      invariant arr[..i] + InOrder(TreeOfShape(cur)) + Pending(ss) == whole
      invariant arr[|whole|..] == old(arr[|whole|..])
      decreases |whole| - i
    {
      ghost var a := arr[..];
      current, cur, ss := WalkRound(arr, i, stack, current, s, cur, ss, whole);
      assert arr[|whole|..] == a[|whole|..];
      i := i + 1;
    }
  }

  /**
    One round of the traversal loop of tree_sort: the inner loop, the pop, the
    store at arr[i] and the step to the right child.
   */
  method WalkRound(arr: array<int>, i: nat, stack: BstStack, current: BstNode?, ghost s: Shape,
                   ghost cur: Shape, ghost ss: seq<Shape>, ghost whole: seq<int>)
    returns (current': BstNode?, ghost cur': Shape, ghost ss': seq<Shape>)
    requires Linked(s) && current == Top(cur) && (cur.Cell? ==> cur in Cells(s))
    requires forall c :: c in NodesOf(s) ==> allocated(c)
    requires OnStack(ss, s) && Tops(ss) == stack.items
    requires current != null || stack.items != []
    requires i <= |whole| <= arr.Length && arr[..i] + InOrder(TreeOfShape(cur)) + Pending(ss) == whole
    modifies arr, stack
    ensures Linked(s) && current' == Top(cur') && (cur'.Cell? ==> cur' in Cells(s))
    ensures OnStack(ss', s) && Tops(ss') == stack.items
    ensures i < |whole| && arr[..i + 1] + InOrder(TreeOfShape(cur')) + Pending(ss') == whole
    ensures arr[..] == old(arr[..])[i := arr[i]]
  {
    ghost var before := arr[..i];
    var top: BstNode?;
    top, cur', ss' := PushLeftSpine(stack, current, s, cur, ss, before);
    ghost var c := ss'[0];
    CellsClosed(s, c);
    current' := StoreTop(arr, i, stack, s, ss');
    assert arr[..i + 1] == before + [c.key];
    WalkStep(before, c, ss'[1..], whole, arr[..i + 1]);
    cur' := c.right;
    ss' := ss'[1..];
  }

  /** The pop of the traversal: the node on top goes, its key is stored at arr[i], and its right child is returned. */
  method StoreTop(arr: array<int>, i: nat, stack: BstStack, ghost s: Shape, ghost ss: seq<Shape>)
    returns (current: BstNode?)
    requires Linked(s) && OnStack(ss, s) && ss != [] && Tops(ss) == stack.items && i < arr.Length
    requires forall c :: c in NodesOf(s) ==> allocated(c)
    modifies arr, stack
    ensures Linked(s) && Tops(ss[1..]) == stack.items && current == Top(ss[0].right)
    ensures arr[..] == old(arr[..])[i := ss[0].key]
  {
    var _, node := PopBstStack(stack, true);
    var n: BstNode := node;
    arr[i] := n.data;
    current := n.right;
  }

  /**
    The inner loop of the traversal: push the node and go to its left child,
    until the pointer is NULL.
   */
  method PushLeftSpine(stack: BstStack, current: BstNode?, ghost s: Shape, ghost cur: Shape,
                       ghost ss: seq<Shape>, ghost done: seq<int>)
    returns (current': BstNode?, ghost cur': Shape, ghost ss': seq<Shape>)
    requires Linked(s) && current == Top(cur) && (cur.Cell? ==> cur in Cells(s))
    requires forall c :: c in NodesOf(s) ==> allocated(c)
    requires OnStack(ss, s) && Tops(ss) == stack.items
    requires current != null || stack.items != []
    modifies stack
    ensures Linked(s) && current' == null && cur' == Nil && ss' != [] && OnStack(ss', s) && Tops(ss') == stack.items
    ensures done + InOrder(TreeOfShape(cur)) + Pending(ss) == done + InOrder(TreeOfShape(Nil)) + Pending(ss')
  {
    current', cur', ss' := current, cur, ss;
    while current' != null
      invariant Linked(s) && current' == Top(cur') && (cur'.Cell? ==> cur' in Cells(s))
      invariant OnStack(ss', s) && Tops(ss') == stack.items
      invariant current' != null || ss' != []
      invariant done + InOrder(TreeOfShape(cur)) + Pending(ss) == done + InOrder(TreeOfShape(cur')) + Pending(ss')
      decreases cur'
    {
      var _ := PushBstStack(stack, current');
      PendingPush(done, cur', ss');
      CellsClosed(s, cur');
      assert ([cur'] + ss')[1..] == ss';
      current' := current'.left;
      cur', ss' := cur'.left, [cur'] + ss';
    }
  }

  /** A push of the current node c: the walk then owes c's left subtree, then c itself. */
  lemma PendingPush(p: seq<int>, c: Shape, ss: seq<Shape>)
    requires c.Cell?
    ensures p + InOrder(TreeOfShape(c)) + Pending(ss) == p + InOrder(TreeOfShape(c.left)) + Pending([c] + ss)
  {
    assert ([c] + ss)[0] == c && ([c] + ss)[1..] == ss;
  }

  /** A pop of c once nothing is left below the current pointer: c's key is stored, and its right subtree comes next. */
  lemma WalkStep(p: seq<int>, c: Shape, rest: seq<Shape>, whole: seq<int>, p': seq<int>)
    requires c.Cell? && p + InOrder(TreeOfShape(Nil)) + Pending([c] + rest) == whole && p' == p + [c.key]
    ensures p' + InOrder(TreeOfShape(c.right)) + Pending(rest) == whole
    ensures |p'| <= |whole|
  {
    assert ([c] + rest)[0] == c && ([c] + rest)[1..] == rest;
  }
}
