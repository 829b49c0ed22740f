/**
  The AVL tree of avl_tree.c as values.  A node stores its key and the height
  field the C code keeps up to date by hand; get_avl_height reads that field
  (0 for NULL) and get_avl_balance subtracts the right height from the left.

  Insert is insert_avl as written: descend left when data < key and right
  otherwise (equal keys go right), recompute the height, then apply one of
  the four rotation cases selected by the balance and strict comparisons of
  data with the child's key.  Where the C code would follow a NULL child
  pointer the result is NullDeref.  InsertCorrected is the same algorithm with
  the case selection made consistent with the descent (LL when data < left
  key, LR otherwise; RR when data >= right key, RL otherwise); the AVL
  invariant is proved for it, and Insert is proved to coincide with it on
  balanced trees that do not hold the key yet.
 */
module AvlSpec {
  import opened Sequences
  import opened Trees

  datatype AvlTree = Nil | Bin(left: AvlTree, key: int, height: int, right: AvlTree)

  /** The result of one insert_avl call: the new root, or a NULL pointer dereference. */
  datatype Outcome = NullDeref | Built(tree: AvlTree)

  /** The MAXIMUM macro. */
  function Max(a: int, b: int): int {
    if a > b then a else b
  }

  /** get_avl_height: 0 for NULL, otherwise the stored height field. */
  function Height(t: AvlTree): int {
    if t.Nil? then 0 else t.height
  }

  /** get_avl_balance: 0 for NULL, otherwise left height minus right height. */
  function Balance(t: AvlTree): int {
    if t.Nil? then 0 else Height(t.left) - Height(t.right)
  }

  /** A node whose height field is recomputed from its children, as after every relink. */
  function Fix(l: AvlTree, k: int, r: AvlTree): AvlTree {
    Bin(l, k, Max(Height(l), Height(r)) + 1, r)
  }

  /** The true height: the number of nodes on the longest downward path. */
  function Depth(t: AvlTree): nat {
    if t.Nil? then 0 else
      var dl, dr := Depth(t.left), Depth(t.right);
      (if dl > dr then dl else dr) + 1
  }

  /** Every stored height field equals 1 + the larger child height. */
  predicate HeightsOk(t: AvlTree) {
    t.Nil? || (HeightsOk(t.left) && HeightsOk(t.right) && t.height == Max(Height(t.left), Height(t.right)) + 1)
  }

  /** The AVL balance condition: every node's balance is -1, 0 or 1. */
  predicate Balanced(t: AvlTree) {
    t.Nil? || (Balanced(t.left) && Balanced(t.right) && -1 <= Balance(t) <= 1)
  }

  /** The binary search tree underneath, without the height fields. */
  function Strip(t: AvlTree): Tree {
    if t.Nil? then Leaf else Node(Strip(t.left), t.key, Strip(t.right))
  }

  /** With accurate height fields, get_avl_height is the true height. */
  lemma {:induction false} StoredHeightIsDepth(t: AvlTree)
    requires HeightsOk(t)
    ensures Height(t) == Depth(t)
  {
    if t.Bin? {
      StoredHeightIsDepth(t.left);
      StoredHeightIsDepth(t.right);
    }
  }

  lemma {:induction false} HeightNonNeg(t: AvlTree)
    requires HeightsOk(t)
    ensures Height(t) >= 0 && (t.Bin? ==> Height(t) >= 1)
  {
    if t.Bin? {
      HeightNonNeg(t.left);
      HeightNonNeg(t.right);
    }
  }

  // ---------------------------------------------------------------------------
  // Rotations.

  /**
    right_rotate_avl: the left child x becomes the root, y = the old root
    becomes x's right child and takes x's old right subtree as its left.  y's
    height is recomputed first, then x's.  The in-order key sequence is
    unchanged, and the two moved nodes get accurate heights whenever the
    three subtrees that are not moved have them.
   */
  function RotateRight(y: AvlTree): (r: AvlTree)
    requires y.Bin? && y.left.Bin?
    ensures r.Bin? && r.key == y.left.key && r.right.Bin? && r.right.key == y.key
    ensures r.left == y.left.left && r.right.left == y.left.right && r.right.right == y.right
    ensures InOrder(Strip(r)) == InOrder(Strip(y))
    ensures HeightsOk(y.left.left) && HeightsOk(y.left.right) && HeightsOk(y.right) ==> HeightsOk(r)
  {
    var x := y.left;
    var a, b, c := InOrder(Strip(x.left)), InOrder(Strip(x.right)), InOrder(Strip(y.right));
    assert a + [x.key] + (b + [y.key] + c) == a + [x.key] + b + [y.key] + c;
    Fix(x.left, x.key, Fix(x.right, y.key, y.right))
  }

  /** left_rotate_avl: the mirror image of right_rotate_avl. */
  function RotateLeft(x: AvlTree): (r: AvlTree)
    requires x.Bin? && x.right.Bin?
    ensures r.Bin? && r.key == x.right.key && r.left.Bin? && r.left.key == x.key
    ensures r.right == x.right.right && r.left.right == x.right.left && r.left.left == x.left
    ensures InOrder(Strip(r)) == InOrder(Strip(x))
    ensures HeightsOk(x.left) && HeightsOk(x.right.left) && HeightsOk(x.right.right) ==> HeightsOk(r)
  {
    var y := x.right;
    var a, b, c := InOrder(Strip(x.left)), InOrder(Strip(y.left)), InOrder(Strip(y.right));
    assert a + [x.key] + b + [y.key] + c == a + [x.key] + (b + [y.key] + c);
    Fix(Fix(x.left, x.key, y.left), y.key, y.right)
  }

  // ---------------------------------------------------------------------------
  // insert_avl as written.

  /**
    The rebalancing tail of insert_avl at node n (its height already
    recomputed) after data went into one of its subtrees: the four cases in
    the order of the source, each reading a child's key, which is a NULL
    dereference when that child is missing.
   */
  function Rebalance(n: AvlTree, x: int): Outcome
    requires n.Bin?
  {
    var b := Balance(n);
    if b > 1 && n.left.Nil? then NullDeref
    else if b > 1 && x < n.left.key then Built(RotateRight(n))
    else if b < -1 && n.right.Nil? then NullDeref
    else if b < -1 && x > n.right.key then Built(RotateLeft(n))
    else if b > 1 && x > n.left.key then
      if n.left.right.Nil? then NullDeref else Built(RotateRight(n.(left := RotateLeft(n.left))))
    else if b < -1 && x < n.right.key then
      if n.right.left.Nil? then NullDeref else Built(RotateLeft(n.(right := RotateRight(n.right))))
    else Built(n)
  }

  /** insert_avl(node, data) as written; allocation always succeeds. */
  function Insert(t: AvlTree, x: int): Outcome {
    match t
    case Nil => Built(Bin(Nil, x, 1, Nil))
    case Bin(l, k, _, r) =>
      if x < k then
        match Insert(l, x)
        case NullDeref => NullDeref
        case Built(l') => Rebalance(Fix(l', k, r), x)
      else
        match Insert(r, x)
        case NullDeref => NullDeref
        case Built(r') => Rebalance(Fix(l, k, r'), x)
  }

  /** The insert loop of the program: the keys of s, one insert_avl each, from t. */
  function InsertEach(t: AvlTree, s: seq<int>): Outcome
    decreases |s|
  {
    if s == [] then Built(t)
    else
      match Insert(t, s[0])
      case NullDeref => NullDeref
      case Built(t') => InsertEach(t', s[1..])
  }

  /** The unbalanced descent insert_avl performs before rebalancing: data < key goes left, anything else right. */
  function DescendInsert(t: Tree, x: int): Tree {
    match t
    case Leaf => Node(Leaf, x, Leaf)
    case Node(l, k, r) => if x < k then Node(DescendInsert(l, x), k, r) else Node(l, k, DescendInsert(r, x))
  }

  /** Rebalancing changes the shape, never the in-order key sequence. */
  lemma RebalanceInOrder(n: AvlTree, x: int)
    requires n.Bin? && Rebalance(n, x).Built?
    ensures InOrder(Strip(Rebalance(n, x).tree)) == InOrder(Strip(n))
  {
    var b := Balance(n);
    if b > 1 && x > n.left.key && !(x < n.left.key) {
      var m := n.(left := RotateLeft(n.left));
      assert InOrder(Strip(m)) == InOrder(Strip(n));
    } else if b < -1 && x < n.right.key && !(x > n.right.key) {
      var m := n.(right := RotateRight(n.right));
      assert InOrder(Strip(m)) == InOrder(Strip(n));
    }
  }

  /**
    The keys of insert_avl's result, read in order, are those of the plain
    descent insert: the rotations only move nodes, and equal keys are placed
    after the keys they equal.
   */
  lemma {:induction false} InsertInOrder(t: AvlTree, x: int)
    requires Insert(t, x).Built?
    ensures InOrder(Strip(Insert(t, x).tree)) == InOrder(DescendInsert(Strip(t), x))
  {
    match t
    case Nil =>
    case Bin(l, k, _, r) =>
      if x < k {
        InsertInOrder(l, x);
        RebalanceInOrder(Fix(Insert(l, x).tree, k, r), x);
      } else {
        InsertInOrder(r, x);
        RebalanceInOrder(Fix(l, k, Insert(r, x).tree), x);
      }
  }

  /** The descent insert adds exactly one occurrence of x. */
  lemma {:induction false} DescendInsertKeys(t: Tree, x: int)
    ensures Keys(DescendInsert(t, x)) == Keys(t) + multiset{x}
  {
    match t
    case Leaf =>
    case Node(l, k, r) =>
      if x < k {
        DescendInsertKeys(l, x);
      } else {
        DescendInsertKeys(r, x);
      }
  }

  /** The descent insert keeps the in-order sequence sorted. */
  lemma {:induction false} DescendInsertSorted(t: Tree, x: int)
    requires Sorted(InOrder(t))
    ensures Sorted(InOrder(DescendInsert(t, x)))
  {
    match t
    case Leaf =>
    case Node(l, k, r) =>
      var a, b := InOrder(l), InOrder(r);
      SortedAroundParts(a, k, b);
      if x < k {
        DescendInsertSorted(l, x);
        var a' := InOrder(DescendInsert(l, x));
        DescendInsertKeys(l, x);
        InOrderKeys(l);
        InOrderKeys(DescendInsert(l, x));
        BoundsKept(a, a', x, k, true);
        SortedAroundWhole(a', k, b);
      } else {
        DescendInsertSorted(r, x);
        var b' := InOrder(DescendInsert(r, x));
        DescendInsertKeys(r, x);
        InOrderKeys(r);
        InOrderKeys(DescendInsert(r, x));
        BoundsKept(b, b', x, k, false);
        SortedAroundWhole(a, k, b');
      }
  }

  /** Adding x to a bag bounded by k on one side keeps the bound when x meets it. */
  lemma BoundsKept(a: seq<int>, a': seq<int>, x: int, k: int, below: bool)
    requires multiset(a') == multiset(a) + multiset{x}
    requires below ==> x <= k && forall y :: y in multiset(a) ==> y <= k
    requires !below ==> k <= x && forall y :: y in multiset(a) ==> k <= y
    ensures below ==> forall y :: y in multiset(a') ==> y <= k
    ensures !below ==> forall y :: y in multiset(a') ==> k <= y
  {
  }

  /**
    insert_avl adds exactly one occurrence of data and keeps the keys in
    non-decreasing in-order sequence.
   */
  lemma InsertSorted(t: AvlTree, x: int)
    requires Insert(t, x).Built? && Sorted(InOrder(Strip(t)))
    ensures Sorted(InOrder(Strip(Insert(t, x).tree)))
    ensures multiset(InOrder(Strip(Insert(t, x).tree))) == multiset(InOrder(Strip(t))) + multiset{x}
  {
    InsertInOrder(t, x);
    DescendInsertSorted(Strip(t), x);
    DescendInsertKeys(Strip(t), x);
    InOrderKeys(Strip(t));
    InOrderKeys(DescendInsert(Strip(t), x));
  }

  /** Rebalancing keeps accurate height fields accurate. */
  lemma RebalanceHeights(n: AvlTree, x: int)
    requires n.Bin? && HeightsOk(n) && Rebalance(n, x).Built?
    ensures HeightsOk(Rebalance(n, x).tree)
  {
    var b := Balance(n);
    if b > 1 && x < n.left.key {
    } else if b < -1 && x > n.right.key {
    } else if b > 1 && x > n.left.key {
      assert HeightsOk(n.left) && HeightsOk(n.left.right);
      var m := RotateLeft(n.left);
      assert HeightsOk(m) && HeightsOk(m.left) && HeightsOk(m.right);
    } else if b < -1 && x < n.right.key {
      assert HeightsOk(n.right) && HeightsOk(n.right.left);
      var m := RotateRight(n.right);
      assert HeightsOk(m) && HeightsOk(m.left) && HeightsOk(m.right);
    }
  }

  /**
    Every height field stays equal to 1 + the larger child height after
    insert_avl.  The result is never empty, and when data differs from the
    root key, the subtree on data's side of the root is not empty either.
   */
  lemma {:induction false} InsertHeights(t: AvlTree, x: int)
    requires HeightsOk(t) && Insert(t, x).Built?
    ensures HeightsOk(Insert(t, x).tree)
  {
    match t
    case Nil =>
    case Bin(l, k, _, r) =>
      if x < k {
        InsertHeights(l, x);
        RebalanceHeights(Fix(Insert(l, x).tree, k, r), x);
      } else {
        InsertHeights(r, x);
        RebalanceHeights(Fix(l, k, Insert(r, x).tree), x);
      }
  }

  // ---------------------------------------------------------------------------
  // The corrected insert and the AVL invariant.

  /** What one insert into a balanced tree t with accurate heights promises about its result r. */
  ghost predicate AvlInsertPost(t: AvlTree, x: int, r: AvlTree) {
    r.Bin? && HeightsOk(r) && Balanced(r) && Height(t) <= Height(r) <= Height(t) + 1 &&
    (t.Bin? && Height(r) == Height(t) + 1 ==> r.key == t.key && Balance(r) == (if x < t.key then 1 else -1))
  }

  /** The rotation cases of insert_avl with the comparisons made consistent with the descent. */
  function RebalanceCorrected(n: AvlTree, x: int): AvlTree
    requires n.Bin?
    requires Balance(n) > 1 ==> n.left.Bin? && (x >= n.left.key ==> n.left.right.Bin?)
    requires Balance(n) < -1 ==> n.right.Bin? && (x < n.right.key ==> n.right.left.Bin?)
  {
    var b := Balance(n);
    if b > 1 && x < n.left.key then RotateRight(n)
    else if b < -1 && x >= n.right.key then RotateLeft(n)
    else if b > 1 && x >= n.left.key then RotateRight(n.(left := RotateLeft(n.left)))
    else if b < -1 && x < n.right.key then RotateLeft(n.(right := RotateRight(n.right)))
    else n
  }

  /**
    insert_avl with the corrected case selection: into a balanced tree with
    accurate heights it gives a balanced tree with accurate heights, at most
    one level taller, for every key including ones already present.
   */
  function InsertCorrected(t: AvlTree, x: int): (r: AvlTree)
    requires HeightsOk(t) && Balanced(t)
    ensures AvlInsertPost(t, x, r)
  {
    match t
    case Nil => Bin(Nil, x, 1, Nil)
    case Bin(l, k, _, rt) =>
      if x < k then
        var l' := InsertCorrected(l, x);
        InsertedLeft(t, x, l');
        RebalanceCorrected(Fix(l', k, rt), x)
      else
        var r' := InsertCorrected(rt, x);
        InsertedRight(t, x, r');
        RebalanceCorrected(Fix(l, k, r'), x)
  }

  /** The left-left case: a single right rotation restores balance and the old height. */
  lemma LeftLeft(l': AvlTree, k: int, r: AvlTree)
    requires l'.Bin? && HeightsOk(l') && Balanced(l') && Balance(l') == 1
    requires HeightsOk(r) && Balanced(r) && Height(l') == Height(r) + 2
    ensures HeightsOk(RotateRight(Fix(l', k, r))) && Balanced(RotateRight(Fix(l', k, r)))
    ensures Height(RotateRight(Fix(l', k, r))) == Height(r) + 2
  {
    var inner := Fix(l'.right, k, r);
    assert Height(l'.left) == Height(r) + 1 && Height(l'.right) == Height(r);
    assert Height(inner) == Height(r) + 1 && Balanced(inner);
    assert RotateRight(Fix(l', k, r)) == Fix(l'.left, l'.key, inner);
  }

  /** The left-right case: a left rotation of the child, then a right rotation (h is the stale height field). */
  lemma LeftRight(l': AvlTree, k: int, h: int, r: AvlTree)
    requires l'.Bin? && HeightsOk(l') && Balanced(l') && Balance(l') == -1
    requires HeightsOk(r) && Balanced(r) && Height(l') == Height(r) + 2
    ensures l'.right.Bin?
    ensures HeightsOk(RotateRight(Bin(RotateLeft(l'), k, h, r)))
    ensures Balanced(RotateRight(Bin(RotateLeft(l'), k, h, r)))
    ensures Height(RotateRight(Bin(RotateLeft(l'), k, h, r))) == Height(r) + 2
  {
    HeightNonNeg(l'.left);
    HeightNonNeg(r);
    assert Height(l'.right) == Height(r) + 1 && Height(l'.left) == Height(r);
    var z := l'.right;
    HeightNonNeg(z.left);
    HeightNonNeg(z.right);
    var lower := Fix(l'.left, l'.key, z.left);
    var upper := Fix(z.right, k, r);
    assert Height(lower) == Height(r) + 1 && Balanced(lower);
    assert Height(upper) == Height(r) + 1 && Balanced(upper);
    assert RotateRight(Bin(RotateLeft(l'), k, h, r)) == Fix(lower, z.key, upper);
  }

  /** The right-right case, mirror of LeftLeft. */
  lemma RightRight(l: AvlTree, k: int, r': AvlTree)
    requires r'.Bin? && HeightsOk(r') && Balanced(r') && Balance(r') == -1
    requires HeightsOk(l) && Balanced(l) && Height(r') == Height(l) + 2
    ensures HeightsOk(RotateLeft(Fix(l, k, r'))) && Balanced(RotateLeft(Fix(l, k, r')))
    ensures Height(RotateLeft(Fix(l, k, r'))) == Height(l) + 2
  {
    var inner := Fix(l, k, r'.left);
    assert Height(r'.right) == Height(l) + 1 && Height(r'.left) == Height(l);
    assert Height(inner) == Height(l) + 1 && Balanced(inner);
    assert RotateLeft(Fix(l, k, r')) == Fix(inner, r'.key, r'.right);
  }

  /** The right-left case, mirror of LeftRight. */
  lemma RightLeft(l: AvlTree, k: int, h: int, r': AvlTree)
    requires r'.Bin? && HeightsOk(r') && Balanced(r') && Balance(r') == 1
    requires HeightsOk(l) && Balanced(l) && Height(r') == Height(l) + 2
    ensures r'.left.Bin?
    ensures HeightsOk(RotateLeft(Bin(l, k, h, RotateRight(r'))))
    ensures Balanced(RotateLeft(Bin(l, k, h, RotateRight(r'))))
    ensures Height(RotateLeft(Bin(l, k, h, RotateRight(r')))) == Height(l) + 2
  {
    HeightNonNeg(r'.right);
    HeightNonNeg(l);
    assert Height(r'.left) == Height(l) + 1 && Height(r'.right) == Height(l);
    var z := r'.left;
    HeightNonNeg(z.left);
    HeightNonNeg(z.right);
    var lower := Fix(l, k, z.left);
    var upper := Fix(z.right, r'.key, r'.right);
    assert Height(lower) == Height(l) + 1 && Balanced(lower);
    assert Height(upper) == Height(l) + 1 && Balanced(upper);
    assert RotateLeft(Bin(l, k, h, RotateRight(r'))) == Fix(lower, z.key, upper);
  }

  /** After the insert went into the left subtree: the rebalancing is defined and keeps the invariant. */
  lemma InsertedLeft(t: AvlTree, x: int, l': AvlTree)
    requires t.Bin? && HeightsOk(t) && Balanced(t) && x < t.key
    requires AvlInsertPost(t.left, x, l')
    ensures var n := Fix(l', t.key, t.right);
      (Balance(n) > 1 ==> n.left.Bin? && (x >= n.left.key ==> n.left.right.Bin?)) &&
      (Balance(n) < -1 ==> n.right.Bin? && (x < n.right.key ==> n.right.left.Bin?))
    ensures Balance(Fix(l', t.key, t.right)) > 1 ==> t.left.Bin?
    ensures AvlInsertPost(t, x, RebalanceCorrected(Fix(l', t.key, t.right), x))
  {
    var l, k, r := t.left, t.key, t.right;
    HeightNonNeg(l);
    HeightNonNeg(r);
    var n := Fix(l', k, r);
    if Balance(n) > 1 {
      if x < l'.key {
        LeftLeft(l', k, r);
      } else {
        LeftRight(l', k, Height(n), r);
      }
    }
  }

  /** After the insert went into the right subtree: the rebalancing is defined and keeps the invariant. */
  lemma InsertedRight(t: AvlTree, x: int, r': AvlTree)
    requires t.Bin? && HeightsOk(t) && Balanced(t) && x >= t.key
    requires AvlInsertPost(t.right, x, r')
    ensures var n := Fix(t.left, t.key, r');
      (Balance(n) > 1 ==> n.left.Bin? && (x >= n.left.key ==> n.left.right.Bin?)) &&
      (Balance(n) < -1 ==> n.right.Bin? && (x < n.right.key ==> n.right.left.Bin?))
    ensures Balance(Fix(t.left, t.key, r')) < -1 ==> t.right.Bin?
    ensures AvlInsertPost(t, x, RebalanceCorrected(Fix(t.left, t.key, r'), x))
  {
    var l, k, r := t.left, t.key, t.right;
    HeightNonNeg(l);
    HeightNonNeg(r);
    var n := Fix(l, k, r');
    if Balance(n) < -1 {
      if x >= r'.key {
        RightRight(l, k, r');
      } else {
        RightLeft(l, k, Height(n), r');
      }
    }
  }

  /**
    On a balanced tree with accurate heights that does not hold x yet,
    insert_avl as written never dereferences NULL and does exactly what the
    corrected insert does; so it keeps the AVL invariant.
   */
  lemma {:induction false} InsertAgrees(t: AvlTree, x: int)
    requires HeightsOk(t) && Balanced(t) && x !in Keys(Strip(t))
    ensures Insert(t, x) == Built(InsertCorrected(t, x))
  {
    match t
    case Nil =>
    case Bin(l, k, _, r) =>
      if x < k {
        InsertAgrees(l, x);
        var l' := InsertCorrected(l, x);
        InsertedLeft(t, x, l');
        KeyNotAtRoot(l, x);
      } else {
        InsertAgrees(r, x);
        var r' := InsertCorrected(r, x);
        InsertedRight(t, x, r');
        KeyNotAtRoot(r, x);
      }
  }

  lemma KeyNotAtRoot(t: AvlTree, x: int)
    requires x !in Keys(Strip(t))
    ensures t.Bin? ==> x != t.key
  {
  }

  /** The AVL invariant for insert_avl as written, on keys not yet present. */
  lemma InsertBalanced(t: AvlTree, x: int)
    requires HeightsOk(t) && Balanced(t) && x !in Keys(Strip(t))
    ensures Insert(t, x).Built?
    ensures HeightsOk(Insert(t, x).tree) && Balanced(Insert(t, x).tree)
    ensures Height(t) <= Height(Insert(t, x).tree) <= Height(t) + 1
  {
    InsertAgrees(t, x);
  }

  // ---------------------------------------------------------------------------
  // Examples.

  /** InsertEach over a non-empty sequence: insert the first key, then the rest. */
  lemma InsertEachCons(t: AvlTree, x: int, s: seq<int>, t': AvlTree)
    requires Insert(t, x) == Built(t')
    ensures InsertEach(t, [x] + s) == InsertEach(t', s)
  {
    assert ([x] + s)[1..] == s;
  }

  /**
    The tree of the example in the program's documentation: root 3 with left
    subtree 1(-100, 2) and right subtree 10(4(3, -), 95(78, 489)).
   */
  const DocTree: AvlTree := Bin(Bin(Bin(Nil, -100, 1, Nil), 1, 2, Bin(Nil, 2, 1, Nil)), 3, 4, Bin(Bin(Bin(Nil, 3, 1, Nil), 4, 2, Nil), 10, 3, Bin(Bin(Nil, 78, 1, Nil), 95, 2, Bin(Nil, 489, 1, Nil))))

  /**
    The example of the program's documentation: inserting 3 10 2 1 -100 4 95
    3 489 78 gives DocTree; the insert of -100 performs the left-left right
    rotation at node 2, the only rotation of the run.
   */
  lemma DocExample()
    ensures InsertEach(Nil, [3, 10, 2, 1, -100, 4, 95, 3, 489, 78]) == Built(DocTree)
  {
    DocExampleFirstFive();
    DocExampleLastFive();
  }

  /** The first five inserts of the documented example. */
  lemma DocExampleFirstFive()
    ensures InsertEach(Nil, [3, 10, 2, 1, -100, 4, 95, 3, 489, 78]) ==
      InsertEach(Bin(Bin(Bin(Nil, -100, 1, Nil), 1, 2, Bin(Nil, 2, 1, Nil)), 3, 3, Bin(Nil, 10, 1, Nil)), [4, 95, 3, 489, 78])
  {
    var t0 := Bin(Nil, 3, 1, Nil);
    var t1 := Bin(Nil, 3, 2, Bin(Nil, 10, 1, Nil));
    var t2 := Bin(Bin(Nil, 2, 1, Nil), 3, 2, Bin(Nil, 10, 1, Nil));
    var t3 := Bin(Bin(Bin(Nil, 1, 1, Nil), 2, 2, Nil), 3, 3, Bin(Nil, 10, 1, Nil));
    var t4 := Bin(Bin(Bin(Nil, -100, 1, Nil), 1, 2, Bin(Nil, 2, 1, Nil)), 3, 3, Bin(Nil, 10, 1, Nil));
    DocFirstInserts();
    InsertEachCons(t3, -100, [4, 95, 3, 489, 78], t4);
    InsertEachCons(t2, 1, [-100, 4, 95, 3, 489, 78], t3);
    InsertEachCons(t1, 2, [1, -100, 4, 95, 3, 489, 78], t2);
    InsertEachCons(t0, 10, [2, 1, -100, 4, 95, 3, 489, 78], t1);
    InsertEachCons(Nil, 3, [10, 2, 1, -100, 4, 95, 3, 489, 78], t0);
  }

  /** The trees after each of the first five inserts; -100 rotates 2 right. */
  lemma DocFirstInserts()
    ensures Insert(Nil, 3) == Built(Bin(Nil, 3, 1, Nil))
    ensures Insert(Bin(Nil, 3, 1, Nil), 10) == Built(Bin(Nil, 3, 2, Bin(Nil, 10, 1, Nil)))
    ensures Insert(Bin(Nil, 3, 2, Bin(Nil, 10, 1, Nil)), 2) == Built(Bin(Bin(Nil, 2, 1, Nil), 3, 2, Bin(Nil, 10, 1, Nil)))
    ensures Insert(Bin(Bin(Nil, 2, 1, Nil), 3, 2, Bin(Nil, 10, 1, Nil)), 1) ==
      Built(Bin(Bin(Bin(Nil, 1, 1, Nil), 2, 2, Nil), 3, 3, Bin(Nil, 10, 1, Nil)))
    ensures Insert(Bin(Bin(Bin(Nil, 1, 1, Nil), 2, 2, Nil), 3, 3, Bin(Nil, 10, 1, Nil)), -100) ==
      Built(Bin(Bin(Bin(Nil, -100, 1, Nil), 1, 2, Bin(Nil, 2, 1, Nil)), 3, 3, Bin(Nil, 10, 1, Nil)))
  {
  }

  /** The last five inserts of the documented example; the second 3 goes right of the root, below 4. */
  lemma DocExampleLastFive()
    ensures InsertEach(Bin(Bin(Bin(Nil, -100, 1, Nil), 1, 2, Bin(Nil, 2, 1, Nil)), 3, 3, Bin(Nil, 10, 1, Nil)), [4, 95, 3, 489, 78]) == Built(DocTree)
  {
    var t4 := Bin(Bin(Bin(Nil, -100, 1, Nil), 1, 2, Bin(Nil, 2, 1, Nil)), 3, 3, Bin(Nil, 10, 1, Nil));
    var t5 := Bin(t4.left, 3, 3, Bin(Bin(Nil, 4, 1, Nil), 10, 2, Nil));
    var t6 := Bin(t4.left, 3, 3, Bin(Bin(Nil, 4, 1, Nil), 10, 2, Bin(Nil, 95, 1, Nil)));
    var t7 := Bin(t4.left, 3, 4, Bin(Bin(Bin(Nil, 3, 1, Nil), 4, 2, Nil), 10, 3, Bin(Nil, 95, 1, Nil)));
    var t8 := Bin(t4.left, 3, 4, Bin(Bin(Bin(Nil, 3, 1, Nil), 4, 2, Nil), 10, 3, Bin(Nil, 95, 2, Bin(Nil, 489, 1, Nil))));
    assert Insert(t4, 4) == Built(t5);
    assert Insert(t5, 95) == Built(t6);
    assert Insert(t6, 3) == Built(t7);
    assert Insert(t7, 489) == Built(t8);
    assert Insert(t8, 78) == Built(DocTree);
    InsertEachCons(t8, 78, [], DocTree);
    InsertEachCons(t7, 489, [78], t8);
    InsertEachCons(t6, 3, [489, 78], t7);
    InsertEachCons(t5, 95, [3, 489, 78], t6);
    InsertEachCons(t4, 4, [95, 3, 489, 78], t5);
    assert InsertEach(DocTree, []) == Built(DocTree);
  }

  /** Three inserts from the empty tree, one step at a time. */
  lemma InsertThree(a: int, b: int, c: int, t0: AvlTree, t1: AvlTree, t2: AvlTree)
    requires Insert(Nil, a) == Built(t0) && Insert(t0, b) == Built(t1) && Insert(t1, c) == Built(t2)
    ensures InsertEach(Nil, [a, b, c]) == Built(t2)
  {
    InsertEachCons(t1, c, [], t2);
    InsertEachCons(t0, b, [c], t1);
    InsertEachCons(Nil, a, [b, c], t0);
  }

  /** The balanced tree on 1, 2, 3 that each of the four rotation cases produces. */
  const OneTwoThree: AvlTree := Bin(Bin(Nil, 1, 1, Nil), 2, 2, Bin(Nil, 3, 1, Nil))

  /** Inserting 3, 2, 1 takes the left-left case: one right rotation at 3. */
  lemma LeftLeftExample()
    ensures InsertEach(Nil, [3, 2, 1]) == Built(OneTwoThree)
  {
    var t1 := Bin(Bin(Nil, 2, 1, Nil), 3, 2, Nil);
    assert Insert(t1, 1) == Built(RotateRight(Bin(Bin(Bin(Nil, 1, 1, Nil), 2, 2, Nil), 3, 3, Nil)));
    InsertThree(3, 2, 1, Bin(Nil, 3, 1, Nil), t1, OneTwoThree);
  }

  /** Inserting 1, 2, 3 takes the right-right case: one left rotation at 1. */
  lemma RightRightExample()
    ensures InsertEach(Nil, [1, 2, 3]) == Built(OneTwoThree)
  {
    var t1 := Bin(Nil, 1, 2, Bin(Nil, 2, 1, Nil));
    assert Insert(t1, 3) == Built(RotateLeft(Bin(Nil, 1, 3, Bin(Nil, 2, 2, Bin(Nil, 3, 1, Nil)))));
    InsertThree(1, 2, 3, Bin(Nil, 1, 1, Nil), t1, OneTwoThree);
  }

  /** Inserting 3, 1, 2 takes the left-right case: a left rotation at 1, then a right rotation at 3. */
  lemma LeftRightExample()
    ensures InsertEach(Nil, [3, 1, 2]) == Built(OneTwoThree)
  {
    var t1 := Bin(Bin(Nil, 1, 1, Nil), 3, 2, Nil);
    var n := Bin(Bin(Nil, 1, 2, Bin(Nil, 2, 1, Nil)), 3, 3, Nil);
    assert Insert(t1, 2) == Rebalance(n, 2);
    assert Insert(t1, 2) == Built(OneTwoThree);
    InsertThree(3, 1, 2, Bin(Nil, 3, 1, Nil), t1, OneTwoThree);
  }

  /** Inserting 1, 3, 2 takes the right-left case: a right rotation at 3, then a left rotation at 1. */
  lemma RightLeftExample()
    ensures InsertEach(Nil, [1, 3, 2]) == Built(OneTwoThree)
  {
    var t1 := Bin(Nil, 1, 2, Bin(Nil, 3, 1, Nil));
    var n := Bin(Nil, 1, 3, Bin(Bin(Nil, 2, 1, Nil), 3, 2, Nil));
    assert Insert(t1, 2) == Rebalance(n, 2);
    assert Insert(t1, 2) == Built(OneTwoThree);
    InsertThree(1, 3, 2, Bin(Nil, 1, 1, Nil), t1, OneTwoThree);
  }

  // ---------------------------------------------------------------------------
  // Where insert_avl as written goes wrong.

  /**
    Inserting 2, 1, 1: the second 1 equals the left child's key, so neither
    the left-left nor the left-right test fires and the root is left with
    balance 2, although the tree before was balanced.
   */
  lemma DuplicateLeavesImbalance()
    ensures InsertEach(Nil, [2, 1]) == Built(Bin(Bin(Nil, 1, 1, Nil), 2, 2, Nil))
    ensures Balanced(InsertEach(Nil, [2, 1]).tree)
    ensures InsertEach(Nil, [2, 1, 1]) == Built(Bin(Bin(Nil, 1, 2, Bin(Nil, 1, 1, Nil)), 2, 3, Nil))
    ensures Balance(InsertEach(Nil, [2, 1, 1]).tree) == 2
  {
    var a := Bin(Nil, 2, 1, Nil);
    var b := Bin(Bin(Nil, 1, 1, Nil), 2, 2, Nil);
    assert Insert(Nil, 2) == Built(a);
    assert Insert(a, 1) == Built(b);
    assert [2, 1][1..] == [1];
    assert [2, 1, 1][1..] == [1, 1];
    assert [1, 1][1..] == [1];
  }

  /**
    Inserting 1, 1, 1, 1 never rotates (every test is strict), leaving a right
    spine whose root has balance -3; inserting 0 then selects the right-left
    case and right_rotate_avl reads the left child of the root's right child,
    which is NULL.
   */
  lemma DuplicatesThenNullDeref()
    ensures InsertEach(Nil, [1, 1, 1, 1]) ==
      Built(Bin(Nil, 1, 4, Bin(Nil, 1, 3, Bin(Nil, 1, 2, Bin(Nil, 1, 1, Nil)))))
    ensures InsertEach(Nil, [1, 1, 1, 1, 0]) == NullDeref
  {
    var t1 := Bin(Nil, 1, 1, Nil);
    var t2 := Bin(Nil, 1, 2, t1);
    var t3 := Bin(Nil, 1, 3, t2);
    var t4 := Bin(Nil, 1, 4, t3);
    assert Insert(Nil, 1) == Built(t1);
    assert Insert(t1, 1) == Built(t2);
    assert Insert(t2, 1) == Built(t3);
    assert Insert(t3, 1) == Built(t4);
    assert Insert(t4, 0) == NullDeref;
    assert [1, 1, 1, 1][1..] == [1, 1, 1];
    assert [1, 1, 1][1..] == [1, 1];
    assert [1, 1][1..] == [1];
    assert [1, 1, 1, 1, 0][1..] == [1, 1, 1, 0];
    assert [1, 1, 1, 0][1..] == [1, 1, 0];
    assert [1, 1, 0][1..] == [1, 0];
    assert [1, 0][1..] == [0];
  }
}
