/**
  The abstract value of the unbalanced binary search tree shared by simple_bst.c,
  tree_sort.c and tree_sort_no_recursion.c: a binary tree of integer keys, its
  in-order sequence and key multiset, the ordering invariant (left <= key < right,
  because equal keys are sent left on insertion), and the operations of the C code
  stated as functions on tree values.  The heap classes in BstHeap are proved to
  follow these functions.
 */
module Trees {
  import opened Sequences

  datatype Tree = Leaf | Node(left: Tree, key: int, right: Tree)

  function InOrder(t: Tree): seq<int> {
    match t
    case Leaf => []
    case Node(l, k, r) => InOrder(l) + [k] + InOrder(r)
  }

  /** The multiset of keys stored in the tree. */
  function Keys(t: Tree): multiset<int> {
    match t
    case Leaf => multiset{}
    case Node(l, k, r) => Keys(l) + multiset{k} + Keys(r)
  }

  function Size(t: Tree): nat {
    match t
    case Leaf => 0
    case Node(l, _, r) => Size(l) + 1 + Size(r)
  }

  /** Every key of t is <= k. */
  predicate AllAtMost(t: Tree, k: int) {
    match t
    case Leaf => true
    case Node(l, x, r) => x <= k && AllAtMost(l, k) && AllAtMost(r, k)
  }

  /** Every key of t is > k. */
  predicate AllAbove(t: Tree, k: int) {
    match t
    case Leaf => true
    case Node(l, x, r) => k < x && AllAbove(l, k) && AllAbove(r, k)
  }

  /** The BST invariant of simple_bst.c: every key on the left is <= the node's key, every key on the right is >. */
  predicate Ordered(t: Tree) {
    match t
    case Leaf => true
    case Node(l, k, r) => Ordered(l) && Ordered(r) && AllAtMost(l, k) && AllAbove(r, k)
  }

  lemma {:induction false} AllAtMostKeys(t: Tree, k: int)
    ensures AllAtMost(t, k) <==> forall x :: x in Keys(t) ==> x <= k
  {
    match t
    case Leaf =>
    case Node(l, y, r) =>
      AllAtMostKeys(l, k);
      AllAtMostKeys(r, k);
      assert forall x :: x in Keys(t) <==> x in Keys(l) || x == y || x in Keys(r);
  }

  lemma {:induction false} AllAboveKeys(t: Tree, k: int)
    ensures AllAbove(t, k) <==> forall x :: x in Keys(t) ==> k < x
  {
    match t
    case Leaf =>
    case Node(l, y, r) =>
      AllAboveKeys(l, k);
      AllAboveKeys(r, k);
      assert forall x :: x in Keys(t) <==> x in Keys(l) || x == y || x in Keys(r);
  }

  lemma {:induction false} InOrderKeys(t: Tree)
    ensures multiset(InOrder(t)) == Keys(t)
    ensures |InOrder(t)| == Size(t)
  {
    match t
    case Leaf =>
    case Node(l, k, r) =>
      InOrderKeys(l);
      InOrderKeys(r);
  }

  /** An ordered tree lists its keys in non-decreasing order. */
  lemma {:induction false} OrderedInOrderSorted(t: Tree)
    requires Ordered(t)
    ensures Sorted(InOrder(t))
  {
    match t
    case Leaf =>
    case Node(l, k, r) =>
      OrderedInOrderSorted(l);
      OrderedInOrderSorted(r);
      InOrderKeys(l);
      InOrderKeys(r);
      AllAtMostKeys(l, k);
      AllAboveKeys(r, k);
      SortedAroundWhole(InOrder(l), k, InOrder(r));
  }

  // ---------------------------------------------------------------------------
  // Insertion (push_bst): descend left when data <= key, else right; the new
  // leaf goes in the empty slot reached.

  function BstInsert(t: Tree, x: int): (r: Tree)
    ensures Keys(r) == Keys(t) + multiset{x}
    ensures Size(r) == Size(t) + 1
  {
    match t
    case Leaf => Node(Leaf, x, Leaf)
    case Node(l, k, rt) =>
      if x <= k then Node(BstInsert(l, x), k, rt) else Node(l, k, BstInsert(rt, x))
  }

  lemma BstInsertBounds(t: Tree, x: int, k: int)
    ensures AllAtMost(t, k) && x <= k ==> AllAtMost(BstInsert(t, x), k)
    ensures AllAbove(t, k) && k < x ==> AllAbove(BstInsert(t, x), k)
  {
  }

  lemma {:induction false} BstInsertOrdered(t: Tree, x: int)
    requires Ordered(t)
    ensures Ordered(BstInsert(t, x))
  {
    match t
    case Leaf =>
    case Node(l, k, r) =>
      if x <= k {
        BstInsertOrdered(l, x);
        BstInsertBounds(l, x, k);
      } else {
        BstInsertOrdered(r, x);
        BstInsertBounds(r, x, k);
      }
  }

  /** The tree that inserting the keys of s one after another, from the empty tree, builds. */
  function Build(s: seq<int>): Tree {
    if s == [] then Leaf
    else
      assert s == s[..|s| - 1] + [s[|s| - 1]];
      BstInsert(Build(s[..|s| - 1]), s[|s| - 1])
  }

  /** One more push: the tree built from s followed by x. */
  lemma BuildStep(s: seq<int>, x: int, t: Tree, s': seq<int>)
    requires Build(s) == t && s' == s + [x]
    ensures Build(s') == BstInsert(t, x)
  {
    assert s'[..|s|] == s;
  }

  lemma {:induction false} BuildKeys(s: seq<int>)
    ensures Keys(Build(s)) == multiset(s)
    ensures Size(Build(s)) == |s|
  {
    if s != [] {
      BuildKeys(s[..|s| - 1]);
      assert s == s[..|s| - 1] + [s[|s| - 1]];
    }
  }

  lemma {:induction false} BuildOrdered(s: seq<int>)
    ensures Ordered(Build(s))
  {
    if s != [] {
      BuildOrdered(s[..|s| - 1]);
      BstInsertOrdered(Build(s[..|s| - 1]), s[|s| - 1]);
    }
  }

  /**
    The in-order sequence of the tree built from s is s sorted: non-decreasing,
    a permutation of s, and as long as s.
   */
  lemma BuildInOrder(s: seq<int>)
    ensures Sorted(InOrder(Build(s)))
    ensures multiset(InOrder(Build(s))) == multiset(s)
    ensures |InOrder(Build(s))| == |s|
  {
    BuildOrdered(s);
    OrderedInOrderSorted(Build(s));
    InOrderKeys(Build(s));
    BuildKeys(s);
  }

  // ---------------------------------------------------------------------------
  // Search (search_bst and pop_bst_search): the node holding the key, reached by
  // descending left when the key is smaller than the node's and right otherwise.

  predicate Contains(t: Tree, x: int) {
    match t
    case Leaf => false
    case Node(l, k, r) => k == x || (if x < k then Contains(l, x) else Contains(r, x))
  }

  /** In an ordered tree the search finds a key exactly when the key is stored. */
  lemma {:induction false} ContainsKeys(t: Tree, x: int)
    requires Ordered(t)
    ensures Contains(t, x) <==> x in Keys(t)
  {
    match t
    case Leaf =>
    case Node(l, k, r) =>
      ContainsKeys(l, x);
      ContainsKeys(r, x);
      AllAtMostKeys(l, k);
      AllAboveKeys(r, k);
  }

  // ---------------------------------------------------------------------------
  // Deletion (pop_bst): the first node on the search path holding the key is
  // removed; a node with two children takes the key of its in-order predecessor
  // (the maximum of its left subtree), whose node is unlinked instead.

  function MaxKey(t: Tree): (m: int)
    requires t.Node?
    ensures m in Keys(t)
  {
    if t.right.Leaf? then t.key else MaxKey(t.right)
  }

  /** The left subtree with its right-most node unlinked (that node's left child takes its place). */
  function RemoveMax(t: Tree): (r: Tree)
    requires t.Node?
    ensures Keys(r) + multiset{MaxKey(t)} == Keys(t)
  {
    if t.right.Leaf? then t.left else Node(t.left, t.key, RemoveMax(t.right))
  }

  lemma {:induction false} MaxKeyIsMax(t: Tree)
    requires t.Node? && Ordered(t)
    ensures AllAtMost(t, MaxKey(t))
  {
    if t.right.Node? {
      MaxKeyIsMax(t.right);
      AllAtMostWeaken(t.left, t.key, MaxKey(t.right));
    }
  }

  lemma AllAtMostWeaken(t: Tree, k: int, k': int)
    requires AllAtMost(t, k) && k <= k'
    ensures AllAtMost(t, k')
  {
  }

  lemma AllAboveWeaken(t: Tree, k: int, k': int)
    requires AllAbove(t, k) && k' <= k
    ensures AllAbove(t, k')
  {
  }

  lemma {:induction false} RemoveMaxBounds(t: Tree, k: int)
    requires t.Node?
    ensures AllAtMost(t, k) ==> AllAtMost(RemoveMax(t), k) && MaxKey(t) <= k
    ensures AllAbove(t, k) ==> AllAbove(RemoveMax(t), k) && k < MaxKey(t)
  {
    if t.right.Node? {
      RemoveMaxBounds(t.right, k);
    }
  }

  lemma {:induction false} RemoveMaxOrdered(t: Tree)
    requires t.Node? && Ordered(t)
    ensures Ordered(RemoveMax(t))
    ensures AllAtMost(RemoveMax(t), MaxKey(t))
  {
    MaxKeyIsMax(t);
    RemoveMaxBounds(t, MaxKey(t));
    if t.right.Node? {
      RemoveMaxOrdered(t.right);
      RemoveMaxBounds(t.right, t.key);
    }
  }

  /** The three cases of pop_bst for the node found: leaf, one child, two children. */
  function DeleteRoot(t: Tree): (r: Tree)
    requires t.Node?
    ensures Keys(r) + multiset{t.key} == Keys(t)
  {
    if t.left.Leaf? && t.right.Leaf? then Leaf
    else if t.left.Leaf? || t.right.Leaf? then (if t.left.Node? then t.left else t.right)
    else Node(RemoveMax(t.left), MaxKey(t.left), t.right)
  }

  function BstDelete(t: Tree, x: int): Tree {
    match t
    case Leaf => Leaf
    case Node(l, k, rt) =>
      if k == x then DeleteRoot(t)
      else if x < k then Node(BstDelete(l, x), k, rt)
      else Node(l, k, BstDelete(rt, x))
  }

  lemma {:induction false} ContainsInKeys(t: Tree, x: int)
    requires Contains(t, x)
    ensures x in Keys(t)
  {
    match t
    case Node(l, k, r) =>
      if k != x {
        if x < k { ContainsInKeys(l, x); } else { ContainsInKeys(r, x); }
      }
  }

  lemma RemoveInLeft(l: Tree, l': Tree, k: int, r: Tree, x: int)
    requires x in Keys(l) && Keys(l') == Keys(l) - multiset{x}
    ensures Keys(Node(l', k, r)) == Keys(Node(l, k, r)) - multiset{x}
  {
  }

  lemma RemoveInRight(l: Tree, k: int, r: Tree, r': Tree, x: int)
    requires x in Keys(r) && Keys(r') == Keys(r) - multiset{x}
    ensures Keys(Node(l, k, r')) == Keys(Node(l, k, r)) - multiset{x}
  {
  }

  /** When the search finds x, pop_bst removes exactly one copy of it. */
  lemma {:induction false} BstDeleteFound(t: Tree, x: int)
    requires Contains(t, x)
    ensures Keys(BstDelete(t, x)) == Keys(t) - multiset{x}
  {
    match t
    case Node(l, k, r) =>
      if k == x {
      } else if x < k {
        BstDeleteFound(l, x);
        ContainsInKeys(l, x);
        RemoveInLeft(l, BstDelete(l, x), k, r, x);
      } else {
        BstDeleteFound(r, x);
        ContainsInKeys(r, x);
        RemoveInRight(l, k, r, BstDelete(r, x), x);
      }
  }

  /** pop_bst removes exactly one copy of x when the search finds it, and nothing otherwise. */
  lemma BstDeleteKeys(t: Tree, x: int)
    ensures Keys(BstDelete(t, x)) == if Contains(t, x) then Keys(t) - multiset{x} else Keys(t)
  {
    if Contains(t, x) {
      BstDeleteFound(t, x);
    } else {
      BstDeleteAbsent(t, x);
    }
  }

  lemma DeleteRootBounds(t: Tree, k: int)
    requires t.Node?
    ensures AllAtMost(t, k) ==> AllAtMost(DeleteRoot(t), k)
    ensures AllAbove(t, k) ==> AllAbove(DeleteRoot(t), k)
  {
    if t.left.Node? && t.right.Node? {
      RemoveMaxBounds(t.left, k);
    }
  }

  lemma BstDeleteBounds(t: Tree, x: int, k: int)
    ensures AllAtMost(t, k) ==> AllAtMost(BstDelete(t, x), k)
    ensures AllAbove(t, k) ==> AllAbove(BstDelete(t, x), k)
  {
    match t
    case Leaf =>
    case Node(l, y, r) =>
      if y == x {
        DeleteRootBounds(t, k);
      } else {
        BstDeleteBounds(l, x, k);
        BstDeleteBounds(r, x, k);
      }
  }

  lemma {:induction false} DeleteRootOrdered(t: Tree)
    requires t.Node? && Ordered(t)
    ensures Ordered(DeleteRoot(t))
  {
    if t.left.Node? && t.right.Node? {
      RemoveMaxOrdered(t.left);
      RemoveMaxBounds(t.left, t.key);
      AllAboveWeaken(t.right, t.key, MaxKey(t.left));
    }
  }

  lemma {:induction false} BstDeleteOrdered(t: Tree, x: int)
    requires Ordered(t)
    ensures Ordered(BstDelete(t, x))
  {
    match t
    case Leaf =>
    case Node(l, k, r) =>
      if k == x {
        DeleteRootOrdered(t);
      } else if x < k {
        BstDeleteOrdered(l, x);
        BstDeleteBounds(l, x, k);
      } else {
        BstDeleteOrdered(r, x);
        BstDeleteBounds(r, x, k);
      }
  }

  /** Deleting a key that the search does not find leaves the tree as it was. */
  lemma {:induction false} BstDeleteAbsent(t: Tree, x: int)
    requires !Contains(t, x)
    ensures BstDelete(t, x) == t
  {
    match t
    case Leaf =>
    case Node(l, k, r) =>
      if x < k {
        BstDeleteAbsent(l, x);
      } else {
        BstDeleteAbsent(r, x);
      }
  }

  /**
    Delete, then search: in an ordered tree holding x exactly once, x is no longer
    found after deleting it; with more copies, one fewer remains and it is still found.
   */
  lemma DeleteThenSearch(t: Tree, x: int)
    requires Ordered(t) && x in Keys(t)
    ensures Keys(BstDelete(t, x))[x] == Keys(t)[x] - 1
    ensures Contains(BstDelete(t, x), x) <==> Keys(t)[x] > 1
  {
    ContainsKeys(t, x);
    BstDeleteKeys(t, x);
    BstDeleteOrdered(t, x);
    ContainsKeys(BstDelete(t, x), x);
  }

  // ---------------------------------------------------------------------------
  // Paths into a tree.  A descent from the root records one frame per node left
  // behind: its key, the direction taken and the subtree not taken.  Plugging a
  // subtree back into the frames rebuilds the whole tree; this is what writing
  // through the C code's `BSTNode **current` (or a parent's child link) does.

  datatype Frame = WentLeft(key: int, right: Tree) | WentRight(left: Tree, key: int)

  function Fill(f: Frame, t: Tree): Tree {
    match f
    case WentLeft(k, r) => Node(t, k, r)
    case WentRight(l, k) => Node(l, k, t)
  }

  /** The frames of a descent, the deepest last; Top is the root slot itself. */
  datatype Path = Top | Down(above: Path, frame: Frame)

  /** The whole tree, rebuilt around the subtree t at the end of the descent z. */
  function Plug(z: Path, t: Tree): Tree {
    match z
    case Top => t
    case Down(above, f) => Plug(above, Fill(f, t))
  }

  /** The frame of the root: the first step of a descent. */
  function FirstFrame(z: Path): Frame
    requires z.Down?
  {
    if z.above.Top? then z.frame else FirstFrame(z.above)
  }

  /** The descent without its first step, as seen from the root's child. */
  function BelowFirst(z: Path): Path
    requires z.Down?
  {
    if z.above.Top? then Top else Down(BelowFirst(z.above), z.frame)
  }

  lemma {:induction false} PlugFirst(z: Path, t: Tree)
    requires z.Down?
    ensures Plug(z, t) == Fill(FirstFrame(z), Plug(BelowFirst(z), t))
  {
    if z.above.Down? {
      PlugFirst(z.above, Fill(z.frame, t));
    }
  }

  /** Every frame goes the way push_bst goes for x: left when x <= key. */
  predicate InsertPath(z: Path, x: int) {
    match z
    case Top => true
    case Down(above, f) => (if f.WentLeft? then x <= f.key else x > f.key) && InsertPath(above, x)
  }

  /** Every frame goes the way the search for x goes past a key different from x. */
  predicate SearchPath(z: Path, x: int) {
    match z
    case Top => true
    case Down(above, f) => (if f.WentLeft? then x < f.key else x > f.key) && SearchPath(above, x)
  }

  /** Every frame goes right: the descent to the maximum. */
  predicate RightSpine(z: Path) {
    match z
    case Top => true
    case Down(above, f) => f.WentRight? && RightSpine(above)
  }

  /** The descent to the in-order predecessor of a root: one step left, then right all the way. */
  predicate PredecessorPath(z: Path) {
    match z
    case Top => false
    case Down(above, f) => if above.Top? then f.WentLeft? else f.WentRight? && PredecessorPath(above)
  }

  lemma {:induction false} InsertThroughPath(z: Path, t: Tree, x: int)
    requires InsertPath(z, x)
    ensures BstInsert(Plug(z, t), x) == Plug(z, BstInsert(t, x))
  {
    match z
    case Top =>
    case Down(above, f) => InsertThroughPath(above, Fill(f, t), x);
  }

  lemma {:induction false} SearchThroughPath(z: Path, t: Tree, x: int)
    requires SearchPath(z, x)
    ensures Contains(Plug(z, t), x) == Contains(t, x)
    ensures BstDelete(Plug(z, t), x) == Plug(z, BstDelete(t, x))
  {
    match z
    case Top =>
    case Down(above, f) => SearchThroughPath(above, Fill(f, t), x);
  }

  lemma {:induction false} MaxThroughSpine(z: Path, t: Tree)
    requires RightSpine(z) && t.Node?
    ensures Plug(z, t).Node?
    ensures MaxKey(Plug(z, t)) == MaxKey(t)
    ensures RemoveMax(Plug(z, t)) == Plug(z, RemoveMax(t))
  {
    match z
    case Top =>
    case Down(above, f) => MaxThroughSpine(above, Fill(f, t));
  }

  lemma {:induction false} PredecessorPathShape(z: Path)
    requires PredecessorPath(z)
    ensures FirstFrame(z).WentLeft? && RightSpine(BelowFirst(z))
  {
    if z.above.Down? {
      PredecessorPathShape(z.above);
    }
  }

  /**
    Removing the root of Plug(z, s), for z the descent to the root's in-order
    predecessor s, is the same tree with s unlinked (its left subtree in its place)
    and the root's key replaced by s's key.
   */
  lemma DeleteRootThroughPath(z: Path, s: Tree)
    requires PredecessorPath(z) && FirstFrame(z).WentLeft? && FirstFrame(z).right.Node?
    requires s.Node? && s.right.Leaf?
    ensures Plug(z, s).Node? && Plug(z, s.left).Node?
    ensures DeleteRoot(Plug(z, s)) == Node(Plug(z, s.left).left, s.key, Plug(z, s.left).right)
  {
    PredecessorPathShape(z);
    PlugFirst(z, s);
    PlugFirst(z, s.left);
    MaxThroughSpine(BelowFirst(z), s);
  }

  // ---------------------------------------------------------------------------
  // print_bst_sideways: right subtree, then the node indented by its depth, then
  // the left subtree.

  datatype Line = Line(level: int, key: int)

  function Sideways(t: Tree, level: int): seq<Line> {
    match t
    case Leaf => []
    case Node(l, k, r) => Sideways(r, level + 1) + [Line(level, k)] + Sideways(l, level + 1)
  }

  function LineKeys(lines: seq<Line>): (keys: seq<int>)
    ensures |keys| == |lines|
    ensures forall i :: 0 <= i < |lines| ==> keys[i] == lines[i].key
  {
    seq(|lines|, i requires 0 <= i < |lines| => lines[i].key)
  }

  /** The sideways printout lists the keys in reverse in-order, one line per node. */
  lemma {:induction false} SidewaysIsReverseInOrder(t: Tree, level: int)
    ensures LineKeys(Sideways(t, level)) == Reverse(InOrder(t))
  {
    match t
    case Leaf =>
    case Node(l, k, r) =>
      SidewaysIsReverseInOrder(l, level + 1);
      SidewaysIsReverseInOrder(r, level + 1);
      var a, b := Sideways(r, level + 1), Sideways(l, level + 1);
      assert LineKeys(a + [Line(level, k)] + b) == LineKeys(a) + [k] + LineKeys(b);
      ReverseAppend(InOrder(l) + [k], InOrder(r));
      ReverseAppend(InOrder(l), [k]);
  }

  /** Every line of the sideways printout is indented at least as deep as the subtree's root. */
  lemma {:induction false} SidewaysLevels(t: Tree, level: int)
    ensures forall i :: 0 <= i < |Sideways(t, level)| ==> Sideways(t, level)[i].level >= level
  {
    match t
    case Leaf =>
    case Node(l, k, r) =>
      SidewaysLevels(l, level + 1);
      SidewaysLevels(r, level + 1);
  }
}
