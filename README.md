# c-sorting in Dafny

A model of the five C files of c-sorting, with proofs about it:

- `simple_bst.c`: an unbalanced binary search tree of `int` keys. It supports push, search, pop by copying the in-order predecessor, clear, destroy and a sideways printer.
- `avl_tree.c`: an AVL tree with a height field per node, two rotations and a recursive insert. The insert rebalances with the four LL/RR/LR/RL cases.
- `tree_sort.c`: tree sort. The keys are pushed into the unbalanced tree and written back by a recursive in-order walk through a shared index.
- `tree_sort_no_recursion.c`: the same tree sort, with both recursions replaced by a linked stack of node pointers. An in-order walk uses one stack; a post-order teardown uses two.
- `merge_sort.c`: top-down merge sort over index ranges of one array, through a scratch buffer.

Each C file becomes one or two Dafny modules. Pure functions and lemmas carry the meaning; imperative methods follow the C code step by step and are proved against those functions.

| Dafny file | module | models |
|---|---|---|
| `sequences.dfy` | `Sequences` | `Sorted`, `Reverse`, small sequence lemmas |
| `status.dfy` | `Status` | the return codes OK, FAILED, NULL, EMPTY, ALLOC_FAILED and NOT_FOUND |
| `trees.dfy` | `Trees` | the unbalanced BST as a value; insert, search, delete and the sideways print as functions |
| `bst_heap.dfy` | `BstHeap` | `BSTNode`/`BST` as classes with a ghost footprint and value; post-order freeing; the descent trail |
| `simple_bst.dfy` | `SimpleBst` | every operation of `simple_bst.c` |
| `tree_sort.dfy` | `TreeSort` | `push_bst`, `tree_sort_recursive` and `tree_sort` of `tree_sort.c` |
| `tree_sort_no_recursion.dfy` | `TreeSortNoRecursion` | the stack, the two-stack `clear_bst`, `destroy_bst`, the iterative `tree_sort` |
| `merge_sort.dfy` | `MergeSort` | `merge`, `split_and_merge`, `merge_sort` |
| `sorts_agree.dfy` | `SortsAgree` | both sorts leave the same array |
| `avl_spec.dfy` | `AvlSpec` | the AVL tree as a value; `insert_avl` as written and corrected; the AVL invariant |
| `avl_tree.dfy` | `AvlHeap` | `AVLNode` as a class; rotations, insert, destroy and print in place |

Conventions:

- The BST ordering invariant is `Trees.Ordered`: every key on the left is ≤ the node's key, and every key on the right is >. Push sends equal keys left.
- `insert_avl` sends equal keys right. Its rotations can then move an equal key into a left subtree. For the AVL tree the model therefore proves only that the in-order key sequence stays non-decreasing, not a strict tie rule.
- An AVL insert is meant to leave every node's balance in {-1, 0, 1}. `insert_avl` does not do so for duplicate keys; see "## Findings". The model follows the code: `AvlSpec.Insert` and `AvlHeap.InsertAvl` are `insert_avl` as written.
- For fresh keys in a balanced tree, `AvlSpec.InsertAgrees` proves that the as-written insert equals `AvlSpec.InsertCorrected`. On those inputs the invariant therefore holds for the code as written too (`AvlSpec.InsertBalanced`).

## Model

| member | source | states |
|---|---|---|
| Trees.BstInsert | simple_bst.c:321-351 | a push adds exactly one occurrence of the key to the key multiset and one node |
| Trees.BstInsertOrdered | simple_bst.c:330-341 | a push, ties going left, keeps left ≤ key < right at every node |
| Trees.InsertThroughPath | simple_bst.c:330-341 | hanging the leaf at the empty link reached by the push descent is the push into the whole tree |
| Trees.ContainsKeys | simple_bst.c:449-455 | in an ordered tree the search descent finds x exactly when x is stored |
| Trees.SearchThroughPath | simple_bst.c:365-378 | below a search descent, search and delete on the whole tree equal search and delete on the subtree reached |
| Trees.MaxKey | simple_bst.c:421-427 | the predecessor's key, at the end of the right spine of the left subtree, is one of the subtree's keys |
| Trees.MaxKeyIsMax | simple_bst.c:421-427 | in an ordered tree that key is the maximum of the subtree |
| Trees.RemoveMax | simple_bst.c:429-436 | unlinking the predecessor, its left child in its place, removes exactly its key |
| Trees.DeleteRoot | simple_bst.c:401-438 | each of the three removal cases removes exactly the removed node's key |
| Trees.DeleteRootOrdered | simple_bst.c:420-438 | copying the predecessor's key into the node keeps the tree ordered |
| Trees.DeleteRootThroughPath | simple_bst.c:421-436 | unlinking the predecessor and copying its key is the removal of the node's key |
| Trees.BstDeleteKeys | simple_bst.c:386-439 | pop removes exactly one copy of x when the search finds it, and none otherwise |
| Trees.BstDeleteOrdered | simple_bst.c:386-439 | pop keeps the tree ordered |
| Trees.BstDeleteAbsent | simple_bst.c:399-400 | popping a key the search does not find leaves the tree as it was |
| Trees.DeleteThenSearch | simple_bst.c:386-456 | after popping x, x is found again exactly when the tree held more than one copy, and one copy fewer remains |
| Trees.BuildKeys | tree_sort.c:335-343 | the tree built by pushing s in order holds the multiset of s and has \|s\| nodes |
| Trees.BuildInOrder | tree_sort.c:335-345 | the in-order keys of that tree are sorted, a permutation of s and exactly \|s\| long |
| Trees.OrderedInOrderSorted | tree_sort.c:307-313 | an ordered tree's in-order walk is non-decreasing |
| Trees.SidewaysIsReverseInOrder | simple_bst.c:501-509 | the sideways printout lists the keys in reverse in-order, one line per node |
| Trees.SidewaysLevels | simple_bst.c:501-509 | every printed line is indented at least as deep as its subtree's root |
| BstHeap.BstNode.Leaf | simple_bst.c:295-307 | `new_bst_node(data, NULL, NULL)` is a valid fresh one-node tree holding data |
| BstHeap.Bst.constructor | simple_bst.c:309-319 | `new_bst` is a valid empty tree |
| BstHeap.PostOrderFreesEachOnce | simple_bst.c:458-466 | the post-order free sequence frees every node of the subtree exactly once, each after its children, and nothing else |
| BstHeap.PostOrderSize | simple_bst.c:458-466 | the post-order free sequence has one entry per node |
| SimpleBst.BstReplaceNode | simple_bst.c:215-225 | writing into the root slot or the selected child slot replaces that subtree inside the whole tree; the footprint loses the old subtree's nodes and gains the new one's |
| SimpleBst.PushBstSlot | simple_bst.c:329-340 | the pointer-to-pointer descent ends at an empty link along the push path of data |
| SimpleBst.PushLeaf | simple_bst.c:329-350 | the new leaf at that link makes the tree the push of data into the old one |
| SimpleBst.PushBst | simple_bst.c:321-351 | NULL tree gives the NULL code; otherwise OK and the tree becomes `BstInsert(old, data)` |
| SimpleBst.PopBstSearch | simple_bst.c:353-384 | NOT_FOUND exactly when the search fails; otherwise the node holding data, its parent (NULL at the root) and its side |
| SimpleBst.PredecessorWalk | simple_bst.c:421-427 | one step left, then right while possible, reaches a node without a right child along the predecessor path |
| SimpleBst.UnlinkBottom | simple_bst.c:429-436 | the predecessor is replaced under its parent by its left child |
| SimpleBst.SetKey | simple_bst.c:428 | the node's key becomes the given one and nothing else changes |
| SimpleBst.ReplaceWithPredecessor | simple_bst.c:420-438 | the node's subtree becomes `DeleteRoot` of the old subtree; its footprint loses exactly the returned node, the predecessor freed at line 437, whose key (the maximum of the left subtree) is the one copied into the node |
| SimpleBst.SpliceOut | simple_bst.c:401-419 | a node with at most one child is replaced by that child or NULL; the tree's footprint loses exactly that node, the one freed at line 405 or 417 |
| SimpleBst.RemoveTwoChildren | simple_bst.c:420-438 | the two-children case, seen from the whole tree: the removal through the descent; the tree's footprint loses exactly the returned predecessor, whose key is the maximum of the node's left subtree |
| SimpleBst.PopBst | simple_bst.c:386-439 | NULL tree gives NULL; OK exactly when data is found, NOT_FOUND otherwise; the tree becomes `BstDelete(old, data)`; on OK it returns the one node freed, which is all the footprint loses, and on NOT_FOUND the footprint is unchanged |
| SimpleBst.SearchBst | simple_bst.c:441-456 | NULL tree gives NULL; OK exactly when the search finds data, NOT_FOUND otherwise; read-only |
| SimpleBst.ClearBstRecursive | simple_bst.c:458-466 | the frees happen in the post-order of the subtree |
| SimpleBst.ClearBst | simple_bst.c:468-478 | NULL gives NULL and frees nothing; otherwise OK, root NULL, empty tree, every node freed in post-order |
| SimpleBst.DestroyBst | simple_bst.c:480-499 | NULL handle gives NULL; a handle to NULL gives OK and frees nothing; otherwise the nodes go in post-order, the tree record goes and the handle is NULL |
| SimpleBst.PrintBstSidewaysRecursive | simple_bst.c:501-509 | the lines printed are `Sideways` of the subtree; their keys are the reverse in-order |
| SimpleBst.PrintBstSideways | simple_bst.c:511-520 | NULL tree gives NULL and prints nothing; otherwise OK and the whole tree's sideways lines |
| SimpleBst.DocExample | simple_bst.c:8-26 | pushing 3 10 2 1 -100 4 95 3 489 78 prints the picture of the file header |
| SimpleBst.DocTree | simple_bst.c:8-26 | those pushes build the tree of that picture; the second 3 becomes the right child of 2 |
| TreeSort.PushBst | tree_sort.c:208-262 | on an existing tree: OK, and the tree becomes `BstInsert(old, data)` |
| TreeSort.ParentWalk | tree_sort.c:224-261 | the `while (1)` walk stops at the node whose link on data's side is NULL, along the push path |
| TreeSort.HangLeaf | tree_sort.c:227-260 | the write of the new leaf into that link plugs the leaf into the descent |
| TreeSort.TreeSortRecursive | tree_sort.c:307-313 | writes the subtree's in-order keys into `arr[index..index+size)`, returns `index+size` and changes no other cell |
| TreeSort.WalkJoin | tree_sort.c:309-312 | the left walk, the store and the right walk together write `L + [key] + R` and touch nothing else |
| TreeSort.PushAll | tree_sort.c:335-343 | the push loop leaves the tree built from `arr[..count]` |
| TreeSort.WriteBack | tree_sort.c:344-345 | the first count cells receive the tree's in-order keys; the rest of arr and the tree are unchanged |
| TreeSort.DestroyTree | tree_sort.c:346-347 | the cleanup frees every node in post-order |
| TreeSort.TreeSort | tree_sort.c:315-356 | NULL arr gives NULL; count < 2 leaves arr alone; otherwise `arr[..count]` becomes the in-order keys of the built tree, sorted and a permutation, and the cells past count are unchanged |
| TreeSortNoRecursion.BstStack.constructor | tree_sort_no_recursion.c:250-263 | `new_bst_stack` is empty |
| TreeSortNoRecursion.PushBstStack | tree_sort_no_recursion.c:265-284 | NULL stack gives NULL; otherwise the pointer goes on top |
| TreeSortNoRecursion.PopBstStack | tree_sort_no_recursion.c:286-304 | NULL gives NULL; empty gives EMPTY and stays empty; otherwise OK, the top goes, and it is handed back only when node_ref was given |
| TreeSortNoRecursion.PushThenPop | tree_sort_no_recursion.c:265-304 | a push then a pop returns the pushed pointer and the stack as it was (LIFO) |
| TreeSortNoRecursion.DestroyBstStack | tree_sort_no_recursion.c:306-330 | NULL handle gives NULL; a handle to NULL gives OK; otherwise the stack is emptied and the handle set to NULL, with no tree node touched |
| TreeSortNoRecursion.RevPreIsReversedPostOrder | tree_sort_no_recursion.c:426-470 | the order s1 → s2 leaves (node, right, left), read backwards, is the post-order |
| TreeSortNoRecursion.MoveStep | tree_sort_no_recursion.c:426-464 | one round of the first loop keeps s1 on cells of the tree and moves exactly one node of the reverse pre-order to s2 |
| TreeSortNoRecursion.MoveOne | tree_sort_no_recursion.c:428-463 | the popped node goes on s2, then its left and then its right child (if any) on s1 |
| TreeSortNoRecursion.MoveAll | tree_sort_no_recursion.c:426-464 | the first loop empties s1 and leaves the tree's reverse pre-order on s2 |
| TreeSortNoRecursion.FreeAll | tree_sort_no_recursion.c:465-470 | the second loop frees s2's pointers from the top, emptying it |
| TreeSortNoRecursion.ClearNodes | tree_sort_no_recursion.c:407-470 | the two loops free every node in post-order |
| TreeSortNoRecursion.ClearBst | tree_sort_no_recursion.c:396-476 | NULL gives NULL; an empty tree gives OK; otherwise OK, root NULL, and every node freed in post-order (each once, children first, by `BstHeap.PostOrderFreesEachOnce`) |
| TreeSortNoRecursion.DestroyBst | tree_sort_no_recursion.c:478-497 | NULL handle gives NULL; a handle to NULL gives OK; otherwise the tree is cleared in post-order and the handle is NULL |
| TreeSortNoRecursion.PendingPush | tree_sort_no_recursion.c:541-550 | pushing the current node defers its key and right subtree until after its left subtree |
| TreeSortNoRecursion.PushLeftSpine | tree_sort_no_recursion.c:541-550 | the inner loop pushes the left spine and keeps the keys still owed unchanged |
| TreeSortNoRecursion.WalkStep | tree_sort_no_recursion.c:551-553 | popping a node whose left side is done emits its key next and continues with its right subtree |
| TreeSortNoRecursion.StoreTop | tree_sort_no_recursion.c:551-553 | the pop stores the top node's key at `arr[i]` and returns its right child |
| TreeSortNoRecursion.WalkRound | tree_sort_no_recursion.c:541-553 | one outer round emits exactly the next in-order key and keeps emitted + owed = whole |
| TreeSortNoRecursion.WalkInOrder | tree_sort_no_recursion.c:537-554 | the traversal writes exactly the tree's in-order keys to the front of arr and ends with an empty stack |
| TreeSortNoRecursion.Traverse | tree_sort_no_recursion.c:537-556 | traversal plus stack cleanup: `arr[..count]` is the in-order keys, the rest unchanged |
| TreeSortNoRecursion.DropStack | tree_sort_no_recursion.c:555-556 | the stack is emptied |
| TreeSortNoRecursion.DestroyTree | tree_sort_no_recursion.c:557 | the tree's nodes are freed in post-order |
| TreeSortNoRecursion.TreeSort | tree_sort_no_recursion.c:499-566 | NULL arr gives NULL; count < 2 is a no-op; otherwise exactly the array `tree_sort.c` leaves: the built tree's in-order keys, sorted and a permutation |
| MergeSort.MergePermutes | merge_sort.c:83-101 | the merge has the two runs' length and is a permutation of them together |
| MergeSort.MergeSorted | merge_sort.c:78-106 | two sorted runs merge into a sorted run |
| MergeSort.MergeRightFirst | merge_sort.c:85-92 | on ties the right run's element is taken first: if no right element exceeds the left head, all of the right run comes first |
| MergeSort.SortSeqSorts | merge_sort.c:65-76 | the split-and-merge value of a range is sorted and a permutation of it |
| MergeSort.Advance | merge_sort.c:83-101 | one step of any of the three loops keeps "buffer so far + merge of the rest = whole merge" |
| MergeSort.TakeSmaller | merge_sort.c:83-93 | the first loop ends with one run exhausted, the invariant kept and the buffer written only inside the range |
| MergeSort.TakeLeftRest | merge_sort.c:94-97 | the second loop copies the rest of the left run, ending at i == middle |
| MergeSort.TakeRightRest | merge_sort.c:98-101 | the third loop copies the rest of the right run, ending at j == right and k == right |
| MergeSort.FillBuffer | merge_sort.c:80-101 | the loops end with i == middle, j == right, k == right and `buffer[left..right)` holding the merge; buffer unchanged outside |
| MergeSort.Merge | merge_sort.c:78-106 | `arr[left..right)` becomes the merge of its two halves; nothing outside changes in arr or buffer |
| MergeSort.SplitJoin | merge_sort.c:72-75 | the two recursive calls and the merge together leave the sorted range and nothing else changed |
| MergeSort.SplitAndMerge | merge_sort.c:65-76 | `arr[left..right)` becomes `SortSeq` of its old contents (unchanged when at most one long); nothing outside changes |
| MergeSort.MergeSort | merge_sort.c:48-63 | count < 2 leaves arr alone; otherwise `arr[..count]` ends sorted, a permutation, and the rest unchanged |
| SortsAgree.MergeSortMatchesTreeSort | tree_sort.c:335-345 | merge sort and tree sort produce the same array for every input |
| AvlSpec.StoredHeightIsDepth | avl_tree.c:260-263 | with accurate height fields, `get_avl_height` is the true height |
| AvlSpec.RotateRight | avl_tree.c:196-205 | the left child becomes the root with the old root on its right taking the old middle subtree; in-order unchanged; heights accurate if the unmoved subtrees' are |
| AvlSpec.RotateLeft | avl_tree.c:207-216 | the mirror image, with the same two guarantees |
| AvlSpec.RebalanceInOrder | avl_tree.c:264-283 | the rebalancing never changes the in-order key sequence |
| AvlSpec.RebalanceHeights | avl_tree.c:264-283 | rebalancing keeps accurate height fields accurate |
| AvlSpec.InsertInOrder | avl_tree.c:218-284 | the in-order keys after `insert_avl` are those of a plain descent insert with ties going right |
| AvlSpec.DescendInsertKeys | avl_tree.c:234-259 | the descent adds exactly one occurrence of data |
| AvlSpec.DescendInsertSorted | avl_tree.c:234-259 | the descent keeps the in-order keys sorted |
| AvlSpec.InsertSorted | avl_tree.c:218-284 | `insert_avl` adds exactly one occurrence of data and keeps the in-order keys sorted |
| AvlSpec.InsertHeights | avl_tree.c:218-284 | every height field stays 1 + the larger child height |
| AvlSpec.InsertCorrected | avl_tree.c:264-283 | with consistent case selection, a balanced tree with accurate heights stays so, grows by at most one level, and is defined for every key, duplicates included |
| AvlSpec.LeftLeft | avl_tree.c:265-268 | in the left-left case one right rotation restores balance and the old height |
| AvlSpec.RightRight | avl_tree.c:269-272 | in the right-right case one left rotation restores balance and the old height |
| AvlSpec.LeftRight | avl_tree.c:273-277 | in the left-right case the double rotation is defined and restores balance and the old height |
| AvlSpec.RightLeft | avl_tree.c:278-282 | in the right-left case the double rotation is defined and restores balance and the old height |
| AvlSpec.InsertedLeft | avl_tree.c:234-283 | after an insert into the left subtree, the rotations read no NULL child and the invariant holds |
| AvlSpec.InsertedRight | avl_tree.c:247-283 | the same after an insert into the right subtree |
| AvlSpec.InsertAgrees | avl_tree.c:218-284 | on a balanced tree without data, `insert_avl` as written never dereferences NULL and equals the corrected insert |
| AvlSpec.InsertBalanced | avl_tree.c:218-284 | on those inputs `insert_avl` keeps every balance in {-1, 0, 1}, keeps heights accurate and grows by at most one level |
| AvlSpec.DocExample | avl_tree.c:8-27 | inserting 3 10 2 1 -100 4 95 3 489 78 gives root 3, left 1(-100, 2), right 10(4(3, -), 95(78, 489)) |
| AvlSpec.DocExampleFirstFive | avl_tree.c:8-27 | the first five inserts of that run, one LL rotation at 2 included |
| AvlSpec.DocExampleLastFive | avl_tree.c:8-27 | the last five inserts of that run, without rotation |
| AvlSpec.LeftLeftExample | avl_tree.c:265-268 | 3, 2, 1 ends as 2(1, 3) |
| AvlSpec.RightRightExample | avl_tree.c:269-272 | 1, 2, 3 ends as 2(1, 3) |
| AvlSpec.LeftRightExample | avl_tree.c:273-277 | 3, 1, 2 ends as 2(1, 3) |
| AvlSpec.RightLeftExample | avl_tree.c:278-282 | 1, 3, 2 ends as 2(1, 3) |
| AvlSpec.DuplicateLeavesImbalance | avl_tree.c:265-277 | 2, 1 is balanced, but inserting 1 again leaves the root with balance 2 |
| AvlSpec.DuplicatesThenNullDeref | avl_tree.c:278-281 | 1, 1, 1, 1 builds a right chain of height 4, and inserting 0 then dereferences NULL |
| AvlHeap.AvlNode.constructor | avl_tree.c:171-184 | `new_avl_node` is a valid node over two disjoint subtrees with the given key and height |
| AvlHeap.GetAvlHeight | avl_tree.c:186-189 | the height of the node's value: 0 for NULL, else the stored field |
| AvlHeap.GetAvlBalance | avl_tree.c:191-194 | the balance of the node's value: 0 for NULL, else left height minus right height |
| AvlHeap.SetNode | avl_tree.c:200-203 | relinking a node and setting its height gives a valid node over the new children |
| AvlHeap.RightRotateAvl | avl_tree.c:196-205 | returns the old left child x with `x.right == y` and `y.left == old x.right`; same node set; value `RotateRight` of the old one |
| AvlHeap.LeftRotateAvl | avl_tree.c:207-216 | the mirror image, with value `RotateLeft` of the old one |
| AvlHeap.LeftRightAvl | avl_tree.c:273-277 | left rotation of the left child, relink, right rotation; same node set |
| AvlHeap.RightLeftAvl | avl_tree.c:278-282 | right rotation of the right child, relink, left rotation; same node set |
| AvlHeap.RebalanceAvl | avl_tree.c:264-283 | the four cases in place; same node set; the new subtree is `Rebalance` of the old one |
| AvlHeap.InsertLeftBelow | avl_tree.c:234-263 | the left descent and height update in place; exactly one fresh node added |
| AvlHeap.InsertRightBelow | avl_tree.c:247-263 | the right descent and height update in place; exactly one fresh node added |
| AvlHeap.InsertAvl | avl_tree.c:218-284 | the returned root holds `Insert(old, data)` over the old nodes plus exactly one fresh node |
| AvlHeap.PostOrderFreesEachOnce | avl_tree.c:286-292 | the post-order free sequence frees every node once, children first, and nothing else |
| AvlHeap.DestroyAvl | avl_tree.c:286-292 | the frees happen in post-order |
| AvlHeap.PrintAvlSideways | avl_tree.c:294-302 | the lines printed are `Sideways` of the tree; their keys are the reverse in-order |
| AvlHeap.DocPicture | avl_tree.c:15-26 | the example tree prints as the picture in the file header |

## Left out

- `main` of every file, argument parsing, `safe_atoi` and `atoi`: these are I/O. Printing is modelled as the returned sequence of (indentation level, key) lines, not as characters on stdout.
- Allocation failure: `malloc` always succeeds in the model. The ALLOC_FAILED returns are not modelled, and neither are the FAILED paths they feed: `push_bst`, `new_bst`, the stack functions, `clear_bst` and `tree_sort` of `tree_sort_no_recursion.c`, and `tree_sort` of `tree_sort.c`. The same goes for the NULL returns of `insert_avl` (avl_tree.c:225-257) and the `exit(1)` of `merge_sort` (merge_sort.c:51-55).
- `free`: Dafny cannot deallocate. Each operation that frees tree nodes returns what it frees instead. The clears and destroys return the sequence of nodes in free order; `pop_bst` returns, as a ghost result, the one node it frees, and that node leaves the tree's footprint. Use after free and leaks are not modelled. The stack cells that `pop_bst_stack` and `destroy_bst_stack` free are not objects in the model (see below). `merge_sort` frees its buffer; it is a local array in the model.
- `BST **` and `BSTStack **` handles are one-field classes (`BstRef`, `StackRef`), so that a NULL handle can be represented. `pop_bst_stack`'s optional `node_ref` is a boolean `wantNode`.
- The cells of the linked stack (`BSTStackNode`) are not objects in the model. The stack is the sequence of the pointers it holds, top first. `destroy_bst_stack` frees the cells top to bottom; the model empties the sequence.
- `clear_bst` and `destroy_bst` of `tree_sort.c` are the same code as in `simple_bst.c` and are modelled once, by `SimpleBst.ClearBst` and `SimpleBst.DestroyBst`. `push_bst` of `tree_sort.c` has no NULL check and walks down with a parent pointer instead of a pointer-to-pointer. It is modelled separately, by `TreeSort.PushBst` (through `TreeSort.ParentWalk` and `TreeSort.HangLeaf`). `push_bst` of `tree_sort_no_recursion.c` is the same walk as in `tree_sort.c`, differing only in reaching its allocation-failure return through a `goto`, and is also `TreeSort.PushBst`.
- Integer widths: keys are only compared and heights stay tiny, so `int` is unbounded in the model. `(left + right) / 2` at merge_sort.c:72 cannot overflow for array indices in the model.
- Recursion depth: native stack overflow on deep unbalanced trees is not modelled.
- `merge_sort` is not given a NULL array: the code does not check for one. `count` must be at most the array's length, as the C caller guarantees.
- AvlHeap.InsertAvl: requires that the as-written insert does not dereference NULL (`Insert(...).Built?`). The C code has undefined behaviour there. `AvlSpec.InsertAgrees` shows this always holds for balanced trees and fresh keys.
- AvlHeap.RebalanceAvl: requires the same, for the one rebalancing step.
- AvlSpec.InsertCorrected: its contract states the AVL shape invariant (balance, heights, growth by at most one level), not the key multiset; for fresh keys the keys follow from `AvlSpec.InsertAgrees` and `AvlSpec.InsertSorted`.
- The AVL tree: only a non-decreasing in-order sequence is proved, not "equal keys to the right of the first copy", because rotations move equal keys.
- AVL search and delete do not exist in `avl_tree.c` and are not modelled.

## Findings

| source | as written | input that shows it | evidently intended | confidence | as-written member | corrected member |
|---|---|---|---|---|---|---|
| avl_tree.c:265-277 | The LL and LR tests compare data with the left child's key strictly (`<` and `>`); RR and RL at 269-282 do the same with the right child. When data equals the child's key, no rotation fires. | insert 2, 1, 1 | LL when data < left key, LR otherwise; RR when data ≥ right key, RL otherwise; the insert then keeps every balance in {-1, 0, 1} | high; not executed | AvlSpec.DuplicateLeavesImbalance | AvlSpec.InsertCorrected |
| avl_tree.c:278-281 | After duplicates have unbalanced the tree, the RL case calls `right_rotate_avl` on a right child whose left child is NULL. That call reads `x->right` with `x == NULL` (avl_tree.c:198-199). | insert 1, 1, 1, 1, 0 | the same corrected case selection; it never rotates at a missing child | high; not executed | AvlSpec.DuplicatesThenNullDeref | AvlSpec.InsertCorrected |
