/**
  The return codes of the BST operations in simple_bst.c, tree_sort.c and
  tree_sort_no_recursion.c.  The three files define the same six values
  (OK 0, FAILED 1, NULL 2, EMPTY 3, ALLOC_FAILED 4, NOT_FOUND 5) under
  different prefixes.
 */
module Status {
  datatype Code = Ok | Failed | Null | Empty | AllocFailed | NotFound
}
