/**
  The two array sorts of the library, tree_sort (tree_sort.c and
  tree_sort_no_recursion.c) and merge_sort (merge_sort.c), leave the same
  array: both produce the unique sorted arrangement of the input values.
 */
module SortsAgree {
  import opened Sequences
  import opened Trees
  import opened MergeSort

  /** The in-order keys of the tree the pushes build equal the merge sort of the same input. */
  lemma MergeSortMatchesTreeSort(s: seq<int>)
    ensures SortSeq(s) == InOrder(Build(s))
  {
    SortSeqSorts(s);
    BuildInOrder(s);
    SortedUnique(SortSeq(s), InOrder(Build(s)));
  }
}
