/**
  merge_sort.c: top-down merge sort of an int array through a scratch buffer
  of the same size, recursing on half-open index ranges [left, right) of the
  one shared array.

  The value-level reference is SortSeq, the same splitting (the lower half gets
  the smaller share when the length is odd) over MergeSeq, the value the three
  merge loops build.  The methods are proved to produce exactly those values;
  the lemmas prove those values sorted and permutations of their input.
 */
module MergeSort {
  import opened Sequences

  /**
    The merge of two runs as the loops of merge() perform it: the left head
    is taken only when it is strictly smaller, so on equal heads the element
    of the right run comes first.
   */
  function MergeSeq(a: seq<int>, b: seq<int>): seq<int>
    decreases |a| + |b|
  {
    if a == [] then b
    else if b == [] then a
    else if a[0] < b[0] then [a[0]] + MergeSeq(a[1..], b)
    else [b[0]] + MergeSeq(a, b[1..])
  }

  /** The merge is a permutation of the two runs together. */
  lemma {:induction false} MergePermutes(a: seq<int>, b: seq<int>)
    ensures |MergeSeq(a, b)| == |a| + |b|
    ensures multiset(MergeSeq(a, b)) == multiset(a) + multiset(b)
    decreases |a| + |b|
  {
    if a != [] && b != [] {
      if a[0] < b[0] {
        MergePermutes(a[1..], b);
        assert a == [a[0]] + a[1..];
      } else {
        MergePermutes(a, b[1..]);
        assert b == [b[0]] + b[1..];
      }
    }
  }

  /** Every element of MergeSeq(a, b) comes from a or from b. */
  lemma MergeMembers(a: seq<int>, b: seq<int>, x: int)
    requires x in MergeSeq(a, b)
    ensures x in a || x in b
  {
    MergePermutes(a, b);
    assert x in multiset(MergeSeq(a, b));
  }

  /** Merging two sorted runs gives a sorted run. */
  lemma {:induction false} MergeSorted(a: seq<int>, b: seq<int>)
    requires Sorted(a) && Sorted(b)
    ensures Sorted(MergeSeq(a, b))
    decreases |a| + |b|
  {
    if a == [] || b == [] {
    } else if a[0] < b[0] {
      MergeSorted(a[1..], b);
      ConsSorted(a[0], MergeSeq(a[1..], b), a[1..], b);
    } else {
      MergeSorted(a, b[1..]);
      ConsSorted(b[0], MergeSeq(a, b[1..]), a, b[1..]);
    }
  }

  /**
    Putting x in front of a sorted merge of a and b keeps it sorted when x is
    at most every element of a and of b.
   */
  lemma ConsSorted(x: int, m: seq<int>, a: seq<int>, b: seq<int>)
    requires m == MergeSeq(a, b) && Sorted(m)
    requires forall y :: y in a ==> x <= y
    requires forall y :: y in b ==> x <= y
    ensures Sorted([x] + m)
  {
    forall j | 0 <= j < |m| ensures x <= m[j] {
      MergeMembers(a, b, m[j]);
    }
  }

  /**
    Ties go to the right run: when no element of b exceeds the head of a,
    every element of b is placed before all of a.
   */
  lemma {:induction false} MergeRightFirst(a: seq<int>, b: seq<int>)
    requires a != []
    requires forall k :: 0 <= k < |b| ==> b[k] <= a[0]
    ensures MergeSeq(a, b) == b + a
  {
    if b != [] {
      MergeRightFirst(a, b[1..]);
      RightFirstStep(a, b);
    }
  }

  lemma RightFirstStep(a: seq<int>, b: seq<int>)
    requires a != [] && b != [] && b[0] <= a[0]
    requires MergeSeq(a, b[1..]) == b[1..] + a
    ensures MergeSeq(a, b) == b + a
  {
    assert MergeSeq(a, b) == [b[0]] + MergeSeq(a, b[1..]);
    HeadSplit(b);
    ConsAppend(b[0], b[1..], a);
  }

  /**
    The value split_and_merge leaves in arr[left..right): ranges of length at
    most one stay as they are, longer ones are split at (left + right) / 2,
    which is left + (right - left) / 2, and the sorted halves are merged.
   */
  function SortSeq(s: seq<int>): seq<int>
    decreases |s|
  {
    if |s| <= 1 then s
    else MergeSeq(SortSeq(s[..|s| / 2]), SortSeq(s[|s| / 2..]))
  }

  /** The result of SortSeq is sorted and a permutation of its input. */
  lemma {:induction false} SortSeqSorts(s: seq<int>)
    ensures Sorted(SortSeq(s))
    ensures multiset(SortSeq(s)) == multiset(s)
    decreases |s|
  {
    if |s| > 1 {
      var h := |s| / 2;
      var x, y := SortSeq(s[..h]), SortSeq(s[h..]);
      SortSeqSorts(s[..h]);
      SortSeqSorts(s[h..]);
      MergeSorted(x, y);
      MergePermutes(x, y);
      assert SortSeq(s) == MergeSeq(x, y);
      assert multiset(s) == multiset(s[..h]) + multiset(s[h..]) by {
        assert s == s[..h] + s[h..];
      }
    }
  }

  /**
    One round of the first three loops of merge, on values: the element taken
    (the left head when it is strictly smaller or the right run is done, else
    the right head) extends the output so far, and the merge of what remains
    completes it.
   */
  lemma MergeRound(a: seq<int>, i: nat, middle: nat, j: nat, right: nat, takeLeft: bool,
                   out: seq<int>, whole: seq<int>)
    requires i <= middle <= j <= right <= |a|
    requires i < middle || j < right
    requires takeLeft <==> i < middle && (j == right || a[i] < a[j])
    requires out + MergeSeq(a[i..middle], a[j..right]) == whole
    ensures takeLeft ==> (out + [a[i]]) + MergeSeq(a[i + 1..middle], a[j..right]) == whole
    ensures !takeLeft ==> (out + [a[j]]) + MergeSeq(a[i..middle], a[j + 1..right]) == whole
  {
    if takeLeft {
      var l, r := a[i..middle], a[j..right];
      assert l[0] == a[i] && l[1..] == a[i + 1..middle];
      HeadSplit(l);
      assert MergeSeq(l, r) == [a[i]] + MergeSeq(l[1..], r);
      SnocAppend(out, a[i], MergeSeq(l[1..], r));
    } else {
      var l, r := a[i..middle], a[j..right];
      assert r[0] == a[j] && r[1..] == a[j + 1..right];
      HeadSplit(r);
      assert MergeSeq(l, r) == [a[j]] + MergeSeq(l, r[1..]);
      SnocAppend(out, a[j], MergeSeq(l, r[1..]));
    }
  }

  /**
    merge: with arr[left..middle) and arr[middle..right) as the two runs, the
    loops fill buffer[left..right) with their merge and the last loop copies
    it back into arr[left..right).  Nothing outside [left, right) changes, in
    arr or in buffer.
   */
  method Merge(arr: array<int>, left: nat, middle: nat, right: nat, buffer: array<int>)
    requires arr != buffer
    requires left <= middle <= right <= arr.Length && right <= buffer.Length
    modifies arr, buffer
    ensures arr[left..right] == MergeSeq(old(arr[left..middle]), old(arr[middle..right]))
    ensures arr[..left] == old(arr[..left]) && arr[right..] == old(arr[right..])
    ensures buffer[left..right] == arr[left..right]
    ensures forall t :: 0 <= t < buffer.Length && !(left <= t < right) ==> buffer[t] == old(buffer[t])
  {
    ghost var a := arr[..];
    var i, j, k := FillBuffer(arr, left, middle, right, buffer);
    ghost var b := buffer[..];
    for i := left to right
      modifies arr
      invariant forall t :: left <= t < i ==> arr[t] == b[t]
      invariant forall t :: 0 <= t < arr.Length && !(left <= t < i) ==> arr[t] == a[t]
    {
      arr[i] := buffer[i];
    }
    assert arr[left..right] == b[left..right];
    assert arr[..left] == a[..left] && arr[right..] == a[right..];
  }

  /**
    The state between the loops of merge, on the buffer contents buf: i, j
    and k index the left run, the right run and the buffer, and the cells
    [left, k) followed by the merge of what is left of both runs make up the
    whole merge.
   */
  ghost predicate Progress(buf: seq<int>, a: seq<int>, left: nat, middle: nat, right: nat, i: nat, j: nat, k: nat)
  {
    left <= i <= middle <= j <= right <= |a| && right <= |buf| && k == i + j - middle &&
    buf[left..k] + MergeSeq(a[i..middle], a[j..right]) == MergeSeq(a[left..middle], a[middle..right])
  }

  /** One round of any of the three loops keeps Progress: the element taken is stored at k. */
  lemma Advance(buf: seq<int>, a: seq<int>, left: nat, middle: nat, right: nat, i: nat, j: nat, k: nat, takeLeft: bool)
    requires Progress(buf, a, left, middle, right, i, j, k) && (i < middle || j < right)
    requires takeLeft <==> i < middle && (j == right || a[i] < a[j])
    ensures takeLeft ==> Progress(buf[k := a[i]], a, left, middle, right, i + 1, j, k + 1)
    ensures !takeLeft ==> Progress(buf[k := a[j]], a, left, middle, right, i, j + 1, k + 1)
  {
    var x := if takeLeft then a[i] else a[j];
    assert buf[k := x][left..k + 1] == buf[left..k] + [x];
    MergeRound(a, i, middle, j, right, takeLeft, buf[left..k], MergeSeq(a[left..middle], a[middle..right]));
  }

  /**
    The three while loops of merge: i walks the left run, j the right run and
    k the buffer.  They end with i == middle, j == right and k == right, and
    buffer[left..right) holding the merge; arr is only read and buffer is
    written only inside [left, right).
   */
  method FillBuffer(arr: array<int>, left: nat, middle: nat, right: nat, buffer: array<int>)
    returns (i: nat, j: nat, k: nat)
    requires arr != buffer
    requires left <= middle <= right <= arr.Length && right <= buffer.Length
    modifies buffer
    ensures i == middle && j == right && k == right
    ensures buffer[left..right] == MergeSeq(arr[left..middle], arr[middle..right])
    ensures forall t :: 0 <= t < buffer.Length && !(left <= t < right) ==> buffer[t] == old(buffer[t])
  {
    i, j, k := TakeSmaller(arr, left, middle, right, buffer);
    i, k := TakeLeftRest(arr, left, middle, right, buffer, i, j, k);
    j, k := TakeRightRest(arr, left, middle, right, buffer, i, j, k);
    assert buffer[left..right] + [] == buffer[left..right];
  }

  /** The first loop of merge: while both runs have elements, the smaller head is moved, the right one on ties. */
  method TakeSmaller(arr: array<int>, left: nat, middle: nat, right: nat, buffer: array<int>)
    returns (i: nat, j: nat, k: nat)
    requires arr != buffer
    requires left <= middle <= right <= arr.Length && right <= buffer.Length
    modifies buffer
    ensures Progress(buffer[..], arr[..], left, middle, right, i, j, k)
    ensures i == middle || j == right
    ensures forall t :: 0 <= t < buffer.Length && !(left <= t < right) ==> buffer[t] == old(buffer[t])
  {
    ghost var a := arr[..];
    i, j, k := left, middle, left;
    while i < middle && j < right
      invariant arr[..] == a
      invariant Progress(buffer[..], a, left, middle, right, i, j, k)
      invariant forall t :: 0 <= t < buffer.Length && !(left <= t < right) ==> buffer[t] == old(buffer[t])
    {
      Advance(buffer[..], a, left, middle, right, i, j, k, arr[i] < arr[j]);
      if arr[i] < arr[j] {
        buffer[k] := arr[i];
        i := i + 1;
      } else {
        buffer[k] := arr[j];
        j := j + 1;
      }
      k := k + 1;
    }
  }

  /** The second loop of merge: what is left of the left run is copied. */
  method TakeLeftRest(arr: array<int>, left: nat, middle: nat, right: nat, buffer: array<int>,
                      i0: nat, j: nat, k0: nat)
    returns (i: nat, k: nat)
    requires arr != buffer
    requires Progress(buffer[..], arr[..], left, middle, right, i0, j, k0) && (i0 == middle || j == right)
    modifies buffer
    ensures Progress(buffer[..], arr[..], left, middle, right, i, j, k) && i == middle
    ensures forall t :: 0 <= t < buffer.Length && !(left <= t < right) ==> buffer[t] == old(buffer[t])
  {
    ghost var a := arr[..];
    i, k := i0, k0;
    while i < middle
      invariant arr[..] == a && (i < middle ==> j == right)
      invariant Progress(buffer[..], a, left, middle, right, i, j, k)
      invariant forall t :: 0 <= t < buffer.Length && !(left <= t < right) ==> buffer[t] == old(buffer[t])
    {
      Advance(buffer[..], a, left, middle, right, i, j, k, true);
      buffer[k] := arr[i];
      i, k := i + 1, k + 1;
    }
  }

  /** The third loop of merge: what is left of the right run is copied. */
  method TakeRightRest(arr: array<int>, left: nat, middle: nat, right: nat, buffer: array<int>,
                       i: nat, j0: nat, k0: nat)
    returns (j: nat, k: nat)
    requires arr != buffer
    requires Progress(buffer[..], arr[..], left, middle, right, i, j0, k0) && i == middle
    modifies buffer
    ensures Progress(buffer[..], arr[..], left, middle, right, i, j, k) && j == right && k == right
    ensures forall t :: 0 <= t < buffer.Length && !(left <= t < right) ==> buffer[t] == old(buffer[t])
  {
    ghost var a := arr[..];
    j, k := j0, k0;
    while j < right
      invariant arr[..] == a
      invariant Progress(buffer[..], a, left, middle, right, i, j, k)
      invariant forall t :: 0 <= t < buffer.Length && !(left <= t < right) ==> buffer[t] == old(buffer[t])
    {
      Advance(buffer[..], a, left, middle, right, i, j, k, false);
      buffer[k] := arr[j];
      j, k := j + 1, k + 1;
    }
  }

  /**
    split_and_merge: arr[left..right) becomes SortSeq of its old contents
    (untouched when it holds at most one element); nothing outside the range
    changes, in arr or in buffer.
   */
  method SplitAndMerge(arr: array<int>, left: nat, right: nat, buffer: array<int>)
    requires arr != buffer
    requires left <= right <= arr.Length && right <= buffer.Length
    modifies arr, buffer
    ensures arr[left..right] == SortSeq(old(arr[left..right]))
    ensures arr[..left] == old(arr[..left]) && arr[right..] == old(arr[right..])
    ensures forall t :: 0 <= t < buffer.Length && !(left <= t < right) ==> buffer[t] == old(buffer[t])
    decreases right - left
  {
    if right - left <= 1 {
      return;
    }
    var middle := (left + right) / 2;
    ghost var a0 := arr[..];
    SplitAndMerge(arr, left, middle, buffer);
    ghost var a1 := arr[..];
    SplitAndMerge(arr, middle, right, buffer);
    ghost var a2 := arr[..];
    Merge(arr, left, middle, right, buffer);
    SplitJoin(a0, a1, a2, arr[..], left, middle, right);
  }

  /**
    The two recursive calls and the merge of split_and_merge, on the array
    contents before and after each: together they leave SortSeq of the range
    and touch nothing outside it.
   */
  lemma SplitJoin(a0: seq<int>, a1: seq<int>, a2: seq<int>, a3: seq<int>, left: nat, middle: nat, right: nat)
    requires |a0| == |a1| == |a2| == |a3| && left < middle < right <= |a0| && middle == (left + right) / 2
    requires a1[left..middle] == SortSeq(a0[left..middle]) && a1[..left] == a0[..left] && a1[middle..] == a0[middle..]
    requires a2[middle..right] == SortSeq(a1[middle..right]) && a2[..middle] == a1[..middle] && a2[right..] == a1[right..]
    requires a3[left..right] == MergeSeq(a2[left..middle], a2[middle..right])
    requires a3[..left] == a2[..left] && a3[right..] == a2[right..]
    ensures a3[left..right] == SortSeq(a0[left..right])
    ensures a3[..left] == a0[..left] && a3[right..] == a0[right..]
  {
    SliceHalves(a0, left, middle, right);
    TakeAgree(a2, a1, left, middle);
    DropAgree(a1, a0, middle, right);
    TakeAgree(a1, a0, left, left);
  }

  /**
    merge_sort: fewer than two elements leave arr alone; otherwise the first
    arr_count elements end sorted and a permutation of what they were, and
    the rest of arr is untouched.
   */
  method MergeSort(count: int, arr: array<int>)
    requires count <= arr.Length
    modifies arr
    ensures count < 2 ==> arr[..] == old(arr[..])
    ensures count >= 2 ==> arr[..count] == SortSeq(old(arr[..count])) && arr[count..] == old(arr[count..])
    ensures count >= 2 ==> Sorted(arr[..count]) && multiset(arr[..count]) == multiset(old(arr[..count]))
  {
    if count < 2 {
      return;
    }
    var buffer := new int[count];
    SplitAndMerge(arr, 0, count, buffer);
    SortSeqSorts(old(arr[..count]));
  }
}
