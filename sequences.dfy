/**
  Facts about integer sequences shared by the sorting algorithms and the trees:
  sortedness, reversal, and the fact that a sorted arrangement of a multiset of
  integers is unique.
 */
module Sequences {

  /** Non-decreasing order, the order every sort of this library produces. */
  predicate Sorted(s: seq<int>) {
    forall i, j :: 0 <= i < j < |s| ==> s[i] <= s[j]
  }

  function Reverse<T>(s: seq<T>): (r: seq<T>)
    ensures |r| == |s|
    ensures forall i :: 0 <= i < |s| ==> r[i] == s[|s| - 1 - i]
  {
    if s == [] then [] else Reverse(s[1..]) + [s[0]]
  }

  lemma ReverseAppend<T>(a: seq<T>, b: seq<T>)
    ensures Reverse(a + b) == Reverse(b) + Reverse(a)
  {
    assert |Reverse(a + b)| == |Reverse(b) + Reverse(a)|;
    forall i | 0 <= i < |a| + |b|
      ensures Reverse(a + b)[i] == (Reverse(b) + Reverse(a))[i]
    {
    }
  }

  lemma ReverseReverse<T>(s: seq<T>)
    ensures Reverse(Reverse(s)) == s
  {
    assert |Reverse(Reverse(s))| == |s|;
    forall i | 0 <= i < |s| ensures Reverse(Reverse(s))[i] == s[i] { }
  }

  /** Sortedness of a concatenation around a pivot: what a sorted whole says of its parts. */
  lemma SortedAroundParts(a: seq<int>, k: int, b: seq<int>)
    requires Sorted(a + [k] + b)
    ensures Sorted(a) && Sorted(b)
    ensures forall x :: x in multiset(a) ==> x <= k
    ensures forall y :: y in multiset(b) ==> k <= y
  {
    var s := a + [k] + b;
    assert s[|a|] == k;
    forall i, j | 0 <= i < j < |a| ensures a[i] <= a[j] {
      assert a[i] == s[i] && a[j] == s[j];
    }
    forall i, j | 0 <= i < j < |b| ensures b[i] <= b[j] {
      assert b[i] == s[|a| + 1 + i] && b[j] == s[|a| + 1 + j];
    }
    forall x | x in multiset(a) ensures x <= k {
      var i :| 0 <= i < |a| && a[i] == x;
      assert s[i] == x;
    }
    forall y | y in multiset(b) ensures k <= y {
      var j :| 0 <= j < |b| && b[j] == y;
      assert s[|a| + 1 + j] == y;
    }
  }

  /** Sortedness of a concatenation around a pivot: the parts make a sorted whole. */
  lemma SortedAroundWhole(a: seq<int>, k: int, b: seq<int>)
    requires Sorted(a) && Sorted(b)
    requires forall x :: x in multiset(a) ==> x <= k
    requires forall y :: y in multiset(b) ==> k <= y
    ensures Sorted(a + [k] + b)
  {
    var s := a + [k] + b;
    assert forall i :: 0 <= i < |a| ==> s[i] == a[i] && a[i] in multiset(a);
    assert forall j :: |a| < j < |s| ==> s[j] == b[j - |a| - 1] && b[j - |a| - 1] in multiset(b);
  }

  lemma SortedTail(s: seq<int>)
    requires Sorted(s) && s != []
    ensures Sorted(s[1..]) && forall x :: x in multiset(s[1..]) ==> s[0] <= x
  {
    forall x | x in multiset(s[1..]) ensures s[0] <= x {
      var j :| 0 <= j < |s[1..]| && s[1..][j] == x;
      assert s[j + 1] == x;
    }
  }

  lemma HeadIsLeast(s: seq<int>, x: int)
    requires Sorted(s) && x in multiset(s)
    ensures s != [] && s[0] <= x
  {
    var j :| 0 <= j < |s| && s[j] == x;
  }

  /** Splitting off the head of a non-empty sequence, as multisets. */
  lemma MultisetHeadTail(s: seq<int>)
    requires s != []
    ensures multiset(s[1..]) == multiset(s) - multiset{s[0]}
    ensures s[0] in multiset(s)
  {
    assert s == [s[0]] + s[1..];
  }

  /** A non-empty sequence is its head followed by its tail. */
  lemma HeadSplit<T>(s: seq<T>)
    requires s != []
    ensures s == [s[0]] + s[1..]
  {
  }

  /** Concatenation regroups around a single leading element. */
  lemma ConsAppend<T>(x: T, s: seq<T>, t: seq<T>)
    ensures [x] + s + t == [x] + (s + t)
  {
  }

  /** Concatenation regroups around a single trailing element. */
  lemma SnocAppend<T>(s: seq<T>, x: T, t: seq<T>)
    ensures s + [x] + t == s + ([x] + t)
  {
  }

  /** Two sequences that agree on a prefix agree on every part of it. */
  lemma TakeAgree<T>(x: seq<T>, y: seq<T>, l: nat, m: nat)
    requires l <= m <= |x| && m <= |y| && x[..m] == y[..m]
    ensures x[l..m] == y[l..m] && x[..l] == y[..l]
  {
    assert x[l..m] == x[..m][l..] && y[l..m] == y[..m][l..];
    assert x[..l] == x[..m][..l] && y[..l] == y[..m][..l];
  }

  /** Two sequences of one length that agree on a suffix agree on every part of it. */
  lemma DropAgree<T>(x: seq<T>, y: seq<T>, m: nat, r: nat)
    requires m <= r <= |x| == |y| && x[m..] == y[m..]
    ensures x[m..r] == y[m..r] && x[r..] == y[r..]
  {
    assert x[m..r] == x[m..][..r - m] && y[m..r] == y[m..][..r - m];
    assert x[r..] == x[m..][r - m..] && y[r..] == y[m..][r - m..];
  }

  /** The two halves of a slice, split at m, are slices themselves. */
  lemma SliceHalves<T>(s: seq<T>, l: nat, m: nat, r: nat)
    requires l <= m <= r <= |s|
    ensures s[l..r][..m - l] == s[l..m] && s[l..r][m - l..] == s[m..r]
  {
  }

  lemma HeadTailEqual(a: seq<int>, b: seq<int>)
    requires a != [] && b != [] && a[0] == b[0] && a[1..] == b[1..]
    ensures a == b
  {
    assert a == [a[0]] + a[1..] && b == [b[0]] + b[1..];
  }

  /**
    A sorted sequence of integers is determined by its multiset of elements:
    two sorted arrangements of the same values are the same sequence.
   */
  lemma {:induction false} SortedUnique(a: seq<int>, b: seq<int>)
    requires Sorted(a) && Sorted(b)
    requires multiset(a) == multiset(b)
    ensures a == b
  {
    if a == [] {
      assert |b| == |multiset(b)| == 0;
    } else {
      MultisetHeadTail(a);
      assert b != [] by { assert a[0] in multiset(b); }
      MultisetHeadTail(b);
      HeadIsLeast(a, b[0]);
      HeadIsLeast(b, a[0]);
      assert a[0] == b[0];
      SortedTail(a);
      SortedTail(b);
      SortedUnique(a[1..], b[1..]);
      HeadTailEqual(a, b);
    }
  }
}
