/** The Python quicksort: a pure function on lists. The middle element is the
    pivot; three comprehensions select the elements below, equal to and above
    it, in their original order; the result is the sorted "below" part, then
    the "equal" part, then the sorted "above" part. Nothing is mutated. */
module FunctionalQuicksort {
  import opened Sorting

  /** Which of the three comprehensions an element is selected by. */
  datatype Side = Below | Equal | Above

  /** The test of the comprehension for `side` against `pivot`. */
  predicate Keeps(side: Side, pivot: int, x: int)
  {
    match side
    case Below => x < pivot
    case Equal => x == pivot
    case Above => x > pivot
  }

  /** `[x for x in s if <test>]`: the elements of `s` that pass the test of
      `side`, in the order they have in `s`. */
  function Select(s: seq<int>, pivot: int, side: Side): (r: seq<int>)
    ensures |r| <= |s|
    ensures forall i :: 0 <= i < |r| ==> Keeps(side, pivot, r[i])
  {
    if s == [] then []
    else
      (if Keeps(side, pivot, s[0]) then [s[0]] else []) + Select(s[1..], pivot, side)
  }

  /** A comprehension keeps exactly the elements that pass its test, each
      with its full multiplicity. */
  lemma {:induction false} SelectMultiset(s: seq<int>, pivot: int, side: Side)
    ensures forall x :: multiset(Select(s, pivot, side))[x]
                        == if Keeps(side, pivot, x) then multiset(s)[x] else 0
  {
    if s != [] {
      SelectMultiset(s[1..], pivot, side);
      assert s == [s[0]] + s[1..];
    }
  }

  /** Selecting from a list headed by `x` tests `x` first, then the rest. */
  lemma SelectCons(x: int, s: seq<int>, pivot: int, side: Side)
    ensures Select([x] + s, pivot, side)
            == (if Keeps(side, pivot, x) then [x] else []) + Select(s, pivot, side)
  {
    assert ([x] + s)[1..] == s;
  }

  /** Selection keeps the order of the input: selecting from a concatenation
      is concatenating the selections, so each selected element stays where
      it was relative to the others. */
  lemma {:induction false} SelectKeepsOrder(s: seq<int>, t: seq<int>, pivot: int, side: Side)
    ensures Select(s + t, pivot, side) == Select(s, pivot, side) + Select(t, pivot, side)
  {
    if s == [] {
      assert s + t == t;
    } else {
      assert s + t == [s[0]] + (s[1..] + t);
      assert s == [s[0]] + s[1..];
      SelectCons(s[0], s[1..] + t, pivot, side);
      SelectCons(s[0], s[1..], pivot, side);
      SelectKeepsOrder(s[1..], t, pivot, side);
    }
  }

  /** Every element passes exactly one of the three tests, so the three
      selections split the input: together they have its multiset and its
      length, and when the pivot occurs in the input the "equal" part is
      non-empty, so the other two are strictly shorter than the input. */
  lemma SelectionsSplit(s: seq<int>, pivot: int)
    ensures multiset(Select(s, pivot, Below)) + multiset(Select(s, pivot, Equal))
            + multiset(Select(s, pivot, Above)) == multiset(s)
    ensures |Select(s, pivot, Below)| + |Select(s, pivot, Equal)| + |Select(s, pivot, Above)| == |s|
    ensures pivot in s ==> |Select(s, pivot, Below)| < |s| && |Select(s, pivot, Above)| < |s|
  {
    var below, equal, above := Select(s, pivot, Below), Select(s, pivot, Equal), Select(s, pivot, Above);
    SelectMultiset(s, pivot, Below);
    SelectMultiset(s, pivot, Equal);
    SelectMultiset(s, pivot, Above);
    var parts := multiset(below) + multiset(equal) + multiset(above);
    forall x ensures parts[x] == multiset(s)[x] {
      assert parts[x] == multiset(below)[x] + multiset(equal)[x] + multiset(above)[x];
    }
    assert parts == multiset(s);
    assert |parts| == |below| + |equal| + |above|;
    if pivot in s {
      assert multiset(equal)[pivot] == multiset(s)[pivot] > 0;
    }
  }

  /** Whatever has the multiset of a selection passes that selection's test. */
  lemma SelectionBound(t: seq<int>, s: seq<int>, pivot: int, side: Side)
    requires multiset(t) == multiset(Select(s, pivot, side))
    ensures forall i :: 0 <= i < |t| ==> Keeps(side, pivot, t[i])
  {
    var r := Select(s, pivot, side);
    forall i | 0 <= i < |t| ensures Keeps(side, pivot, t[i]) {
      assert t[i] in multiset(r);
      var m :| 0 <= m < |r| && r[m] == t[i];
    }
  }

  /** The Python `quicksort(arr)`. Lists of length at most one come back
      as they are; otherwise the result is sorted and is a permutation of
      the input. */
  function QuickSort(s: seq<int>): (r: seq<int>)
    ensures |s| <= 1 ==> r == s
    ensures Sorted(r)
    ensures multiset(r) == multiset(s)
    decreases |s|
  {
    if |s| <= 1 then s
    else
      var pivot := s[|s| / 2];
      var below, equal, above := Select(s, pivot, Below), Select(s, pivot, Equal), Select(s, pivot, Above);
      SelectionsSplit(s, pivot);
      var sortedBelow, sortedAbove := QuickSort(below), QuickSort(above);
      SelectionBound(sortedBelow, s, pivot, Below);
      SelectionBound(equal, s, pivot, Equal);
      SelectionBound(sortedAbove, s, pivot, Above);
      SortedAroundPivot(sortedBelow, equal, sortedAbove, pivot);
      sortedBelow + equal + sortedAbove
  }

  /** A sorted part below the pivot, copies of the pivot, and a sorted part
      above it make a sorted whole. */
  lemma SortedAroundPivot(lo: seq<int>, mid: seq<int>, hi: seq<int>, pivot: int)
    requires Sorted(lo) && Sorted(hi)
    requires forall i :: 0 <= i < |lo| ==> lo[i] < pivot
    requires forall i :: 0 <= i < |mid| ==> mid[i] == pivot
    requires forall i :: 0 <= i < |hi| ==> hi[i] > pivot
    ensures Sorted(lo + mid + hi)
  {
  }

  /** The functional quicksort agrees with any other correct sort: its output
      is the one sorted permutation of the input. */
  lemma QuickSortIsTheSortedPermutation(s: seq<int>, t: seq<int>)
    requires SortedPermutationOf(t, s)
    ensures QuickSort(s) == t
  {
    SortedPermutationUnique(QuickSort(s), t);
  }
}
