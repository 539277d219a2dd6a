/** The C++ quicksort: in place on a vector, Lomuto partition with the last
    element of the range as pivot, recursion on both sides of the pivot's
    final slot. The vector is an `array<int>` (it is never resized). */
module LomutoQuicksort {
  import opened Sorting
  import FunctionalQuicksort

  /** Cells `lo..hi-1` of `s` are in non-decreasing order. Indices outside
      `s` are ignored, so the predicate only constrains the part of the range
      that lies inside the sequence. */
  ghost predicate SortedBetween(s: seq<int>, lo: int, hi: int)
  {
    forall i, j :: lo <= i < j < hi && 0 <= i && j < |s| ==> s[i] <= s[j]
  }

  /** `s` and `t` agree everywhere except possibly on `lo..hi` (inclusive). */
  ghost predicate SameOutside(s: seq<int>, t: seq<int>, lo: int, hi: int)
  {
    |s| == |t| && forall k :: 0 <= k < |s| && (k < lo || hi < k) ==> s[k] == t[k]
  }

  /** `std::swap(arr[i], arr[j])`. */
  method Swap(a: array<int>, i: int, j: int)
    requires 0 <= i < a.Length && 0 <= j < a.Length
    modifies a
    ensures a[i] == old(a[j]) && a[j] == old(a[i])
    ensures forall k :: 0 <= k < a.Length && k != i && k != j ==> a[k] == old(a[k])
    ensures multiset(a[..]) == multiset(old(a[..]))
  {
    a[i], a[j] := a[j], a[i];
  }

  /** The multiset of a sequence is that of its three pieces around `lo..hi`. */
  lemma MultisetOfPieces(s: seq<int>, lo: int, hi: int)
    requires 0 <= lo <= hi + 1 <= |s|
    ensures multiset(s) == multiset(s[..lo]) + multiset(s[lo..hi + 1]) + multiset(s[hi + 1..])
  {
    assert s == s[..lo] + s[lo..hi + 1] + s[hi + 1..];
  }

  /** When only cells `lo..hi` may differ, a permutation of the whole
      sequence is a permutation of that segment. */
  lemma SegmentPermutation(s: seq<int>, t: seq<int>, lo: int, hi: int)
    requires 0 <= lo <= hi + 1 <= |s|
    requires multiset(s) == multiset(t)
    requires SameOutside(s, t, lo, hi)
    ensures multiset(s[lo..hi + 1]) == multiset(t[lo..hi + 1])
  {
    MultisetOfPieces(s, lo, hi);
    MultisetOfPieces(t, lo, hi);
    assert s[..lo] == t[..lo] && s[hi + 1..] == t[hi + 1..];
    var before, after := multiset(s[..lo]), multiset(s[hi + 1..]);
    var mid, mid' := multiset(s[lo..hi + 1]), multiset(t[lo..hi + 1]);
    assert before + mid + after == before + mid' + after;
    forall x ensures mid[x] == mid'[x] {
      assert (before + mid + after)[x] == (before + mid' + after)[x];
    }
  }

  /** A permutation of a segment whose cells are all at most (or all above)
      `pivot` still has that property. */
  lemma PermutationKeepsBound(s: seq<int>, t: seq<int>, lo: int, hi: int, pivot: int, above: bool)
    requires 0 <= lo <= hi + 1 <= |s| == |t|
    requires multiset(s) == multiset(t) && SameOutside(t, s, lo, hi)
    requires forall k :: lo <= k <= hi ==> if above then s[k] > pivot else s[k] <= pivot
    ensures forall k :: lo <= k <= hi ==> if above then t[k] > pivot else t[k] <= pivot
  {
    SegmentPermutation(s, t, lo, hi);
    forall k | lo <= k <= hi ensures if above then t[k] > pivot else t[k] <= pivot {
      assert t[k] == t[lo..hi + 1][k - lo];
      assert t[k] in multiset(s[lo..hi + 1]);
      var m :| 0 <= m < hi + 1 - lo && s[lo..hi + 1][m] == t[k];
      assert s[lo + m] == t[k];
    }
  }

  /** Two sorted sides around a pivot cell, the left one at most the pivot
      and the right one above it, make a sorted range. */
  lemma JoinSortedSides(s: seq<int>, lo: int, p: int, hi: int)
    requires 0 <= lo <= p <= hi < |s|
    requires SortedBetween(s, lo, p) && SortedBetween(s, p + 1, hi + 1)
    requires forall k :: lo <= k < p ==> s[k] <= s[p]
    requires forall k :: p < k <= hi ==> s[k] > s[p]
    ensures SortedBetween(s, lo, hi + 1)
  {
  }

  /** Lomuto `partition(arr, low, high)`: the old `arr[high]` is the pivot;
      every cell that is `<=` it is swapped to the front, then the pivot is
      swapped into the slot just after them, whose index is returned. Cells
      equal to the pivot end on its left. */
  method Partition(a: array<int>, lo: int, hi: int) returns (p: int)
    requires 0 <= lo <= hi < a.Length
    modifies a
    ensures lo <= p <= hi
    ensures a[p] == old(a[hi])
    ensures forall k :: lo <= k < p ==> a[k] <= a[p]
    ensures forall k :: p < k <= hi ==> a[k] > a[p]
    ensures multiset(a[lo..hi + 1]) == multiset(old(a[lo..hi + 1]))
    ensures multiset(a[..]) == multiset(old(a[..]))
    ensures SameOutside(a[..], old(a[..]), lo, hi)
  {
    var pivot := a[hi];
    var i := lo - 1;
    for j := lo to hi
      invariant lo - 1 <= i < j
      invariant a[hi] == pivot
      invariant forall k :: lo <= k <= i ==> a[k] <= pivot
      invariant forall k :: i < k < j ==> a[k] > pivot
      invariant multiset(a[..]) == multiset(old(a[..]))
      invariant forall k :: 0 <= k < a.Length && (k < lo || hi < k) ==> a[k] == old(a[k])
    {
      if a[j] <= pivot {
        i := i + 1;
        Swap(a, i, j);
      }
    }
    Swap(a, i + 1, hi);
    p := i + 1;
    SegmentPermutation(a[..], old(a[..]), lo, hi);
  }

  /** `quicksort(arr, low, high)`: nothing happens unless `low < high`;
      otherwise cells `low..high` end sorted, as a permutation of what they
      held, and no cell outside them changes. */
  method QuicksortRange(a: array<int>, lo: int, hi: int)
    requires lo < hi ==> 0 <= lo && hi < a.Length
    modifies a
    ensures lo >= hi ==> a[..] == old(a[..])
    ensures SortedBetween(a[..], lo, hi + 1)
    ensures lo < hi ==> multiset(a[lo..hi + 1]) == multiset(old(a[lo..hi + 1]))
    ensures multiset(a[..]) == multiset(old(a[..]))
    ensures SameOutside(a[..], old(a[..]), lo, hi)
    decreases hi - lo
  {
    if lo < hi {
      var p := Partition(a, lo, hi);
      ghost var parted := a[..];
      QuicksortRange(a, lo, p - 1);
      ghost var leftDone := a[..];
      QuicksortRange(a, p + 1, hi);
      // Each side keeps its bound against the pivot through its own sort.
      PermutationKeepsBound(parted, leftDone, lo, p - 1, parted[p], false);
      PermutationKeepsBound(leftDone, a[..], p + 1, hi, parted[p], true);
      assert SortedBetween(a[..], lo, p) by {
        assert forall k :: lo <= k < p ==> a[k] == leftDone[k];
      }
      JoinSortedSides(a[..], lo, p, hi);
      SegmentPermutation(a[..], old(a[..]), lo, hi);
    }
  }

  /** `quicksort(arr)`: a vector of size 0 or 1 is returned untouched;
      otherwise it is sorted in place over its whole range. The result is the
      one sorted permutation of the input, hence the same list the
      functional quicksort returns. */
  method Quicksort(a: array<int>)
    modifies a
    ensures a.Length <= 1 ==> a[..] == old(a[..])
    ensures SortedPermutationOf(a[..], old(a[..]))
    ensures a[..] == FunctionalQuicksort.QuickSort(old(a[..]))
  {
    if a.Length > 1 {
      QuicksortRange(a, 0, a.Length - 1);
    }
    FunctionalQuicksort.QuickSortIsTheSortedPermutation(old(a[..]), a[..]);
  }
}
