/** What it means for the two quicksorts of the benchmark to be correct:
    the output is ordered and is a permutation of the input. */
module Sorting {

  /** Non-decreasing order. */
  ghost predicate Sorted(s: seq<int>)
  {
    forall i, j :: 0 <= i < j < |s| ==> s[i] <= s[j]
  }

  /** `s` is ordered and holds exactly the elements of `t`. */
  ghost predicate SortedPermutationOf(s: seq<int>, t: seq<int>)
  {
    Sorted(s) && multiset(s) == multiset(t)
  }

  /** The first element of a sorted sequence is its least element. */
  lemma HeadIsLeast(s: seq<int>, x: int)
    requires Sorted(s) && x in s
    ensures s[0] <= x
  {
  }

  /** Removing the head of a sequence removes one copy of it from the multiset. */
  lemma MultisetOfTail(s: seq<int>)
    requires s != []
    ensures multiset(s[1..]) == multiset(s) - multiset{s[0]}
  {
    assert s == [s[0]] + s[1..];
    assert multiset(s) == multiset{s[0]} + multiset(s[1..]);
  }

  /** The tail of a sorted sequence is sorted. */
  lemma SortedTail(s: seq<int>)
    requires s != [] && Sorted(s)
    ensures Sorted(s[1..])
  {
  }

  /** There is only one sorted permutation of a sequence, so any two correct
      sorts of the same input produce the same output. */
  lemma {:induction false} SortedPermutationUnique(s: seq<int>, t: seq<int>)
    requires Sorted(s) && Sorted(t)
    requires multiset(s) == multiset(t)
    ensures s == t
  {
    if s == [] {
      assert |t| == |multiset(t)| == 0;
    } else {
      assert |t| == |multiset(t)| == |multiset(s)| == |s|;
      assert s[0] in multiset(t) && t[0] in multiset(s);
      HeadIsLeast(t, s[0]);
      HeadIsLeast(s, t[0]);
      MultisetOfTail(s);
      MultisetOfTail(t);
      SortedTail(s);
      SortedTail(t);
      assert s[0] == t[0];
      assert multiset(s[1..]) == multiset(t[1..]);
      SortedPermutationUnique(s[1..], t[1..]);
      forall i | 0 <= i < |s| ensures s[i] == t[i] {
        if i > 0 {
          assert s[i] == s[1..][i - 1] && t[i] == t[1..][i - 1];
        }
      }
    }
  }
}
