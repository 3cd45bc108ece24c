/** Order-preserving filtering of sequences and the subsequence relation. */
module Sequences {

  /** `idx` lists, in increasing order, the positions of `b` that `a` is made of. */
  ghost predicate SubsequenceAt<T>(a: seq<T>, b: seq<T>, idx: seq<nat>)
  {
    && |idx| == |a|
    && (forall k :: 0 <= k < |idx| ==> idx[k] < |b| && a[k] == b[idx[k]])
    && (forall k, l :: 0 <= k < l < |idx| ==> idx[k] < idx[l])
  }

  /** `a` is `b` with some elements left out and the rest in their original order. */
  ghost predicate IsSubsequence<T>(a: seq<T>, b: seq<T>)
  {
    exists idx :: SubsequenceAt(a, b, idx)
  }

  lemma EmptyIsSubsequence<T>(b: seq<T>)
    ensures IsSubsequence([], b)
  {
    assert SubsequenceAt([], b, []);
  }

  /** Appending the same element to both sides, or only to the larger one, keeps the relation. */
  lemma SubsequenceSnoc<T>(a: seq<T>, b: seq<T>, x: T)
    requires IsSubsequence(a, b)
    ensures IsSubsequence(a, b + [x])
    ensures IsSubsequence(a + [x], b + [x])
  {
    var idx: seq<nat> :| SubsequenceAt(a, b, idx);
    assert SubsequenceAt(a, b + [x], idx);
    assert SubsequenceAt(a + [x], b + [x], idx + [|b|]);
  }

  /** Every element of a subsequence is an element of the sequence it was taken from. */
  lemma SubsequenceMembers<T>(a: seq<T>, b: seq<T>)
    requires IsSubsequence(a, b)
    ensures forall x :: x in a ==> x in b
  {
    var idx: seq<nat> :| SubsequenceAt(a, b, idx);
    forall x | x in a
      ensures x in b
    {
      var k :| 0 <= k < |a| && a[k] == x;
      assert b[idx[k]] == x;
    }
  }

  /**
   * The elements of `s` that satisfy `p`, in their order in `s`. The three
   * postconditions together determine the result: every element kept
   * satisfies `p`, every element satisfying `p` is kept as often as it
   * occurs, and the order of `s` is kept.
   */
  function Filter<T(==,!new)>(s: seq<T>, p: T -> bool): (r: seq<T>)
    ensures forall x :: x in r ==> p(x)
    ensures forall x :: p(x) ==> multiset(r)[x] == multiset(s)[x]
    ensures IsSubsequence(r, s)
  {
    if s == [] then
      EmptyIsSubsequence(s);
      []
    else
      var init, last := s[..|s| - 1], s[|s| - 1];
      var kept := Filter(init, p);
      assert s == init + [last];
      SubsequenceSnoc(kept, init, last);
      if p(last) then kept + [last] else kept
  }

  /** Filtering a sequence all of whose elements pass changes nothing. */
  lemma {:induction false} FilterKeepsAll<T(!new)>(s: seq<T>, p: T -> bool)
    requires forall x :: x in s ==> p(x)
    ensures Filter(s, p) == s
  {
    if s != [] {
      var init := s[..|s| - 1];
      assert s == init + [s[|s| - 1]];
      FilterKeepsAll(init, p);
    }
  }

  /** Strictly increasing positions below `|b|` are at least their own rank, so a subsequence is never longer. */
  lemma SubsequenceLength<T>(a: seq<T>, b: seq<T>)
    requires IsSubsequence(a, b)
    ensures |a| <= |b|
  {
    var idx: seq<nat> :| SubsequenceAt(a, b, idx);
    if |a| > 0 {
      IncreasingAtLeastRank(idx, |idx| - 1);
    }
  }

  lemma {:induction false} IncreasingAtLeastRank(idx: seq<nat>, k: nat)
    requires k < |idx|
    requires forall i, j :: 0 <= i < j < |idx| ==> idx[i] < idx[j]
    ensures k <= idx[k]
  {
    if k > 0 {
      IncreasingAtLeastRank(idx, k - 1);
    }
  }
}
