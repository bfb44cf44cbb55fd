/** The bid record, the vector of bids the sorters work on, and what
    "sorted by title" and "only permuted" mean for it. */
module Bids {
  import opened Titles

  /** One row of the bid table. The amount is the parsed monetary value; the
      model never computes with it, it only travels with its record. */
  datatype Bid = Bid(bidId: string, title: string, fund: string, amount: real)

  /** Titles of s are non-decreasing on the inclusive index range [lo, hi]. */
  ghost predicate SortedBetween(s: seq<Bid>, lo: int, hi: int)
    requires lo < hi ==> 0 <= lo && hi < |s|
  {
    forall i, j :: lo <= i < j <= hi ==> !Less(s[j].title, s[i].title)
  }

  ghost predicate Sorted(s: seq<Bid>)
  {
    SortedBetween(s, 0, |s| - 1)
  }

  /** s and t agree on every index outside the inclusive range [lo, hi]. */
  ghost predicate SameOutside(s: seq<Bid>, t: seq<Bid>, lo: int, hi: int)
  {
    |s| == |t| && forall k :: 0 <= k < |s| && !(lo <= k <= hi) ==> s[k] == t[k]
  }

  /** std::swap on two elements of the vector; the two positions may coincide. */
  method Swap(a: array<Bid>, i: int, j: int)
    requires 0 <= i < a.Length && 0 <= j < a.Length
    modifies a
    ensures a[..] == old(a[..])[i := old(a[j])][j := old(a[i])]
    ensures multiset(a[..]) == multiset(old(a[..]))
  {
    a[i], a[j] := a[j], a[i];
  }

  lemma MultisetSplit(s: seq<Bid>, lo: int, hi: int)
    requires 0 <= lo <= hi + 1 <= |s|
    ensures multiset(s[lo..hi + 1]) == multiset(s) - multiset(s[..lo]) - multiset(s[hi + 1..])
  {
    assert s == s[..lo] + s[lo..hi + 1] + s[hi + 1..];
    assert multiset(s) == multiset(s[..lo]) + multiset(s[lo..hi + 1]) + multiset(s[hi + 1..]);
  }

  /** A permutation that leaves everything outside [lo, hi] in place permutes
      the range [lo, hi] within itself. */
  lemma RangePermutation(s: seq<Bid>, t: seq<Bid>, lo: int, hi: int)
    requires 0 <= lo <= hi + 1 <= |s|
    requires multiset(s) == multiset(t) && SameOutside(s, t, lo, hi)
    ensures multiset(s[lo..hi + 1]) == multiset(t[lo..hi + 1])
  {
    assert s[..lo] == t[..lo];
    assert s[hi + 1..] == t[hi + 1..];
    MultisetSplit(s, lo, hi);
    MultisetSplit(t, lo, hi);
  }

  /** Every title in s[lo..hi] is at most p. */
  ghost predicate AllAtMost(s: seq<Bid>, lo: int, hi: int, p: string)
    requires 0 <= lo <= hi + 1 <= |s|
  {
    forall k :: lo <= k <= hi ==> !Less(p, s[k].title)
  }

  /** Every title in s[lo..hi] is at least p. */
  ghost predicate AllAtLeast(s: seq<Bid>, lo: int, hi: int, p: string)
    requires 0 <= lo <= hi + 1 <= |s|
  {
    forall k :: lo <= k <= hi ==> !Less(s[k].title, p)
  }

  /** Bounds on a range survive any reordering of that range. */
  lemma BoundsSurvivePermutation(s: seq<Bid>, t: seq<Bid>, lo: int, hi: int, p: string)
    requires |s| == |t| && 0 <= lo <= hi + 1 <= |s|
    requires multiset(s[lo..hi + 1]) == multiset(t[lo..hi + 1])
    ensures AllAtMost(s, lo, hi, p) ==> AllAtMost(t, lo, hi, p)
    ensures AllAtLeast(s, lo, hi, p) ==> AllAtLeast(t, lo, hi, p)
  {
    forall k | lo <= k <= hi
      ensures exists i :: lo <= i <= hi && s[i] == t[k]
    {
      assert t[k] == t[lo..hi + 1][k - lo];
      assert t[k] in multiset(s[lo..hi + 1]);
      var i :| 0 <= i < hi + 1 - lo && s[lo..hi + 1][i] == t[k];
      assert s[lo + i] == t[k];
    }
  }
}
