/** Selection sort by title, in place on the vector of bids. */
module SelectionSorting {
  import opened Titles
  import opened Bids

  /** The inner loop: the first index, from pos on, of a smallest title.
      Earlier candidates are replaced only by a strictly smaller title, so
      every title before the chosen index is strictly greater than it. */
  method FindMinIndex(a: array<Bid>, pos: int) returns (minIndex: int)
    requires 0 <= pos < a.Length
    ensures pos <= minIndex < a.Length
    ensures forall k :: pos <= k < a.Length ==> !Less(a[k].title, a[minIndex].title)
    ensures forall k :: pos <= k < minIndex ==> Less(a[minIndex].title, a[k].title)
  {
    minIndex := pos;
    LessIrreflexive(a[pos].title);
    for j := pos + 1 to a.Length
      invariant pos <= minIndex < j
      invariant forall k :: pos <= k < j ==> !Less(a[k].title, a[minIndex].title)
      invariant forall k :: pos <= k < minIndex ==> Less(a[minIndex].title, a[k].title)
    {
      if Less(a[j].title, a[minIndex].title) {
        forall k | pos <= k < j
          ensures Less(a[j].title, a[k].title) && !Less(a[k].title, a[j].title)
        {
          LessThenAtMost(a[j].title, a[minIndex].title, a[k].title);
          LessAsymmetric(a[j].title, a[k].title);
        }
        LessIrreflexive(a[j].title);
        minIndex := j;
      }
    }
  }

  /** The outer loop's invariant after positions [0, pos) are done: that
      prefix is sorted and no title in it exceeds a title after it. */
  ghost predicate PrefixPlaced(s: seq<Bid>, pos: int)
    requires 0 <= pos <= |s|
  {
    && SortedBetween(s, 0, pos - 1)
    && forall i, k :: 0 <= i < pos <= k < |s| ==> !Less(s[k].title, s[i].title)
  }

  /** Swapping a smallest remaining title into position pos places one more
      element. */
  lemma PlaceMinimum(s: seq<Bid>, t: seq<Bid>, pos: int, m: int)
    requires 0 <= pos <= m < |s| && PrefixPlaced(s, pos)
    requires forall k :: pos <= k < |s| ==> !Less(s[k].title, s[m].title)
    requires t == s[pos := s[m]][m := s[pos]]
    ensures PrefixPlaced(t, pos + 1)
  {
    forall i, k | 0 <= i <= pos < k < |t|
      ensures !Less(t[k].title, t[i].title)
    {
      assert t[k] == s[k] || t[k] == s[pos];
    }
  }

  /** Sorts the whole vector by title. The empty vector is returned as it is:
      the loop bound size - 1 is only computed for a non-empty vector. A
      vector already sorted by title is left exactly as it is, since each
      position is then its own first minimum and is swapped with itself. */
  method SelectionSort(a: array<Bid>)
    modifies a
    ensures Sorted(a[..])
    ensures multiset(a[..]) == multiset(old(a[..]))
    // The empty and one-element cases of the next clause, stated for the reader.
    ensures a.Length <= 1 ==> a[..] == old(a[..])
    ensures Sorted(old(a[..])) ==> a[..] == old(a[..])
  {
    var size := a.Length;
    if size == 0 {
      return;
    }
    for pos := 0 to size - 1
      invariant PrefixPlaced(a[..], pos)
      invariant multiset(a[..]) == multiset(old(a[..]))
      // Implied by the next invariant; kept as a hint for the one-element case.
      invariant size == 1 ==> a[..] == old(a[..])
      invariant Sorted(old(a[..])) ==> a[..] == old(a[..])
    {
      var minIndex := FindMinIndex(a, pos);
      if minIndex != pos {
        // Only a title strictly below a[pos] could come first after pos.
        assert Less(a[minIndex].title, a[pos].title);
      }
      ghost var before := a[..];
      Swap(a, pos, minIndex);
      PlaceMinimum(before, a[..], pos, minIndex);
    }
  }

  /** The number of values of size_t, the type the loop index pos has. */
  const SizeTModulus: int := 0x1_0000_0000_0000_0000

  /** The outer loop bound as written: size - 1 is computed on an int and
      then converted to size_t for the comparison with pos, which wraps -1
      round to the largest size_t value. */
  function OuterBoundAsWritten(size: int): (bound: int)
    requires 0 <= size < 0x8000_0000
    ensures 0 <= bound < SizeTModulus
    ensures size >= 1 ==> bound == size - 1
    ensures size == 0 ==> bound == SizeTModulus - 1
  {
    (size - 1) % SizeTModulus
  }

  /** Every pos the outer loop as written visits (pos < bound) indexes the
      vector exactly when the vector is not empty; on the empty vector the
      first round already swaps bids[0]. */
  lemma OuterBoundAsWrittenInRange(size: int)
    requires 0 <= size < 0x8000_0000
    ensures OuterBoundAsWritten(size) <= size <==> size >= 1
    ensures size == 0 ==> 0 < OuterBoundAsWritten(size) && !(0 < size)
  {
  }
}
