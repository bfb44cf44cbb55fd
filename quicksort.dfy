/** Quicksort by title with a middle-element pivot and Hoare partitioning,
    working in place on the vector of bids. */
module QuickSorting {
  import opened Titles
  import opened Bids

  /** What the two scans of a partition have established so far: titles
      before low are at most the pivot, titles after high are at least it. */
  ghost predicate Scanned(s: seq<Bid>, begin: int, end: int, low: int, high: int, pivot: string)
    requires 0 <= begin && end < |s|
  {
    && (forall k :: begin <= k < low && k <= end ==> !Less(pivot, s[k].title))
    && (forall k :: begin <= k && high < k <= end ==> !Less(s[k].title, pivot))
  }

  /** The cursors' strict scans extend the scanned parts. */
  lemma ScansExtend(s: seq<Bid>, begin: int, end: int, low: int, high: int,
                    up: int, down: int, pivot: string)
    requires 0 <= begin <= low <= up <= end < |s| && begin <= down <= high <= end
    requires Scanned(s, begin, end, low, high, pivot)
    requires forall k :: low <= k < up ==> Less(s[k].title, pivot)
    requires forall k :: down < k <= high ==> Less(pivot, s[k].title)
    ensures Scanned(s, begin, end, up, down, pivot)
  {
    forall k | low <= k < up
      ensures !Less(pivot, s[k].title)
    {
      LessAsymmetric(s[k].title, pivot);
    }
    forall k | down < k <= high
      ensures !Less(s[k].title, pivot)
    {
      LessAsymmetric(pivot, s[k].title);
    }
  }

  /** The invariant of partition's outer loop on the vector s: the cursors
      are in range, each scan has a sentinel ahead of it, the scanned parts
      are bounded by the pivot, and before the first swap the middle element
      still holds the pivot title. */
  ghost predicate PartitionLoop(s: seq<Bid>, begin: int, end: int, pivot: string,
                                low: int, high: int, lowStop: int, highStop: int)
    requires 0 <= begin <= end < |s|
  {
    && begin <= low <= high + 1 && high <= end
    && low <= lowStop <= end && !Less(s[lowStop].title, pivot)
    && begin <= highStop <= high && !Less(pivot, s[highStop].title)
    && Scanned(s, begin, end, low, high, pivot)
    && (high == end ==> low == begin && s[(begin + end) / 2].title == pivot)
  }

  /** Swapping the two elements the scans stopped at, when the cursors have
      not met, re-establishes the loop invariant one position further in on
      both sides; each swapped element becomes the sentinel of the opposite
      scan. */
  lemma SwapStep(orig: seq<Bid>, s: seq<Bid>, t: seq<Bid>, begin: int, end: int, pivot: string,
                 low: int, high: int, lowStop: int, highStop: int, up: int, down: int)
    requires 0 <= begin <= end < |s|
    requires PartitionLoop(s, begin, end, pivot, low, high, lowStop, highStop)
    requires SameOutside(s, orig, begin, end)
    requires low <= up <= lowStop && highStop <= down <= high && up < down
    requires Scanned(s, begin, end, up, down, pivot)
    requires !Less(s[up].title, pivot) && !Less(pivot, s[down].title)
    requires t == s[up := s[down]][down := s[up]]
    ensures PartitionLoop(t, begin, end, pivot, up + 1, down - 1, down, up)
    ensures SameOutside(t, orig, begin, end)
  {
  }

  /** When the cursors have met or crossed, high splits the range into a
      part at most the pivot and a part at least the pivot. */
  lemma ScansMeet(s: seq<Bid>, begin: int, end: int, pivot: string,
                  low: int, high: int, lowStop: int, highStop: int, up: int, down: int)
    requires 0 <= begin <= end < |s|
    requires PartitionLoop(s, begin, end, pivot, low, high, lowStop, highStop)
    requires low <= up <= lowStop && highStop <= down <= high && up >= down
    requires Scanned(s, begin, end, up, down, pivot)
    requires !Less(s[up].title, pivot) && !Less(pivot, s[down].title)
    requires high == end ==> up <= (begin + end) / 2
    ensures begin <= down <= end && (begin < end ==> down < end)
    ensures forall k :: begin <= k <= down ==> !Less(pivot, s[k].title)
    ensures forall k :: down < k <= end ==> !Less(s[k].title, pivot)
  {
  }

  /** The upward cursor loop: advances past titles strictly below the pivot.
      The sentinel, an element at or after the start whose title is not below
      the pivot, keeps the cursor inside the vector. */
  method ScanUp(a: array<Bid>, low: int, pivot: string, ghost sentinel: int) returns (l: int)
    requires 0 <= low <= sentinel < a.Length && !Less(a[sentinel].title, pivot)
    ensures low <= l <= sentinel && !Less(a[l].title, pivot)
    ensures forall k :: low <= k < l ==> Less(a[k].title, pivot)
  {
    l := low;
    while Less(a[l].title, pivot)
      invariant low <= l <= sentinel
      invariant forall k :: low <= k < l ==> Less(a[k].title, pivot)
      decreases sentinel - l
    {
      l := l + 1;
    }
  }

  /** The downward cursor loop: retreats past titles strictly above the pivot,
      kept inside the vector by a sentinel at or before the start. */
  method ScanDown(a: array<Bid>, high: int, pivot: string, ghost sentinel: int) returns (h: int)
    requires 0 <= sentinel <= high < a.Length && !Less(pivot, a[sentinel].title)
    ensures sentinel <= h <= high && !Less(pivot, a[h].title)
    ensures forall k :: h < k <= high ==> Less(pivot, a[k].title)
  {
    h := high;
    while Less(pivot, a[h].title)
      invariant sentinel <= h <= high
      invariant forall k :: h < k <= high ==> Less(pivot, a[k].title)
      decreases h - sentinel
    {
      h := h - 1;
    }
  }

  /** Hoare partition of a[begin..end] around a copy of the middle element's
      title. The returned boundary j splits the range into a part whose titles
      are at most the pivot and a part whose titles are at least the pivot,
      and both parts are non-empty when the range has two or more elements. */
  method Partition(a: array<Bid>, begin: int, end: int) returns (j: int)
    requires 0 <= begin <= end < a.Length
    modifies a
    ensures begin <= j <= end && (begin < end ==> j < end)
    ensures forall k :: begin <= k <= j ==> !Less(old(a[(begin + end) / 2].title), a[k].title)
    ensures forall k :: j < k <= end ==> !Less(a[k].title, old(a[(begin + end) / 2].title))
    ensures multiset(a[..]) == multiset(old(a[..]))
    ensures SameOutside(a[..], old(a[..]), begin, end)
  {
    var mid := (begin + end) / 2;
    var pivot := a[mid].title;
    LessIrreflexive(pivot);
    var low, high := begin, end;
    // Sentinels: an element at or after low that stops the upward scan, and
    // an element at or before high that stops the downward scan.
    ghost var lowStop, highStop := mid, mid;
    while true
      invariant PartitionLoop(a[..], begin, end, pivot, low, high, lowStop, highStop)
      invariant multiset(a[..]) == multiset(old(a[..]))
      invariant SameOutside(a[..], old(a[..]), begin, end)
      decreases high - low + 1
    {
      ghost var s, low0, high0 := a[..], low, high;
      low := ScanUp(a, low, pivot, lowStop);
      high := ScanDown(a, high, pivot, highStop);
      ScansExtend(s, begin, end, low0, high0, low, high, pivot);
      if low >= high {
        ScansMeet(s, begin, end, pivot, low0, high0, lowStop, highStop, low, high);
        return high;
      }
      Swap(a, low, high);
      SwapStep(old(a[..]), s, a[..], begin, end, pivot, low0, high0, lowStop, highStop, low, high);
      lowStop, highStop := high, low;
      low, high := low + 1, high - 1;
    }
  }

  /** Sorts a[begin..end] (inclusive) by title; a range of fewer than two
      elements is left alone, which covers the call on an empty vector with
      end == -1. */
  method QuickSort(a: array<Bid>, begin: int, end: int)
    requires begin < end ==> 0 <= begin && end < a.Length
    modifies a
    ensures SortedBetween(a[..], begin, end)
    ensures multiset(a[..]) == multiset(old(a[..]))
    ensures SameOutside(a[..], old(a[..]), begin, end)
    ensures begin >= end ==> a[..] == old(a[..])
    decreases end - begin
  {
    if begin < end {
      ghost var pivot := a[(begin + end) / 2].title;
      var mid := Partition(a, begin, end);
      ghost var parted := a[..];
      QuickSort(a, begin, mid);
      ghost var leftDone := a[..];
      QuickSort(a, mid + 1, end);
      RecursionSorts(parted, leftDone, a[..], begin, mid, end, pivot);
    }
  }

  /** Sorting both sides of a partition, each in place, sorts the range. */
  lemma RecursionSorts(parted: seq<Bid>, leftDone: seq<Bid>, final: seq<Bid>,
                       begin: int, mid: int, end: int, pivot: string)
    requires 0 <= begin <= mid < end < |parted|
    requires AllAtMost(parted, begin, mid, pivot) && AllAtLeast(parted, mid + 1, end, pivot)
    requires multiset(leftDone) == multiset(parted) && SameOutside(leftDone, parted, begin, mid)
    requires SortedBetween(leftDone, begin, mid)
    requires multiset(final) == multiset(leftDone) && SameOutside(final, leftDone, mid + 1, end)
    requires SortedBetween(final, mid + 1, end)
    ensures SortedBetween(final, begin, end)
    ensures multiset(final) == multiset(parted) && SameOutside(final, parted, begin, end)
  {
    RangePermutation(parted, leftDone, begin, mid);
    BoundsSurvivePermutation(parted, leftDone, begin, mid, pivot);
    RangePermutation(leftDone, final, mid + 1, end);
    BoundsSurvivePermutation(leftDone, final, mid + 1, end, pivot);
    assert AllAtLeast(final, mid + 1, end, pivot);
    assert AllAtMost(final, begin, mid, pivot);
    forall i, j | begin <= i < j <= end
      ensures !Less(final[j].title, final[i].title)
    {
      if j <= mid {
        assert final[i] == leftDone[i] && final[j] == leftDone[j];
      } else if i <= mid {
        AtMostTransitive(final[i].title, pivot, final[j].title);
      }
    }
  }

  /** The quicksort of the whole vector, as the driver calls it with
      begin 0 and end size - 1. */
  method QuickSortAll(a: array<Bid>)
    modifies a
    ensures Sorted(a[..])
    ensures multiset(a[..]) == multiset(old(a[..]))
  {
    QuickSort(a, 0, a.Length - 1);
  }
}
