# VectorSorting in Dafny

A verified model of the sorting core of VectorSorting, a small C++ program
that loads bid records from a CSV file into a `vector<Bid>` and sorts them
by title, either with selection sort or with a quicksort that uses a middle
pivot and Hoare partitioning. The model also covers the character stripping
that turns a noisy amount field such as `$1,234.56` into the text handed to
`atof`.

- `titles.dfy` (module `Titles`): `Less`, the order of `std::string`'s
  `operator<` (character by character, a proper prefix first), proved to be
  a strict total order.
- `bids.dfy` (module `Bids`): the `Bid` record, `Swap` (`std::swap` on two
  vector elements), what "sorted by title on `[lo, hi]`" means, and lemmas
  about in-place permutations of a range.
- `quicksort.dfy` (module `QuickSorting`): `Partition`, `QuickSort` and the
  driver's whole-vector call, in place on an `array<Bid>`. The two cursor
  loops of `partition` are the methods `ScanUp` and `ScanDown`.
- `selectionsort.dfy` (module `SelectionSorting`): `SelectionSort` in place,
  with the inner minimum search as `FindMinIndex`, and the outer loop bound
  as the C++ code computes it.
- `amount.dfy` (module `AmountParsing`): `Strip` (the filter), `Remove` (the
  in-place `std::remove`), and `StrToDouble`.
- `outcome.dfy` (module `SortOutcome`): any two sorted permutations of the
  same bids have the same title sequence, so both sorters agree on titles.

The vector is an `array<Bid>`; titles are `seq<char>`; `Bid.amount` is a
`real` that the model only carries along. Indices are unbounded integers.

## Model

| member | source | states |
|---|---|---|
| `Titles.Less` | VectorSorting.cpp:104-106 | `std::string`'s `operator<` on titles, as used by both cursor scans and by the minimum search at line 145: character by character, a proper prefix first |
| `Titles.LessAtFirstMismatch` | VectorSorting.cpp:145 | `Less(a, b)` holds exactly when `a` is a proper prefix of `b` or, at the first index where they differ, `a` has the smaller character |
| `Titles.LessIrreflexive` | VectorSorting.cpp:104 | no title is strictly below itself, so the pivot element stops both cursor scans |
| `Titles.LessTransitive` | VectorSorting.cpp:145 | the title order is transitive |
| `Titles.LessConnected` | VectorSorting.cpp:145 | any two titles are equal or ordered one way or the other |
| `Titles.LessAsymmetric` | VectorSorting.cpp:104-106 | a title strictly below another is not above it, so what a strict scan passes is at most the pivot |
| `Titles.LessThenAtMost` | VectorSorting.cpp:145-146 | a title strictly below the current minimum is strictly below every title at least that minimum |
| `Titles.AtMostTransitive` | VectorSorting.cpp:126-128 | "at most" is transitive, so left part ≤ pivot ≤ right part orders the two parts |
| `Titles.AtMostAntisymmetric` | VectorSorting.cpp:145 | titles neither of which is below the other are equal |
| `Bids.Swap` | VectorSorting.cpp:111 | the vector afterwards is the old one with the two elements exchanged, as a multiset unchanged |
| `Bids.RangePermutation` | VectorSorting.cpp:127-128 | a whole-vector permutation that fixes everything outside `[lo, hi]` permutes `[lo, hi]` within itself |
| `Bids.BoundsSurvivePermutation` | VectorSorting.cpp:127-128 | a bound on all titles of a range (at most or at least the pivot) survives any reordering of the range |
| `QuickSorting.ScanUp` | VectorSorting.cpp:104 | the low cursor stops at the first title not below the pivot, never past the sentinel, and every title it passed is strictly below the pivot |
| `QuickSorting.ScanDown` | VectorSorting.cpp:106 | the high cursor stops at the first title not above the pivot, never before the sentinel, and every title it passed is strictly above the pivot |
| `QuickSorting.ScansExtend` | VectorSorting.cpp:104-106 | after both scans, titles before low are at most the pivot and titles after high at least it |
| `QuickSorting.SwapStep` | VectorSorting.cpp:111-113 | the swap made while the cursors have not met keeps the loop invariant with both cursors one step further in, each swapped element now the sentinel of the opposite scan, and nothing outside `[begin, end]` moved |
| `QuickSorting.ScansMeet` | VectorSorting.cpp:108 | once the cursors meet or cross, `high` lies in `[begin, end]`, strictly below `end` when the range has two or more elements, with titles up to it at most the pivot and titles after it at least the pivot |
| `QuickSorting.Partition` | VectorSorting.cpp:97-115 | returns `j` with `begin <= j <= end` and `j < end` whenever `begin < end`; titles in `[begin, j]` are at most the old middle title, titles in `[j+1, end]` at least it; the bids are only permuted and nothing outside `[begin, end]` moves |
| `QuickSorting.RecursionSorts` | VectorSorting.cpp:126-128 | sorting `[begin, mid]` and then `[mid+1, end]` in place after a partition sorts `[begin, end]` and only permutes it |
| `QuickSorting.QuickSort` | VectorSorting.cpp:124-130 | `[begin, end]` ends sorted by title, the bids (all fields) are a permutation of the old ones, nothing outside the range moves, and `begin >= end` changes nothing; terminates because the partition boundary is strictly inside the range |
| `QuickSorting.QuickSortAll` | VectorSorting.cpp:222 | the call `quickSort(bids, 0, size - 1)` sorts the whole vector, including the empty one, and only permutes it |
| `SelectionSorting.FindMinIndex` | VectorSorting.cpp:142-148 | `minIndex` is in `[pos, size)`, no title from `pos` on is below its title, and every title before it (from `pos`) is strictly above it: the first minimal title |
| `SelectionSorting.PlaceMinimum` | VectorSorting.cpp:150 | swapping the minimum into `pos` keeps the prefix sorted and no greater than the rest, now one position longer |
| `SelectionSorting.SelectionSort` | VectorSorting.cpp:137-152 | the vector ends sorted by title and is a permutation of the old one; a vector already sorted by title, the empty and one-element ones included, is left exactly as it was, since each position is its own first minimum and is swapped with itself |
| `SelectionSorting.OuterBoundAsWritten` | VectorSorting.cpp:141 | the loop bound `size - 1` after its conversion to `size_t`: `size - 1` for a non-empty vector, the largest `size_t` value 2^64 - 1 for the empty one |
| `SelectionSorting.OuterBoundAsWrittenInRange` | VectorSorting.cpp:138-141 | the outer loop as written only visits valid positions if and only if the vector is non-empty; on the empty vector it enters the loop |
| `AmountParsing.Strip` | VectorSorting.cpp:162 | the result contains no `ch` and is no longer than the input |
| `AmountParsing.StripConcat` | VectorSorting.cpp:162 | stripping distributes over concatenation |
| `AmountParsing.StripCounts` | VectorSorting.cpp:162 | every other character keeps its number of occurrences; the length drops by the number of `ch` |
| `AmountParsing.StripKeepsOrder` | VectorSorting.cpp:162 | a kept character lands at the index given by the number of kept characters before it, so order is preserved |
| `AmountParsing.StripAbsent` | VectorSorting.cpp:162 | text without `ch` is unchanged |
| `AmountParsing.StripIdempotent` | VectorSorting.cpp:162 | stripping twice is stripping once |
| `AmountParsing.StripExamples` | VectorSorting.cpp:79 | `$1234.5` and `1234.5` both become `1234.5`; `$$12$` becomes `12` |
| `AmountParsing.Remove` | VectorSorting.cpp:162 | `std::remove` in place: the prefix up to the returned end is the input with `ch` filtered out |
| `AmountParsing.StrToDouble` | VectorSorting.cpp:161-164 | the result is `atof` of the input with every `ch` removed |
| `SortOutcome.SortedPermutationTitles` | VectorSorting.cpp:137-152 | two sorted permutations of the same bids have the same title sequence: both sorters agree on titles, and re-sorting a sorted vector keeps its titles |
| `SortOutcome.FourTitlesScenario` | VectorSorting.cpp:211-227 | bids titled Delta, Alpha, Charlie, Bravo come out as Alpha, Bravo, Charlie, Delta from either sorter |

## Findings

| source | as written | input that shows it | evidently intended | confidence | as-written member | corrected member |
|---|---|---|---|---|---|---|
| VectorSorting.cpp:141 | `pos < size - 1` compares a `size_t` with the `int` `size - 1`, which is converted to `size_t` | an empty vector: `size - 1` is -1, becomes 2^64 - 1, the loop runs with `pos = 0` and line 150 swaps `bids[0]` out of bounds | an empty vector is left alone | high, not executed | `SelectionSorting.OuterBoundAsWrittenInRange` | `SelectionSorting.SelectionSort` |

`SelectionSort` returns at once on an empty vector and is proved to sort
every vector, empty included. The driver's `quickSort(bids, 0, size - 1)`
has no such problem: `size()` is unsigned, but the result is converted to
the `int` parameter `end`, giving -1, and `begin < end` fails.

## Left out

- `loadBids`, `displayBid` and `main`: CSV file input, console output,
  argument handling and `clock()` timing. Only the quicksort call of the
  menu (line 222) is modelled, as `QuickSortAll`. The `Bid()` constructor
  that sets `amount` to 0.0 is used only by the loader.
- `atof`: floating-point conversion in the C library. `StrToDouble` takes it
  as a parameter, so its fail-soft result of 0.0 on text that is not a
  number is not modelled.
- Bounded integers: `begin + end` at line 98 can overflow `int` for
  vectors of more than 2^30 + 1 elements (two indices just above 2^30 add
  up to more than 2^31 - 1), and `int size = bids.size()` at line 138 for
  vectors of 2^31 or more; indices here are unbounded.
- The character order: `std::string` compares characters as `unsigned
  char`; the model compares `char` code points, which agree on bytes.
- Complexity, recursion depth and the cost of already-sorted inputs.
- `QuickSort`, `QuickSortAll`: idempotence of whole records is not
  promised. Sorting an already sorted vector is sometimes expected to
  return an identical vector, but quicksort does not: the cursor scans of
  lines 104 and 106 stop on a title equal to the pivot and line 111 swaps
  two such bids, so bids with equal titles can change places (two bids
  titled A at positions 0 and 1 are exchanged). For quicksort the model
  proves the weaker, true statement on titles (`SortedPermutationTitles`);
  selection sort does leave a sorted vector unchanged (`SelectionSort`).
