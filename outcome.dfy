/** What a sorted result looks like independently of which sorter produced
    it: the sequence of titles of a sorted permutation is unique. */
module SortOutcome {
  import opened Titles
  import opened Bids

  /** The titles of the bids, in vector order. */
  ghost function TitleSeq(s: seq<Bid>): (r: seq<string>)
    ensures |r| == |s| && forall i :: 0 <= i < |s| ==> r[i] == s[i].title
  {
    seq(|s|, i requires 0 <= i < |s| => s[i].title)
  }

  /** Sortedness depends on titles only. */
  lemma SameTitlesSorted(t: seq<Bid>, u: seq<Bid>)
    requires Sorted(t) && |u| == |t|
    requires forall k :: 0 <= k < |t| ==> u[k].title == t[k].title
    ensures Sorted(u) && TitleSeq(u) == TitleSeq(t)
  {
    forall i, j | 0 <= i < j < |u|
      ensures !Less(u[j].title, u[i].title)
    {
      assert u[j].title == t[j].title && u[i].title == t[i].title;
    }
  }

  /** Moving the element at index m to the front shifts t[..m] up by one. */
  lemma MoveToFrontAt(t: seq<Bid>, m: int, k: int)
    requires 0 <= m < |t| && 0 <= k < |t|
    ensures |[t[m]] + t[..m] + t[m + 1..]| == |t|
    ensures ([t[m]] + t[..m] + t[m + 1..])[k] == if k == 0 then t[m] else if k <= m then t[k - 1] else t[k]
  {
  }

  lemma MoveToFrontMultiset(t: seq<Bid>, m: int)
    requires 0 <= m < |t|
    ensures multiset([t[m]] + t[..m] + t[m + 1..]) == multiset(t)
  {
    assert t == t[..m] + [t[m]] + t[m + 1..];
    assert multiset(t) == multiset(t[..m]) + multiset{t[m]} + multiset(t[m + 1..]);
    assert multiset([t[m]] + t[..m] + t[m + 1..]) == multiset{t[m]} + multiset(t[..m]) + multiset(t[m + 1..]);
  }

  /** Moving the element at index m to the front of a sorted sequence whose
      first m + 1 titles are equal keeps it sorted and keeps its titles. */
  lemma MoveToFront(t: seq<Bid>, m: int)
    requires 0 <= m < |t| && Sorted(t)
    requires forall k :: 0 <= k <= m ==> t[k].title == t[m].title
    ensures Sorted([t[m]] + t[..m] + t[m + 1..])
    ensures TitleSeq([t[m]] + t[..m] + t[m + 1..]) == TitleSeq(t)
    ensures multiset([t[m]] + t[..m] + t[m + 1..]) == multiset(t)
  {
    var u := [t[m]] + t[..m] + t[m + 1..];
    forall k | 0 <= k < |t|
      ensures u[k].title == t[k].title
    {
      MoveToFrontAt(t, m, k);
    }
    MoveToFrontAt(t, m, 0);
    SameTitlesSorted(t, u);
    MoveToFrontMultiset(t, m);
  }

  lemma TailPermutation(s: seq<Bid>, t: seq<Bid>)
    requires s != [] && t != [] && s[0] == t[0] && multiset(s) == multiset(t)
    ensures multiset(s[1..]) == multiset(t[1..])
  {
    assert s == [s[0]] + s[1..] && t == [t[0]] + t[1..];
    assert multiset(s) == multiset{s[0]} + multiset(s[1..]);
    assert multiset(t) == multiset{t[0]} + multiset(t[1..]);
    assert multiset(s[1..]) == multiset(s) - multiset{s[0]};
    assert multiset(t[1..]) == multiset(t) - multiset{t[0]};
  }

  lemma SortedTail(s: seq<Bid>)
    requires Sorted(s) && s != []
    ensures Sorted(s[1..])
  {
    forall i, j | 0 <= i < j < |s| - 1
      ensures !Less(s[1..][j].title, s[1..][i].title)
    {
      assert s[1..][j] == s[j + 1] && s[1..][i] == s[i + 1];
    }
  }

  /** When the first element of sorted s sits at index m of sorted t, a
      permutation of s, then the titles t[0..m] all equal that element's. */
  lemma FrontTitles(s: seq<Bid>, t: seq<Bid>, m: int)
    requires Sorted(s) && Sorted(t) && multiset(s) == multiset(t)
    requires 0 <= m < |t| && |s| > 0 && t[m] == s[0]
    ensures forall k :: 0 <= k <= m ==> t[k].title == t[m].title
  {
    assert t[0] in multiset(s);
    var n :| 0 <= n < |s| && s[n] == t[0];
    // s[0] <= t[0] as t[0] occurs in s, and t[0] <= t[m] == s[0].
    LessIrreflexive(s[0].title);
    LessIrreflexive(t[0].title);
    assert !Less(s[n].title, s[0].title);
    assert !Less(t[m].title, t[0].title);
    AtMostAntisymmetric(s[0].title, t[0].title);
    forall k | 0 <= k <= m
      ensures t[k].title == t[m].title
    {
      LessIrreflexive(t[k].title);
      assert !Less(t[k].title, t[0].title) && !Less(t[m].title, t[k].title);
      AtMostAntisymmetric(t[k].title, t[m].title);
    }
  }

  /** One step of the induction below: the first bid of s can be brought to
      the front of t without changing t's titles, leaving two sorted tails
      that are permutations of each other. */
  lemma HeadStep(s: seq<Bid>, t: seq<Bid>) returns (u: seq<Bid>)
    requires Sorted(s) && Sorted(t) && multiset(s) == multiset(t) && s != []
    ensures |u| == |t| && u != [] && u[0] == s[0]
    ensures TitleSeq(u) == TitleSeq(t)
    ensures Sorted(s[1..]) && Sorted(u[1..]) && multiset(s[1..]) == multiset(u[1..])
  {
    assert s[0] in multiset(t);
    var m :| 0 <= m < |t| && t[m] == s[0];
    FrontTitles(s, t, m);
    MoveToFront(t, m);
    u := [t[m]] + t[..m] + t[m + 1..];
    TailPermutation(s, u);
    SortedTail(s);
    SortedTail(u);
  }

  /** Sequences with equal first titles and equal tail titles have equal titles. */
  lemma ConsTitles(s: seq<Bid>, u: seq<Bid>)
    requires s != [] && u != [] && s[0].title == u[0].title
    requires TitleSeq(s[1..]) == TitleSeq(u[1..])
    ensures TitleSeq(s) == TitleSeq(u)
  {
    forall i | 0 < i < |s|
      ensures TitleSeq(s)[i] == TitleSeq(u)[i]
    {
      assert TitleSeq(s[1..])[i - 1] == TitleSeq(u[1..])[i - 1];
    }
  }

  /** Two sorted permutations of the same bids list the same titles in the
      same order, so both sorters give the same title order, and sorting an
      already sorted vector keeps its title order. */
  lemma {:induction false} SortedPermutationTitles(s: seq<Bid>, t: seq<Bid>)
    requires Sorted(s) && Sorted(t) && multiset(s) == multiset(t)
    ensures TitleSeq(s) == TitleSeq(t)
    decreases |s|
  {
    if s != [] {
      var u := HeadStep(s, t);
      SortedPermutationTitles(s[1..], u[1..]);
      ConsTitles(s, u);
    } else {
      assert |t| == |multiset(t)| == 0;
    }
  }

  /** Four bids titled Alpha, Bravo, Charlie, Delta are in order. */
  lemma AlphabeticalSorted(e: seq<Bid>)
    requires TitleSeq(e) == ["Alpha", "Bravo", "Charlie", "Delta"]
    ensures Sorted(e)
  {
    assert e[0].title == "Alpha" && e[1].title == "Bravo";
    assert e[2].title == "Charlie" && e[3].title == "Delta";
    assert Less("Alpha", "Bravo") && Less("Bravo", "Charlie") && Less("Charlie", "Delta");
    LessTransitive("Alpha", "Bravo", "Charlie");
    LessTransitive("Alpha", "Charlie", "Delta");
    LessTransitive("Bravo", "Charlie", "Delta");
    forall i, j | 0 <= i < j < 4
      ensures !Less(e[j].title, e[i].title)
    {
      LessAsymmetric(e[i].title, e[j].title);
    }
  }

  /** Exchanging two elements keeps the multiset. */
  lemma ExchangePermutes(s: seq<Bid>, i: int, j: int)
    requires 0 <= i < |s| && 0 <= j < |s|
    ensures multiset(s[i := s[j]][j := s[i]]) == multiset(s)
  {
  }

  /** The titles of a four-bid sequence, one by one. */
  lemma FourTitles(e: seq<Bid>, t0: string, t1: string, t2: string, t3: string)
    requires |e| == 4
    ensures TitleSeq(e) == [t0, t1, t2, t3] <==>
              e[0].title == t0 && e[1].title == t1 && e[2].title == t2 && e[3].title == t3
  {
    if e[0].title == t0 && e[1].title == t1 && e[2].title == t2 && e[3].title == t3 {
      assert forall i :: 0 <= i < 4 ==> TitleSeq(e)[i] == [t0, t1, t2, t3][i];
    }
  }

  /** Reordering the four example bids by hand gives the alphabetical order. */
  lemma FourTitlesReordered(input: seq<Bid>)
    requires TitleSeq(input) == ["Delta", "Alpha", "Charlie", "Bravo"]
    ensures |input| == 4
    ensures multiset([input[1], input[3], input[2], input[0]]) == multiset(input)
    ensures TitleSeq([input[1], input[3], input[2], input[0]]) == ["Alpha", "Bravo", "Charlie", "Delta"]
  {
    assert |input| == |TitleSeq(input)| == 4;
    FourTitles(input, "Delta", "Alpha", "Charlie", "Bravo");
    var once := input[0 := input[1]][1 := input[0]];
    ExchangePermutes(input, 0, 1);
    ExchangePermutes(once, 1, 3);
    var expected := once[1 := once[3]][3 := once[1]];
    assert expected == [input[1], input[3], input[2], input[0]];
    FourTitles(expected, "Alpha", "Bravo", "Charlie", "Delta");
  }

  /** Four bids titled Delta, Alpha, Charlie and Bravo come out in
      alphabetical order, whichever sorter is used. */
  lemma FourTitlesScenario(input: seq<Bid>, result: seq<Bid>)
    requires TitleSeq(input) == ["Delta", "Alpha", "Charlie", "Bravo"]
    requires Sorted(result) && multiset(result) == multiset(input)
    ensures TitleSeq(result) == ["Alpha", "Bravo", "Charlie", "Delta"]
  {
    FourTitlesReordered(input);
    var expected := [input[1], input[3], input[2], input[0]];
    AlphabeticalSorted(expected);
    SortedPermutationTitles(result, expected);
  }
}
