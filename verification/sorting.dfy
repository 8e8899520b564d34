/** `releases.sort(releaseComparison)`. The engine's sort algorithm is not
    visible; any sort yields a sorted permutation, and `SortedUnique` shows
    there is only one, so insertion sort stands in for it. */
module Sorting {
  import opened SemVer
  import opened Releases

  predicate AllComparable(s: seq<Release>) {
    forall i :: 0 <= i < |s| ==> Comparable(s[i])
  }

  /** No release comes after one that `releaseComparison` orders behind it. */
  ghost predicate Sorted(s: seq<Release>)
    requires AllComparable(s)
  {
    forall i, j :: 0 <= i < j < |s| ==> ReleaseComparison(s[i], s[j]) <= 0
  }

  /** A release ordered no later than the head of a sorted list is ordered
      no later than all of it. */
  lemma BeforeHeadBeforeAll(x: Release, s: seq<Release>)
    requires Comparable(x) && AllComparable(s) && Sorted(s)
    requires |s| > 0 && ReleaseComparison(x, s[0]) <= 0
    ensures forall j :: 0 <= j < |s| ==> ReleaseComparison(x, s[j]) <= 0
  {
    forall j | 0 < j < |s|
      ensures ReleaseComparison(x, s[j]) <= 0
    {
      ReleaseComparisonTransitive(x, s[0], s[j]);
    }
  }

  /** Inserts `x` in front of the first release it is ordered before. */
  function Insert(x: Release, s: seq<Release>): (r: seq<Release>)
    requires Comparable(x) && AllComparable(s) && Sorted(s)
    ensures AllComparable(r) && Sorted(r)
    ensures multiset(r) == multiset(s) + multiset{x}
    decreases |s|
  {
    if |s| == 0 then [x]
    else if ReleaseComparison(x, s[0]) <= 0 then
      ConsSorted(x, s);
      [x] + s
    else
      var rest := Insert(x, s[1..]);
      InsertAfterHead(x, s, rest);
      [s[0]] + rest
  }

  /** A release ordered no later than every member of a sorted list can
      lead it. */
  lemma LeadSorted(h: Release, s: seq<Release>)
    requires Comparable(h) && AllComparable(s) && Sorted(s)
    requires forall y :: y in s ==> ReleaseComparison(h, y) <= 0
    ensures AllComparable([h] + s) && Sorted([h] + s)
  {
    var r := [h] + s;
    forall i, j | 0 <= i < j < |r|
      ensures ReleaseComparison(r[i], r[j]) <= 0
    {
      if i > 0 {
        assert r[i] == s[i - 1] && r[j] == s[j - 1];
      } else {
        assert r[j] in s;
      }
    }
  }

  /** A release ordered no later than the head of a sorted list can lead it. */
  lemma ConsSorted(x: Release, s: seq<Release>)
    requires Comparable(x) && AllComparable(s) && Sorted(s)
    requires |s| > 0 && ReleaseComparison(x, s[0]) <= 0
    ensures AllComparable([x] + s) && Sorted([x] + s)
    ensures multiset([x] + s) == multiset(s) + multiset{x}
  {
    BeforeHeadBeforeAll(x, s);
    LeadSorted(x, s);
  }

  /** The head of a sorted list stays in front when `x` is ordered after it
      and is inserted into the tail. */
  lemma InsertAfterHead(x: Release, s: seq<Release>, rest: seq<Release>)
    requires Comparable(x) && AllComparable(s) && Sorted(s)
    requires |s| > 0 && ReleaseComparison(x, s[0]) > 0
    requires AllComparable(rest) && Sorted(rest)
    requires multiset(rest) == multiset(s[1..]) + multiset{x}
    ensures AllComparable([s[0]] + rest) && Sorted([s[0]] + rest)
    ensures multiset([s[0]] + rest) == multiset(s) + multiset{x}
  {
    assert s == [s[0]] + s[1..];
    ReleaseComparisonAntisymmetric(x, s[0]);
    forall y | y in rest
      ensures ReleaseComparison(s[0], y) <= 0
    {
      assert y in multiset(rest);
      if y != x {
        assert y in multiset(s[1..]);
        var k :| 0 <= k < |s[1..]| && s[1..][k] == y;
        assert s[k + 1] == y;
      }
    }
    LeadSorted(s[0], rest);
  }

  /** Insertion sort under `releaseComparison`. */
  function SortReleases(s: seq<Release>): (r: seq<Release>)
    requires AllComparable(s)
    ensures AllComparable(r) && Sorted(r)
    ensures multiset(r) == multiset(s)
    decreases |s|
  {
    if |s| == 0 then []
    else
      assert s == [s[0]] + s[1..];
      Insert(s[0], SortReleases(s[1..]))
  }

  /** The head of a sorted list is ordered no later than any member. */
  lemma HeadFirst(s: seq<Release>, y: Release)
    requires AllComparable(s) && Sorted(s)
    requires y in s
    ensures ReleaseComparison(s[0], y) <= 0
  {
    var k :| 0 <= k < |s| && s[k] == y;
  }

  lemma TailSorted(s: seq<Release>)
    requires AllComparable(s) && Sorted(s) && |s| > 0
    ensures AllComparable(s[1..]) && Sorted(s[1..])
  {
    var t := s[1..];
    forall i, j | 0 <= i < j < |t|
      ensures ReleaseComparison(t[i], t[j]) <= 0
    {
      assert t[i] == s[i + 1] && t[j] == s[j + 1];
    }
  }

  /** Releases ordered no later than each other are equal. */
  lemma NoTies(a: Release, b: Release)
    requires Comparable(a) && Comparable(b)
    requires ReleaseComparison(a, b) <= 0 && ReleaseComparison(b, a) <= 0
    ensures a == b
  {
    ReleaseComparisonAntisymmetric(a, b);
  }

  lemma TailMultiset(s: seq<Release>)
    requires |s| > 0
    ensures multiset(s[1..]) == multiset(s) - multiset{s[0]}
  {
    assert s == [s[0]] + s[1..];
  }

  /** Two sorted arrangements of the same releases are the same sequence:
      the comparator leaves no ties between distinct releases. */
  lemma {:induction false} SortedUnique(s: seq<Release>, t: seq<Release>)
    requires AllComparable(s) && AllComparable(t) && Sorted(s) && Sorted(t)
    requires multiset(s) == multiset(t)
    ensures s == t
    decreases |s|
  {
    assert |s| == |multiset(s)| == |multiset(t)| == |t|;
    if |s| > 0 {
      assert s[0] in multiset(t) && t[0] in multiset(s);
      HeadFirst(t, s[0]);
      HeadFirst(s, t[0]);
      NoTies(s[0], t[0]);
      TailMultiset(s);
      TailMultiset(t);
      TailSorted(s);
      TailSorted(t);
      SortedUnique(s[1..], t[1..]);
    }
  }
}
