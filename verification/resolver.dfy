/** `getRelease` without its HTTP request: the fetched release list is a
    parameter. The specifier is normalised, every tag becomes a `Release`,
    the releases are sorted by `releaseComparison`, those whose version does
    not start with the specifier are dropped, and the first one left is the
    answer. */
module Resolver {
  import opened Wrappers
  import opened Text
  import opened SemVer
  import opened Releases
  import opened Sorting

  /** The error message thrown when no release matches. */
  const NoMatchMessage := "unable to get latest version"

  /** `result || []`: a response without a body counts as no releases. */
  function TagList(fetched: Option<seq<Tag>>): (r: seq<Tag>)
    ensures |r| == 0 <==> fetched == None || fetched == Some([])
    ensures fetched.Some? ==> r == fetched.value
  {
    match fetched
    case None => []
    case Some(tags) => tags
  }

  /** `tags.map(t => new Release(t))`. */
  function ReleasesOf(tags: seq<Tag>): (rs: seq<Release>)
    ensures |rs| == |tags|
    ensures forall i :: 0 <= i < |tags| ==> rs[i] == MakeRelease(tags[i])
  {
    seq(|tags|, i requires 0 <= i < |tags| => MakeRelease(tags[i]))
  }

  /** Every tag yields a release whose version `semver` can compare. */
  predicate TagsComparable(tags: seq<Tag>) {
    forall i :: 0 <= i < |tags| ==> Comparable(MakeRelease(tags[i]))
  }

  /** How a release version is matched against the normalised specifier.
      `Textual` is the installer's `version.startsWith(prefix)`;
      `Componentwise` also asks the prefix to end where a version part
      ends, so that `1.1` matches 1.1.0 but not 1.10.0. */
  datatype MatchRule = Textual | Componentwise

  predicate Matches(rule: MatchRule, version: string, prefix: string)
    ensures Matches(rule, version, prefix) ==> StartsWith(version, prefix)
    ensures rule == Textual ==> (Matches(rule, version, prefix) <==> StartsWith(version, prefix))
  {
    && StartsWith(version, prefix)
    && (rule == Componentwise ==> |prefix| == 0 || |version| == |prefix| || version[|prefix|] == '.')
  }

  /** `a` occurs in `rs` before some occurrence of `b`. */
  ghost predicate PairInOrder(a: Release, b: Release, rs: seq<Release>) {
    exists p, q :: 0 <= p < q < |rs| && rs[p] == a && rs[q] == b
  }

  /** Any two releases of `r` occur in `rs` in the same order, at
      different positions. */
  ghost predicate InOrderOf(r: seq<Release>, rs: seq<Release>) {
    forall i, j :: 0 <= i < j < |r| ==> PairInOrder(r[i], r[j], rs)
  }

  /** Keeping or dropping the head of `rs` in front of a list in order of
      its tail gives a list in order of `rs`. */
  lemma ConsInOrder(rs: seq<Release>, rest: seq<Release>, keep: bool)
    requires |rs| > 0
    requires forall x :: x in rest ==> x in rs[1..]
    requires InOrderOf(rest, rs[1..])
    ensures InOrderOf(if keep then [rs[0]] + rest else rest, rs)
  {
    var r := if keep then [rs[0]] + rest else rest;
    var d := if keep then 1 else 0;
    forall i, j | 0 <= i < j < |r|
      ensures PairInOrder(r[i], r[j], rs)
    {
      if keep && i == 0 {
        assert rest[j - 1] in rs[1..];
        var q :| 0 <= q < |rs[1..]| && rs[1..][q] == rest[j - 1];
        assert rs[0] == r[i] && rs[q + 1] == r[j];
      } else {
        assert r[i] == rest[i - d] && r[j] == rest[j - d];
        assert PairInOrder(rest[i - d], rest[j - d], rs[1..]);
        var p, q :| 0 <= p < q < |rs[1..]| && rs[1..][p] == rest[i - d] && rs[1..][q] == rest[j - d];
        assert rs[p + 1] == r[i] && rs[q + 1] == r[j];
      }
    }
  }

  /** `releases.filter(r => r.version.startsWith(prefix))`, or the same
      filter with the componentwise rule. */
  function FilterPrefix(rs: seq<Release>, rule: MatchRule, prefix: string): (r: seq<Release>)
    ensures forall x :: x in r <==> x in rs && Matches(rule, x.version, prefix)
    ensures forall x :: multiset(r)[x] == if Matches(rule, x.version, prefix) then multiset(rs)[x] else 0
    ensures InOrderOf(r, rs)
    ensures |r| <= |rs|
    decreases |rs|
  {
    if |rs| == 0 then []
    else
      var rest := FilterPrefix(rs[1..], rule, prefix);
      assert rs == [rs[0]] + rs[1..];
      assert multiset(rs) == multiset{rs[0]} + multiset(rs[1..]);
      var r := if Matches(rule, rs[0].version, prefix) then [rs[0]] + rest else rest;
      ConsInOrder(rs, rest, Matches(rule, rs[0].version, prefix));
      r
  }

  /** The filter of one release keeps it exactly when it matches. */
  lemma FilterSingle(x: Release, rule: MatchRule, prefix: string)
    ensures FilterPrefix([x], rule, prefix) == if Matches(rule, x.version, prefix) then [x] else []
  {
    assert [x][1..] == [];
  }

  /** Associativity of concatenation, proved apart from `FilterAppend`:
      asserted inside that proof, among the filter's contracts, it costs
      the solver too much. */
  lemma AppendAssociative(s: seq<Release>, t: seq<Release>, u: seq<Release>)
    ensures s + (t + u) == (s + t) + u
  {
  }

  /** Filtering a concatenation filters each side in turn. With
      `FilterSingle` this fixes the filter's result on every list: the
      matching releases, in input order. */
  lemma {:induction false} FilterAppend(a: seq<Release>, b: seq<Release>, rule: MatchRule, prefix: string)
    ensures FilterPrefix(a + b, rule, prefix) == FilterPrefix(a, rule, prefix) + FilterPrefix(b, rule, prefix)
    decreases |a|
  {
    if |a| == 0 {
      assert a + b == b;
    } else {
      var ab := a + b;
      assert ab[0] == a[0] && ab[1..] == a[1..] + b;
      FilterAppend(a[1..], b, rule, prefix);
      var fa, fb := FilterPrefix(a[1..], rule, prefix), FilterPrefix(b, rule, prefix);
      if Matches(rule, a[0].version, prefix) {
        assert FilterPrefix(ab, rule, prefix) == [a[0]] + (fa + fb);
        assert FilterPrefix(a, rule, prefix) == [a[0]] + fa;
        AppendAssociative([a[0]], fa, fb);
      } else {
        assert FilterPrefix(ab, rule, prefix) == fa + fb;
        assert FilterPrefix(a, rule, prefix) == fa;
      }
    }
  }

  /** In a sorted list the first release that matches a prefix is ordered
      no later than any other release that matches it. */
  lemma {:induction false} FilterHeadFirst(rs: seq<Release>, rule: MatchRule, prefix: string, y: Release)
    requires AllComparable(rs) && Sorted(rs)
    requires y in rs && Matches(rule, y.version, prefix)
    ensures |FilterPrefix(rs, rule, prefix)| > 0
    ensures ReleaseComparison(FilterPrefix(rs, rule, prefix)[0], y) <= 0
    decreases |rs|
  {
    if Matches(rule, rs[0].version, prefix) {
      HeadFirst(rs, y);
    } else {
      assert rs == [rs[0]] + rs[1..];
      assert y in rs[1..];
      TailSorted(rs);
      FilterHeadFirst(rs[1..], rule, prefix, y);
    }
  }

  /** `m` does not outrank `r`: it is a prerelease while `r` is stable, or
      both have the same status and `m` has no higher precedence. */
  ghost predicate RanksAtMost(m: Release, r: Release) {
    && Comparable(m) && Comparable(r)
    && (|| (m.prerelease && !r.prerelease)
        || (m.prerelease == r.prerelease && !Below(CoreOf(r.version), CoreOf(m.version))))
  }

  /** `r` is a release of `rs` matching `prefix` that no matching release of
      `rs` outranks. */
  ghost predicate IsBest(r: Release, rs: seq<Release>, rule: MatchRule, prefix: string) {
    && r in rs
    && Matches(rule, r.version, prefix)
    && forall m :: m in rs && Matches(rule, m.version, prefix) ==> RanksAtMost(m, r)
  }

  /** Ranking agrees with the comparator. */
  lemma RanksAtMostIsOrder(m: Release, r: Release)
    requires Comparable(m) && Comparable(r)
    ensures RanksAtMost(m, r) <==> ReleaseComparison(r, m) <= 0
  {
  }

  /** At most one release is the best match. */
  lemma BestUnique(a: Release, b: Release, rs: seq<Release>, rule: MatchRule, prefix: string)
    requires AllComparable(rs)
    requires IsBest(a, rs, rule, prefix) && IsBest(b, rs, rule, prefix)
    ensures a == b
  {
    RanksAtMostIsOrder(a, b);
    RanksAtMostIsOrder(b, a);
    NoTies(a, b);
  }

  /** The first matching release of the sorted list is the best match, and
      there is none exactly when no release matches. */
  lemma SelectBest(rs: seq<Release>, rule: MatchRule, prefix: string)
    requires AllComparable(rs)
    ensures var matching := FilterPrefix(SortReleases(rs), rule, prefix);
      && (|matching| == 0 <==> forall m :: m in rs ==> !Matches(rule, m.version, prefix))
      && (|matching| > 0 ==> IsBest(matching[0], rs, rule, prefix))
  {
    var sorted := SortReleases(rs);
    var matching := FilterPrefix(sorted, rule, prefix);
    assert forall m :: m in rs <==> m in sorted by {
      forall m
        ensures m in rs <==> m in sorted
      {
        assert m in rs <==> m in multiset(rs);
        assert m in sorted <==> m in multiset(sorted);
      }
    }
    if |matching| > 0 {
      var r := matching[0];
      assert r in matching;
      forall m | m in rs && Matches(rule, m.version, prefix)
        ensures RanksAtMost(m, r)
      {
        FilterHeadFirst(sorted, rule, prefix, m);
        RanksAtMostIsOrder(m, r);
      }
    } else {
      forall m | m in rs
        ensures !Matches(rule, m.version, prefix)
      {
        if Matches(rule, m.version, prefix) {
          FilterHeadFirst(sorted, rule, prefix, m);
        }
      }
    }
  }

  /** The releases of a tag list are comparable when its tags are. */
  lemma ReleasesOfComparable(tags: seq<Tag>)
    requires TagsComparable(tags)
    ensures AllComparable(ReleasesOf(tags))
  {
    var rs := ReleasesOf(tags);
    forall i | 0 <= i < |rs|
      ensures Comparable(rs[i])
    {
    }
  }

  /** No tag matches exactly when none of their releases does. */
  lemma NoTagMatches(tags: seq<Tag>, rule: MatchRule, prefix: string)
    ensures (forall t :: t in tags ==> !Matches(rule, MakeRelease(t).version, prefix))
        <==> (forall m :: m in ReleasesOf(tags) ==> !Matches(rule, m.version, prefix))
  {
    var rs := ReleasesOf(tags);
    if forall t :: t in tags ==> !Matches(rule, MakeRelease(t).version, prefix) {
      forall m | m in rs
        ensures !Matches(rule, m.version, prefix)
      {
        var i :| 0 <= i < |rs| && rs[i] == m;
        assert tags[i] in tags;
      }
    }
    if forall m :: m in rs ==> !Matches(rule, m.version, prefix) {
      forall t | t in tags
        ensures !Matches(rule, MakeRelease(t).version, prefix)
      {
        var i :| 0 <= i < |tags| && tags[i] == t;
        assert rs[i] in rs;
      }
    }
  }

  /** Sort, filter and take the head, on releases already built. */
  function Select(rs: seq<Release>, rule: MatchRule, prefix: string): (r: Result<Release>)
    requires AllComparable(rs)
    ensures r.Err? <==> forall m :: m in rs ==> !Matches(rule, m.version, prefix)
    ensures r.Err? ==> r.message == NoMatchMessage
    ensures r.Ok? ==> IsBest(r.value, rs, rule, prefix)
  {
    SelectBest(rs, rule, prefix);
    var matching := FilterPrefix(SortReleases(rs), rule, prefix);
    if |matching| == 0 then Err(NoMatchMessage) else Ok(matching[0])
  }

  /** `getRelease(version)` on a fetched release list. */
  function Resolve(spec: string, fetched: Option<seq<Tag>>): (r: Result<Release>)
    requires TagsComparable(TagList(fetched))
    ensures r.Err? <==> forall t :: t in TagList(fetched) ==> !StartsWith(MakeRelease(t).version, NormalizeSpec(spec))
    ensures r.Err? ==> r.message == NoMatchMessage
    ensures r.Ok? ==> StartsWith(r.value.version, NormalizeSpec(spec))
    ensures r.Ok? ==> IsBest(r.value, ReleasesOf(TagList(fetched)), Textual, NormalizeSpec(spec))
  {
    ReleasesOfComparable(TagList(fetched));
    NoTagMatches(TagList(fetched), Textual, NormalizeSpec(spec));
    Select(ReleasesOf(TagList(fetched)), Textual, NormalizeSpec(spec))
  }

  /** `getRelease` with the prefix matched part by part: `1.1.x` asks for
      the 1.1 series and nothing else. */
  function ResolveWithinSeries(spec: string, fetched: Option<seq<Tag>>): (r: Result<Release>)
    requires TagsComparable(TagList(fetched))
    ensures r.Err? <==> forall t :: t in TagList(fetched) ==> !Matches(Componentwise, MakeRelease(t).version, NormalizeSpec(spec))
    ensures r.Err? ==> r.message == NoMatchMessage
    ensures r.Ok? ==> IsBest(r.value, ReleasesOf(TagList(fetched)), Componentwise, NormalizeSpec(spec))
  {
    ReleasesOfComparable(TagList(fetched));
    NoTagMatches(TagList(fetched), Componentwise, NormalizeSpec(spec));
    Select(ReleasesOf(TagList(fetched)), Componentwise, NormalizeSpec(spec))
  }

  /** A tag's release is among the releases of its list. */
  lemma TagReleaseIn(tags: seq<Tag>, t: Tag)
    requires t in tags
    ensures MakeRelease(t) in ReleasesOf(tags)
  {
    var i :| 0 <= i < |tags| && tags[i] == t;
    assert ReleasesOf(tags)[i] == MakeRelease(t);
  }

  /** Selection returns exactly the best match. */
  lemma SelectCharacterised(rs: seq<Release>, rule: MatchRule, prefix: string, x: Release)
    requires AllComparable(rs)
    ensures Select(rs, rule, prefix) == Ok(x) <==> IsBest(x, rs, rule, prefix)
  {
    if IsBest(x, rs, rule, prefix) {
      var r := Select(rs, rule, prefix);
      assert r.Ok?;
      BestUnique(x, r.value, rs, rule, prefix);
    }
  }

  /** The resolver's answer is exactly the best match of the normalised
      specifier among the fetched releases. */
  lemma ResolveCharacterised(spec: string, fetched: Option<seq<Tag>>, x: Release)
    requires TagsComparable(TagList(fetched))
    ensures Resolve(spec, fetched) == Ok(x) <==> IsBest(x, ReleasesOf(TagList(fetched)), Textual, NormalizeSpec(spec))
  {
    ReleasesOfComparable(TagList(fetched));
    SelectCharacterised(ReleasesOf(TagList(fetched)), Textual, NormalizeSpec(spec), x);
  }

  /** Likewise for the componentwise resolver. */
  lemma ResolveWithinSeriesCharacterised(spec: string, fetched: Option<seq<Tag>>, x: Release)
    requires TagsComparable(TagList(fetched))
    ensures ResolveWithinSeries(spec, fetched) == Ok(x)
        <==> IsBest(x, ReleasesOf(TagList(fetched)), Componentwise, NormalizeSpec(spec))
  {
    ReleasesOfComparable(TagList(fetched));
    SelectCharacterised(ReleasesOf(TagList(fetched)), Componentwise, NormalizeSpec(spec), x);
  }

  /** Selection never passes over a release that outranks its answer. */
  lemma SelectRanks(rs: seq<Release>, rule: MatchRule, prefix: string, m: Release)
    requires AllComparable(rs)
    requires m in rs && Matches(rule, m.version, prefix)
    ensures Select(rs, rule, prefix).Ok? && RanksAtMost(m, Select(rs, rule, prefix).value)
  {
  }

  /** When some matching release is stable, the answer is stable. */
  lemma ResolvePrefersStable(spec: string, fetched: Option<seq<Tag>>, t: Tag)
    requires TagsComparable(TagList(fetched))
    requires t in TagList(fetched) && !t.prerelease
    requires StartsWith(MakeRelease(t).version, NormalizeSpec(spec))
    ensures Resolve(spec, fetched).Ok? && !Resolve(spec, fetched).value.prerelease
  {
    ReleasesOfComparable(TagList(fetched));
    TagReleaseIn(TagList(fetched), t);
    SelectRanks(ReleasesOf(TagList(fetched)), Textual, NormalizeSpec(spec), MakeRelease(t));
  }

  /** No matching release with the answer's prerelease status has higher
      precedence than the answer. */
  lemma ResolveMaximal(spec: string, fetched: Option<seq<Tag>>, t: Tag)
    requires TagsComparable(TagList(fetched))
    requires t in TagList(fetched)
    requires StartsWith(MakeRelease(t).version, NormalizeSpec(spec))
    ensures Resolve(spec, fetched).Ok?
    ensures var r := Resolve(spec, fetched).value;
      t.prerelease == r.prerelease ==> !Below(CoreOf(r.version), CoreOf(MakeRelease(t).version))
  {
    ReleasesOfComparable(TagList(fetched));
    TagReleaseIn(TagList(fetched), t);
    SelectRanks(ReleasesOf(TagList(fetched)), Textual, NormalizeSpec(spec), MakeRelease(t));
  }

  /** For a non-empty prefix, a componentwise match is exactly a version
      whose leading parts are the prefix's parts. */
  lemma ComponentwiseParts(version: string, prefix: string)
    requires |prefix| > 0
    ensures Matches(Componentwise, version, prefix)
        <==> var ps, vs := Split(prefix, '.'), Split(version, '.');
             |ps| <= |vs| && vs[..|ps|] == ps
  {
    var ps, vs := Split(prefix, '.'), Split(version, '.');
    if Matches(Componentwise, version, prefix) {
      if |version| == |prefix| {
        assert version == prefix;
      } else {
        var rest := version[|prefix| + 1..];
        assert version == prefix + ['.'] + rest;
        SplitAppend(prefix, rest, '.');
      }
    }
    if |ps| <= |vs| && vs[..|ps|] == ps {
      if |ps| == |vs| {
        assert vs == ps;
      } else {
        var more := vs[|ps|..];
        assert vs == ps + more;
        JoinAppend(ps, more, '.');
        assert version == prefix + ['.'] + Join(more, '.');
        assert version[..|prefix|] == prefix;
      }
    }
  }

  /** The evidently intended property of the resolver: with a non-empty
      specifier, the answer of the componentwise resolver has the
      specifier's parts as its leading parts. */
  lemma ResolveWithinSeriesParts(spec: string, fetched: Option<seq<Tag>>)
    requires TagsComparable(TagList(fetched))
    requires |NormalizeSpec(spec)| > 0
    ensures var r := ResolveWithinSeries(spec, fetched);
      r.Ok? ==> var ps := Split(NormalizeSpec(spec), '.');
        |ps| <= |Split(r.value.version, '.')| && Split(r.value.version, '.')[..|ps|] == ps
  {
    var r := ResolveWithinSeries(spec, fetched);
    if r.Ok? {
      ComponentwiseParts(r.value.version, NormalizeSpec(spec));
    }
  }
}
