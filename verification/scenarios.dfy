/** The release-list scenarios of the installer's tests, resolved in the
    model: releases 1.1.0 (a prerelease), 1.0.0, 0.28.0, 0.27.1 and 0.27.0. */
module Scenarios {
  import opened Wrappers
  import opened Text
  import opened SemVer
  import opened Releases
  import opened Sorting
  import opened Resolver
  import opened Download

  /** The test releases as tags, spelled without a leading `v`; `WithV`
      gives the other spelling. */
  function TestTags(): (r: seq<Tag>) {
    [Tag("1.1.0", true), Tag("1.0.0", false), Tag("0.28.0", false), Tag("0.27.1", false), Tag("0.27.0", false)]
  }

  function TestReleases(): (r: seq<Release>) {
    [Release("1.1.0", true), Release("1.0.0", false), Release("0.28.0", false), Release("0.27.1", false), Release("0.27.0", false)]
  }

  /** A tag spelled as the version a core formats to yields a release
      with that version, comparable and with that core. */
  lemma KnownTag(s: string, c: Core, prerelease: bool)
    requires Format(c) == s
    requires c.major <= MaxSafeInteger && c.minor <= MaxSafeInteger && c.patch <= MaxSafeInteger
    ensures MakeRelease(Tag(s, prerelease)) == Release(s, prerelease)
    ensures ValidVersion(s) && CoreOf(s) == c
  {
    FormatValid(c);
    SplitFormat(c);
    assert !StartsWith(s, "v") by {
      assert s[0] == Decimal(c.major)[0];
    }
  }

  // One lemma per test tag: each evaluates a single version literal, which
  // keeps every proof small for the solver.

  lemma Tag110() ensures MakeRelease(Tag("1.1.0", true)) == Release("1.1.0", true)
    ensures ValidVersion("1.1.0") && CoreOf("1.1.0") == Core(1, 1, 0)
  {
    assert Format(Core(1, 1, 0)) == "1.1.0";
    KnownTag("1.1.0", Core(1, 1, 0), true);
  }

  lemma Tag100() ensures MakeRelease(Tag("1.0.0", false)) == Release("1.0.0", false)
    ensures ValidVersion("1.0.0") && CoreOf("1.0.0") == Core(1, 0, 0)
  {
    assert Format(Core(1, 0, 0)) == "1.0.0";
    KnownTag("1.0.0", Core(1, 0, 0), false);
  }

  lemma Tag0280() ensures MakeRelease(Tag("0.28.0", false)) == Release("0.28.0", false)
    ensures ValidVersion("0.28.0") && CoreOf("0.28.0") == Core(0, 28, 0)
  {
    assert Format(Core(0, 28, 0)) == "0.28.0";
    KnownTag("0.28.0", Core(0, 28, 0), false);
  }

  lemma Tag0271() ensures MakeRelease(Tag("0.27.1", false)) == Release("0.27.1", false)
    ensures ValidVersion("0.27.1") && CoreOf("0.27.1") == Core(0, 27, 1)
  {
    assert Format(Core(0, 27, 1)) == "0.27.1";
    KnownTag("0.27.1", Core(0, 27, 1), false);
  }

  lemma Tag0270() ensures MakeRelease(Tag("0.27.0", false)) == Release("0.27.0", false)
    ensures ValidVersion("0.27.0") && CoreOf("0.27.0") == Core(0, 27, 0)
  {
    assert Format(Core(0, 27, 0)) == "0.27.0";
    KnownTag("0.27.0", Core(0, 27, 0), false);
  }

  // The same fact stated for each position of the test lists: a proof
  // that handles all five positions at once is too large for the solver.

  lemma Element0()
    ensures MakeRelease(TestTags()[0]) == TestReleases()[0] && Comparable(TestReleases()[0])
  {
    Tag110();
  }

  lemma Element1()
    ensures MakeRelease(TestTags()[1]) == TestReleases()[1] && Comparable(TestReleases()[1])
  {
    Tag100();
  }

  lemma Element2()
    ensures MakeRelease(TestTags()[2]) == TestReleases()[2] && Comparable(TestReleases()[2])
  {
    Tag0280();
  }

  lemma Element3()
    ensures MakeRelease(TestTags()[3]) == TestReleases()[3] && Comparable(TestReleases()[3])
  {
    Tag0271();
  }

  lemma Element4()
    ensures MakeRelease(TestTags()[4]) == TestReleases()[4] && Comparable(TestReleases()[4])
  {
    Tag0270();
  }

  /** Each test tag yields the test release at the same index, and
      `semver` can compare its version. */
  lemma TestElements()
    ensures forall i :: 0 <= i < 5 ==> MakeRelease(TestTags()[i]) == TestReleases()[i] && Comparable(TestReleases()[i])
  {
    forall i | 0 <= i < 5
      ensures MakeRelease(TestTags()[i]) == TestReleases()[i] && Comparable(TestReleases()[i])
    {
      if i == 0 { Element0(); } else if i == 1 { Element1(); } else if i == 2 { Element2(); }
      else if i == 3 { Element3(); } else { Element4(); }
    }
  }

  /** The test release list as the resolver builds it; `semver` can compare
      every version in it. */
  lemma TestReleasesOf()
    ensures ReleasesOf(TestTags()) == TestReleases()
    ensures TagsComparable(TestTags())
  {
    TestElements();
  }

  /** The same tags spelled with a leading `v`, as sysl's release tags are. */
  function WithV(tags: seq<Tag>): (r: seq<Tag>)
    ensures |r| == |tags|
    ensures forall i :: 0 <= i < |tags| ==> r[i] == Tag("v" + tags[i].tagName, tags[i].prerelease)
  {
    seq(|tags|, i requires 0 <= i < |tags| => Tag("v" + tags[i].tagName, tags[i].prerelease))
  }

  /** Tags whose names do not start with `v` give the same releases with
      a leading `v` added. */
  lemma ReleasesOfWithV(tags: seq<Tag>)
    requires forall i :: 0 <= i < |tags| ==> !StartsWith(tags[i].tagName, "v")
    ensures ReleasesOf(WithV(tags)) == ReleasesOf(tags)
  {
    forall i | 0 <= i < |tags|
      ensures ReleasesOf(WithV(tags))[i] == ReleasesOf(tags)[i]
    {
      LeadingVIgnored(tags[i]);
    }
  }

  /** No test tag name starts with `v`. */
  lemma TestTagsPlain()
    ensures forall i :: 0 <= i < |TestTags()| ==> !StartsWith(TestTags()[i].tagName, "v")
  {
    forall i | 0 <= i < |TestTags()|
      ensures !StartsWith(TestTags()[i].tagName, "v")
    {
      MismatchAt(TestTags()[i].tagName, "v", 0);
    }
  }

  /** Tags whose names do not start with `v` resolve as they do with a
      leading `v` added, under both matching rules and for every specifier.
      `TestTagsPlain` shows the test tags are such tags, so the three test
      scenarios hold for either spelling. */
  lemma ResolveWithV(spec: string, tags: seq<Tag>)
    requires TagsComparable(tags)
    requires forall i :: 0 <= i < |tags| ==> !StartsWith(tags[i].tagName, "v")
    ensures TagsComparable(WithV(tags))
    ensures Resolve(spec, Some(WithV(tags))) == Resolve(spec, Some(tags))
    ensures ResolveWithinSeries(spec, Some(WithV(tags))) == ResolveWithinSeries(spec, Some(tags))
  {
    ReleasesOfWithV(tags);
    var vtags := WithV(tags);
    forall i | 0 <= i < |vtags|
      ensures Comparable(MakeRelease(vtags[i]))
    {
      assert MakeRelease(vtags[i]) == ReleasesOf(vtags)[i];
      assert MakeRelease(tags[i]) == ReleasesOf(tags)[i];
    }
  }

  /** A specifier `P.x` with `P` not starting with `v` asks for prefix `P`. */
  lemma PlainSpec(spec: string, prefix: string)
    requires spec == prefix + ".x" && |prefix| >= 1 && prefix[0] != 'v'
    ensures NormalizeSpec(spec) == prefix
  {
    MismatchAt(spec, "v", 0);
    assert spec[|spec| - 2..] == ".x";
  }

  /** `best` is the answer once every release of `rs` either misses the
      prefix or ranks at most `best`. */
  lemma BestByIndex(best: Release, rs: seq<Release>, rule: MatchRule, prefix: string, k: nat)
    requires k < |rs| && rs[k] == best && Matches(rule, best.version, prefix)
    requires forall i :: 0 <= i < |rs| ==> !Matches(rule, rs[i].version, prefix) || RanksAtMost(rs[i], best)
    ensures IsBest(best, rs, rule, prefix)
  {
  }

  // What each test release contributes to the three scenarios: it misses
  // the scenario's prefix or ranks at most the scenario's answer.

  lemma Facts110()
    ensures !StartsWith(TestReleases()[0].version, "0.27")
    ensures RanksAtMost(TestReleases()[0], Release("1.0.0", false))
    ensures RanksAtMost(TestReleases()[0], Release("1.1.0", true))
  {
    Tag110();
    Tag100();
    MismatchAt("1.1.0", "0.27", 0);
  }

  lemma Facts100()
    ensures !StartsWith(TestReleases()[1].version, "0.27")
    ensures RanksAtMost(TestReleases()[1], Release("1.0.0", false))
    ensures !StartsWith(TestReleases()[1].version, "1.1")
  {
    Tag100();
    MismatchAt("1.0.0", "0.27", 0);
    MismatchAt("1.0.0", "1.1", 2);
  }

  lemma Facts0280()
    ensures !StartsWith(TestReleases()[2].version, "0.27")
    ensures !StartsWith(TestReleases()[2].version, "1")
    ensures !StartsWith(TestReleases()[2].version, "1.1")
  {
    MismatchAt("0.28.0", "0.27", 3);
    MismatchAt("0.28.0", "1", 0);
    MismatchAt("0.28.0", "1.1", 0);
  }

  lemma Facts0271()
    ensures RanksAtMost(TestReleases()[3], Release("0.27.1", false))
    ensures !StartsWith(TestReleases()[3].version, "1")
    ensures !StartsWith(TestReleases()[3].version, "1.1")
  {
    Tag0271();
    MismatchAt("0.27.1", "1", 0);
    MismatchAt("0.27.1", "1.1", 0);
  }

  lemma Facts0270()
    ensures RanksAtMost(TestReleases()[4], Release("0.27.1", false))
    ensures !StartsWith(TestReleases()[4].version, "1")
    ensures !StartsWith(TestReleases()[4].version, "1.1")
  {
    Tag0270();
    Tag0271();
    MismatchAt("0.27.0", "1", 0);
    MismatchAt("0.27.0", "1.1", 0);
  }

  lemma Best0271(rule: MatchRule)
    ensures IsBest(Release("0.27.1", false), TestReleases(), rule, "0.27")
  {
    var rs, best := TestReleases(), Release("0.27.1", false);
    forall i | 0 <= i < 5
      ensures !StartsWith(rs[i].version, "0.27") || RanksAtMost(rs[i], best)
    {
      if i == 0 { Facts110(); } else if i == 1 { Facts100(); } else if i == 2 { Facts0280(); }
      else if i == 3 { Facts0271(); } else { Facts0270(); }
    }
    assert best.version[4] == '.';
    BestByIndex(best, rs, rule, "0.27", 3);
  }

  lemma Best100(rule: MatchRule)
    ensures IsBest(Release("1.0.0", false), TestReleases(), rule, "1")
  {
    var rs, best := TestReleases(), Release("1.0.0", false);
    forall i | 0 <= i < 5
      ensures !StartsWith(rs[i].version, "1") || RanksAtMost(rs[i], best)
    {
      if i == 0 { Facts110(); } else if i == 1 { Facts100(); } else if i == 2 { Facts0280(); }
      else if i == 3 { Facts0271(); } else { Facts0270(); }
    }
    assert best.version[1] == '.';
    BestByIndex(best, rs, rule, "1", 1);
  }

  lemma Best110(rule: MatchRule)
    ensures IsBest(Release("1.1.0", true), TestReleases(), rule, "1.1")
  {
    var rs, best := TestReleases(), Release("1.1.0", true);
    forall i | 0 <= i < 5
      ensures !StartsWith(rs[i].version, "1.1") || RanksAtMost(rs[i], best)
    {
      if i == 0 { Facts110(); } else if i == 1 { Facts100(); } else if i == 2 { Facts0280(); }
      else if i == 3 { Facts0271(); } else { Facts0270(); }
    }
    assert best.version[3] == '.';
    BestByIndex(best, rs, rule, "1.1", 0);
  }

  /** `0.27.x` picks the highest 0.27 release, under either matching rule. */
  lemma LatestPatch()
    ensures TagsComparable(TestTags())
    ensures Resolve("0.27.x", Some(TestTags())) == Ok(Release("0.27.1", false))
    ensures ResolveWithinSeries("0.27.x", Some(TestTags())) == Ok(Release("0.27.1", false))
  {
    TestReleasesOf();
    PlainSpec("0.27.x", "0.27");
    Best0271(Textual);
    Best0271(Componentwise);
    ResolveCharacterised("0.27.x", Some(TestTags()), Release("0.27.1", false));
    ResolveWithinSeriesCharacterised("0.27.x", Some(TestTags()), Release("0.27.1", false));
  }

  /** `1.x` picks the stable 1.0.0 over the higher prerelease 1.1.0. */
  lemma StablePreferred()
    ensures TagsComparable(TestTags())
    ensures Resolve("1.x", Some(TestTags())) == Ok(Release("1.0.0", false))
    ensures ResolveWithinSeries("1.x", Some(TestTags())) == Ok(Release("1.0.0", false))
  {
    TestReleasesOf();
    PlainSpec("1.x", "1");
    Best100(Textual);
    Best100(Componentwise);
    ResolveCharacterised("1.x", Some(TestTags()), Release("1.0.0", false));
    ResolveWithinSeriesCharacterised("1.x", Some(TestTags()), Release("1.0.0", false));
  }

  /** `1.1.x` has only a prerelease to offer, and takes it. */
  lemma PrereleaseOnlyMatch()
    ensures TagsComparable(TestTags())
    ensures Resolve("1.1.x", Some(TestTags())) == Ok(Release("1.1.0", true))
    ensures ResolveWithinSeries("1.1.x", Some(TestTags())) == Ok(Release("1.1.0", true))
  {
    TestReleasesOf();
    PlainSpec("1.1.x", "1.1");
    Best110(Textual);
    Best110(Componentwise);
    ResolveCharacterised("1.1.x", Some(TestTags()), Release("1.1.0", true));
    ResolveWithinSeriesCharacterised("1.1.x", Some(TestTags()), Release("1.1.0", true));
  }

  /** With no tag list, or an empty one, nothing matches whatever the
      specifier. */
  lemma NoReleases(spec: string)
    ensures Resolve(spec, None) == Err(NoMatchMessage)
    ensures Resolve(spec, Some([])) == Err(NoMatchMessage)
  {
  }

  lemma Element1100()
    ensures MakeRelease(Tag("1.10.0", false)) == Release("1.10.0", false)
    ensures Comparable(Release("1.10.0", false)) && CoreOf("1.10.0") == Core(1, 10, 0)
  {
    assert Format(Core(1, 10, 0)) == "1.10.0";
    KnownTag("1.10.0", Core(1, 10, 0), false);
  }

  lemma Single1100()
    ensures ReleasesOf([Tag("1.10.0", false)]) == [Release("1.10.0", false)]
    ensures TagsComparable([Tag("1.10.0", false)])
  {
    Element1100();
  }

  lemma Best1100()
    ensures IsBest(Release("1.10.0", false), [Release("1.10.0", false)], Textual, "1.1")
  {
    Element1100();
    var best := Release("1.10.0", false);
    assert StartsWith(best.version, "1.1");
    BestByIndex(best, [best], Textual, "1.1", 0);
  }

  /** Release 1.10.0 is in the 1.10 series. */
  lemma Minor1100()
    ensures ValidVersion("1.10.0") && CoreOf("1.10.0").minor == 10
  {
    Element1100();
  }

  /** The prefix test is textual: `1.1.x` accepts release 1.10.0, whose
      minor version is 10. */
  lemma PrefixNotComponentwise()
    ensures TagsComparable([Tag("1.10.0", false)])
    ensures Resolve("1.1.x", Some([Tag("1.10.0", false)])) == Ok(Release("1.10.0", false))
    ensures CoreOf("1.10.0").minor == 10
  {
    Single1100();
    PlainSpec("1.1.x", "1.1");
    Best1100();
    ResolveCharacterised("1.1.x", Some([Tag("1.10.0", false)]), Release("1.10.0", false));
    Minor1100();
  }

  lemma NoSeriesMatch1100()
    ensures !Matches(Componentwise, MakeRelease(Tag("1.10.0", false)).version, "1.1")
  {
    Element1100();
    assert "1.10.0"[3] != '.';
  }

  /** A single tag that does not match leaves nothing to answer with. */
  lemma SingleTagNoMatch(spec: string, tag: Tag)
    requires Comparable(MakeRelease(tag))
    requires !Matches(Componentwise, MakeRelease(tag).version, NormalizeSpec(spec))
    ensures TagsComparable([tag])
    ensures ResolveWithinSeries(spec, Some([tag])) == Err(NoMatchMessage)
  {
    assert forall t :: t in [tag] ==> t == tag;
  }

  /** Matched part by part, `1.1.x` finds nothing in 1.10.0. */
  lemma SeriesExcludesMinorTen()
    ensures TagsComparable([Tag("1.10.0", false)])
    ensures ResolveWithinSeries("1.1.x", Some([Tag("1.10.0", false)])) == Err(NoMatchMessage)
  {
    Element1100();
    PlainSpec("1.1.x", "1.1");
    NoSeriesMatch1100();
    SingleTagNoMatch("1.1.x", Tag("1.10.0", false));
  }

  lemma SplitTwoParts()
    ensures Split("1.2", '.') == ["1", "2"]
  {
    SplitWithoutSeparator("1", '.');
    SplitWithoutSeparator("2", '.');
    SplitAppend("1", "2", '.');
    assert "1" + ['.'] + "2" == "1.2";
  }

  /** A two-part version gains a `.0`. */
  lemma PadTwoParts(v: string, major: string, minor: string)
    requires Split(v, '.') == [major, minor]
    ensures NormalizeVersion(v) == v + ".0"
  {
    var r := NormalizeVersion(v);
    assert Zeros(1) == ["0"];
    assert Split(r, '.') == [major, minor, "0"];
    assert r == Join([major, minor, "0"], '.');
    assert v == Join([major, minor], '.');
  }

  /** A `v`-prefixed two-part tag becomes a three-part version. */
  lemma TagWithV()
    ensures MakeRelease(Tag("v1.2", false)) == Release("1.2.0", false)
  {
    assert StripLeadingV("v1.2") == "1.2";
    SplitTwoParts();
    PadTwoParts("1.2", "1", "2");
  }

  /** The 64-bit Linux asset of release 0.27.1. */
  lemma LinuxAsset()
    ensures AssetName("0.27.1", "linux", "x64") == "sysl_" + "0.27.1" + "_" + "Linux" + "-" + "64" + "bit." + "tar.gz"
  {
    assert PlatformName("linux") == "Linux";
  }

  /** Its download URL. */
  lemma LinuxUrl()
    ensures DownloadUrl("0.27.1", "linux", "x64")
         == ReleaseDownloadBase + "0.27.1" + "/" + "sysl_" + "0.27.1" + "_" + "Linux" + "-" + "64" + "bit." + "tar.gz"
  {
    LinuxAsset();
  }
}
