/** Releases as the installer sees them: the `Tag` records of the release
    list, the `Release` values derived from them, the normalisation of tag
    names and of the user's version specifier, and `releaseComparison`. */
module Releases {
  import opened Text
  import opened SemVer

  /** One entry of the release list: `tag_name` and the `prerelease` flag. */
  datatype Tag = Tag(tagName: string, prerelease: bool)

  /** A release with its tag name normalised to a three-part version. */
  datatype Release = Release(version: string, prerelease: bool)

  /** Drops one leading `v`, if there is one. */
  function StripLeadingV(s: string): (r: string)
    ensures StartsWith(s, "v") ==> "v" + r == s
    ensures !StartsWith(s, "v") ==> r == s
  {
    if StartsWith(s, "v") then s[1..] else s
  }

  /** Drops one trailing `.x`, if there is one. */
  function StripTrailingX(s: string): (r: string)
    ensures EndsWith(s, ".x") ==> r + ".x" == s
    ensures !EndsWith(s, ".x") ==> r == s
  {
    if EndsWith(s, ".x") then s[..|s| - 2] else s
  }

  /** The user's version specifier as a prefix to match release versions
      against: the specifier is an optional leading `v`, the result, and an
      optional trailing `.x`, the `v` being taken off first. */
  function NormalizeSpec(spec: string): (r: string)
    ensures
      var lead := if StartsWith(spec, "v") then "v" else "";
      var trail := if EndsWith(spec[|lead|..], ".x") then ".x" else "";
      spec == lead + r + trail
  {
    var r := StripTrailingX(StripLeadingV(spec));
    assert StartsWith(spec, "v") ==> spec[1..] == StripLeadingV(spec);
    r
  }

  /** `n` parts of `"0"`, none when `n` is not positive. */
  function Zeros(n: int): (r: seq<string>) {
    seq(if n > 0 then n else 0, _ => "0")
  }

  /** `normalizeVersion`: pads a partial version with `.0` parts until it
      has three dot-separated parts; the input is kept as a prefix. */
  function NormalizeVersion(v: string): (r: string)
    ensures StartsWith(r, v)
    ensures Split(r, '.') == Split(v, '.') + Zeros(3 - |Split(v, '.')|)
    ensures |Split(r, '.')| >= 3
  {
    var parts := Split(v, '.');
    if |parts| < 2 then
      PadTwo(v);
      assert |parts| == 1 && Zeros(3 - |parts|) == ["0", "0"];
      v + ".0.0"
    else if |parts| < 3 then
      PadOne(v);
      assert |parts| == 2 && Zeros(3 - |parts|) == ["0"];
      v + ".0"
    else
      assert Zeros(3 - |parts|) == [];
      v
  }

  /** Appending `.0` to `v` appends one `0` part. */
  lemma PadOne(v: string)
    ensures Split(v + ".0", '.') == Split(v, '.') + ["0"]
  {
    SplitWithoutSeparator("0", '.');
    assert v + ".0" == v + ['.'] + "0";
    SplitAppend(v, "0", '.');
  }

  /** Appending `.0.0` to `v` appends two `0` parts. */
  lemma PadTwo(v: string)
    ensures Split(v + ".0.0", '.') == Split(v, '.') + ["0", "0"]
  {
    PadOne("0");
    SplitWithoutSeparator("0", '.');
    assert v + ".0.0" == v + ['.'] + "0.0";
    assert "0.0" == "0" + ".0";
    SplitAppend(v, "0.0", '.');
  }

  /** Padding a version that already has three parts changes nothing. */
  lemma NormalizeVersionIdempotent(v: string)
    ensures NormalizeVersion(NormalizeVersion(v)) == NormalizeVersion(v)
  {
  }

  /** The `Release` constructor: the tag name without one leading `v`,
      padded to three parts, and the prerelease flag as given. */
  function MakeRelease(tag: Tag): (r: Release)
    ensures r.prerelease == tag.prerelease
    ensures StartsWith(tag.tagName, "v") ==> StartsWith("v" + r.version, tag.tagName)
    ensures !StartsWith(tag.tagName, "v") ==> StartsWith(r.version, tag.tagName)
    ensures |Split(r.version, '.')| >= 3
    ensures var parts := Split(StripLeadingV(tag.tagName), '.');
      Split(r.version, '.') == parts + Zeros(3 - |parts|)
  {
    var r := Release(NormalizeVersion(StripLeadingV(tag.tagName)), tag.prerelease);
    assert StartsWith(tag.tagName, "v") ==> ("v" + r.version)[..|tag.tagName|] == "v" + r.version[..|tag.tagName| - 1];
    r
  }

  /** The padding of the constructor leaves no choice: a release with the
      tag's flag whose parts are the stripped tag name's parts padded with
      `0` parts to three is the constructor's release. */
  lemma MakeReleaseDetermined(tag: Tag, r: Release)
    requires r.prerelease == tag.prerelease
    requires var parts := Split(StripLeadingV(tag.tagName), '.');
      Split(r.version, '.') == parts + Zeros(3 - |parts|)
    ensures r == MakeRelease(tag)
  {
    SplitInjective(r.version, MakeRelease(tag).version, '.');
  }

  /** One leading `v` on a tag name that has none makes no difference. */
  lemma LeadingVIgnored(tag: Tag)
    requires !StartsWith(tag.tagName, "v")
    ensures MakeRelease(Tag("v" + tag.tagName, tag.prerelease)) == MakeRelease(tag)
  {
    assert ("v" + tag.tagName)[..1] == "v";
    assert StripLeadingV("v" + tag.tagName) == tag.tagName;
  }

  /** A release whose version `semver.rcompare` accepts. */
  predicate Comparable(r: Release) {
    ValidVersion(r.version)
  }

  /** `releaseComparison`: stable releases before prereleases, then by
      descending precedence. Versions are compared only when the prerelease
      flags agree, so only then must they be valid. */
  function ReleaseComparison(a: Release, b: Release): (r: int)
    requires a.prerelease == b.prerelease ==> Comparable(a) && Comparable(b)
    ensures r == -1 || r == 0 || r == 1
    ensures a.prerelease != b.prerelease ==> (r < 0 <==> !a.prerelease)
    ensures a.prerelease == b.prerelease ==> (r < 0 <==> Below(CoreOf(b.version), CoreOf(a.version)))
    ensures r == 0 <==> a == b
  {
    if a.prerelease == b.prerelease then RCompare(a.version, b.version)
    else if a.prerelease then 1 else -1
  }

  /** Swapping the arguments flips the sign. */
  lemma ReleaseComparisonAntisymmetric(a: Release, b: Release)
    requires a.prerelease == b.prerelease ==> Comparable(a) && Comparable(b)
    ensures ReleaseComparison(a, b) == -ReleaseComparison(b, a)
  {
  }

  /** "Not after" is transitive, so the comparator is a total order. */
  lemma ReleaseComparisonTransitive(a: Release, b: Release, c: Release)
    requires Comparable(a) && Comparable(b) && Comparable(c)
    requires ReleaseComparison(a, b) <= 0 && ReleaseComparison(b, c) <= 0
    ensures ReleaseComparison(a, c) <= 0
  {
  }
}
