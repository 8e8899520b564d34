# sysl installer: release resolution and download URL

A Dafny model of the core of the sysl GitHub Action's installer
(`src/installer.ts`, compiled to `lib/installer.js`). Given a version
specifier such as `v1.2.x`, `1.2` or `1.2.0`, the installer:

1. normalises the specifier by dropping one leading `v` and then one
   trailing `.x`;
2. turns every fetched GitHub release tag into a `Release`, whose version is
   the tag name without one leading `v`, padded with `.0` parts to three
   parts;
3. sorts the releases so that stable releases come before prereleases, each
   group in descending semver precedence;
4. keeps the releases whose version starts with the normalised specifier,
   and answers with the first of them. If none is left it fails with
   "unable to get latest version".

Separately, `getDownloadUrl` builds the address of the release archive for a
version, platform and architecture with `util.format`.

The model's modules follow this pipeline:

- `Text` holds the JavaScript string primitives: `startsWith`, `endsWith`,
  and `split`/`join` on one character.
- `SemVer` models semver on `MAJOR.MINOR.PATCH`: its parser, `compare` and
  `rcompare`.
- `Releases` holds specifier normalisation, `normalizeVersion`, the
  `Release` constructor and `releaseComparison`.
- `Sorting` sorts by `releaseComparison`.
- `Resolver` models `getRelease` without its HTTP request.
- `Download` models `getDownloadUrl` and the `%s` directive of `util.format`.
- `Scenarios` holds the release list of the installer's tests and the
  answers the tests expect.

Three definitions in the model are independent specifications that the
operations are proved against:

- `Resolver.IsBest` says which release is the right answer: it matches the
  prefix and no matching release outranks it.
- `SemVer.Below` is the lexicographic order on cores that semver
  precedence must agree with.
- `Download.VersionOfUrl` reads the version back out of a URL.

The filter of step 4 takes a matching rule. `Textual` is the installer's
`startsWith`, and `Resolver.Resolve` uses it. `Componentwise` also asks the
prefix to end where a version part ends, and `Resolver.ResolveWithinSeries`
uses it. The scenarios of the tests hold for both resolvers; the difference
is described under Findings.

## Model

| member | source | states |
|---|---|---|
| `Text.Split` | src/installer.ts:126 | `split` on a separator yields at least one part, no part contains the separator, and joining the parts with it gives back the string |
| `Text.SplitAppend` | lib/installer.js:132 | splitting `a + sep + b` gives the parts of `a` followed by the parts of `b` |
| `SemVer.ParseFormat` | src/installer.ts:134 | a formatted `MAJOR.MINOR.PATCH` core parses back to the same core |
| `SemVer.FormatParse` | lib/installer.js:142 | every bare `MAJOR.MINOR.PATCH` version that semver reads without throwing is the formatting of its core, so one core has one spelling |
| `SemVer.FormatValid` | src/installer.ts:134 | a core formats to a version that semver reads exactly when none of its identifiers exceeds `Number.MAX_SAFE_INTEGER`, and reading it gives the core back |
| `SemVer.CompareCores` | src/installer.ts:134 | comparison of cores is negative, zero or positive exactly when the first is lexicographically below, equal to or above the second |
| `SemVer.Compare` | src/installer.ts:134 | `compare` is negative exactly when the first version has lower precedence than the second, and zero exactly when the versions are equal |
| `SemVer.RCompare` | lib/installer.js:142 | `rcompare` is negative exactly when the second version has lower precedence than the first, and zero exactly when the versions are equal |
| `Releases.StripLeadingV` | src/installer.ts:104 | a specifier starting with `v` is `v` followed by the result; any other specifier is unchanged |
| `Releases.StripTrailingX` | src/installer.ts:105 | a specifier ending in `.x` is the result followed by `.x`; any other is unchanged |
| `Releases.NormalizeSpec` | lib/installer.js:114-117 | the specifier decomposes as an optional leading `v`, the prefix, and an optional trailing `.x`, with the `v` taken off first |
| `Releases.NormalizeVersion` | src/installer.ts:125-130 | the padded version starts with the input, and its parts are the input's parts followed by as many `0` parts as bring the count to three; it has at least three parts |
| `Releases.NormalizeVersionIdempotent` | lib/installer.js:131-138 | padding an already padded version changes nothing |
| `Releases.MakeRelease` | src/installer.ts:41-45 | a release keeps the tag's prerelease flag; its version extends the tag name less one leading `v`, and its parts are that name's parts followed by exactly the `0` parts that bring the count to three |
| `Releases.MakeReleaseDetermined` | lib/installer.js:49-50 | any release with the tag's flag and those padded parts is the constructor's release, so the contract leaves no other choice |
| `Releases.LeadingVIgnored` | src/installer.ts:42-43 | a tag name without a leading `v` and the same name with one give the same release |
| `Releases.ReleaseComparison` | src/installer.ts:133-136 | with different flags the stable release sorts first; with equal flags the higher precedence sorts first; zero exactly for equal releases |
| `Releases.ReleaseComparisonAntisymmetric` | lib/installer.js:140-144 | swapping the two releases negates the comparison |
| `Releases.ReleaseComparisonTransitive` | lib/installer.js:140-144 | "sorts no later than" is transitive, so the comparator is a total order on comparable releases |
| `Sorting.Insert` | lib/installer.js:121 | inserting into a sorted list gives a sorted list with the same releases plus the new one |
| `Sorting.SortReleases` | src/installer.ts:113 | the sorted list is ordered by `releaseComparison` and is a permutation of the input |
| `Sorting.SortedUnique` | src/installer.ts:113 | two sorted permutations of the same releases are equal, so any correct sort gives this answer |
| `Resolver.ReleasesOf` | src/installer.ts:112 | one release per tag, each built from the tag at the same position |
| `Resolver.TagList` | src/installer.ts:107-109 | the tag list is empty exactly when the response has no result or an empty one; otherwise it is the response's list |
| `Resolver.Matches` | src/installer.ts:114 | a match always starts with the prefix; under the installer's textual rule a match is exactly a version starting with the prefix |
| `Resolver.FilterPrefix` | src/installer.ts:114 | a release is kept exactly when it is in the input and its version matches the prefix under the given rule (for the installer's rule: starts with it); each kept release occurs as often as in the input, and any two kept releases keep their input order |
| `Resolver.FilterSingle` | src/installer.ts:114 | the filter of a single release keeps it exactly when its version matches the prefix |
| `Resolver.FilterAppend` | lib/installer.js:122 | filtering a concatenation is the concatenation of the filtered parts, so with `FilterSingle` the result is exactly the matching releases in input order |
| `Resolver.FilterHeadFirst` | lib/installer.js:121-122 | after sorting and filtering, the first release sorts no later than any matching release |
| `Resolver.Select` | lib/installer.js:121-127 | it fails with "unable to get latest version" exactly when no release matches; otherwise the answer is the best match |
| `Resolver.SelectCharacterised` | src/installer.ts:113-121 | selection answers `x` if and only if `x` is the best match under the rule |
| `Resolver.Resolve` | src/installer.ts:103-122 | fails with "unable to get latest version" exactly when no tag's release starts with the normalised specifier, including a missing or empty tag list; otherwise the answer matches and is the best match |
| `Resolver.ResolveCharacterised` | lib/installer.js:112-128 | the resolver answers `x` if and only if `x` is the best match of the normalised specifier among the fetched releases |
| `Resolver.ResolvePrefersStable` | src/installer.ts:132-135 | when some matching release is stable, the answer is stable |
| `Resolver.ResolveMaximal` | lib/installer.js:120-127 | no matching release with the answer's prerelease status has higher precedence than the answer |
| `Resolver.ResolveWithinSeries` | src/installer.ts:51 | the corrected resolver fails exactly when no tag's release matches the specifier part by part; otherwise its answer is the best such match |
| `Resolver.ResolveWithinSeriesCharacterised` | src/installer.ts:51 | the corrected resolver answers `x` if and only if `x` is the best part-by-part match |
| `Resolver.ComponentwiseParts` | src/installer.ts:51 | for a non-empty prefix, a version matches part by part exactly when its leading `.`-separated parts are the prefix's parts |
| `Resolver.ResolveWithinSeriesParts` | src/installer.ts:51 | with a non-empty normalised specifier, the corrected resolver's answer begins with the specifier's parts |
| `Download.FormatNoArguments` | src/installer.ts:98-99 | `util.format` with no arguments gives the template back unchanged, so a `%s` with no argument left stays as written |
| `Download.FormatPlainTemplate` | src/installer.ts:98-99 | `util.format` of a template without `%` gives the template followed by each argument after a space |
| `Download.FormatTemplate` | src/installer.ts:98-99 | formatting a template of `%`-free pieces with one argument per `%s` directive places each argument between its pieces |
| `Download.AssetName` | src/installer.ts:94-98 | the asset name is `sysl_`, the version, `_`, the platform name, `-`, `64` or `32`, `bit.` and `zip` or `tar.gz` |
| `Download.DownloadUrl` | src/installer.ts:99 | the URL is the sysl release download base, the version, `/` and the asset name |
| `Download.AssetNameFormatsTemplate` | src/installer.ts:98 | the asset name is `util.format` of the literal template `sysl_%s_%s-%sbit.%s` with the version, platform name, bits and extension |
| `Download.DownloadUrlFormatsTemplate` | src/installer.ts:99 | the URL is `util.format` of the literal template `https://github.com/anz-bank/sysl/releases/download/v%s/%s` with the version and the asset name |
| `Download.DownloadUrlVersion` | lib/installer.js:107-108 | the version can be read back from the URL when it contains no `/` |
| `Download.DownloadUrlArchive` | lib/installer.js:103 | the URL ends in `.zip` exactly on `win32`, and in `.tar.gz` exactly elsewhere |
| `Download.PlatformNameTable` | lib/installer.js:95-106 | the five known platforms map to their asset names; any other platform name is used as is |
| `Download.PlatformName` | src/installer.ts:96-97 | a platform in the table gets its table name; any other platform is used as is |
| `Download.ArchBits` | src/installer.ts:94 | the word size is `64` exactly for `x64`, and `32` otherwise |
| `Download.ArchiveExtension` | src/installer.ts:95 | the extension is `zip` exactly on `win32`, and `tar.gz` otherwise |
| `Scenarios.TestReleasesOf` | __tests__/main.test.ts:35-40 | the test tags become the releases 1.1.0 (prerelease), 1.0.0, 0.28.0, 0.27.1 and 0.27.0, all comparable |
| `Scenarios.LatestPatch` | __tests__/main.test.ts:53-58 | `0.27.x` resolves to 0.27.1, under both matching rules |
| `Scenarios.StablePreferred` | __tests__/main.test.ts:60-64 | `1.x` resolves to the stable 1.0.0 rather than the prerelease 1.1.0, under both matching rules |
| `Scenarios.PrereleaseOnlyMatch` | __tests__/main.test.ts:66-70 | `1.1.x` resolves to the prerelease 1.1.0, the only match, under both matching rules |
| `Scenarios.NoReleases` | src/installer.ts:108-116 | a missing or empty tag list fails with "unable to get latest version" for every specifier |
| `Scenarios.ResolveWithV` | __tests__/main.test.ts:53-70 | adding a leading `v` to tags that have none changes neither resolver's answer for any specifier |
| `Scenarios.TestTagsPlain` | __tests__/main.test.ts:53-70 | no test tag starts with `v`, so the test scenarios hold for the `v`-prefixed spelling too |
| `Scenarios.PrefixNotComponentwise` | lib/installer.js:122 | the match is textual: `1.1.x` resolves to release 1.10.0, whose minor version is 10 |
| `Scenarios.SeriesExcludesMinorTen` | src/installer.ts:51 | matched part by part, `1.1.x` finds no release in a list holding only 1.10.0 |
| `Scenarios.TagWithV` | lib/installer.js:49-50 | tag `v1.2` becomes version `1.2.0` |
| `Scenarios.LinuxUrl` | lib/installer.js:102-108 | the 64-bit Linux URL of 0.27.1 names the archive `sysl_0.27.1_Linux-64bit.tar.gz` |

## Left out

- The HTTP request for the release list is left out. The response body is a parameter, `Option<seq<Tag>>`; `None` stands for a response without a result.
- Only the two fields of a tag that the installer reads are kept: `tag_name` and `prerelease`.
- `install` and `download` are left out: the tool-cache lookup, the download, zip or tar extraction and caching are all I/O.
- `addToPath` is left out: it runs `go env GOPATH` and edits `PATH`. Its check for a missing `go` is written differently in the two files (`== undefined` at src/installer.ts:148, a falsy test at lib/installer.js:154).
- The computation of the temporary directory from environment variables at module load is left out.
- `core.debug` logging and the progress messages on standard output are left out.
- `os.platform()` and `os.arch()` become the parameters `osPlat` and `osArch` of `Download.DownloadUrl`.
- `Resolver.Resolve` requires every tag to yield a bare `MAJOR.MINOR.PATCH` version of at most 256 characters whose numeric identifiers do not exceed `Number.MAX_SAFE_INTEGER`: the versions semver reads without throwing, in the one spelling this model compares. This is stronger than the source in two ways. The source's `semver.rcompare` throws only for versions it actually compares. semver also reads other spellings: a leading `v`, surrounding blanks, and prerelease and build suffixes.
- `Resolver.ResolveWithinSeries` has the same precondition as `Resolver.Resolve`, for the same reason.
- `SemVer.RCompare` covers only numeric `MAJOR.MINOR.PATCH` versions, not semver's full grammar with prerelease and build identifiers. The release list's own prerelease flag is modelled.
- `Sorting.SortReleases` is an insertion sort, not the engine's `Array.prototype.sort`. The comparator is a total order with no ties between distinct releases, and `Sorting.SortedUnique` shows there is only one sorted order, so any correct sort gives the same list.
- `Download.FormatTemplate` models only the `%s` directive of `util.format`, the only directive the installer uses.
- The test data file `releases.json` is not part of this model, so its tag spelling is unknown. `Scenarios.TestTags` spells the test tags without a leading `v`. `Scenarios.ResolveWithV` and `Scenarios.TestTagsPlain` show that the same tags with a leading `v` resolve identically, and `Scenarios.TagWithV` shows the constructor stripping one.

## Findings

| source | as written | input that shows it | evidently intended | confidence | as-written member | corrected member |
|---|---|---|---|---|---|---|
| src/installer.ts:114 | a release is kept when its version starts with the normalised specifier as text | specifier `1.1.x` with the single release 1.10.0 resolves to 1.10.0 | `1.1.x` asks for a release of the 1.1 series, the x-trailing form described at src/installer.ts:51; the prefix should end at a `.` or at the end of the version | medium; not executed | `Scenarios.PrefixNotComponentwise` | `Resolver.ResolveWithinSeries`, with its property `Resolver.ResolveWithinSeriesParts` |
