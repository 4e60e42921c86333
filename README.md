# new-release-version, modelled in Dafny

`new-release-version` works out the next release number of a project. It reads
a base version, either given explicitly or taken from a manifest such as
`build.gradle`, `pom.xml` or `package.json`. It parses the project's git tags
as semantic versions and takes the greatest one, optionally only within the
base version's `major.minor` release line. It drops that latest tag if the base
version already ranks above it. Then it bumps the patch number, or the minor
number on request. If no tag is used and the base version is not 0.0.0, the
base version is offered as it is.

This project models the resolver in `newrelver.go` and proves what it promises.

| file | module | what it holds |
|---|---|---|
| `wrappers.dfy` | `Wrappers` | `Option` and `Result` |
| `text.dfy` | `Text` | the parts of Go's `strings` and `strconv` the resolver uses: `Split`, decimal digits, `Atoi`, `TrimSpace` |
| `order.dfy` | `Order` | three-way comparisons and their lexicographic extension to sequences |
| `semver.dfy` | `SemVer` | coreos/go-semver's `Version`, `Compare`, `BumpMinor`, `BumpPatch` and `String`, and the maximum that `Sort` then "take the last" computes |
| `manifest.dfy` | `Manifest` | the regular expressions, the `versionFiles` rule table and the three extractors |
| `newrelver.dfy` | `Resolver` | `MajorMinorEqual`, `NewSemVer`, `GetBaseVersion`, `GetLatestVersion`, `GetNewVersion` |
| `scenarios.dfy` | `Scenarios` | the expectations of `newrelver_test.go`, stated on the model |

How the model represents the program:

- Versions are values. A bump returns a new value.
- The three resolver operations are methods with loops:
  - `GetBaseVersion` tries the rules in the order Go's map iteration gives. The model makes that order an arbitrary choice (`:|`) over the set of rule names not yet tried.
  - `GetLatestVersion` filters the tags in a loop and then scans for the maximum.
  - `GetNewVersion` picks a working version and bumps it.
- Each method's `ensures` is an outcome predicate: `BaseVersionOutcome`, `LatestVersionOutcome` or `NewVersionOutcome`. Because the map order is not fixed, each predicate says which results are possible. The lemmas are stated about those predicates and about the pure functions they use: `Surviving`, `LatestVersion`, `NewVersion`.
- The project directory is a map from file name to contents. It stands in for `FindVersionFile`.
- The tag source's answer, `ListTags`, is an input: either a list of tags or an error.
- Regular-expression matching and JSON/XML decoding are library behaviour. They are the total functions of a `Decoders` value. Each extractor states how it turns the library's answer into success or failure.
- `NewSemVer` passes the string through hashicorp/go-version and then coreos/go-semver. The model approximates this with the grammar `[v]N[.N[.N]][-id(.id)*]`. Missing numbers are 0, and a string outside the grammar is the error `InvalidVersion(s)`.
- `Compare` follows coreos/go-semver in full:
  - major, minor and patch first;
  - then the pre-release label, where no label ranks above any label;
  - labels are compared identifier by identifier, numeric identifiers by value and below alphanumeric ones;
  - a label that is a prefix of another ranks below it.

  It is proved to be a total order in which only equal versions compare equal. So sorting and taking the last element gives the unique maximum, whatever order the tags came in (`SemVer.SortedLastIsMax`).
- The scenario lemmas do not take the tests' literal strings. They take any tag list that parses to releases shaped like the test repository's tags, and any base-version string that parses to the version the test uses. `Scenarios.TestTagsAreLikeTestTags` and the `…Parses` lemmas show that the test's own values qualify.

Two natural readings of the tool are contradicted by its code, and the model follows the code:

- One might expect "latest" and "is it 0.0.0" to look only at the numbers. The code compares with go-semver's `Compare` (newrelver.go:193) and tests `Equal(semver.Version{})` (newrelver.go:126). Both take the pre-release label into account, and so does the model: `SemVer.PreReleaseRanksBelowRelease`.
- One might expect a manifest version that does not parse to fall through to the next rule, as a failing extractor does. The code parses the first version an extractor finds and returns that parse, error included (newrelver.go:219-220). The model does the same.

## Model

| member | source | states |
|---|---|---|
| `Resolver.MajorMinorEqual` | newrelver.go:85-87 | no contract of its own: true when major and minor agree; its properties are `MajorMinorEqualIsEquivalence` and `MajorMinorEqualIsInterval` |
| `Resolver.MajorMinorEqualIsEquivalence` | newrelver.go:85-87 | sharing major.minor is reflexive, symmetric and transitive, and it ignores patch numbers and labels |
| `Resolver.MajorMinorEqualIsInterval` | newrelver.go:177-179 | a release line is an interval of the version order: any version between two versions of the same line belongs to that line |
| `Resolver.ParseVersion` | newrelver.go:92-98 | the grammar after the optional `v`: a parse always carries a well-formed label; `NewSemVerOfString`, `NewSemVerFillsDefaults` and `ParseVersionRejectsLongCore` give what it accepts and refuses |
| `Resolver.NewSemVer` | newrelver.go:92-98 | a successful parse is a version with a well-formed label; a failed parse is the error `InvalidVersion` naming the input string |
| `Resolver.NewSemVerOfString` | newrelver.go:92-98 | round trip: the rendering of any valid version parses back to that version, with or without a leading `v` |
| `Resolver.NewSemVerNormalizes` | newrelver.go:92-98 | a parsed version renders to a string that parses to the same version again |
| `Resolver.NewSemVerFillsDefaults` | newrelver_test.go:67-79 | `N` and `N.M`, with or without a `-label`, parse with the missing numbers as 0 and the label kept |
| `Resolver.ParseVersionRejectsLongCore` | newrelver.go:92-98 | more than three numbers before the label do not parse |
| `Resolver.TooManyNumbers` | newrelver.go:93-96 | more than three numbers are refused with an error naming the string, with or without a leading `v` and whatever the label |
| `Resolver.NewSemVerRejects` | newrelver.go:93-96 | when the text after the optional `v` is not a version, the error names the whole input |
| `Resolver.FourNumbersAreTooMany` | newrelver.go:92-98 | a string of four dot-separated numbers has four parts and no label, so `TooManyNumbers` applies to it |
| `Resolver.GetBaseVersion` | newrelver.go:213-230 | the result is one that `BaseVersionOutcome` allows: the parse of an explicit base version; otherwise the parse of what some rule extracted from an existing file; otherwise 0.0.0 with no error |
| `Resolver.ExplicitBaseIgnoresManifests` | newrelver.go:214-216 | with an explicit base version, the outcome is exactly its parse, error included, for every project directory and every decoder |
| `Resolver.NoManifestMeansZero` | newrelver.go:217-229 | when every rule's file is missing or its extractor fails, the only outcome is 0.0.0 without error: a failing extractor does not stop the search |
| `Resolver.OneManifestDecides` | newrelver.go:217-220 | when exactly one rule yields a version, the only outcome is the parse of that version |
| `Resolver.BaseVersionDeterminedByOneManifest` | newrelver.go:211-212 | when all rules that yield a version yield the same string, every run finds the same base version, whatever the iteration order |
| `Resolver.Surviving` | newrelver.go:174-182 | the collected versions are never more than the tags; what is collected is stated by `SurvivingIsSound` and `SurvivingIsComplete` |
| `Resolver.SurvivingIsSound` | newrelver.go:174-182 | every collected version is the parse of some tag and, with `sameRelease`, shares major.minor with the base |
| `Resolver.SurvivingIsComplete` | newrelver.go:174-182 | every tag that parses and passes the same-release filter is collected: unparsable tags are the only ones skipped without the filter |
| `Resolver.CollectVersions` | newrelver.go:174-182 | the loop over the tags keeps, in tag order, exactly the tags that parse and pass the same-release filter |
| `Resolver.SortAndTakeLast` | newrelver.go:189-190 | the version taken is one of the collected versions, and none of them ranks above it |
| `Resolver.LatestVersion` | newrelver.go:169-196 | with no tags or no collected version there is no latest version; a latest version is a collected one that the base does not rank above. `LatestVersionIsGreatestTag` gives its maximality and the converse |
| `Resolver.LatestVersionIsGreatestTag` | newrelver.go:169-196 | there is no latest version exactly when the base ranks above every collected tag, vacuously so when none was collected. Otherwise the latest version is the parse of a tag, ranks at least as high as every collected tag and the base, and with `sameRelease` is on the base's release line |
| `Resolver.LatestVersionIs` | newrelver.go:186-196 | a collected version that ranks at least as high as every collected version and the base is the latest version |
| `Resolver.GetLatestVersion` | newrelver.go:155-197 | the result is one `LatestVersionOutcome` allows: a base-version error first, then a tag-source error, each passed on; otherwise the base version found and the latest version of the tags for it |
| `Resolver.LatestVersionDeterminedByBase` | newrelver.go:156-165 | when the project determines the base version, a successful tag listing determines the result, and a failed listing's error is the result |
| `Resolver.NewVersion` | newrelver.go:124-137 | a bumped latest version ranks above it, keeps its major and has no label; without a latest version the result is the base, or a label-free bump of a zero base. `NewVersionCases` gives each case exactly |
| `Resolver.NewVersionCases` | newrelver.go:124-137 | without a latest version, a non-zero base is returned as it is and a zero base becomes 0.0.1, or 0.1.0 with `minor`; with one, major is kept, the label is cleared, and minor+1 with patch 0, or patch+1, follows |
| `Resolver.NewVersionExceedsTags` | newrelver.go:118-140 | the new version ranks above every collected tag and not below the base version |
| `Resolver.NewVersionStaysInRelease` | newrelver.go:133-137 | with `sameRelease` and patch increments, the new version stays on the base's release line |
| `Resolver.GetNewVersion` | newrelver.go:118-140 | the result is one `NewVersionOutcome` allows: errors passed on as `GetLatestVersion` passes them; otherwise the new version for some base version `GetBaseVersion` may return |
| `Resolver.NewVersionDeterminedByBase` | newrelver.go:119-122 | when the project determines the base version, a successful tag listing determines the new version, and a failed listing's error is the result |
| `Resolver.InvalidBaseIsReported` | newrelver.go:156-159 | an explicit base version that does not parse aborts `GetLatestVersion` and `GetNewVersion` with its own error, whatever the tag source answers |
| `SemVer.Version.BumpMinor` | newrelver.go:134 | minor+1, patch 0, major kept, label cleared; the result ranks above the original |
| `SemVer.Version.BumpPatch` | newrelver.go:136 | patch+1, major and minor kept, label cleared; the result ranks above the original |
| `SemVer.Compare` | newrelver.go:193 | no contract of its own: go-semver's `Compare`, by numbers then labels; `CompareIsTotalOrder`, `PreReleaseRanksBelowRelease` and `ReleasesCompareByNumbers` state its properties |
| `SemVer.Less` | newrelver.go:189 | no contract of its own: go-semver's `LessThan`, the order `Sort` uses; `CompareTransitive` and `SortedLastIsMax` state what the sort relies on |
| `SemVer.Version.ToString` | newrelver.go:97 | no contract of its own: go-semver's `String`; `NewSemVerOfString` proves that parsing undoes it |
| `SemVer.CompareIsTotalOrder` | newrelver.go:193 | go-semver's `Compare` returns -1, 0 or 1, is antisymmetric and transitive, and is 0 only for equal versions |
| `SemVer.CompareAntisymmetric` | newrelver.go:126 | swapping the arguments negates the comparison, and `Equal` (comparison 0) is equality of all four parts |
| `SemVer.CompareTransitive` | newrelver.go:189 | the order `Sort` uses is transitive, strictly where either step is strict |
| `SemVer.PreReleaseRanksBelowRelease` | newrelver.go:193 | a version with a label ranks below the same numbers without one |
| `SemVer.ReleasesCompareByNumbers` | newrelver.go:193 | two versions without labels are ordered by major, then minor, then patch, numerically |
| `SemVer.Max` | newrelver.go:189-190 | the maximum of a non-empty sequence is one of its elements |
| `SemVer.MaxIsGreatest` | newrelver.go:189-190 | no element ranks above the maximum |
| `SemVer.MaxIsUnique` | newrelver.go:189-190 | an element that no other element ranks above is the maximum |
| `SemVer.SortedLastIsMax` | newrelver.go:189-190 | for any ascending permutation of the versions, the last element is their maximum, so the latest version does not depend on the tag order |
| `Manifest.Sprintf` | newrelver.go:47 | the rendered regular expression is the format with its `%s` replaced by the argument: same prefix, then the argument, then the rest |
| `Manifest.MatchVersion` | newrelver.go:52-60 | fails exactly when the expression does not match; on a match, the capture group with surrounding white space trimmed |
| `Manifest.UnmarshalJsonVersion` | newrelver.go:62-71 | fails exactly when the decoded `version` field is empty; otherwise that field |
| `Manifest.UnmarshalXmlVersion` | newrelver.go:73-82 | fails exactly when the decoded `version` field is empty; otherwise that field |
| `Manifest.VersionFilesRules` | newrelver.go:33-43 | the table has the nine manifest names; only pom.xml and package.json are decoded, and build.gradle and build.gradle.kts share one expression |
| `Manifest.Extract` | newrelver.go:45-50 | a matcher renders its expression with `VersionNumberRegex` and then behaves as `MatchVersion`; the XML and JSON rules fail exactly when their decoded field is empty and otherwise yield a non-empty version |
| `Manifest.TryRule` | newrelver.go:217-219 | a rule yields a version only for a name in the rule table whose file exists, and the JSON and XML rules never yield an empty one |
| `Text.TrimSpace` | newrelver.go:56 | the result is the infix of the input left after removing all leading and trailing white space, and it neither starts nor ends with white space |
| `Text.TrimSpaceOfTrimmed` | newrelver.go:56 | a string with no white space at either end is left unchanged |
| `Text.TrimSpaceIdempotent` | newrelver.go:56 | trimming twice is trimming once |
| `Scenarios.TagsParse` | newrelver_test.go:36-58 | each test tag parses to the version at the same position |
| `Scenarios.TagVersionsShape` | newrelver_test.go:36-58 | no test tag ranks above 99.0.17, and none of release line 1.0 ranks above 1.0.2 |
| `Scenarios.TestTagsAreLikeTestTags` | newrelver_test.go:36-58 | the test tags satisfy the shape every tag scenario below assumes |
| `Scenarios.TagsMaximum` | newrelver_test.go:36-58 | 99.0.17 is collected and no collected tag ranks above it: numeric order, so 99.0.17 beats 99.0.9 |
| `Scenarios.TagsMaximumInRelease` | newrelver_test.go:223-237 | with base 1.0.0 and same-release filtering, 1.0.2 is collected and no collected tag ranks above it |
| `Scenarios.LatestOfTestTagsIs` | newrelver_test.go:101-114 | the latest of the test tags is 99.0.17 unless the base ranks above it, in which case there is none |
| `Scenarios.LatestInReleaseIs` | newrelver_test.go:223-237 | with base 1.0.0 and same-release filtering, the latest test tag is 1.0.2 |
| `Scenarios.HighBaseIsKept` | newrelver_test.go:208-221 | with base 100.0.0 the test tags give no latest version, so 100.0.0 is offered with patch and with minor increments |
| `Scenarios.LatestOfTestTags` | newrelver_test.go:101-114 | the test tags and no manifest: latest 99.0.17, base 0.0.0 |
| `Scenarios.LatestWithoutTags` | newrelver_test.go:116-129 | no tags and no manifest: no latest version, base 0.0.0 |
| `Scenarios.LatestWithoutTagsFromBase` | newrelver_test.go:131-145 | no tags and base "1.0": no latest version, base 1.0.0 |
| `Scenarios.NextVersionOfTestTags` | newrelver_test.go:165-177 | the test tags: 99.0.18, or 99.1.0 with minor increments (newrelver_test.go:239-252) |
| `Scenarios.FirstVersion` | newrelver_test.go:179-191 | no tags and no base: 0.0.1, or 0.1.0 with minor increments (newrelver_test.go:254-267) |
| `Scenarios.UnreleasedBaseVersion` | newrelver_test.go:193-206 | no tags and base "1.0": 1.0.0 |
| `Scenarios.BaseVersionAboveTags` | newrelver_test.go:208-221 | the test tags and base "100.0.0": 100.0.0, with patch or minor increments (newrelver_test.go:285-299) |
| `Scenarios.UnreleasedBaseVersionMinor` | newrelver_test.go:269-283 | no tags, base "100.0.0", minor increments: 100.0.0 |
| `Scenarios.NextVersionInRelease` | newrelver_test.go:223-237 | the test tags, base "1.0", same-release filtering: 1.0.3 |
| `Scenarios.NextMinorVersionInRelease` | newrelver_test.go:301-316 | the test tags, base "1.0.0", same-release filtering, minor increments: 1.1.0 |
| `Scenarios.ShortVersionParses` | newrelver_test.go:67-72 | "1.0" parses to 1.0.0 |
| `Scenarios.FullVersionParses` | newrelver_test.go:301-316 | "1.0.0" parses to 1.0.0 |
| `Scenarios.HundredParses` | newrelver_test.go:208-221 | "100.0.0" parses to 100.0.0 |
| `Scenarios.HundredAboveTags` | newrelver_test.go:208-221 | 100.0.0 ranks above the latest test tag 99.0.17 |
| `Scenarios.RenderedVersionParses` | newrelver_test.go:60-65 | a string that renders a valid version parses to that version |
| `Scenarios.SnapshotIsLabel` | newrelver_test.go:74-79 | "SNAPSHOT" is a well-formed pre-release label |
| `Scenarios.SnapshotParses` | newrelver_test.go:74-79 | "1.0-SNAPSHOT" parses to 1.0.0-SNAPSHOT |
| `Scenarios.SnapshotRenders` | newrelver_test.go:74-79 | 1.0.0-SNAPSHOT renders as "1.0.0-SNAPSHOT" |
| `Scenarios.SameReleaseLine` | newrelver_test.go:81-89 | "1.2.0" and "1.2.3" parse, and are on the same release line |
| `Scenarios.DifferentReleaseLines` | newrelver_test.go:91-99 | "1.2.0" and "1.3.0" parse, and are on different release lines |
| `Scenarios.NonVersionsFail` | newrelver.go:93-96 | "", "v" and "release" are refused with an error naming them |
| `Scenarios.GradleVersionParses` | newrelver_test.go:351-360 | "1.2.3-SNAPSHOT" parses to 1.2.3-SNAPSHOT |
| `Scenarios.GradleVersionIsTrimmed` | newrelver.go:56 | trimming leaves "1.2.3-SNAPSHOT" unchanged |
| `Scenarios.GradleManifest` | newrelver.go:35 | the build.gradle rule finds "1.2.3-SNAPSHOT" in a build.gradle that sets that version |
| `Scenarios.GradleManifestIsOnlyOne` | newrelver.go:33-43 | in that project, no other rule yields a version |
| `Scenarios.GradleProjectIsLikeGradleProject` | newrelver_test.go:351-360 | that project is one whose only yielding manifest is a build.gradle giving "1.2.3-SNAPSHOT" |
| `Scenarios.GradleOutcome` | newrelver.go:217-220 | for such a project with no explicit base, the only base-version outcome is 1.2.3-SNAPSHOT |
| `Scenarios.GradleBaseVersion` | newrelver_test.go:351-360 | `GetBaseVersion` on such a project returns 1.2.3-SNAPSHOT |
| `Scenarios.MixedManifests` | newrelver.go:37-38 | the package.json rule and the pom.xml rule each yield their decoder's version |
| `Scenarios.MixedProjectIsAmbiguous` | newrelver.go:211-212 | with two manifests that disagree, 1.2.3 and 2.0.0 are both possible base versions: the result depends on iteration order |

## Left out

- The tag sources (gitclient.go, adapters/gitclient.go) are left out: the GitHub API over the network, tokens from the environment, and `git fetch`/`git tag` subprocesses. Their answer is an input of `GetLatestVersion`.
- main.go is left out. It parses flags, prints and exits.
- All `Debug` printing is left out. `NewRelVer`'s `Dir` and `Debug` fields are dropped, and the directory is the `files` map.
- `FindVersionFile` (newrelver.go:233-239) is a file read. A lookup in the `files` map replaces it.
- The regular-expression engine and `encoding/json`/`encoding/xml` are foreign libraries. They are the uninterpreted functions of `Decoders`, so the model does not check which texts the six expressions match.
- `regexp.MustCompile` panicking on an invalid expression is not modelled. The six expressions are constants.
- `versionMatcher`'s group parameter is not modelled: every entry of the table uses group 1, and the `submatch` decoder returns that group.
- The "0.0.0" that the three extractors return next to their error is never read, so the model's failure carries no value.
- Resolver.NewSemVer: it approximates hashicorp/go-version followed by coreos/go-semver with a simpler grammar. It leaves out:
  - build metadata after `+`;
  - labels not introduced by `-`, such as `1.0beta`;
  - the 64-bit limits of the numbers;
  - the libraries' exact error texts. An error carries only the rejected string.
  - labels that hashicorp/go-version accepts without a leading letter or digit. Its second label alternative allows a lone trailing dash, so the library reads "1.0-" as 1.0.0 with the label "-", and go-semver accepts the rendered "1.0.0--". The model refuses "1.0-". This rests on the library's published pattern, which is not part of this model.
- Resolver.GetLatestVersion: `semver.Sort` sorts the slice in place. The model replaces "sort, then take the last element" with a scan for the maximum (`SortAndTakeLast`), and `SemVer.SortedLastIsMax` shows that every ascending permutation ends in that maximum. The in-place sort itself is not modelled.
- Resolver.GetNewVersion: `BumpMinor` and `BumpPatch` change the version object in place, and at newrelver.go:129 that object is the base version itself. The model bumps a copy. This aliasing is not observable in the result, because only the new version is returned.
- SemVer.Version.BumpMinor: numbers are unbounded, so the wrap-around of go-semver's `int64` fields on an increment past the maximum is not modelled.
- Go compares strings byte by byte in UTF-8. The model compares characters, which orders strings the same way.
- The tests that read manifests from the repository's example directories (newrelver_test.go:329-460), other than build.gradle, depend on those files' contents and the real regular-expression engine. They are not stated. `TestGetLatestVersionGitHub` (newrelver_test.go:147-163) needs the network.
- main_test.go targets a different revision of the API and is not part of this model.
