# vercheck in Dafny

vercheck is a small Go library. A command-line tool uses it to find out
whether a newer release of itself exists on GitHub. When one does, the library
tells the user and suggests an upgrade command. This project models the
library's core and proves properties of it:

- **the version comparator** (`internal/semver.go`). It strips a leading
  `v`/`V` marker, drops build metadata after `+`, and splits off a pre-release
  label after `-`. It parses the first three dot-separated segments of the core
  into integers, treating missing or unparseable segments as 0. Cores are
  compared component by component. On a tie, a version without a label is
  newer than one with a label, and two labels compare as text.
- **install-source detection** (`detect.go`). A path through `/Cellar/` means
  Homebrew and any other path means `go install`. Each source has its own
  upgrade command.
- **the check itself** (`vercheck.go`). It validates the options, looks up the
  latest release, and decides whether to log, notify and suggest.

Files and modules:

| file | module | models |
|---|---|---|
| `go_strings.dfy` | `GoStrings` | the parts of Go's `strings` and `strconv` the core calls: `Index` with a one-byte needle, `TrimPrefix`, `Contains`, `Split` with a one-byte separator, `Compare` and `Atoi` |
| `semver.dfy` | `Semver` | `internal/semver.go` |
| `semver_test.dfy` | `SemverTests` | the table of `internal/semver_test.go`, one lemma per row, plus the comparator's quirks pinned down |
| `detect.dfy` | `Detect` | `detect.go` |
| `vercheck.dfy` | `Vercheck` | `vercheck.go` |

Where the Go code uses a loop, the model is a `method` with a loop:
- `parseVersion` becomes `Semver.ParseVersion` and `Semver.ParseSegments`.
- `compareBasicVersions` becomes `Semver.CompareBasicVersions`.
- `CompareVersions` calls these, so it becomes the method
  `Semver.CompareVersions`.

Each method is proved equal to a pure specification function:
`Semver.CoreOf`, `Semver.LexCompare` and `Semver.VersionOrder`. The lemmas and
the rest of the model are stated over those functions.

`CheckWithContext` performs I/O. It is modelled as a function from its inputs
to the sequence of observable steps it takes (an `Effect` per step). The inputs
are:
- the `Options`;
- the answer of the release lookup;
- the executable's path, or its absence.

The steps are:
- the lookup;
- the log line for a failed lookup;
- the look-up of the executable's path;
- the notification;
- the suggested update command.

### Quirks of the code, modelled as written

- `normalizeVersion` trims `"v"` and then `"V"`. So `"vV1.2.3"` ties with
  `1.2.3`, while `"Vv1.2.3"` keeps its `v` and reads as 0.2.3, which is older
  than `1.2.3` (`SemverTests.LowerThenUpperMarker`,
  `SemverTests.UpperThenLowerMarker`).
- A string with no numeric segment, such as `"abc"`, reads as 0.0.0. It is
  older than `"1.0.0"` and ties with `"0.0.0"`
  (`SemverTests.MalformedBelowRelease`, `SemverTests.MalformedIsZero`).
- Pre-release labels compare as text, so `"1.0.0-10"` is older than
  `"1.0.0-9"` (`SemverTests.NumericLabelsCompareAsText`).

## Model

| member | source | states |
|---|---|---|
| GoStrings.IndexOf | internal/semver.go:64 | the result is -1 exactly when the character is absent; otherwise it is the position of its first occurrence |
| GoStrings.TrimPrefix | internal/semver.go:30 | when the prefix is present, prefix + result is the input; otherwise the input comes back unchanged |
| GoStrings.Contains | detect.go:10 | true exactly when the substring occurs at some position |
| GoStrings.Split | internal/semver.go:78 | at least one part; no part holds the separator |
| GoStrings.JoinSplit | internal/semver.go:78 | joining the parts of a split with the separator gives back the input |
| GoStrings.SplitJoin | internal/semver.go:78 | splitting a join of separator-free parts gives back the parts |
| GoStrings.CompareStrings | internal/semver.go:57 | -1, 0 or 1, and 0 exactly when the strings are equal |
| GoStrings.CompareStringsLess | internal/semver.go:57 | -1 exactly when the first string is a proper prefix of the second or is smaller at the first difference (lexicographic order) |
| GoStrings.CompareStringsAntisymmetric | internal/semver.go:57 | swapping the arguments negates the result |
| GoStrings.CompareStringsTransitive | internal/semver.go:57 | "less than" is transitive |
| GoStrings.Atoi | internal/semver.go:80-83 | a parsed value lies in the 64-bit signed range and is non-negative without a leading '-' |
| GoStrings.AtoiDigits | internal/semver.go:80-83 | a run of decimal digits that fits in 64 bits parses to its decimal value |
| GoStrings.AtoiRejectsLetter | internal/semver.go:80-83 | a string beginning with anything but a digit or a sign is an error |
| Semver.Normalize | internal/semver.go:29-31 | the result drops the first `MarkerLength` characters: 2 for a leading "vV", 1 for any other leading "v" or "V", 0 otherwise |
| Semver.NormalizeBare | internal/semver.go:29-31 | one leading "v" or "V" is removed, and a marker-free version is left alone |
| Semver.MarkerOrder | internal/semver.go:29-31 | "vV" is removed entirely; "Vv" leaves its "v" |
| Semver.PrefixInvariance | internal/semver.go:15-17 | a "v" or "V" in front of a marker-free version does not change how it compares |
| Semver.StripMetadata | internal/semver.go:63-66 | the result is a '+'-free prefix of the input that ends at its first '+' |
| Semver.SplitPreRelease | internal/semver.go:62-73 | the base holds no '-' or '+'; with a '-' the metadata-free input is base + "-" + label; without one the label is empty |
| Semver.SplitIgnoresMetadata | internal/semver.go:63-66 | dropping the build metadata first does not change the split |
| Semver.MetadataIgnored | internal/semver.go:15-20 | a version compares like its metadata-free prefix, on either side |
| Semver.BuildMetadataInvariance | internal/semver.go:15-20 | appending "+metadata" to a '+'-free version does not change how it compares |
| Semver.TrailingDashIsStable | internal/semver.go:69-72 | a trailing '-' yields an empty label, i.e. a stable version |
| Semver.PartsOfRelease | internal/semver.go:62-73 | a marker-free core without '-' or '+' is its own base with no label |
| Semver.PartsOfPreRelease | internal/semver.go:69-71 | "CORE-LABEL" splits into CORE and LABEL |
| Semver.CoreOf | internal/semver.go:75-87 | always three components; non-negative for a core without '-' or '+' |
| Semver.ParseVersion | internal/semver.go:75-87 | the method returns exactly the specification `CoreOf` |
| Semver.ParseSegments | internal/semver.go:76-84 | three components, each the parsed value of its segment or 0 when it is missing or unparseable |
| Semver.UnparsedSegmentIsZero | internal/semver.go:79-84 | a missing or unparseable segment reads as 0 |
| Semver.ExtraSegmentsIgnored | internal/semver.go:79 | segments after the third do not change the core |
| Semver.ZeroSegmentDefault | internal/semver.go:79-84 | appending ".0" to a version with fewer than three segments does not change its core |
| Semver.CoreOfNumeric | internal/semver.go:75-87 | "MAJOR.MINOR.PATCH" with numeric segments parses to their decimal values |
| Semver.CoreOfVersionNonNegative | internal/semver.go:75-87 | every component of a compared core is non-negative |
| Semver.LexCompare | internal/semver.go:33-46 | -1, 0 or 1, and 0 exactly when the cores are equal |
| Semver.CompareBasicVersions | internal/semver.go:33-46 | the loop returns the lexicographic comparison of the two parsed cores |
| Semver.LexCompareGreater | internal/semver.go:37-44 | 1 exactly when the first core is larger at the first component where they differ |
| Semver.LexCompareAntisymmetric | internal/semver.go:33-46 | swapping the cores negates the result |
| Semver.LexCompareTransitive | internal/semver.go:33-46 | "not larger" is transitive |
| Semver.ComparePreReleases | internal/semver.go:48-60 | -1, 0 or 1, and 0 exactly when the labels are equal |
| Semver.PreReleaseGreater | internal/semver.go:48-60 | 1 exactly when the first label is empty and the second is not, or both are non-empty and the first is lexicographically greater |
| Semver.PreReleaseAntisymmetric | internal/semver.go:48-60 | swapping the labels negates the result |
| Semver.PreReleaseTransitive | internal/semver.go:48-60 | "not greater" is transitive |
| Semver.VersionOrder | internal/semver.go:15-27 | the result is -1, 0 or 1 |
| Semver.CompareVersions | internal/semver.go:15-27 | the method returns -1, 0 or 1, exactly the specification `VersionOrder` |
| Semver.VersionOrderReflexive | internal/semver.go:15-27 | every version is as new as itself |
| Semver.VersionOrderAntisymmetric | internal/semver.go:15-27 | swapping the versions negates the result |
| Semver.VersionOrderTransitive | internal/semver.go:15-27 | "not newer than" is transitive, so versions are totally preordered |
| Semver.VersionOrderNewerTransitive | internal/semver.go:15-27 | "newer than" is transitive |
| Semver.VersionOrderGreater | internal/semver.go:22-26 | newer exactly when the core is larger at the first difference, or the cores are equal and the label outranks |
| Semver.SamePartsSameOrder | internal/semver.go:15-20 | versions with equal base and label compare alike against every other version |
| Semver.CoreDecidesFirst | internal/semver.go:22-24 | a larger core wins whatever the labels |
| Semver.StableOutranksPreRelease | internal/semver.go:49-55 | with equal cores, a version without a label is newer than one with a label |
| Semver.LabelsOrderedBytewise | internal/semver.go:56-58 | with equal cores and two labels, older exactly when the label is lexicographically smaller |
| SemverTests.EqualVersions | internal/semver_test.go:13 | "1.0.0" vs "1.0.0" is 0 |
| SemverTests.MajorAbove | internal/semver_test.go:14 | "2.0.0" vs "1.0.0" is 1 |
| SemverTests.MajorBelow | internal/semver_test.go:15 | "1.0.0" vs "2.0.0" is -1 |
| SemverTests.MinorAbove | internal/semver_test.go:16 | "1.2.0" vs "1.1.0" is 1 |
| SemverTests.MinorBelow | internal/semver_test.go:17 | "1.1.0" vs "1.2.0" is -1 |
| SemverTests.PatchAbove | internal/semver_test.go:18 | "1.0.2" vs "1.0.1" is 1 |
| SemverTests.PatchBelow | internal/semver_test.go:19 | "1.0.1" vs "1.0.2" is -1 |
| SemverTests.MarkedEqualsMarked | internal/semver_test.go:22 | "v1.0.0" vs "v1.0.0" is 0 |
| SemverTests.MarkedEqualsBare | internal/semver_test.go:23 | "v1.0.0" vs "1.0.0" is 0 |
| SemverTests.UpperMarkerEqualsLower | internal/semver_test.go:24 | "V1.0.0" vs "v1.0.0" is 0 |
| SemverTests.StableAbovePreRelease | internal/semver_test.go:27 | "1.0.0" vs "1.0.0-alpha" is 1 |
| SemverTests.PreReleaseBelowStable | internal/semver_test.go:28 | "1.0.0-alpha" vs "1.0.0" is -1 |
| SemverTests.AlphaBeforeBeta | internal/semver_test.go:29 | "1.0.0-alpha" vs "1.0.0-beta" is -1 |
| SemverTests.BetaAfterAlpha | internal/semver_test.go:30 | "1.0.0-beta" vs "1.0.0-alpha" is 1 |
| SemverTests.DottedLabels | internal/semver_test.go:31 | "1.0.0-alpha.1" vs "1.0.0-alpha.2" is -1 |
| SemverTests.MetadataAgainstBare | internal/semver_test.go:34 | "1.0.0+build" vs "1.0.0" is 0 |
| SemverTests.MetadataAgainstMetadata | internal/semver_test.go:35 | "1.0.0+build1" vs "1.0.0+build2" is 0 |
| SemverTests.MetadataOnPreRelease | internal/semver_test.go:36 | "1.0.0-alpha+build" vs "1.0.0-alpha" is 0 |
| SemverTests.PatchTenAfterNine | internal/semver_test.go:39 | "v0.0.9" vs "v0.0.10" is -1 (segments compare as numbers) |
| SemverTests.MinorBumpAfterPatch | internal/semver_test.go:40 | "v1.2.3" vs "v1.3.0" is -1 |
| SemverTests.MajorBumpAfterNines | internal/semver_test.go:41 | "v2.0.0" vs "v1.9.9" is 1 |
| SemverTests.MajorOnly | internal/semver_test.go:44 | "1" vs "1.0.0" is 0 |
| SemverTests.MajorMinorOnly | internal/semver_test.go:45 | "1.0" vs "1.0.0" is 0 |
| SemverTests.NumericLabelPrefix | internal/semver_test.go:46 | "1.0.0-1" vs "1.0.0-10" is -1 |
| SemverTests.NumericLabelsCompareAsText | internal/semver.go:56-58 | "1.0.0-10" vs "1.0.0-9" is -1: labels compare as text, not as numbers |
| SemverTests.TrailingDash | internal/semver.go:69-72 | "1.0.0-" vs "1.0.0" is 0 |
| SemverTests.LowerThenUpperMarker | internal/semver.go:29-31 | "vV1.2.3" vs "1.2.3" is 0 |
| SemverTests.UpperThenLowerMarker | internal/semver.go:29-31 | "Vv1.2.3" vs "1.2.3" is -1 |
| SemverTests.MalformedBelowRelease | internal/semver.go:79-84 | "abc" vs "1.0.0" is -1 |
| SemverTests.MalformedIsZero | internal/semver.go:79-84 | "abc" vs "0.0.0" is 0 |
| Detect.DetectInstallSource | detect.go:8-15 | "homebrew" exactly when the path contains "/Cellar/", "go-install" exactly when it does not |
| Detect.CellarPathIsHomebrew | detect.go:10-11 | any path of the form prefix + "/Cellar/" + suffix is Homebrew |
| Detect.NoCellarIsGoInstall | detect.go:12-13 | a path without a 'C' is a `go install` |
| Detect.DefaultUpdateCommand | detect.go:17-26 | the command is non-empty exactly for the two known sources |
| Detect.DetectedSourceHasCommand | detect.go:8-26 | the source detected from any path has a non-empty command |
| Detect.HomebrewCommandNamesRepo | detect.go:19-20 | the Homebrew command ignores the owner and ends with the repository |
| Detect.HomebrewCommandInjective | detect.go:19-20 | equal Homebrew commands mean equal repositories |
| Detect.GoInstallCommandShape | detect.go:21-22 | the `go install` command is the fixed prefix, then owner/repo, then "@latest" |
| Detect.GoInstallCommandInjective | detect.go:21-22 | equal `go install` commands mean equal owners and repositories (for owners without '/') |
| Vercheck.IsNewer | vercheck.go:70-72 | newer exactly when the running version compares as older than the latest |
| Vercheck.IsNewerIrreflexive | vercheck.go:70-72 | no version is newer than itself |
| Vercheck.IsNewerAsymmetric | vercheck.go:70-72 | of two versions at most one is newer than the other |
| Vercheck.IsNewerTransitive | vercheck.go:70-72 | "newer than" is transitive |
| Vercheck.UpdateCommandFor | vercheck.go:55-62 | a configured command wins; otherwise a known path gives a non-empty detected command, and an unknown path gives none |
| Vercheck.CheckWithContext | vercheck.go:36-68 | no step exactly when a required option is empty; otherwise the first step is the lookup |
| Vercheck.MissingFieldDoesNothing | vercheck.go:37-39 | an empty version, owner or repository means no step at all |
| Vercheck.FetchFailureIsLoggedUnlessSilent | vercheck.go:41-49 | a failed lookup is logged exactly when not silent, with no notification and no suggestion |
| Vercheck.SilentOnlyAffectsLogs | vercheck.go:43-47 | with log lines dropped, silent and non-silent checks take the same steps |
| Vercheck.NotifiedIffNewer | vercheck.go:51-64 | notification exactly when the options are complete, the lookup succeeded and the release is newer; it names both versions |
| Vercheck.UpToDateOnlyFetches | vercheck.go:51-53 | a release that is not newer leaves only the lookup |
| Vercheck.CustomCommandUsedVerbatim | vercheck.go:55-67 | a configured command is suggested verbatim, and the executable is never looked up |
| Vercheck.DetectedCommandSuggested | vercheck.go:56-67 | without a configured command, a known path yields the detected source's command after the notification |
| Vercheck.NoExecutableNoSuggestion | vercheck.go:56-67 | without a configured command or a known path, the notification stands alone |
| Vercheck.SuggestionFollowsNotification | vercheck.go:64-67 | every suggestion comes right after a notification |
| Vercheck.HomebrewUpgradeSuggested | vercheck.go:56-61 | a newer release under a Homebrew cellar suggests "brew upgrade" + repository |

## Left out

- `github.go` (the HTTP request to the GitHub releases API and the JSON decoding of its answer) is not part of this model. `CheckWithContext` takes the lookup's answer as an input: a tag, or an error.
- `example/main.go` is a usage example and is not part of this model.
- `Check` (vercheck.go:27-32) only wraps `CheckWithContext` in a context with a 10-second timeout. Contexts, timeouts and cancellation are not modelled; a lookup that times out appears as a failed lookup.
- `os.Executable` is not modelled. Its result is an input: a path, or `None` when it fails.
- The exact text written by `log.Printf` and `fmt.Printf` (emoji included) is not modelled. The model records which message is printed and with which values.
- Go strings are byte sequences; the model's strings are sequences of characters. `strings.Compare` compares bytes, and for valid UTF-8 this agrees with comparing code points. Strings that are not valid UTF-8 are not represented.
- GoStrings.Atoi: does not distinguish the kinds of errors `strconv.Atoi` reports (syntax or range), because `parseVersion` only checks whether the error is nil. Go's `int` is taken to be 64 bits wide.
- GoStrings.Split and GoStrings.IndexOf: model only a one-character separator or needle, the only form the core uses.
