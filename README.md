# GitScribe, modelled in Dafny

GitScribe is a command-line tool that bumps a project's semantic version. On a
bump it does the following, in order:

- refuses to run when `git status --porcelain` reports uncommitted changes;
- bumps the major, minor or patch number of the configured version;
- writes the new version back to its configuration;
- copies the version into the manifests it is told about (`package.json`,
  `Cargo.toml`, `pyproject.toml`, a YAML file);
- groups the commits of `git log` under the release that shipped them, which is
  what the changelog is rendered from;
- commits the result with a fixed release subject;
- optionally cuts a `release/…` branch.

This project models the logic that makes these decisions and proves what it
promises. Modules follow the source files:

| module | file | source |
|---|---|---|
| `Changes` | `change.dfy` | `src/change.rs` |
| `Versions` | `version.dfy` | `src/version.rs` |
| `VersionFileSync` | `version_file_sync.dfy` | `src/version_file_sync.rs` |
| `GitScribe` | `lib.dfy` | `src/lib.rs` |
| `Util` | `util.dfy` | `src/util.rs` |
| `Configuration` | `config.dfy` | `src/config.rs` (the fields the core reads) |
| `Wrappers`, `Strings` | `wrappers.dfy`, `strings.dfy` | `Option`/`Result`, and the string operations of Rust's standard library the core uses |

The model's form:

- Anything that panics in the source (`unwrap`, indexing past the end) is a
  `None`, an `Err(Fault)` or the `Panicked` ending.
- `process::exit(1)` is `Exited(1)`.
- The history, the status output, the clock and the date parser are inputs.
- The version files are a store from path to parsed document.

How the main parts work:

- **Release keys.** The key of a release commit is the shortest suffix of its
  message of the form `digits.digits.digits`. This is what the greedy
  `^.*(\d+\.\d+\.\d+)$` captures. The model keeps this behaviour: a two-digit
  major number loses its first digit (`Changes.VersionKeyDropsMajorDigits`).
  Only a one-digit major is proved to keep the whole version
  (`Changes.PendingReleaseKey`, `GitScribe.CommitIsRelease`).
- **Grouping.**
  - Release keys are entered in newest-first order, as `IndexMap::insert`
    does. A repeated key keeps its first place.
  - Every feature or fix is filed under the earliest release dated at or after
    it. Among releases with that date, the first one counts.
  - The result has one bucket per distinct key, the newest release first. Every
    ordinary change is in exactly one bucket, and only features and fixes are
    filed.
- **Loops.** The loops of `get_changes`, `sync_version_to_file` and
  `check_for_uncommitted_changes` are methods. Each is proved equal to a
  specification function, and the properties are lemmas about those functions.

Consequences of the code that are easy to miss, all kept by the model:

- **Classification order.** A message is classified as a feature or a fix
  before the release subject is tested. A release commit whose subject also
  contains `feat:` or `fix:` is therefore an ordinary change.
- **Date format.** The date is read with the format `%a %b %d %T %Y %z`.
  `--date=iso-strict` sits inside the `--pretty` format string as literal text,
  so it is the delimiter after the date and not a git option. The model
  receives the date parser as a parameter.
- **Repeated keys.** Two releases with the same key share one bucket.
- **Ordering.** The ordering is newest first and stable. On equal dates the
  history's order is kept.
- **Failures.** Every failure in `get_changes` and in `sync_version_to_file`
  is an `unwrap` or an `expect`, so it aborts the whole run and no partial
  result is returned. The `Err` arms that `handle_version_bump` prints are
  never reached.
- **Shortcodes only.** Normalisation replaces the two shortcodes and trims;
  it keeps a `feat: ` prefix. The subject `feat: :sparkles: add new feature `
  becomes `feat: ✨ add new feature` (`Changes.NormaliseMessageOfTestSubject`),
  although the unit test in `src/change.rs:255-270` expects `✨ add new
  feature`. The model follows the code.

## Model

| member | source | states |
|---|---|---|
| Changes.NormaliseMessage | src/change.rs:93-102 | the normalised message has no leading or trailing whitespace |
| Changes.NormaliseMessageRemovesShortcodes | src/change.rs:99-101 | no `:sparkles:` and no `:bug:` survives normalisation |
| Strings.ReplaceAllAtFirst | src/change.rs:99-100 | `str::replace` copies the text up to the first occurrence, writes the replacement, and carries on after the occurrence |
| Strings.ReplaceAllSingle | src/change.rs:99-100 | a text holding the pattern once, its first character appearing nowhere else, has exactly that occurrence replaced |
| Changes.NormaliseMessagePlain | src/change.rs:93-102 | a message with neither shortcode is only trimmed |
| Changes.NormaliseMessageReplacesBug | src/change.rs:93-102 | in a message holding `:bug:` and no other colon, the shortcode becomes the bug emoji and the rest is kept before the trim |
| Changes.NormaliseMessageReplacesSparkles | src/change.rs:93-102 | in a message holding `:sparkles:` and no other colon, the shortcode becomes the sparkles emoji and the rest is kept before the trim |
| Changes.NormaliseMessageReplacesSparklesAfter | src/change.rs:93-102 | after a text in which no colon is followed by `s` or lies more than four characters before its end (such as `feat: `), and before a colon-free text, `:sparkles:` becomes the sparkles emoji and the rest is kept before the trim |
| Changes.NormaliseMessageExample | src/change.rs:93-102 | the capture `a :bug: b ` is stored as `a 🐛 b` |
| Changes.NormaliseMessageOfTestSubject | src/change.rs:93-102 | the subject `feat: :sparkles: add new feature ` is stored as `feat: ✨ add new feature`: the prefix stays and the trailing blank goes |
| Strings.ReplaceAllAfterPrefix | src/change.rs:99-100 | when the pattern first occurs right after a prefix and nothing after it can start another occurrence, only that occurrence is replaced |
| Changes.Classify | src/change.rs:131-139 | Feature exactly when `feat:` occurs; Fix exactly when `fix:` occurs and `feat:` does not; Version exactly when neither occurs and the release subject does; Unknown otherwise |
| Changes.CommitLink | src/change.rs:103-127 | no repository gives no link; with trailing slashes removed, a repository containing `github` links to `/commit/` and the id, otherwise one containing `stash/projects` links to `/commits/` and the id, and any other repository gives no link |
| Changes.CommitLinkIgnoresTrailingSlash | src/change.rs:106 | a trailing slash on the repository does not change the link |
| Changes.ParseChange | src/change.rs:71-157 | parsing succeeds exactly when all four delimited fields are present and the date parses; the id and author are their trimmed captures, the message is the normalised capture, the date is the parsed capture, the type is the classification of the message and the link is the host rule applied to the id |
| Changes.LogLineCaptures | src/change.rs:72-75 | in a line written in the log format, each lazy capture is its field followed by the blank before the next marker |
| Changes.ParseCaptured | src/change.rs:71-157 | a line whose captures are trimmed fields, each followed by a blank, parses to exactly those fields |
| Changes.ParseLogLine | src/change.rs:71-166 | round trip: a line written in the `--pretty` format of `get_changes`, from trimmed fields that hold no later marker, parses back to those fields; the message is the normalisation of the subject with the blank before ` DATE:`, a blank that the final trim removes |
| Changes.ParseChangeFields | src/change.rs:77-102 | a parsed id and author are trimmed, and the message holds no shortcode |
| Changes.Parsed | src/change.rs:178 | one change per line, in line order, each the parse of its line |
| Changes.ParseLines | src/change.rs:173-180 | succeeds exactly when every line parses; the result is the parsed changes in line order with the Unknown ones dropped; an error is the fault of the first line that fails |
| Changes.OfType | src/change.rs:182-186 | a change is kept exactly when it is in the input and has the given type |
| Changes.OfTypeInOrder | src/change.rs:182-186 | the kept changes are a subsequence of the input: their order is kept |
| Changes.OfTypeCounts | src/change.rs:182-186 | each change of the type is kept as many times as it occurs, and no other change is kept |
| Changes.WithoutType | src/change.rs:200-203 | a change is kept exactly when it is in the input and has another type |
| Changes.WithoutTypeInOrder | src/change.rs:200-203 | the kept changes are a subsequence of the input: their order is kept |
| Changes.WithoutTypeCounts | src/change.rs:200-203 | each change of another type is kept as many times as it occurs, and no change of the type is kept |
| Changes.PendingRelease | src/change.rs:187-195 | the release being made is a version change by `GitScribe` at `HEAD`, dated now, without a link, whose message is the version commit subject followed by the three dot-separated numbers of the version |
| Changes.PendingReleaseMessage | src/change.rs:189 | after the version commit subject, the message holds the major, minor and patch numbers separated by dots |
| Changes.SortNewestFirst | src/change.rs:197 | the result is ordered by non-increasing date, is a permutation of the input, and keeps the input's order among changes with the same date |
| Changes.VersionKey | src/change.rs:237-246 | a key is found only in a message without a line break; it is a suffix of the message in version form, and no shorter suffix has that form; no key means a line break or no suffix in version form |
| Changes.PendingReleaseKey | src/change.rs:188-195 | the key of the release being made is the last digit of the major number, then minor and patch; for a one-digit major it is the whole version |
| Changes.VersionKeyDropsMajorDigits | src/change.rs:238 | the release commit of 10.2.3 is keyed `0.2.3` |
| Changes.KeyIndex | src/change.rs:224-225 | the position found holds the key and no earlier position does; nothing is found exactly when no entry has the key |
| Changes.Insert | src/change.rs:209-212 | an existing key keeps its place and takes the new value, a new key is appended last, and no other entry changes |
| Changes.Dedup | src/change.rs:208-213 | the same set of keys, no key twice, the first key first |
| Changes.FirstAt | src/change.rs:209-212 | the position holds the key and no earlier position does |
| Changes.DedupInFirstOrder | src/change.rs:208-213 | the keys come in the order of their first occurrences, as `IndexMap::insert` keeps an existing key in place |
| Changes.NearestRelease | src/change.rs:216-219 | the release found is dated at or after the change, no such release is earlier, and it is the first of the earliest; none is found exactly when every release is older |
| Changes.InsertReleaseKeys | src/change.rs:206-213 | the first release without a version aborts; otherwise one empty bucket per distinct key, in release order |
| Changes.FileChanges | src/change.rs:215-233 | the loop's result equals the grouping function: each change pushed onto its nearest release's bucket, or a change with no release after it aborts |
| Changes.GetChanges | src/change.rs:162-235 | the method's result equals the whole pipeline: parse the log, collect the releases with the pending one, sort them, key them, file the rest |
| Changes.BucketMembers | src/change.rs:215-233 | a change is in the bucket of a key exactly when it is one of the changes filed under that key |
| Changes.GroupsPartition | src/change.rs:215-233 | when every change is filed under a listed key, the buckets together hold each change exactly once |
| Changes.GroupingSucceeds | src/change.rs:208-233 | grouping succeeds exactly when every release message carries a version and every ordinary change has a release dated at or after it |
| Changes.GroupingKeys | src/change.rs:206-213 | the keys are distinct, every release's key is present, every key is some release's key, and the newest release's key comes first |
| Changes.GroupingKeyOrder | src/change.rs:206-213 | of two keys, the earlier one is named by a release that comes before every release naming the later one |
| Changes.ChangeGroupsNewestFirst | src/change.rs:196-213 | of two keys, the earlier one is named by a release at least as new as every release naming the later one |
| Changes.GroupingFiles | src/change.rs:215-233 | a change is in a bucket exactly when it is an ordinary change whose nearest release has that bucket's key |
| Changes.GroupingPartition | src/change.rs:215-233 | the buckets together hold every ordinary change exactly once |
| Changes.BucketInOrder | src/change.rs:215-233 | a bucket is a subsequence of the changes it is filled from: the changes keep their order |
| Changes.GroupingInOrder | src/change.rs:215-233 | within every group the changes keep the order of the ordinary changes |
| Changes.ChangeLog | src/change.rs:162-235 | a changelog is produced only when every non-empty line of the log parses, and it is never empty |
| Changes.ChangeLogHasPending | src/change.rs:187-213 | a grouping that succeeds always holds the key of the release being made, so it has at least one bucket |
| Changes.ChangeLogFilesFeaturesAndFixes | src/change.rs:173-203 | every change in the result is a feature or a fix |
| Changes.PendingReleaseFirst | src/change.rs:187-213 | when the release being made is newer than every release in the history, its key is the first key |
| Changes.OneReleaseScenario | src/change.rs:162-235 | with release 1.0.0 in the history, a feature before it, and 1.1.0 being made, the result is 1.1.0 with no changes, then 1.0.0 with the feature |
| Versions.ToString | src/version.rs:33-37 | the text splits at its dots into exactly the texts of major, minor and patch |
| Versions.NewVersion | src/version.rs:24-31 | a version is read exactly when there are at least three dot-separated parts and the first three each parse as an `i32`; the components are those parses |
| Versions.Bumped | src/version.rs:45-60 | the designated component is incremented with wrap-around; a major bump resets minor and patch, a minor bump keeps major and resets patch, a patch bump keeps major and minor |
| Versions.IntToString | src/version.rs:35 | the text of an integer is non-empty, made of digits and a minus sign, and holds no dot or line break |
| Versions.IntToStringNoLeadingZero | src/version.rs:35 | the text starts with `-` exactly for a negative number, and its digits start with `0` only for zero, as `Display` on `i32` writes them |
| Versions.ParseIntToString | src/version.rs:27-29 | parsing the text of any `i32` gives it back |
| Versions.NewVersionOfToString | src/version.rs:24-37 | parsing the display text of a version gives the version back |
| Versions.NewVersionIgnoresExtraParts | src/version.rs:25-30 | parts after the third are never read |
| Versions.NewVersionNeedsThreeParts | src/version.rs:25-30 | a version is read only from text with at least three dot-separated parts |
| Versions.WrappingIncrement | src/version.rs:49 | adds one, and wraps from the largest `i32` to the smallest |
| Versions.BumpIncreases | src/version.rs:45-60 | short of overflow, a bump moves the version strictly forward, and no version lies strictly between it and its bump with a different bumped component |
| Versions.IncrementVersion | src/version.rs:45-71 | an unreadable version gives nothing; otherwise the bump of the parsed version by the designation |
| Versions.IncrementExamples | src/version.rs:108-142 | the default version reads as 0.0.1; its patch bump is 0.0.2 and its minor bump is 0.1.0; the major bump of 0.1.1 is 1.0.0 |
| Versions.WriteNewVersionToFile | src/version.rs:79-101 | the new configuration is the old one with the version text replaced, and that text reads back as the new version |
| VersionFileSync.Values | src/version_file_sync.rs:14-16 | lists the formats with none twice |
| VersionFileSync.ValuesListsEveryFormat | src/version_file_sync.rs:14-16 | every format is listed |
| VersionFileSync.FormatNamesDistinct | src/version_file_sync.rs:18-27 | distinct formats display differently |
| VersionFileSync.SetKey | src/version_file_sync.rs:52-56 | succeeds exactly on a table; the key then holds the version and every other entry is unchanged |
| VersionFileSync.SetUnder | src/version_file_sync.rs:60-85 | the update keeps the root a table, keeps its key set exactly (adding only `key`, and only when the path is empty), and changes no entry other than the first step of the path |
| VersionFileSync.SetUnderSucceeds | src/version_file_sync.rs:60-85 | the update succeeds exactly when every value met along the path is a table |
| VersionFileSync.SetUnderInsertsInTable | src/version_file_sync.rs:60-85 | when the path leads to a table, that table becomes itself with the key set to the version, every other entry of it kept |
| VersionFileSync.SetUnderKeepsSiblings | src/version_file_sync.rs:60-85 | at every table met along the path, the key set stays the same apart from the next step (or, at the end, the key), and every other entry keeps its value |
| VersionFileSync.PoetryKeepsOtherTools | src/version_file_sync.rs:72-82 | a Poetry update keeps every entry of `tool` other than `poetry`, such as `tool.black`, with its value |
| VersionFileSync.SetUnderReachesKey | src/version_file_sync.rs:60-85 | after a successful update, either the path exists and the key beneath it holds the version, or a table on the path is missing and nothing changed |
| VersionFileSync.UpdateDoc | src/version_file_sync.rs:47-96 | each format sets its key below its own path: none for JSON and YAML, `package` for Cargo, `tool.poetry` for Poetry |
| VersionFileSync.UpdateDocSetsKey | src/version_file_sync.rs:47-96 | for each format, the update succeeds exactly when every value along its path is a table; an existing table at the path gets the key set to the version with its other entries kept; a missing table leaves the document unchanged; at every table on the way the keys off the path stay exactly the same, with their values |
| VersionFileSync.SetUnderIdempotent | src/version_file_sync.rs:47-96 | applying the same update twice gives the same document as applying it once |
| VersionFileSync.SyncAll | src/version_file_sync.rs:43-102 | the set of files is unchanged, and a failure names a listed file |
| VersionFileSync.SyncAllTouchesOnlyListed | src/version_file_sync.rs:43-102 | no file is created, and a file that is not listed is unchanged |
| VersionFileSync.SyncAllUpdatesEachFile | src/version_file_sync.rs:43-102 | with one entry per path, the run succeeds exactly when every file exists and accepts its update, and then each file holds its own update |
| VersionFileSync.SyncVersionToFile | src/version_file_sync.rs:43-102 | the loop's store and outcome equal the specification function: files in order, stopping at the first failure |
| GitScribe.DesignationNamesDistinct | src/lib.rs:79-83 | the three designations have different names |
| GitScribe.WithoutPatch | src/lib.rs:249-256 | the result splits into the version's first two parts and `X` |
| GitScribe.WithoutMinor | src/lib.rs:258-265 | the result splits into the version's parts with part 1 replaced by `X` |
| GitScribe.BranchVersion | src/lib.rs:247-265 | the version itself when patch and minor both release; otherwise it splits into the first two parts and `X` without patch, the parts with part 1 replaced by `X` without minor, and both rules, patch first, without either |
| GitScribe.BranchVersionOfThreeParts | src/lib.rs:247-265 | for a version `a.b.c`: `a.b.X` without patch, `a.X.c` without minor, `a.X.X` without both |
| GitScribe.BranchVersionExamples | src/lib.rs:247-265 | 1.2.3 gives 1.X.X, 1.X.3, 1.2.X, or 1.2.3 when every designation releases |
| GitScribe.BranchForRelease | src/lib.rs:246-271 | the branch is `release/` followed by the branch version of the configured version |
| GitScribe.Closing | src/lib.rs:60-85 | the changelog, then the commit of the new version, then the `release/` branch exactly when the gate holds |
| GitScribe.HandleVersionBump | src/lib.rs:40-86 | uncommitted changes are reported, heading first and one line per status line, and exit with 1 before anything is written; an unreadable version panics; otherwise the configuration is written and the version files are synchronised when configured, a failed file panicking after the earlier files are written; a history `get_changes` cannot group panics before the commit; otherwise the changelog, the commit, and the branch only when the gate holds |
| GitScribe.CommitIsRelease | src/change.rs:15-36 | the commit of a bump with a one-digit major number is read back as the release of that version |
| GitScribe.ValidReleaseSelection | src/lib.rs:138-145 | a selection is valid exactly when it contains `major` |
| GitScribe.DefaultSelectionValid | src/lib.rs:137-145 | the default selection, major and minor, is valid; minor and patch alone is not |
| GitScribe.EnterProjectRepo | src/lib.rs:121-123 | a non-empty answer becomes the repository, an empty one leaves it as it was, and nothing else changes |
| GitScribe.InitRepoFromDefault | src/lib.rs:102-123 | from the default configuration, the repository is unset exactly when the answer is empty |
| Util.FirstStatusChar | src/util.rs:44-47 | the first character of the class `[M,T,A,R,D,C,U,\?]` in the line, or none exactly when there is none |
| Util.Label | src/util.rs:57-66 | every label ends in a colon, and it is `Unknown:` exactly for a character outside the status letters |
| Util.LabelsDistinct | src/util.rs:57-66 | each status letter has its own label, and within the class only the comma is `Unknown:` |
| Util.DescribeLine | src/util.rs:49-69 | a line without a class character is echoed; otherwise the result is longer than the rest of the line from the prefix on |
| Util.DescribeLineCases | src/util.rs:46-69 | a line without a class character is echoed; otherwise the label of the first one, a space, and the rest of the line |
| Util.DescribeUntracked | src/util.rs:44-69 | `?? new.rs` is printed as `Untracked: ? new.rs` |
| Util.DescribeWorkTreeChange | src/util.rs:44-69 | ` M a.rs` is printed as `Modified:  a.rs` |
| Util.ReportChanges | src/util.rs:46-70 | the loop prints exactly the description of each line, in order |
| Util.CheckForUncommittedChanges | src/util.rs:22-73 | empty status prints nothing and continues; otherwise the heading, one description per non-empty line, and exit code 1 |
| Util.ReportSkipsEmptyLines | src/util.rs:37-41 | no empty line is reported, and every non-empty status line is |

## Left out

- Running git (`log`, `status`, `add`, `commit`, `checkout -b`) is out of scope because it is a subprocess. Its output is an input, a commit is a `Committed` step, and a new branch is a `BranchCreated` step. The exit when `checkout -b` fails is not modelled.
- `String::from_utf8_lossy` is not modelled: the output of git arrives as a string.
- Dates are abstract integers, because chrono is a foreign library. Parsing with `%a %b %d %T %Y %z` is a parameter that may fail, and `Local::now()` is the parameter `now`.
- The regex engine is replaced by string functions with the same matches: the lazy captures, the greedy `^.*(\d+\.\d+\.\d+)$`, and the status-line pattern. `\d` is taken as ASCII digits only; Unicode digits are not modelled.
- Serialising and parsing JSON, TOML and YAML, and every file read or write, are left to a store that maps each path to its parsed `Doc`. The configuration file write is only the new `Config` value; its I/O errors are printed only and change nothing.
- `generate_and_insert_changelogs` is one `ChangelogGenerated` step holding the grouped changes. Its template rendering, with askama, and the file write are not part of this model, because they are template and file I/O; their `expect` panics are not modelled. A `get_changes` failure inside it is modelled: it panics before the commit.
- The prompts of `handle_init` are out of scope because they are interactive terminal I/O: the version, `branch_for_release`, the changelog output selections and the version sync files. Only the validator and the repository rule are modelled. The existing-config check is not modelled either.
- Colours and printed text are not modelled. Exceptions are the status report and the heading, which decide what the user sees.
- `branch_for_release` and `commands_that_release` are inputs of `GitScribe.HandleVersionBump`. `lib.rs` reads them from the configuration, but the `Config` type in `src/config.rs` does not declare them.
- `VersionDesignation` has no `Display` implementation in `src/version.rs`. The model takes its text to be `major`, `minor` and `patch`, which are the entries `commands_that_release` is chosen from.
- Versions.WrappingIncrement: `+= 1` on an `i32` is modelled as a release build, which wraps. A debug build panics instead.
- Changes.SortNewestFirst: the sort is a function on sequences, not `Vec::sort_by` in place.
- Changes.FileChanges: the branch that prints "Change Map Did not include the version" and exits cannot happen. `Changes.GroupingKeys` proves that the key is always present, so the model leaves that branch out.
- Changes.FileChanges: the `None` arm of the source is also left out. The `unwrap` just before it panics on `None`, so the model aborts with `NoReleaseAfter` instead.
- Changes.PendingReleaseKey, GitScribe.CommitIsRelease: the whole version is proved to be the key only for a major number from 0 to 9 and non-negative minor and patch. With more digits the key differs, as `Changes.VersionKeyDropsMajorDigits` shows.
- Versions.BumpIncreases: stated short of overflow and for non-negative minor and patch numbers.
