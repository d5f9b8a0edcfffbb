# dagger-version-manager, modelled in Dafny

`VersionManager` keeps one semantic version, stored in a `VERSION` file, in
step with the version line of a project file (`galaxy.yml`,
`pyproject.toml`, `Chart.yaml`, a `Dockerfile`). It can read and validate
the version, compare it with the version in the target file, rewrite the
target's version line, bump the version, run the release sequence, and
install git hooks that run the comparison before every commit and push.

This model works on a snapshot of the project directory: a map from path to
file (text and permission bits) plus the set of existing directories
(`FileTree`). Every Dagger directory operation is a pure function on that
snapshot. `with_new_file` returns a new snapshot in which one path changed.
The modules follow the layout of the source:

- `Text`: the Python string operations the code uses (`strip`, `split`,
  `'\n'.join`, `in`, `lower`, `replace`).
- `Scan`: the regular expression `\d+\.\d+\.\d+` as a greedy digit-run
  scanner. `re.match` with `^...$` becomes `IsSemVer`, `re.search` becomes
  `Search`/`FindVersion`, and `re.sub` becomes `SubAll`.
- `SemVer`: the version triple, its text, the `split('.')` parser and the
  bump.
- `Patterns`: the three built-in version-line patterns as line predicates.
- `Manager`: reading, validation, extraction, comparison, the sync rewrite,
  bumping and release.
- `Hooks`: project detection, the hook script, and `setup_git_hooks`.

The loops of the source are methods proved against the functions that
specify them:

- the line loop of `sync_version` is `Manager.RewriteFirst`;
- `sync_version` itself is `Manager.SyncVersion`;
- the hook loop of `setup_git_hooks` is `Hooks.InstallHooks`, and the whole
  operation is `Hooks.SetupGitHooks`.

A user-supplied `version_pattern` is a predicate on one line (what
`re.match` decides for that line).

The code's order of tests in `sync_version` (lines 295-303) makes its
Dockerfile branch unreachable. Any line holding `LABEL version=` also holds
`version=`, so the TOML test catches it first. The model keeps this order:

- `Manager.DockerBranchDead` proves that no line is ever rewritten to the
  `LABEL version="V"` template;
- `Manager.DockerLabelBroken` proves that a line the Dockerfile pattern
  accepts is rewritten to `version = "V"`, which that pattern then rejects.

The `# Dockerfile format` comment and the `LABEL version=` template at
src/main/__init__.py:301-303 show that the branch was meant to be reachable.
The model follows the code as written.

## Model

| member | source | states |
|---|---|---|
| Manager.ValidateSemver | src/main/__init__.py:34-47 | the text is accepted exactly when its stripped form parses as three digit runs; a rejection carries the stripped text |
| Manager.ValidatePadded | src/main/__init__.py:44-46 | a version with any ASCII whitespace around it is accepted |
| Manager.RejectsAsIs | src/main/__init__.py:44-47 | a text without surrounding whitespace that is not X.Y.Z is rejected with the text itself |
| SemVer.SemVerShape | src/main/__init__.py:44 | every accepted version starts and ends with a digit, holds only digits and dots, and holds exactly two dots |
| SemVer.NotSemVerDots | src/main/__init__.py:44 | a text without exactly two dots is rejected (`1.0`, `1.0.0.0`) |
| SemVer.NotSemVerChar | src/main/__init__.py:44 | a text holding a character other than a digit or a dot is rejected (`v1.0.0`, `1.0.0-alpha`) |
| Manager.ReadVersionFile | src/main/__init__.py:49-78 | success exactly when the file exists and its stripped content validates, returning that stripped content; otherwise a read failure for a missing file or the validation error |
| Text.StripIdempotent | src/main/__init__.py:65 | stripping an already stripped text changes nothing, so validation sees what the reader returns |
| Text.StripPadded | src/main/__init__.py:65 | `strip` removes exactly the surrounding whitespace and keeps the rest |
| SemVer.ParseVersion | src/main/__init__.py:118 | the `split('.')` parser succeeds exactly on the texts the `^\d+\.\d+\.\d+$` validator accepts |
| SemVer.ParseAgreesWithValidator | src/main/__init__.py:118 | three digit parts after splitting on '.' if and only if the text matches `^\d+\.\d+\.\d+$` |
| SemVer.SemVerParts | src/main/__init__.py:44 | every accepted version is three digit runs joined by two dots |
| SemVer.ParseNatToString | src/main/__init__.py:118-125 | `int(str(n)) == n` for every non-negative n |
| SemVer.PrintParse | src/main/__init__.py:120-125 | a printed version passes the validator and parses back to the same triple |
| SemVer.Bump | src/main/__init__.py:120-125 | each bump kind yields a version strictly greater in (major, minor, patch) order |
| SemVer.NatToStringCanonical | src/main/__init__.py:120-125 | an f-string number has no leading zero, so a bump drops the zeros of its input (`01.2.3` patch gives `1.2.4`) |
| SemVer.KindOf | src/main/__init__.py:114 | a kind is known exactly when it is one of `major`, `minor`, `patch` |
| Manager.BumpVersionLogic | src/main/__init__.py:103-127 | an unknown kind is rejected first with the kind; a known kind bumps exactly the X.Y.Z texts (`IsSemVer`); the result is the bumped triple printed afresh as `major.minor.patch`, which validates, parses back to that triple and is strictly greater |
| Manager.HelperKindCaseSensitive | src/main/__init__.py:114-115 | the helper's kind test is case-sensitive: `Major` is rejected whatever the version |
| Manager.BumpVersion | src/main/__init__.py:362-377 | the reader's error when the version file does not read; success exactly when it reads and the lower-cased kind is known; the file then holds the printed bumped triple with mode 0o644 and reads back as a strictly greater version; no other file and no directory changes |
| Manager.PublicKindLowered | src/main/__init__.py:370 | the public operation lower-cases the kind, so `Major` bumps any readable version |
| Manager.BumpThenRead | src/main/__init__.py:362-377 | reading the version file after a bump gives the bumped triple of the version read before |
| Manager.ReadWritten | src/main/__init__.py:375 | a version written without a newline reads back as itself |
| Scan.Search | src/main/__init__.py:98 | the position found starts a match, and no earlier position does |
| Scan.SearchIs | src/main/__init__.py:98 | a position that starts a match, with none before it, is the one found |
| Scan.LeftmostPreceded | src/main/__init__.py:98 | the match found is not preceded by a digit |
| Scan.FindVersion | src/main/__init__.py:98-100 | there is a result exactly when the search finds a match, and the result is an accepted version |
| Scan.NoDigitNoVersion | src/main/__init__.py:98-100 | a line without digits yields no version |
| Scan.FindAfterNonDigits | src/main/__init__.py:98-100 | a version after digit-free text and before a non-digit is the one found |
| Manager.ExtractLines | src/main/__init__.py:95-101 | no result exactly when no line both matches the pattern and holds an X.Y.Z; any result is an accepted version |
| Manager.ExtractFirst | src/main/__init__.py:95-101 | the result is the leftmost X.Y.Z of the first line that both matches and holds one; matching lines without one are passed over |
| Manager.ExtractVersion | src/main/__init__.py:80-101 | the same on the content split on '\n' |
| Manager.ValidateVersion | src/main/__init__.py:199-231 | a read error exactly when reading the version file fails; target missing exactly when it reads but the target is absent; version-not-found exactly when the target holds no matching line with an X.Y.Z; consistent exactly when the target's extracted version equals the file's, reporting that version; a mismatch reports the version read and the version extracted, which differ; each error carries the reader's error or the target file |
| Manager.FirstMatch | src/main/__init__.py:292-293 | the index returned is a matching line with no matching line before it; none means no line matches |
| Manager.FirstMatchIs | src/main/__init__.py:292-293 | a matching line with no matching line before it is the one chosen |
| Manager.RewriteFirst | src/main/__init__.py:289-308 | the loop sets `updated` exactly when some line matches, and then rewrites the first matching line only; otherwise the lines are unchanged |
| Manager.SyncText | src/main/__init__.py:289-321 | there is no result exactly when no line matches |
| Manager.SyncShape | src/main/__init__.py:289-321 | the synced text splits into as many lines as before, all equal except the first matching one |
| Manager.SyncKeepsTrailingNewline | src/main/__init__.py:289-321 | the synced text ends with a newline exactly when the original did |
| Manager.SyncIdempotent | src/main/__init__.py:289-321 | when the rewritten line still matches, syncing a synced text changes nothing |
| Manager.SyncThenExtract | src/main/__init__.py:289-321 | when the rewritten line still matches and the old line named a key or held an X.Y.Z, extraction reads back exactly the new version |
| Manager.RewriteFinds | src/main/__init__.py:295-306 | a rewritten line that had a version key or an X.Y.Z yields exactly the new version |
| Manager.RewriteLine | src/main/__init__.py:295-306 | the template chosen by the key the line holds, in the source's order, else the generic replacement; a non-empty version never empties a line nor fills an empty one. `RewriteFinds`, `RewriteKeepsPlain`, `RewriteIdempotent` and `DockerBranchDead` characterise it |
| Manager.RewriteKeepsPlain | src/main/__init__.py:304-306 | a line with no version key and no X.Y.Z is left as it is |
| Manager.RewriteIdempotent | src/main/__init__.py:295-306 | rewriting a rewritten line changes nothing |
| Manager.RewriteNoNewline | src/main/__init__.py:295-306 | a rewrite never introduces a line break |
| Manager.DockerBranchDead | src/main/__init__.py:295-303 | no line is ever rewritten to the `LABEL version="V"` template |
| Manager.DockerLabelBroken | src/main/__init__.py:298-303 | a line the Dockerfile pattern accepts is rewritten to the TOML template, which the Dockerfile pattern rejects |
| Manager.KeyFree | src/main/__init__.py:306 | the generic replacement introduces none of the keys the rewrite tests for |
| Scan.FindAfterSubAll | src/main/__init__.py:306 | after the generic replacement on a line holding an X.Y.Z, the version found is the new one |
| Scan.SubAll | src/main/__init__.py:306 | `re.sub` of every X.Y.Z, left to right; with a non-empty version the result is empty exactly when the line is. `SubAllSplit`, `SubAllNoMatch`, `SubAllIdempotent` and `FindAfterSubAll` characterise it |
| Scan.SubAllNoMatch | src/main/__init__.py:306 | the replacement leaves a line without an X.Y.Z unchanged |
| Scan.SubAllSplit | src/main/__init__.py:306 | the replacement copies the text before the first match, puts the version in its place and goes on after it |
| Scan.SubAllIdempotent | src/main/__init__.py:306 | replacing with a version twice is the same as once |
| Manager.SyncResult | src/main/__init__.py:272-324 | the version-file error, a read failure for a missing target, or pattern-not-found when no line matches, in that order; on success only the target file changes |
| Manager.SyncVersion | src/main/__init__.py:272-324 | the step-by-step operation returns what `SyncResult` specifies |
| Manager.SyncThenValidate | src/main/__init__.py:289-308 | with distinct files, a sync whose rewritten line still matches and carries the version leaves the two files consistent |
| Manager.YamlSyncThenValidate | src/main/__init__.py:295-297 | under the default pattern `^version:.*$` every successful sync leaves the two files consistent |
| Patterns.Accepts | src/main/__init__.py:486-489 | what `re.match` of each built-in pattern decides for one line; an accepted line has at least 8 characters and starts with the pattern's first literal character. `YamlTemplateAccepted`, `TomlTemplateAccepted` and `AcceptedHead` characterise it |
| Patterns.YamlTemplateAccepted | src/main/__init__.py:297 | the YAML template line is accepted by `^version:.*$` |
| Patterns.TomlTemplateAccepted | src/main/__init__.py:300 | the TOML template line is accepted by `^version\s*=\s*".*"$` |
| Patterns.AcceptedHead | src/main/__init__.py:486-489 | a line a built-in pattern accepts starts with that pattern's literal head |
| Manager.ReleaseResult | src/main/__init__.py:425-469 | the reader's error when the version file does not read, the sync's error when it reads but the sync fails; otherwise the version read, the verdict of validating the synced snapshot, and the custom tag message or `Release V` |
| Manager.Release | src/main/__init__.py:425-469 | the step-by-step operation returns what `ReleaseResult` specifies |
| Manager.ReleaseConsistent | src/main/__init__.py:433-450 | a release whose rewritten line still matches and carries the version always reports the version as consistent |
| Hooks.DetectFrom | src/main/__init__.py:492-499 | no project type exactly when no marker file exists |
| Hooks.DetectFirst | src/main/__init__.py:492-499 | the first existing marker in the list decides, whatever comes after it |
| Hooks.DetectProjectType | src/main/__init__.py:471-499 | no project type exactly when none of the four marker files exists; a detected target file exists |
| Hooks.DetectPriority | src/main/__init__.py:484-489 | Ansible over Python over Helm over Docker, each with its own target file and pattern |
| Hooks.EscapeQuotes | src/main/__init__.py:524 | every double quote in the escaped pattern has a backslash before it |
| Hooks.EscapeRoundTrip | src/main/__init__.py:524 | unescaping the escaped pattern gives the pattern back |
| Hooks.HookContent | src/main/__init__.py:501-546 | every generated script holds the management marker |
| Hooks.CheckExistingHook | src/main/__init__.py:548-568 | existence exactly when the path holds a file; managed exactly when that file holds the marker; a missing hook is not managed |
| Hooks.GeneratedIsManaged | src/main/__init__.py:563-568 | a freshly written hook is found existing and managed |
| Hooks.Preflight | src/main/__init__.py:602-652 | the checks in order: missing `.git`, then a `dagger.json` project, then an undetected project type, then the version-file error; success exactly when all four pass, and then gives the detected project type and the stripped VERSION content, whose target file exists and which validates |
| Hooks.InstallOne | src/main/__init__.py:663-677 | an existing unmanaged hook is kept as it is; otherwise the path holds the script with mode 0o755; nothing else changes |
| Hooks.InstallStep | src/main/__init__.py:663-677 | one pass of the loop is `InstallOne`, and it reports a skip exactly for an existing unmanaged hook |
| Hooks.InstallHooks | src/main/__init__.py:655-677 | the loop over both hooks ends with what `InstallUpTo` specifies; pass `i` stamps its hook's script with its own clock reading `timestamps[i]` |
| Hooks.SetupResult | src/main/__init__.py:602-687 | setup succeeds exactly when the checks before installing pass, and otherwise fails with their error; each hook's script carries its own clock reading; `SetupInstalls` and `SetupIdempotent` characterise its result |
| Hooks.SetupGitHooks | src/main/__init__.py:602-687 | the step-by-step operation returns what `SetupResult` specifies |
| Hooks.SetupInstalls | src/main/__init__.py:655-687 | after a successful setup each hook path holds the kept unmanaged hook or its script with mode 0o755, and no other path and no directory changes |
| Hooks.InstallStable | src/main/__init__.py:663-677 | installing over a path that holds the same script, or an unmanaged hook, changes nothing |
| Hooks.PreflightUnchanged | src/main/__init__.py:604-652 | the checks before installing read no path the install loop writes |
| Hooks.SetupIdempotent | src/main/__init__.py:602-687 | running setup again with the same clock readings changes nothing |
| Text.JoinSplit | src/main/__init__.py:289-321 | joining the split lines with '\n' gives the text back |
| Text.SplitJoin | src/main/__init__.py:289-321 | splitting joined '\n'-free lines gives the lines back |
| Text.Lower | src/main/__init__.py:370 | lower-casing keeps the length and maps each ASCII capital to its small letter |
| Text.ReplaceChar | src/main/__init__.py:530 | `replace('-', ' ')` keeps the length and changes exactly the hyphens |
| FileTree.WithNewFile | src/main/__init__.py:322 | the new snapshot holds the content with the given mode at the path, and every other path and every directory is as before |

## Left out

- Dagger itself: the engine, async calls, `_get_source` defaulting to the module's own source, and `export` are not modelled. An operation takes the snapshot as a parameter.
- get_version: it returns `_read_version_file`'s version or its error text. `Manager.ReadVersionFile` is its model; the error is not rendered as text.
- Message texts and glyphs: errors and verdicts are datatypes carrying the data in their messages (file name, offending text, kind). The full text of the release instructions and the `str(e)` of a read failure are not modelled.
- General regular expressions: a user-supplied `version_pattern` is an arbitrary line predicate. Only the three built-in patterns are given as concrete predicates.
- Unicode: `strip()`, `\s` and `\d` also accept non-ASCII whitespace and digits in Python, and `lower()` also folds non-ASCII capitals. The model uses ASCII whitespace, the digits 0-9 and ASCII case folding. A bump kind is compared after `lower()` (line 370), and the model does not follow Python's case tables for non-ASCII letters there.
- SemVer.ParseVersion: `int()` also accepts a sign, underscores and surrounding whitespace in a part. Here a part must be plain digits, so the lenient forms are not modelled. In `bump_version` the reader strips the version and validates it first, so those forms never reach the parser there.
- Manager.BumpVersionLogic: a direct call of the source's helper also bumps `int()`-lenient texts (" 1.2.3", "+1.2.3", "1_0.0.0"); the model rejects them with a parse failure. `bump_version` never passes such texts, because the reader strips and validates the version first.
- Hooks.HookContent: `datetime.utcnow()` is a `timestamp` parameter. Setup takes one reading per hook (`timestamps[k]` for hook `k`), since the source reads the clock once per generated script. `Hooks.SetupIdempotent` is stated for two runs whose readings are the same.
- Hooks.SetupGitHooks: the `dagger.json` check raises and catches its own exception; the model gives the same outcome without the exception. The warnings the hook loop collects are computed and then discarded, as in the source, which builds a message it never returns.
- Release: the synced snapshot is not returned, as in the source, which returns only text. The message about the `git add/commit/tag/push` commands is reduced to the version, the verdict and the tag message.
- FileTree.WithNewFile: directories implied by a new file path are not added to the directory set. No operation reads them after a write.
- Manager.SyncThenValidate: it is stated under the hypothesis that the rewritten line still matches the pattern and carries the version. For a user-supplied pattern the source promises nothing more: a generic line without an X.Y.Z is left as it is.
