# Staging-path guard

A Dafny model of the security guard that sits in front of the staging area of an
ingestion server. The guard is in `app/mcp/security.py`. Clients upload files
into `data_dir/staging/<project_id>/<filename>`. Before anything touches the
disk, the guard does three things:

- It validates the project id and the filename.
- It resolves the joined path and makes sure the result stays inside the
  project's staging directory.
- It walks from the target up towards the staging root and refuses any
  symbolic link it meets on the way.

The same file holds the validators for vendor ids, GitHub repository URLs and
snapshot types, and those are modelled too.

Modules, in dependency order:

- `Outcomes`: `Option`, `Result`, and the two exception kinds of the source
  (`ValidationError`, `SecurityError`). Each refusal carries a `Rule` naming
  the check that failed. It also has `UncaughtOSError`, for an OSError that
  the guard lets through unconverted.
- `Text`: the Python string operations the guard uses, namely `strip`,
  `lstrip`, `rstrip`, `lower`, `replace`, `in`, `split` and `startswith`.
  Whitespace is exactly the set of characters `str.isspace` accepts.
- `Paths`: the slice of `pathlib` the guard relies on. A path is the sequence
  of its components. The module covers `parts`, `name`, `/`-joining,
  `parent`, `relative_to`, and the lexical resolution of `.` and `..` that
  `resolve()` performs when no link is involved.
- `Identifiers`: `validate_project_id`, `validate_vendor_id`,
  `validate_repo_url` and `validate_snapshot_type`, plus the device-name set.
- `IgnoreMatcher`: `_matches_ignore_pattern`. The pattern list and `fnmatch`
  are a parameter.
- `Filenames`: `validate_filename`, taken stage by stage: normalisation, the
  forbidden substrings, the shape pattern, the per-component rules, and the
  ignore list.
- `FilenameAnchor`: how the `$` in the filename pattern is read, with the
  inputs that tell the two readings apart (see Findings).
- `StagingPaths`: `get_safe_staging_path`. The filesystem is a parameter
  (`FileSystem`). One function says what `resolve()` returns for a path: a
  path, an OSError or a ValueError. The other says what `is_symlink()`
  answers: a link, not a link, or an OSError it does not swallow.

Where the written description of the guard and its code disagree, the model
follows the code:

- The project-id check for a leading `.` cannot fire. The pattern has already
  refused every `.`, so only the leading `-` test matters.
  `Identifiers.ValidateProjectId` states this.
- Two OSErrors are not turned into security errors, and the model returns
  `UncaughtOSError` for both:
  - one raised while resolving the project directory, because the `try` at
    `app/mcp/security.py:224-229` catches only `ValueError`;
  - one raised by `is_symlink()` on the walk (`app/mcp/security.py:234`),
    which sits outside any `try`. `is_symlink()` swallows a missing entry, a
    non-directory on the way, a bad descriptor and a link loop, but not, for
    example, a permission error on a directory of the path. So a path that
    has passed the containment check can still escape here
    (`StagingPaths.LstatFailureEscapes`).
- The repository URL check counts the pieces between slashes, but it never
  looks at what is in them. So an empty owner (`https://github.com//repo`) is
  accepted (`Identifiers.EmptyOwnerAccepted`).

## Model

| member | source | states |
|---|---|---|
| Identifiers.ValidateProjectId | app/mcp/security.py:66-87 | accepted exactly when the input is non-empty and its trimmed form matches `[a-zA-Z0-9_-]{3,64}`, does not start with `-` and is no device name in any case; the value is the trimmed input; every refusal is a format error; a leading-character refusal means a leading `-` (the `.` test cannot fire) |
| Identifiers.ProjectIdIsPlainName | app/mcp/security.py:31 | a valid project id is non-empty and holds no `/` and no `.`, so it names exactly one directory |
| Identifiers.ProjectIdIdempotent | app/mcp/security.py:66-87 | validating an accepted project id again returns it unchanged |
| Identifiers.ProjectIdExamples | app/mcp/security.py:71-85 | `"ab"` fails the pattern, `" abc "` gives `"abc"`, `"-abc"` fails the leading-character rule, `"NUL"` is a reserved name |
| Identifiers.NotReservedWithOddChar | app/mcp/security.py:41-45 | a string holding a character that is not in `[A-Za-z0-9_-]` is no device name, in any case |
| Identifiers.ValidateVendorId | app/mcp/security.py:258-268 | accepted exactly when the trimmed input has 1 to 64 characters; the value is the trimmed input |
| Identifiers.VendorIdIdempotent | app/mcp/security.py:258-268 | validating an accepted vendor id again returns it unchanged |
| Identifiers.CheckRepoUrl | app/mcp/security.py:289-302 | after trimming, a URL is accepted exactly when it starts with `https://github.com/` and, once every occurrence of that prefix and the trailing slashes are removed, a `/` is left; a missing prefix is reported as such |
| Identifiers.ValidateRepoUrl | app/mcp/security.py:284-302 | the same, for the untrimmed input: empty input is refused and the value is the trimmed URL |
| Identifiers.RepoUrlAcceptance | app/mcp/security.py:296-297 | for the prefix followed by a tail without `:`, acceptance is exactly "the tail, without trailing slashes, still contains a `/`" |
| Identifiers.OwnerRepoUrlAccepted | app/mcp/security.py:284-302 | `https://github.com/<owner>/<repo>`, with no `:` in either name and a repository name ending in neither whitespace nor `/`, is accepted unchanged |
| Identifiers.EmptyOwnerAccepted | app/mcp/security.py:296-297 | `https://github.com//repo` is accepted, because only the number of pieces is checked |
| Identifiers.OwnerOnlyRefused | app/mcp/security.py:297-300 | a tail with no `/` at all is refused as lacking owner and repository |
| Identifiers.ValidateSnapshotType | app/mcp/security.py:318-335 | accepted exactly when the trimmed, lower-cased input is one of the twelve categories, which is then the value; otherwise the input was empty or unknown |
| Identifiers.SnapshotTypeIdempotent | app/mcp/security.py:318-335 | validating an accepted snapshot type again returns it unchanged |
| Identifiers.SnapshotTypeExamples | app/mcp/security.py:327-329 | `"Security"` is accepted as `"security"` |
| Identifiers.UnknownSnapshotTypeExample | app/mcp/security.py:329-333 | `"bogus"` is refused as an unknown snapshot type |
| IgnoreMatcher.MatchesIgnorePatternSpec | app/mcp/security.py:163-181 | the screen catches a filename exactly when some pattern matches one of its path parts, the whole filename or its final component |
| IgnoreMatcher.MatchesFromSpec | app/mcp/security.py:167-181 | the loop over the patterns from index `i` returns true exactly when some pattern from `i` on hits |
| IgnoreMatcher.AnyPartMatchesSpec | app/mcp/security.py:169-171 | the loop over the path parts returns true exactly when some part matches |
| IgnoreMatcher.NameTestRedundant | app/mcp/security.py:169-179 | for a filename with components, the final-component test adds nothing to the parts test |
| IgnoreMatcher.MoreRulesCatchMore | app/mcp/security.py:167-181 | adding patterns to the list never lets through a filename the shorter list caught |
| Filenames.NormalizeShape | app/mcp/security.py:113-119 | a normalised name holds no backslash and has no slash at either end |
| Filenames.FirstForbidden | app/mcp/security.py:125-129 | the forbidden-pattern loop reports the first pattern, in list order, that occurs in the name, and nothing exactly when none occurs |
| Filenames.FirstBadComponent | app/mcp/security.py:138-152 | the component loop reports nothing exactly when every component passes, and otherwise the rule broken by the first component that fails |
| Filenames.HiddenComponentExamples | app/mcp/security.py:147-152 | `.env` is a hidden directory; `.env.example` and `.gitignore` pass |
| Filenames.DeviceComponentExamples | app/mcp/security.py:142-145 | `COM1` as a component is refused as a device name; `COM1.txt` passes |
| Filenames.CheckNormalized | app/mcp/security.py:124-160 | on a non-empty normalised name: accepted exactly when the name is acceptable (no forbidden pattern, the shape, every component passes, no ignore hit) and then returned unchanged; a security error exactly when a forbidden pattern occurs, naming the first in list order |
| Filenames.SanitizeFilename | app/mcp/security.py:110-160 | accepted exactly when the input is non-empty and its normalised form is acceptable; the value is the normalised form; a security error exactly when the normalised form holds a forbidden pattern |
| Filenames.ValidateFilename | app/mcp/security.py:132-135 | with `$` read as end of string: an accepted name matches the whole filename pattern and is the normalised input |
| Filenames.IgnoredNameRefused | app/mcp/security.py:154-158 | a name the ignore list catches is refused, with a format error unless it already holds a forbidden pattern |
| Filenames.AcceptableSpelledOut | app/mcp/security.py:124-158 | an acceptable name has the pattern's shape, no forbidden pattern, every component non-empty, no device name and no hidden directory, and no ignore pattern hitting it |
| Filenames.SanitizedIsSafe | app/mcp/security.py:110-160 | under either reading of `$`, an accepted name is relative, has no trailing slash, backslash or NUL, and every piece is a real name other than `..` |
| Filenames.ValidateFilenameIdempotent | app/mcp/security.py:110-160 | the corrected validator returns an accepted name unchanged when given it again |
| FilenameAnchor.AsWrittenAcceptsNewlineExample | app/mcp/security.py:35 | with `$` read as Python reads it, `"a\n/"` is accepted as `"a\n"` |
| FilenameAnchor.AsWrittenNotIdempotent | app/mcp/security.py:113-132 | with `$` read as Python reads it, the result for `"a\n/"`, given again, changes |
| FilenameAnchor.AsWrittenAcceptsDeviceName | app/mcp/security.py:132-145 | with `$` read as Python reads it, the device name `con` passes as `"con\n"` |
| FilenameAnchor.CorrectedRefusesNewline | app/mcp/security.py:35 | with `$` read as end of string, any input whose normalised form holds a newline is refused |
| FilenameAnchor.CorrectedRefusesNewlineExample | app/mcp/security.py:35 | the corrected validator refuses `"a\n/"` |
| FilenameAnchor.CorrectedRefusesWordNewline | app/mcp/security.py:35 | the corrected validator refuses every word of `[a-zA-Z0-9_-]` followed by a newline and a slash, the device names (`"con\n/"`) among them |
| FilenameAnchor.AnchorsAgree | app/mcp/security.py:35 | the validator as written and the corrected one give the same result on every input whose normalised form does not end in a newline |
| FilenameAnchor.AsWrittenIdempotentWithoutNewline | app/mcp/security.py:110-160 | as written, a name the validator accepted that does not end in a newline is accepted again unchanged |
| Text.SplitJoin | app/mcp/security.py:138 | joining the pieces of `split` with the separator gives back the string |
| Text.StripIdempotent | app/mcp/security.py:113 | stripping twice is stripping once |
| Paths.LexicalPlain | app/mcp/security.py:215-219 | resolving components with no `.` and no `..` just appends them |
| Paths.DotDotLeavesBase | app/mcp/security.py:223-229 | a `..` piece can take a resolution out of its base directory, which is what the containment check guards against |
| StagingPaths.ResolveTarget | app/mcp/security.py:215-242 | an accepted path is what the target resolves to, and the resolved project directory is a prefix of it; every refusal is a security error, except an OSError raised while resolving the project directory or by a symbolic-link query on the walk |
| StagingPaths.GetSafeStagingPath | app/mcp/security.py:206-242 | a project-id error is returned first, then a filename error; an accepted path implies both validations passed, is the target's resolution and lies within the resolved project directory |
| StagingPaths.UnresolvableTargetRefused | app/mcp/security.py:218-221 | a target whose resolution raises is refused as an invalid path |
| StagingPaths.EscapingTargetRefused | app/mcp/security.py:224-229 | a target resolving outside the resolved project directory is refused as traversal |
| StagingPaths.OnWalkMeaning | app/mcp/security.py:232-240 | the closed form of "visited by the walk" means that no path passed before it is the staging root |
| StagingPaths.SymlinkOnWalkSpec | app/mcp/security.py:231-240 | the walk stops early exactly when some path it visits is a link or has a query that raises, and where it stops is such a visited path |
| StagingPaths.WalkBelowRoot | app/mcp/security.py:233-240 | for a target below the staging root, the walk visits exactly the prefixes longer than the root |
| StagingPaths.ProjectDirIsChild | app/mcp/security.py:211-212 | a plain project id names one direct child of the staging root |
| StagingPaths.ProjectDirsIsolated | app/mcp/security.py:207-212 | two different valid project ids give directories neither of which contains the other |
| StagingPaths.TargetBelowDir | app/mcp/security.py:215 | a safe name joins below a directory as its own pieces, none `.` or `..`, so lexical resolution keeps it there |
| StagingPaths.ValidatedTargetBelowDir | app/mcp/security.py:208-215 | the same for every name the corrected validator accepts |
| StagingPaths.TargetBelowRoot | app/mcp/security.py:211-215 | the target lies strictly below the staging root |
| StagingPaths.LinkBelowRootRefused | app/mcp/security.py:231-237 | a link, or a path whose query raises, anywhere from the project directory down to the target makes the checks after validation refuse |
| StagingPaths.SymlinkBelowRootRejected | app/mcp/security.py:231-237 | the same for the whole guard, for every pair of valid inputs |
| StagingPaths.SymlinkedProjectDirRejected | app/mcp/security.py:231-237 | a project directory that is a link is always refused |
| StagingPaths.ContainedCleanTargetAccepted | app/mcp/security.py:215-242 | the converse of the acceptance contract: a target that resolves inside the resolved project directory, on a walk meeting no link and no failing query, is accepted as its resolution, whatever lies above the staging root |
| StagingPaths.ContainedCleanPathAccepted | app/mcp/security.py:206-242 | the same for the whole guard and every pair of valid inputs |
| StagingPaths.LstatFailureEscapes | app/mcp/security.py:231-237 | a target that passes the containment check but whose symbolic-link query raises escapes as an unconverted OSError |
| StagingPaths.AcceptedWalkIsLinkFree | app/mcp/security.py:231-242 | every path the walk visits on the way to an accepted result is answered as no link, without raising |
| StagingPaths.LinkFreeResolves | app/mcp/security.py:215-242 | with no links and a plain data directory, the checks after validation accept, giving the project directory followed by the pieces of the name |
| StagingPaths.LinkFreeAccepts | app/mcp/security.py:206-242 | with no links and a plain data directory, every pair of valid inputs is accepted at that path |
| StagingPaths.ErrorKinds | app/mcp/security.py:206-242 | every refusal is a format or security error, except, for valid inputs, an OSError from resolving the project directory or from a symbolic-link query on the walk |

## Left out

- The ignore-pattern list and `fnmatch` belong to other components. They are
  the parameter `IgnoreRules`, so every property holds for any list and any
  matcher.
- `Path.resolve()` and `Path.is_symlink()` query the live filesystem. They are
  the parameter `FileSystem`, so every property holds for any answers they
  give. Which OSErrors `is_symlink()` swallows is folded into its answer.
  `RuntimeError` from a link loop during `resolve()` is not modelled.
- The race between checking the path and later using it is out of scope: the
  model looks at one snapshot of the filesystem.
- `settings.data_dir` is read from configuration and is a parameter. Paths are
  component sequences, so the anchor (`/` or a drive) is not represented.
  `Join` still models an absolute name replacing the base.
- The messages of the exceptions, logging, and the MCP transport and tool
  handlers that call the guard are not modelled. Only the kind of each error
  and the rule that raised it are kept.
- `Text.Lower` lowers ASCII letters only. In `validate_project_id` and
  `validate_filename`, the string is lowered after the shape check has
  restricted it to ASCII, so nothing differs there. In
  `validate_snapshot_type` (`app/mcp/security.py:327`), arbitrary text is
  lowered before the membership test. Python's `lower()` turns a non-ASCII
  character into pure ASCII only for U+212A KELVIN SIGN, which becomes `k`.
  (U+0130 becomes `i` followed by a combining dot.) None of the twelve
  categories contains `k`. So a stripped input that still holds a non-ASCII
  character is refused under both lowerings, and on ASCII the two agree.
- StagingPaths.GetSafeStagingPath: it uses the corrected filename validator
  (`$` read as end of string), not the one as written (see Findings). The two
  agree on every filename whose normalised form does not end in a newline
  (`FilenameAnchor.AnchorsAgree`), so every property of the guard holds for
  the code as written on those names.
- StagingPaths.LinkFreeResolves: it is proved for a data directory without
  `.` or `..` components only, since on such a filesystem `resolve()` tidies
  those in the data directory too.

## Findings

| source | as written | input that shows it | evidently intended | confidence | as-written member | corrected member |
|---|---|---|---|---|---|---|
| app/mcp/security.py:35 and :132 | the filename pattern ends in `$`, which in Python also matches just before one final newline, so a normalised name ending in `\n` passes the shape check | `"a\n/"` is accepted as `"a\n"`, which validated again becomes `"a"`; `"con\n/"` is accepted as `"con\n"`, so the device name slips past the component check | the pattern matches the whole name (`\Z` or `fullmatch`), which refuses any newline and makes validation idempotent | not executed | FilenameAnchor.AsWrittenNotIdempotent | Filenames.ValidateFilenameIdempotent |

The upload tool validates the filename once itself (`app/mcp/tools.py:316`)
and then passes the result to the guard, which validates it again
(`app/mcp/security.py:208`). In that flow `"con\n/"` is refused on the
second pass. `"a\n/"` is written at `a`, while the tool's reply reports the
filename `"a\n"` (`app/mcp/tools.py:356-362`).
