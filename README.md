# gitx core, modelled in Dafny

gitx is a command-line helper around `git`. It manages one working copy per
feature version, named `<repo>-<version>-<branch>`, and it turns an AI
reply into a `git commit` command. This project models the parts of gitx
that compute something:

- **The commit-message formatter `formatCommitMessage`** (module `AiCommit`).
  - In github mode it keeps the trimmed, non-blank lines.
  - In default mode it cuts the reply at the commit-type literals `feat:`,
    `test:`, `revert:`, `chore:`, `style:`, `refactor:` and `fix:` and at
    line breaks. It counts the types, picks a most frequent one, and labels
    the first fragment with it.
- **The argument validators** of `clone` and `rename` (modules `Clone`,
  `Rename`, `VersionPrefix`) and of `config` (module `Settings`).
- **The clone directory name**, built from the SSH remote, the version and
  the branch (`Clone`).
- **The reading of a project directory name** back into version and branch,
  with the project pattern written out as a leftmost matcher (`ProjectDir`,
  `Sync`).
- **The rename target**: the new directory name and path (`Rename`).
- **`config set`**, which edits a `Config` record in place, and the
  defaulting that `init` applies (`Settings`).
- **`getRepoURL`**, which turns the output of `git remote -v` into an https
  address, and the pipelines address built from it (`Sync`).
- **The single-file copy `main.go`**, whose prefix list is fixed at `feat`,
  `online-fix` and `online-revision` (`Legacy`).

The three regular expressions of `commands/utils.go` are written out as
hand-made matchers with Go's RE2 semantics (module `Patterns`):

- leftmost-first matching;
- `[^...]` also matches a newline, while `.` does not;
- `$` is the end of the text;
- `\s` is `[\t\n\f\r ]`.

`strings.TrimSpace` uses Go's `unicode.IsSpace` set (module `GoStrings`).

`errLog` ends the process, so every error path it takes becomes an `Err` or
`Fail` result carrying the message the source prints. `url.Parse` is a
function parameter (`Patterns.UrlParser`). The order in which Go iterates a
map, which decides ties between equally frequent commit types, becomes a
nondeterministic choice among the most frequent types.

Default mode of the formatter fails only when the splitter finds no match
at all, and a lone `\n` or `\r` counts as a match. The error text speaks of
"no valid commit message prefix", but the code tests only that the match
list is non-empty. The model follows the code: a reply with line breaks and
no type literal is accepted, and its label is the empty type, which
prepends nothing (`AiCommit.LineBreaksOnly`).

## Model

The copies in `main.go` of `formatCommitMessage` (main.go:373-429), the
repoName derivation (main.go:88-90) and `getRepoURL` (main.go:610-629) are
the same code as their `commands` counterparts. One member models each pair,
and some rows below cite the `main.go` lines of that shared code.

| member | source | states |
|---|---|---|
| AiCommit.FormatCommitMessage | commands/ai_commit.go:100-156 | github mode always gives `commit` and one `-m` pair per trimmed non-blank `\n`-line. Default mode fails with "No valid commit message prefix found in AI response." exactly when the splitter matches nothing. Otherwise it labels the fragments with a type of maximal count. |
| AiCommit.GithubLines | commands/ai_commit.go:102-109 | the github-mode lines: the reply cut at every `\n`, each piece trimmed, blank pieces dropped |
| AiCommit.DefaultLines | commands/ai_commit.go:136-144 | the default-mode fragments: the `Split` pieces, trimmed, blank ones dropped |
| AiCommit.NonBlank | commands/ai_commit.go:138-143 | the trimmed pieces that are not empty, in their order |
| AiCommit.PrefixCounts | commands/ai_commit.go:117-123 | `prefixCounter` after the loop: one more for each match that is not a line break, keyed by the match without its colon |
| AiCommit.IsDominant | commands/ai_commit.go:124-131 | a type the tie-breaking loop may leave in `finalPrefix`: "" when nothing was counted, otherwise a counted type that no other type outnumbers |
| AiCommit.FormatGithub | commands/ai_commit.go:101-111 | the github loop emits `commit` then `-m line` for every trimmed non-blank `\n`-separated line, in order |
| AiCommit.CountPrefixes | commands/ai_commit.go:117-123 | the counter maps each type (colon stripped, `\n`/`\r` skipped) to its number of matches |
| AiCommit.ChooseDominant | commands/ai_commit.go:124-131 | the chosen type has the largest count; it is "" only when nothing was counted |
| AiCommit.FilterLines | commands/ai_commit.go:136-144 | the filtered fragments are the trimmed non-blank split pieces, in order |
| AiCommit.BuildArgs | commands/ai_commit.go:146-155 | the emitted arguments are `commit` and `-m` pairs of the lines. Only the first line gets the label, and only when it does not already start with the type. |
| AiCommit.CommitArgs | commands/ai_commit.go:146-155 | the argument list has length 2n+1, starts with `commit`, and has `-m` before each line at odd positions |
| AiCommit.PrefixFirst | main.go:419-427 | the label changes only the first line. A first line that does not start with the type becomes `type: line`; one that does is left unchanged. |
| AiCommit.PrefixCountsAreOccurrences | commands/ai_commit.go:117-123 | the counter holds exactly the types that occur among the matches, each with its multiplicity |
| AiCommit.PrefixCountsPositive | commands/ai_commit.go:117-123 | every counted type was counted at least once |
| AiCommit.DominantIsMostFrequent | main.go:390-404 | no type occurs more often than the chosen one; with no type among the matches the choice is "" |
| AiCommit.DominantIsCommitType | commands/ai_commit.go:117-131 | the chosen label is "" or one of the seven commit types |
| AiCommit.DelimiterKinds | commands/ai_commit.go:119-120 | a match that is not a line break is one of the types followed by a colon |
| AiCommit.DefaultFailsIff | main.go:386-389 | default mode fails exactly when none of the nine literals occurs anywhere in the reply |
| AiCommit.LineBreaksOnly | commands/ai_commit.go:113-131 | when no type literal occurs, the label is "" and the lines are emitted unchanged |
| AiCommit.NonBlankLines | commands/ai_commit.go:138-143 | the kept lines are no more than the pieces, and each is non-empty and trimmed |
| AiCommit.NonBlankSource | commands/ai_commit.go:138-143 | each kept line is the trimmed form of some piece |
| AiCommit.NonBlankEmpty | commands/ai_commit.go:138-143 | nothing is kept exactly when every piece trims to "" |
| AiCommit.NonBlankAppend | commands/ai_commit.go:138-143 | filtering distributes over concatenation of the pieces |
| AiCommit.GithubLinesHaveNoNewline | commands/ai_commit.go:102-108 | no github-mode line holds a newline |
| AiCommit.GithubBlank | main.go:374-384 | an all-blank reply gives only `commit` |
| AiCommit.GithubSingleLine | commands/ai_commit.go:102-108 | a trimmed non-empty reply without `\n` is one line, so `\r` inside it is kept |
| AiCommit.TrimSpaceKeepsOut | commands/ai_commit.go:105 | trimming adds no character |
| AiCommit.DefaultLinesDelimiterFree | commands/ai_commit.go:136-143 | no kept fragment contains any of the nine literals |
| AiCommit.TrimSpaceDelimiterFree | commands/ai_commit.go:139 | trimming a delimiter-free piece keeps it delimiter-free |
| AiCommit.DefaultLinesTrimmed | commands/ai_commit.go:146-155 | every emitted default-mode line, the labelled first included, is non-empty and trimmed |
| AiCommit.FirstLineNeverLabelled | commands/ai_commit.go:148-151 | the first fragment never starts with `type:`, because the splitter cut that away. The label test looks for the bare type, so the fragment stays unlabelled exactly when it starts with the type followed by anything but `:` (`fix bug`, a bare `fix`, `feat(ui) x`); otherwise it becomes `type: fragment`. |
| AiCommit.NoTypeTokens | commands/ai_commit.go:118-122 | matches that are all line breaks contribute no type |
| AiCommit.TypeTokensOfDelimiters | commands/ai_commit.go:118-122 | every counted type is one of the seven commit types |
| Patterns.DelimiterAtSpec | commands/utils.go:19 | the splitter matches at a position exactly when one of its literals occurs there, and what it matches is that literal |
| Patterns.FirstAtSpec | commands/utils.go:19 | trying the alternatives in order yields one that occurs, or "" when none does |
| Patterns.DelimitersUnambiguous | commands/utils.go:19 | no two alternatives can match at the same position |
| Patterns.Pieces | commands/ai_commit.go:136 | `regexpSplitter.Split(s, -1)`: the texts between the matches of a left-to-right scan that takes a match at the first position where one occurs and resumes after it; there is one more piece than there are matches |
| Patterns.Matches | commands/ai_commit.go:113 | `regexpSplitter.FindAllString(s, -1)`: the leftmost non-overlapping matches, in order |
| Patterns.TokenizeRoundTrip | commands/utils.go:19 | `Split` pieces interleaved with the `FindAllString` matches give back the text |
| Patterns.ScanFromRoundTrip | commands/utils.go:19 | the scan from any position loses nothing of the rest of the text |
| Patterns.MatchesAreDelimiters | commands/utils.go:19 | every match is one of the nine literals and occurs in the text |
| Patterns.PiecesDelimiterFree | commands/utils.go:19 | no split piece contains a position where the splitter matches |
| Patterns.MatchesEmptyIff | commands/utils.go:19 | there are no matches exactly when no position of the text matches |
| Patterns.DelimiterFreeContainsNone | commands/utils.go:19 | a delimiter-free text contains none of the literals |
| Patterns.GitRepoPathSound | commands/utils.go:17 | the SSH capture ends four characters before the end of a text that ends in `git`, with no newline before that `git` |
| Patterns.GitRepoPath | commands/clone.go:71 | the capture of `git@[^:]+:([^\.]+).git$` at its leftmost match; when there is one, it is non-empty and holds no `.` |
| Patterns.SplitSpace | commands/sync.go:59 | `regexpSplitSpace.Split(line, -1)`: at least one field, and no field holds `\s` |
| Patterns.GitRepoPathOfRemote | commands/utils.go:17 | `git@<host>:<path>.git` matches, and the capture is `<path>` |
| VersionPrefix.MatchesSomePrefix | commands/clone.go:42-48 | the `matched` loop is true exactly when some prefix followed by `-` starts the version |
| VersionPrefix.Examples | commands/clone.go:36-39 | the example list has one `p-xxxx` per prefix, in list order |
| VersionPrefix.AcceptedHasDash | commands/clone.go:42-55 | an accepted version is non-empty and holds a dash |
| VersionPrefix.EmptyRejected | commands/clone.go:35-40 | the empty version never passes the prefix check |
| VersionPrefix.PrefixedAccepted | commands/clone.go:42-48 | any prefix, a dash and a name pass the prefix check |
| Clone.ValidateArgs | commands/clone.go:26-60 | the checks run in the order count, URL, version, branch, and the first that fails gives its message. The validator passes exactly when there are three arguments, the URL is SSH or parses, the version starts with `p-`, and the branch is non-empty. |
| Clone.RepoPart | commands/clone.go:71-73 | a repository part exists exactly for SSH remotes |
| Clone.RepoDirName | commands/clone.go:71-73 | a directory name exists exactly for SSH remotes |
| Clone.RepoPartFlat | commands/clone.go:71-73 | the repository part holds no `/` and no `.` |
| Clone.RepoPartOfRemote | commands/clone.go:71-73 | `git@<host>:<owner>/<name>.git` gives the repository part `<owner>-<name>` |
| Clone.RepoDirNameShape | main.go:88-90 | the name is the slash-free repository part, `-`, version, `-`, branch |
| ProjectDir.ParseSound | commands/config.go:168 | a parsed name ends with `<version>-<branch>`. The version is an alternative, a dash and a dash-free run; the branch is non-empty and has no newline. |
| ProjectDir.Parse | commands/sync.go:24-28 | `MatchString` and `FindStringSubmatch` of the project pattern: a match gives a non-empty version and a non-empty branch without newline, and the name ends with `<version>-<branch>` |
| ProjectDir.MatchWithSound | commands/config.go:168 | a match at one position with one alternative has that shape |
| ProjectDir.MatchAtSound | commands/config.go:168 | a match at one position has that shape for some alternative |
| ProjectDir.MatchFromSound | commands/config.go:168 | the leftmost match has that shape for some alternative |
| ProjectDir.ParsedVersionAccepted | commands/config.go:168 | a parsed version passes the clone and rename prefix check |
| ProjectDir.ParsedVersionOccurs | commands/rename.go:53-57 | the parsed version is non-empty and occurs in the directory name |
| ProjectDir.ParseOfName | commands/config.go:168 | `<head><p>-<run>-<branch>` reads back as version `<p>-<run>` and branch `<branch>`, provided no match of the pattern starts inside the head and no alternative listed before `p` matches where `p` starts |
| ProjectDir.DashedVersionMisread | commands/clone.go:42-48 | a version such as `feat-1-2` passes the clone check but reads back as `feat-1`, with the rest moved into the branch |
| ProjectDir.IndexFromDash | commands/config.go:168 | the `[^-]+` run ends at the first dash |
| ProjectDir.PatternSource | commands/config.go:168 | the source text of `regexpProject`, built from the prefix list; no contract of its own: `Settings.PatternAlternatives` states that its alternatives are the ones the matcher tries |
| ProjectDir.MatchFrom | commands/config.go:168 | the leftmost-first search that `FindStringSubmatch` performs, trying the starts in order; no contract of its own: `ProjectDir.MatchFromLeftmost` states it |
| ProjectDir.MatchFromLeftmost | commands/config.go:168 | the search fails exactly when no start at or after the given one gives a match; otherwise its result is the match at the first start that gives one |
| Rename.ValidateArgs | commands/rename.go:16-38 | one argument, non-empty, starting with `p-`. Each failure gives its message, and the validator passes exactly when all hold. |
| Rename.RenameTarget | commands/rename.go:45-58 | the new name and path, or the error: a name the project pattern does not match gives "current directory is not a valid project directory", an unchanged version gives "new project name is the same as the current one", and no other error occurs. A new name holds the new version, differs from the old name, and ends the new path. |
| Rename.RenameReadBack | commands/rename.go:53-58 | a name parsed as version `v` and branch `b` from `<head><v>-<b>`, in which `v` occurs only where the project part starts, is renamed to `<head><new>-<b>`, and the new path is that name joined to the parent |
| Rename.RenameRewritesBranch | commands/rename.go:57 | `strings.ReplaceAll` also rewrites a branch that starts with the version: `<head><v>-<v>-<rest>`, with `v` occurring only at those two places, becomes `<head><new>-<new>-<rest>`. For example `o-feat-1-feat-1-dev` (branch `feat-1-dev`) renamed to `feat-2` gives `o-feat-2-feat-2-dev`, whose branch reads `feat-2-dev`. |
| Rename.SlashedVersionNests | commands/rename.go:16-58 | the validator lets a `/` through, so a new version such as `feat-1/x` puts the target in a subdirectory below the parent rather than beside the old directory |
| Rename.JoinPath | commands/rename.go:58 | the path ends with the new name and starts with the parent; a parent `.` is dropped, as `path.Join` does |
| Settings.ValidateArgs | commands/config.go:18-39 | the validator passes exactly on no arguments, on `view` alone, or on `set` with a valid key and a value; each other case gives its message |
| Settings.Config.Set | commands/config.go:95-126 | the record becomes `Assign` of the old record. An invalid boolean fails and changes nothing. |
| Settings.Assign | commands/config.go:95-126 | the record after `set key value`: only an invalid boolean for `open_in_ide_after_use` fails, with its message, and both lists are non-nil afterwards |
| Settings.ParseBool | commands/config.go:100-107 | `strings.ToLower(value)` compared with "true" and then with "false"; anything else is no boolean |
| Settings.TrimmedList | commands/config.go:108-119 | the value split at every comma, each piece trimmed: one element more than the value has commas |
| Settings.SplitTrimmed | commands/config.go:108-119 | splitting on `,` and trimming each slice element in place gives the trimmed pieces |
| Settings.TrimmedListShape | commands/config.go:108-119 | element k is piece k trimmed, so each element is trimmed and comma-free |
| Settings.TrimmedListKeepsBlank | commands/config.go:108-119 | a blank piece stays in the list as "" |
| Settings.TrimmedListOfJoin | commands/config.go:108-119 | trimmed, comma-free elements joined by commas read back as the same list |
| Settings.ParseBoolAnyCase | commands/config.go:100-107 | the value means true exactly when it is "true" in any letter case, and false likewise |
| Settings.AssignSpec | commands/config.go:95-126 | `set` fails only on an invalid boolean. Otherwise it changes only the keyed field, and both lists are non-nil afterwards. |
| Settings.AssignUnknownKey | commands/config.go:95-126 | a key outside the switch only normalises nil lists |
| Settings.Globals.Init | commands/config.go:164-172 | the prefix list is replaced only by a non-empty configured one, and the pattern is built from it. An empty IDE becomes `code`; nothing else changes. |
| Settings.PatternAlternatives | commands/config.go:168 | the matcher's alternatives are exactly the `|`-separated pieces of the pattern's group, with "" for an empty list |
| Settings.EffectivePrefixes | commands/config.go:164-166 | a non-empty configured list replaces the current one; otherwise the current list stays. The result is empty only when both lists are, so init never replaces a non-empty list by an empty one. |
| Sync.ProjectOf | commands/sync.go:23-33 | a non-project directory fails with its message. Otherwise the branch is non-empty without newline, and the name ends with `<version>-<branch>`. |
| Sync.CloneDirReadBack | commands/sync.go:23-33 | a directory made by `clone` reads back as the version and branch it was cloned with, when the version's run has no dash, no match of the pattern starts inside `<repo>-`, and no prefix listed before the version's own matches where the version starts |
| Sync.RepoNameMisread | commands/sync.go:24-33 | a repository named `<p>-<run>` is misread: its clone directory reads back as version `<p>-<run>` with the real version moved into the branch (`git@h:o/feat-tools.git`, `feat-1`, `dev` gives `feat-tools` on `feat-1-dev`) |
| Sync.OriginRemote | commands/sync.go:58-60 | the second field of the first line whose first field is `origin` and that has at least two fields; it holds no white space |
| Sync.IsOriginLine | commands/sync.go:59-60 | a line of `git remote -v` with at least two white-space separated fields, the first being `origin`; no contract of its own: `Sync.OriginRemoteFirst` states that the remote comes from the first such line |
| Sync.RepoUrl | commands/sync.go:55-74 | getRepoURL: an error is the missing-origin message or the invalid-URL message, and a result exists only when an origin line does |
| Sync.OriginRemoteFirst | main.go:612-615 | the remote used is field 1 of the first line whose first field is `origin` and that has at least two fields |
| Sync.OriginRemoteNone | commands/sync.go:57-60 | there is no remote exactly when no line qualifies |
| Sync.RepoUrlSpec | commands/sync.go:55-74 | getRepoURL fails with "Failed to get repository URL from git remote" exactly when no line qualifies. It rewrites an SSH remote to https. Any other remote fails with the `Invalid repository URL` message of its parse error, or gives the parsed address with one trailing `.git` removed. |
| Sync.HttpsOfSsh | main.go:617 | the rewritten address starts with `https://` and has no `:` after it |
| Sync.HttpsOfRemote | commands/sync.go:61-62 | `git@<host>:<path>.git` becomes `https://<host>/<path>` |
| Sync.OriginLineOf | commands/sync.go:59-60 | `origin`, white space, the remote and then white space or the end is an origin line for that remote |
| Sync.PipelineUrl | commands/sync.go:50 | the pipelines address is the repository address followed by `/-/pipelines` |
| Legacy.LegacyVersionIff | main.go:24-30 | with the fixed list, a version passes exactly when it starts with `feat-`, `online-fix-` or `online-revision-` |
| Legacy.BarePrefixRejected | main.go:24-30 | a bare `feat`, `online-fix` or `online-revision` is rejected |
| Legacy.LegacyIsDefault | main.go:24-30 | the fixed list is the default list of the commands package and holds no `|` |
| Legacy.LegacyPattern | main.go:24 | the pattern built from the fixed list is the one `main.go` compiles |
| Legacy.CloneArgs | main.go:43-78 | the legacy clone validator passes exactly on three arguments with an accepted URL, a version with one of the three prefixes, and a non-empty branch |
| Legacy.RenameArgs | main.go:212-234 | the legacy rename validator passes exactly on one argument starting with one of the three prefixes |
| GoStrings.TrimSpaceSpec | commands/ai_commit.go:105 | `strings.TrimSpace` removes exactly the leading and trailing white space, and gives "" exactly on all-space text |
| GoStrings.TrimSpace | commands/ai_commit.go:139 | `strings.TrimSpace`: the result neither starts nor ends with white space |
| GoStrings.TrimSpaceIdempotent | commands/ai_commit.go:149 | trimming twice is trimming once, so the second trim in the label loop changes nothing |
| GoStrings.SplitOnJoin | commands/ai_commit.go:102 | joining the pieces of `strings.Split` with the separator gives back the text |
| GoStrings.JoinSplitOn | commands/config.go:168 | splitting a join of separator-free parts gives back the parts |
| GoStrings.ReplaceAllRemovesChar | commands/sync.go:62 | replacing every occurrence of a character by a text without it leaves none |
| GoStrings.ReplaceAllContains | commands/rename.go:57 | replacing an occurring pattern puts the replacement in the result |
| GoStrings.ReplaceAllChanges | commands/rename.go:57 | replacing an occurring pattern by a different text changes the string |
| GoStrings.ReplaceAll | commands/rename.go:57 | `strings.ReplaceAll`: occurrences replaced left to right without overlap; no contract of its own: the `ReplaceAll` lemmas below state what it does |
| GoStrings.ReplaceAllNone | commands/clone.go:73 | a text in which the pattern does not occur is left unchanged |
| GoStrings.ReplaceAllFirst | commands/rename.go:57 | the text before the first occurrence is copied, that occurrence is replaced, and the scan resumes after it |
| GoStrings.ReplaceAllAfter | commands/rename.go:57 | `<head><pat><tail>` with no occurrence starting in the head becomes `<head><rep>` followed by the replacement of the tail |
| GoStrings.ReplaceAllOnce | commands/rename.go:57 | a pattern that occurs at one place only is replaced there and nowhere else |
| GoStrings.ReplaceAllTwice | commands/rename.go:57 | a pattern that occurs at exactly two places is replaced at both |
| GoStrings.SplitOn | commands/ai_commit.go:102 | `strings.Split` with a one-character separator: one more part than there are separators, and no part holds the separator |
| GoStrings.TrimLeftChar | commands/clone.go:72 | `strings.TrimLeft` with a one-character cutset: the result is a suffix that does not start with that character, and every character dropped is that character |
| GoStrings.ToLowerAscii | commands/config.go:101 | lowering keeps the length and changes only `A`-`Z` |

## Left out

- **I/O.** The model leaves out every `git` and IDE invocation, the checkout, pull, merge and push sequences, logging, and the interactive prompts. `git remote -v` becomes an input string.
- **Filesystem and JSON.** The model leaves out file-system access, `os.Getwd`, the home directory, the config file path, and JSON reading and writing. The config record is an object the model receives.
- **The inverted `isDirExist` test** in `config set` (commands/config.go:86). It decides only whether the file is read.
- **The AI client** behind `ai-commit` and its confirmation prompt. The reply is an input string.
- **`url.Parse` and `URL.String`.** They are a function parameter, not modelled.
- **`path.Base` and `path.Dir` of the working directory.** They are inputs to `Rename.RenameTarget`.
- **Rename.JoinPath:** does not apply `path.Clean` to the joined path. It agrees with `path.Join` for a clean parent (`.` included) and a new name without `.` or `..` segments and without a trailing or doubled `/`.
- **Rename.RenameTarget:** the model, like the source, accepts a new version holding `/`; the target is then a subdirectory of the parent (`Rename.SlashedVersionNests`), and the model promises only that the new path starts with the parent, not that it lies beside the old directory.
- **Regular-expression metacharacters inside configured prefixes.** They are matched literally. Go would interpret them inside the compiled pattern.
- **Invalid UTF-8.** Strings are sequences of code points.
- **Non-ASCII input to `strings.ToLower`.** The model lowers only `A`-`Z`. No other character lowers to a letter of "true" or "false", so the comparison is unchanged.
- **AiCommit.FormatCommitMessage:** the type chosen among equally frequent types is stated as any of them. The source's choice depends on Go's map iteration order.
- **Clone.RepoPart:** returns None for a URL that is not in SSH form. The source indexes a missing submatch there and panics, after the validator has already let the URL through on `url.Parse`.
- **Debug logging** behind `isDebug`.
