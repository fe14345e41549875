# changelog-action, modelled in Dafny

This project models the core of the changelog GitHub Action: the logic
that decides which two git refs bound the changelog, the pipeline that
turns the one-line `git log` between them into the rendered changelog,
the git client's command logic beneath it, and the escaping of the result
for the `::set-output` workflow command.

Files and modules:

- `calls.dfy` (`Calls`): Go's `error` (`Nil | Err(msg)`), the `(T, error)`
  pair, and `Traced`, a value together with the calls made to a
  collaborator to produce it. Every operation returns the calls it made,
  so "asks nothing else" and "runs no later probe" are stated outright.
- `strings.dfy` (`Strings`): the parts of Go's `strings` package the code
  uses: `Split`, `Join`, `ReplaceAll`, `TrimSpace`, `TrimSuffix`. Go's
  `unicode.IsSpace` decides what is white space. It also holds the round
  trips `Join(Split(s)) == s` and `Split(Join(parts)) == parts`; the
  second needs at least one part and no part containing the separator.
- `git.dfy` (`Git`, pkg/git/git.go): `Clean`, `IsRepo`, `LatestTagOrHash`,
  `PreviousTag` and `Log`. Each is written over a `Runner`, an arbitrary
  function from git argument lists to `(output, error)`.
- `changelog.dfy` (`Changelog`, cmd/changelog/changelog.go): the command.
  The git client interface is a `GitClient` oracle record holding the
  answers of its four methods. Go's `regexp` is a `Regexp` record with
  uninterpreted `compile` and `matches` functions. The module covers
  `IsSHA1`, `ExtractCommitInfo`, `Remove`, `FilterEntries`, ref
  resolution, log splitting, rendering, and `ClientOf`, which builds the
  production client from the `Git` functions.
- `output.dfy` (`Output`, main.go): `Sanitize`, a per-character reference
  escape, and a left-to-right decoder of `%25`, `%0A` and `%0D`.

Behaviour of the code worth noting:

- There is no tag-existence check. A previous tag given by the caller is
  always used as it is. The hash test applies only to a previous ref that
  `PreviousTag` derived (cmd/changelog/changelog.go:51-64).
- The refs handed to `git log` are `tags/prev..tags/cur`, or the two
  separate refs `[prev, cur]` when the derived previous ref is a 40-digit
  hash.
- `Changelog` does not call `MakeSafe`.
- There is no separate error kind for a missing previous ref: when both
  `describe` and `rev-list` fail, `rev-list`'s error comes back with the
  prefix `failed to get previous tag: `.
- A pattern that fails to compile is returned as its own error, with no
  prefix.

## Model

| member | source | states |
|---|---|---|
| Changelog.IsSHA1 | cmd/changelog/changelog.go:112-114 | a ref is a SHA1 exactly when it has 40 characters and every one is in `[0-9a-fA-F]`: the pattern `^[a-fA-F0-9]{40}$`, with `$` at the end of the text |
| Changelog.HexRun | cmd/changelog/changelog.go:13 | the run the class `[a-fA-F0-9]` consumes: every character before it is a hex digit, and the one after it is not |
| Changelog.ExtractCommitInfoAfterFirstSpace | cmd/changelog/changelog.go:106-109 | the summary is the text after the first space, and empty when the line has no space |
| Changelog.ExtractCommitInfoOfLogLine | cmd/changelog/changelog.go:107-109 | for a line made of a space-free hash, a space and a summary, the summary is returned, spaces inside it kept |
| Changelog.ExtractCommitInfoExample | cmd/changelog/changelog_internal_test.go:30-34 | `55df180 Merge pull request #10 from author/bugfix/on_release` gives `Merge pull request #10 from author/bugfix/on_release` |
| Changelog.Remove | cmd/changelog/changelog.go:97-104 | the result is never longer than the entries, and no kept entry's summary matches the pattern |
| Changelog.RemoveSelects | cmd/changelog/changelog.go:97-104 | the result is a subsequence of the entries, so order is kept and nothing is added; each entry whose summary does not match keeps all its copies, and the others keep none |
| Changelog.FilterEntries | cmd/changelog/changelog.go:86-95 | filtering never adds entries; an error is the compile error of one of the patterns |
| Changelog.FilterEntriesIsKeep | cmd/changelog/changelog.go:86-95 | when every pattern compiles, the result has no error and holds exactly the entries whose summary no pattern in the set matches, in their original order |
| Changelog.FilterEntriesNoPatterns | cmd/changelog/changelog.go:86-95 | with no patterns the entries come back unchanged and without error |
| Changelog.FilterEntriesOrderIndependent | cmd/changelog/changelog.go:86-95 | two lists of compiling patterns with the same members filter alike, whatever their order or repetitions |
| Changelog.FilterEntriesIdempotent | cmd/changelog/changelog.go:86-95 | filtering again with the same compiling patterns changes nothing |
| Changelog.FilterEntriesStopsAtFirstError | cmd/changelog/changelog.go:87-91 | the first pattern that fails to compile stops the loop; its error is returned with the entries that the earlier patterns left |
| Changelog.FilterEntriesExample | cmd/changelog/changelog_internal_test.go:10-28 | under a regexp engine that matches as Go's does, the patterns `^Merge pull request .*` and `Fix .*` leave only the `Add git ignore` entry of the three test entries |
| Changelog.Entries | cmd/changelog/changelog.go:71-72 | there is one entry per newline in the log, so an empty log has none; no entry contains a newline |
| Changelog.EntriesOfTerminatedLog | cmd/changelog/changelog.go:71-72 | the entries of `body + "\n"`, joined with newlines, give `body` back |
| Changelog.EntriesOfLines | cmd/changelog/changelog.go:71-72 | lines written one per row, each ending in a newline, come back as the same entries |
| Changelog.EntriesDropsLastField | cmd/changelog/changelog.go:71-72 | the field after the last newline is the one dropped: newline-free lines joined by newlines, then a newline and an unterminated tail, give back exactly the lines, without the tail |
| Changelog.Render | cmd/changelog/changelog.go:78-83 | the output is `## Changelog`, a blank line, then the entries joined by newlines; with no entries it is exactly `"## Changelog\n\n"` |
| Changelog.CurrentRef | cmd/changelog/changelog.go:45-49 | a given current tag is used without calling the client; otherwise `LatestTagOrHash` is called once and its answer is used |
| Changelog.RangeRefs | cmd/changelog/changelog.go:51-64 | a given previous tag P yields the single ref `tags/P..tags/T` with no client call. Otherwise `PreviousTag(T)` is called once; the refs have no error iff P is given or that call succeeds; its error comes back prefixed with `failed to get previous tag: `; a SHA1 answer gives `[prev, T]` and any other answer `[tags/prev..tags/T]` |
| Changelog.Changelog | cmd/changelog/changelog.go:40-84 | `IsRepo` is always asked first. If it is false the result is `""` with "current folder is not a git repository" and nothing else is called. Every error comes with empty text, and success starts with the heading. `LatestTagOrHash` is called iff no current tag is given. `PreviousTag` is called, with the current ref, iff no previous tag is given |
| Changelog.ChangelogWithPreviousTag | cmd/changelog/changelog.go:51-66 | a given previous tag P means `PreviousTag` is never called; the log is read for exactly the one ref `tags/P..tags/T` |
| Changelog.ChangelogDerivesPreviousTag | cmd/changelog/changelog.go:53-64 | without a previous tag, `PreviousTag(T)` is called exactly once. Its error ends the run with `failed to get previous tag: ` + message. A SHA1 answer gives refs `[prev, T]` and any other answer gives `[tags/prev..tags/T]` |
| Changelog.ChangelogLogFails | cmd/changelog/changelog.go:66-69 | a `Log` error yields `""` with `failed to get log: ` + message |
| Changelog.ChangelogOutput | cmd/changelog/changelog.go:71-83 | a successful run renders the log's entries that no pattern matches under the heading; if some pattern fails to compile, the result is `""` with the first such pattern's error, unprefixed |
| Changelog.ChangelogRoundTrip | cmd/changelog/changelog.go:66-83 | with no exclusion patterns, a newline-terminated log comes back verbatim, without its last newline, under the heading |
| Changelog.ChangelogDerivedTagRange | cmd/changelog/changelog.go:40-84 | with a current tag T, no previous tag and no patterns, a derived non-hash tag P and a newline-terminated log for `tags/P..tags/T` give the heading, a blank line and the log without its last newline; the client is asked IsRepo, PreviousTag(T) and Log, in that order, and nothing else |
| Changelog.ChangelogScenario | cmd/changelog/changelog.go:40-84 | current tag `v0.3.0`, a client deriving `v0.2.0`, and two log lines give `"## Changelog\n\n5a359bb Second commit\nc57f56f Third commit"`; the client is asked only IsRepo, PreviousTag and Log |
| Changelog.ClientOfIsRepo | pkg/git/git.go:95-98 | the production client reports a repository when git prints `true` and a newline |
| Changelog.ClientOfPreviousTag | pkg/git/git.go:123-129 | the production client returns the tag that `git describe` prints, without its newline |
| Changelog.ClientOfLog | pkg/git/git.go:131-135 | the production client returns the raw `git log` output for the refs it is given |
| Git.Clean | pkg/git/git.go:65-72 | the value has no newline and no single quote. An error stays an error and nil stays nil. An error ending in a newline loses exactly that one newline, and one without a trailing newline is kept as it is |
| Git.CleanFirstLine | pkg/git/git.go:66 | the value is the text before the first newline, or the whole output if there is none, with every `'` removed; the error does not affect it |
| Git.CleanQuoteFreeLine | pkg/git/git.go:66 | a first line with no quote and no newline is returned unchanged |
| Git.QuotesStripped | pkg/git/git.go:66 | a word in single quotes, with no newline or quote inside, comes back without its quotes whatever the error |
| Git.CleanExamples | pkg/git/git_test.go:13-30 | `'test'` cleans to `test` with no error, and to `test` with the error `error` when that error is passed in |
| Git.IsRepo | pkg/git/git.go:95-98 | exactly one command runs, `rev-parse --is-inside-work-tree` |
| Git.IsRepoExactly | pkg/git/git.go:95-98 | IsRepo holds iff the command returns no error and its output is `true` with only white space around it |
| Git.FirstNonEmptyAt | pkg/git/git.go:101-120 | the position where probing stops: every earlier probe came back empty, and the probe there, if any, did not |
| Git.FirstNonEmpty | pkg/git/git.go:101-120 | the probes run in order and stop at the first non-empty cleaned result, which is returned. The probes run form a prefix of the list. The result is `""` iff every probe is empty, and then all of them ran |
| Git.LatestTagOrHash | pkg/git/git.go:101-120 | the probes are `tag --points-at HEAD --sort -version:creatordate`, `describe --tags --abbrev=0`, `rev-parse HEAD`, in that order. The first non-empty cleaned result wins and no later probe runs. Probe errors are ignored. The result is `""` iff all three are empty |
| Git.LatestTagOrHashExamples | pkg/git/git_test.go:32-70 | a tag at HEAD is returned after one probe; three empty probes give `""` after all three ran |
| Git.PreviousTag | pkg/git/git.go:123-129 | `describe --tags --abbrev=0 tags/<t>^` runs first, and on success its cleaned output is returned, even if empty. `rev-list --max-parents=0 HEAD` runs iff that errs, and its cleaned output and error are returned. An error means both failed |
| Git.PreviousTagDescribed | pkg/git/git.go:123-129 | when `describe` prints one quote-free line, that line is returned with no error and `rev-list` never runs |
| Git.Log | pkg/git/git.go:131-135 | the one command is `log --pretty=oneline --abbrev-commit --no-decorate --no-color` followed by the refs; its output and error are returned uncleaned |
| Output.SanitizeIsEscapeEach | main.go:31-36 | because `%` is replaced first, sanitize equals the per-character map `%`→`%25`, LF→`%0A`, CR→`%0D`, others unchanged; inserted escapes are never re-escaped |
| Output.SanitizeSingleLine | main.go:31-36 | the output contains no LF and no CR |
| Output.SanitizeLength | main.go:31-36 | output length is the input length plus twice the number of `%`, LF and CR |
| Output.SanitizeUnreserved | main.go:31-36 | a string without `%`, LF or CR is returned unchanged |
| Output.UnescapeSanitize | main.go:31-36 | the left-to-right decoder of `%25`, `%0A`, `%0D` recovers the input |
| Output.SanitizeInjective | main.go:31-36 | different inputs are escaped to different outputs |

## Left out

- `gitCmdFn` (pkg/git/git.go:29-62): process execution, the environment, the stdout and stderr buffers and logging. It is the abstract `Runner`, which may answer any output next to an error. The real one answers `""` with the stderr text.
- `Client.Run` (pkg/git/git.go:75-77): only a call of the runner. `NewGit` and the `repoDir` field are not modelled.
- `MakeSafe` (pkg/git/git.go:80-92): it resolves an absolute path on the file system and writes the global git configuration. `Changelog` does not call it.
- `Run` (cmd/changelog/changelog.go:22-38) and cmd/changelog/params.go: input plumbing through the `actions` package, which is not part of this model, plus `strconv.ParseBool`, `%q` formatting and log levels. `Params` keeps their fields; `repoDir` and `debug` are carried but unused, as in `Changelog`.
- `main` (main.go:14-29): logging, printing the workflow command and the exit status.
- Go's regular-expression semantics: compiling and matching are uninterpreted functions of the `Regexp` record, whose compile error text is opaque. The fixed SHA1 pattern is the exception and is modelled concretely by `IsSHA1`.
- The mock fixtures of cmd/changelog/changelog_test.go: their log ranges lack the `tags/` prefix, and they expect a `MakeSafe` step that the `gitClient` interface does not have. Neither matches changelog.go.
- Byte-level string handling: Go strings are byte sequences, and these are modelled as sequences of characters. The separators and replaced characters (`\n`, space, `'`, `%`, `\r`) are all ASCII, so valid UTF-8 behaves the same. Invalid UTF-8 is not modelled.
- Changelog.ChangelogScenario: stated over a `GitClient` oracle answering `v0.2.0` and the log, as the repository's own mock-based tests do. `ClientOfPreviousTag`, `ClientOfIsRepo` and `ClientOfLog` connect those answers to git's output separately, not in a single lemma.
- Changelog.FilterEntriesExample: the regexp engine is uninterpreted, so the matches Go's engine would report on the three summaries are assumptions of the lemma. The hashes are any space-free words.
