# rgt status core in Dafny

rgt is a terminal front-end for git. This project models the three pieces of pure logic in it. The terminal drawing, the event loop and the git processes are left out.

- **Status-output parsing.** Git prints `git diff [--cached] --name-status` and `git ls-files --others` as text, and rgt turns that text into file-index records. There are two versions of the parser. The newer one is in `src/status/file_status.rs`. It splits on newlines, pops the final piece, and sets a status and two section flags on each record. The older one is in `src/status.rs`. It keeps every piece and records only status and name. Both are modelled as methods with loops, as in the source. Each is proved equal to a specification function (`ParseOutput`), and lemmas state what that function guarantees. The command output is a parameter and is assumed to be valid UTF-8.
- **Branch-name derivation.** `branch_name` takes the symbolic name of HEAD. If the name starts with `refs/heads/`, it removes every leading copy of that prefix with `trim_start_matches`. Otherwise it returns the name unchanged. `src/status.rs:81-89` holds the same code as `src/status/file_status.rs:21-29`, so both are modelled once, by `Refs.BranchName`. The reference name is an input, because the repository is never opened.
- **Command-line dispatch.** `main` maps the argument vector to one action: the available-commands text, the version, the help, the status view on a path, `git log` on a path, or nothing. The default path is `./`.

Rust's `str::split`, `starts_with` and `trim_start_matches` live in module `Strings`. Each is defined once there, together with an independent characterisation. For the split, joining the pieces gives back the text, and splitting joined pieces gives back the pieces. For the trim, the result is the unique remainder after a run of copies of the pattern.

`trim_start_matches` removes every leading copy of `refs/heads/`, not just one, so `refs/heads/refs/heads/x` gives `x`.

## Model

| member | source | states |
|---|---|---|
| Strings.Split | src/status/file_status.rs:113 | `split` on a one-character separator always gives one more piece than there are separators in the text, so at least one piece |
| Strings.SplitPiecesAvoidSeparator | src/status/file_status.rs:113 | no piece of a split contains the separator |
| Strings.JoinSplit | src/status/file_status.rs:113 | splitting loses nothing: joining the pieces with the separator gives back the text |
| Strings.SplitJoin | src/status/file_status.rs:113 | joining separator-free pieces and splitting again gives back the same pieces, so split and join are inverse |
| Strings.CountCharZero | src/status/file_status.rs:113-114 | the count of a character is zero exactly when the character does not occur |
| Strings.FirstPiece | src/status/file_status.rs:123-124 | the first piece of a split is the text before the first separator, or the whole text when there is no separator |
| Strings.LastPiece | src/status/file_status.rs:123-125 | the last piece of a split is the text after the last separator, or the whole text when there is no separator |
| Strings.LastPieceEmpty | src/status/file_status.rs:113-114 | the last piece is empty exactly when the text is empty or ends with the separator |
| Strings.SplitAppend | src/status/file_status.rs:113 | splitting text that is empty or ends with a separator, followed by more text, gives the first part's pieces without its empty last piece, then the second part's pieces |
| Strings.StartsWith | src/status/file_status.rs:24 | `starts_with` holds exactly when the text is the prefix followed by the rest of the text |
| Strings.TrimStartMatches | src/status/file_status.rs:25 | `trim_start_matches` returns a suffix of its input that no longer starts with the pattern |
| Strings.LeadingCopies | src/status/file_status.rs:25 | the number of leading pattern copies is positive exactly when the text starts with the pattern |
| Strings.TrimStartMatchesStripsCopies | src/status/file_status.rs:25 | the input is its leading pattern copies followed by the trimmed result |
| Strings.TrimStartMatchesUnique | src/status/file_status.rs:25 | for any decomposition into k copies followed by text that does not start with the pattern, the trim returns that text |
| Refs.BranchName | src/status/file_status.rs:21-29 | a name without the `refs/heads/` prefix is returned unchanged; the result never starts with `refs/heads/`; the result is a suffix of the reference name |
| Refs.BranchNameStripsLeadingCopies | src/status.rs:81-89 | a reference made of k copies of `refs/heads/` and then text not starting with it gives exactly that text as the branch name (k = 0 is the unchanged case) |
| Refs.BranchNameOfLocalBranch | src/status/file_status.rs:24-25 | a reference that starts with `refs/heads/` is its positive number of leading prefix copies followed by the branch name |
| Refs.BranchNameDoubledPrefix | src/status/file_status.rs:25 | `refs/heads/refs/heads/x` gives `x` |
| FileStatus.DefaultFileIndex | src/status/file_status.rs:12-19 | the default record has empty status, empty name, is not staged and is untracked |
| FileStatus.DefaultNeverParsed | src/status/file_status.rs:12-19 | parsing never produces the default record, whatever the flags |
| FileStatus.ParseOutput | src/status/file_status.rs:107-136 | the number of records equals the number of newlines in the output, and every record carries the given staged and untracked flags |
| FileStatus.FileIndexesForOutput | src/status/file_status.rs:107-136 | the loop that splits, pops the final piece and parses each remaining line in order returns exactly `ParseOutput` |
| FileStatus.StagedFileIndexes | src/status/file_status.rs:31-34 | the staged list is parsed with staged = true and untracked = false |
| FileStatus.ModifiedFileIndexes | src/status/file_status.rs:36-39 | the modified list is parsed with both flags false |
| FileStatus.UntrackedFileIndexes | src/status/file_status.rs:41-44 | the untracked list is parsed with staged = false and untracked = true, and every status is `?` |
| FileStatus.ParseLine | src/status/file_status.rs:117-126 | each record carries the given flags; in untracked mode the status is `?` and the name is the whole line; otherwise the status is the text before the first tab and the name is the text after the last tab |
| FileStatus.TrackedLineFields | src/status/file_status.rs:123-125 | for one line in tracked mode, the status is the text before the first tab and the name is the text after the last tab; with no tab, both equal the line |
| FileStatus.OutputLines | src/status/file_status.rs:113-134 | the output is its pieces joined by newlines; record i is the parse of piece i, for every piece except the popped last one |
| FileStatus.PoppedPieceEmptyIff | src/status/file_status.rs:113-114 | the popped piece is empty exactly when the output is empty or ends in a newline |
| FileStatus.ParseOutputAppend | src/status/file_status.rs:113-134 | parsing splits at line boundaries: parse(a + b) = parse(a) + parse(b) when a is empty or ends in a newline |
| FileStatus.UnterminatedLineIsLost | src/status/file_status.rs:113-114 | appending a last line with no terminating newline does not change the result |
| FileStatus.UntrackedRecords | src/status/file_status.rs:119-121 | in untracked mode, record i has status `?` and name equal to the whole line i |
| FileStatus.TrackedRecords | src/status/file_status.rs:123-125 | in tracked mode, the status is the text before the first tab and the name is the text after the last tab; a line with no tab gives status = name = line |
| FileStatus.SectionsDisjoint | src/status/file_status.rs:31-44 | no record is both staged and untracked, and no record can appear in two of the three sections |
| Status.ParseLine | src/status.rs:122-128 | the status is the text before the first tab of the line and the name is the text after its last tab |
| Status.ParseLineFields | src/status.rs:122-128 | for one line, the status is the text before the first tab and the name is the text after the last tab; with no tab, both equal the line |
| Status.ParseOutput | src/status.rs:117-132 | the number of records is the number of newlines plus one, because nothing is popped |
| Status.FileIndexesForOutput | src/status.rs:117-132 | the loop over every newline piece returns exactly `ParseOutput`, in line order |
| Status.StagedFileIndexes | src/status.rs:99-102 | the staged list is the parse of `git diff --cached --name-status` output; when that output ends in a newline, as git's does, its last record is the empty `("", "")` |
| Status.ModifiedFileIndexes | src/status.rs:112-115 | the modified list is the parse of `git diff --name-status` output; when that output ends in a newline, as git's does, its last record is the empty `("", "")` |
| Status.TrailingEmptyRecord | src/status.rs:119-128 | empty output, or output ending in a newline, gives a final record with empty status and empty name |
| Status.RecordsFollowLines | src/status.rs:121-129 | the output is its pieces joined by newlines; record i has the text before the first tab of piece i as status and the text after its last tab as name; a piece with no tab gives status = name = piece |
| Status.UnterminatedLineIsKept | src/status.rs:119-121 | appending a last line with no terminating newline replaces the trailing empty record with that line's record |
| Versions.NewerParserDropsFinalRecord | src/status/file_status.rs:113-114 | in tracked mode the newer parser returns the older parser's records without the last one, with the flags added |
| Versions.DroppedRecordIsEmpty | src/status.rs:119-121 | on output that is empty or ends in a newline, the older parser's records are the newer parser's records without their flags, followed by one empty record `("", "")` |
| Cli.PathArgument | src/main.rs:21-25 | the path is the third argument when there are at least three arguments, and `./` otherwise |
| Cli.Dispatch | src/main.rs:5-34 | fewer than two arguments gives the available-commands text; `--version`/`-v` gives the version; `--help`/`-h` gives the help; `status` and `log` take the third argument as path, or `./` if it is missing; any other mode gives no action; each case is an if-and-only-if |
| Cli.DispatchReadsOnlyModeAndPath | src/main.rs:11-31 | argument vectors that agree on the mode and path arguments (and on whether a path is present) give the same action; the program name and arguments after the path are ignored |

## Findings

| source | as written | input that shows it | evidently intended | confidence | as-written member | corrected member |
|---|---|---|---|---|---|---|
| src/status.rs:119-121 | every newline piece becomes a record, including the empty piece after the final newline | `M\ta.txt\n` (git always ends its output with a newline) gives the records `("M", "a.txt")` and `("", "")` | one record per output line, with no empty trailing record, as `src/status/file_status.rs:113-114` does by popping the last piece | high; not executed | Status.TrailingEmptyRecord | FileStatus.ParseOutput |

## Left out

- Running `git` through `Command`, and the `stage_file`/`unstage_file` wrappers around `git add` and `git reset HEAD`: these start external processes. The parsers take the command's standard output as a parameter.
- `ref_name`: it opens the repository with git2, reads HEAD and panics on failure. These are foreign library calls, so the reference name is an input to `Refs.BranchName`.
- Decoding with `from_utf8(...).unwrap()`: the output is taken to be already-decoded text.
- The terminal view in `src/status.rs:18-66`: raw mode, the alternate screen, colour escapes, the drawing order and the wait for Ctrl-C. This is I/O with no state to model.
- All of `src/log.rs`: it clears the screen and runs `git log`.
- The texts printed by `main` for the usage, version and help actions: the model returns the action but not the text it prints. The version text needs the package version that Cargo supplies at build time.
