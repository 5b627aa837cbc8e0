# docugit report rules in Dafny

docugit walks a git repository one reporting period at a time (weekly, bi-weekly,
monthly, quarterly or yearly). For each period it picks two commits: the latest commit
before the period starts, and the latest commit inside it. It diffs the source files
that the configured filters keep between those two commits. It then writes each
changed file's diff into numbered part files, `<stem>_part1.txt`, `<stem>_part2.txt`,
and so on. A part is cut only at a line whose stripped text contains "def ", and only
once the part already holds 2000 lines. When a checkout is blocked by untracked files under
`barcode_production/`, the tool reads their paths out of git's error text and appends
them to `.gitignore`.

This project models those rules as pure Dafny functions and proves their properties.
Git, the file system and the clock stay outside the model: commit lists, diff text,
git's error text and the `.gitignore` text are inputs, and file contents are outputs.

Modules, one per component:

- `Wrappers` — `Option` and `Result`.
- `PyStr` — the Python `str` operations the tool relies on: `isspace`, `strip`,
  `lstrip`, `rstrip`, the substring test `w in s`, `startswith`, `split('\n')` and
  `split()`.
- `Seqs` — list comprehensions: filtering, and filtering with a transformation.
- `Chunker` — how one file's diff blocks are cut into part files.
- `PathFilters` — the two file filters.
- `Periods` — the period name, midnight of the start date, and the reporting windows.
- `CommitSelection` — picking the two commits of a window, and the loop over windows.
- `Checkout` — `update_gitignore` and reading untracked paths from git's error text.

Timestamps are integer microseconds on a naive timeline, so a day is always
86 400 000 000 long. Commit dates are GitPython's `committed_date`, in epoch seconds.
They are only compared with each other. The date queries that return a window's
commits are parameters of the model. Adding a period (`relativedelta`) is a parameter
`advance` of the model. The only thing required of it is that it moves time strictly
forward. For weeks, `WeeksExact` pins it to exactly seven days per week.

## Model

| member | source | states |
|---|---|---|
| Chunker.ChunkCharacterized | docugit.py:88-120 | A list of parts is the tool's output for a file's blocks exactly when it meets the rule, so the rule has one and only one outcome. The rule: it holds all streamed lines in order, parts are numbered 1, 2, ... without gaps, every closed part holds at least 2000 lines and is followed by the separator, every later part opens on a line passing the split test, and no line at position 2000 or later of a part passes it. |
| Chunker.ChunkIsChunking | docugit.py:88-114 | The parts written for a file's blocks obey the splitting rule above. |
| Chunker.ChunkingUnique | docugit.py:96-114 | Two part lists that both obey the rule for the same lines are equal. |
| Chunker.WriteCommitInfo | docugit.py:76-120 | The nested loop over blocks and lines, with its line counter and file index, produces exactly the parts of the fold, and they obey the rule. |
| Chunker.ChunkEdgeCases | docugit.py:80-120 | With no blocks, one empty first part is written without a separator. A single empty block is one empty line, which is written and then followed by the separator. |
| Chunker.ShortFileOnePart | docugit.py:97 | A file with at most 2000 streamed lines is never split. |
| Chunker.OpensFunctionIff | docugit.py:97 | The stripped line contains "def " exactly when "def " occurs in the line with a non-whitespace character somewhere after it. |
| Chunker.SplitTestIndentedDefinition | docugit.py:97 | An indented definition behind a diff's '+' passes the split test. |
| Chunker.SplitTestSubstring | docugit.py:97 | The test is a substring test: "x = undef y" passes it. |
| Chunker.SplitTestTrailingMarker | docugit.py:97 | The lines "def " and " def" do not pass: `strip` takes the space that "def " needs. |
| Chunker.ChunkKeepsText | docugit.py:90-113 | Separators aside, the part files hold the blocks verbatim, each block followed by a newline. |
| Chunker.ChunkPartText | docugit.py:97-119 | Each part file is either empty or its lines, each with a newline, followed by the separator: closed parts always hold lines, and the last part gets the separator exactly when it holds a line. |
| PyStr.Strip | docugit.py:97 | `strip` gives the empty string exactly for all-whitespace input; otherwise the result neither starts nor ends with whitespace. |
| PyStr.StripSlice | docugit.py:97 | `strip` returns the slice of the line between its leading and its trailing whitespace. |
| PyStr.Split | docugit.py:90 | `split('\n')` returns at least one piece, and no piece holds the separator. |
| PyStr.JoinSplit | docugit.py:90 | Joining the pieces of a split with the separator gives back the text. |
| PyStr.SplitJoin | docugit.py:90 | Splitting a join of separator-free pieces gives back the pieces. |
| PyStr.SplitAround | docugit.py:136 | Splitting `a + sep + b` gives the pieces of `a` followed by the pieces of `b`. |
| PyStr.Words | docugit.py:136 | `split()` yields non-empty whitespace-free tokens, and none at all exactly for all-whitespace text; with `WordsAfter`, the tokens are the text's maximal non-whitespace runs, in order. |
| PyStr.WordsAfter | docugit.py:136 | After leading whitespace, a word that ends at whitespace or at the end of the text is the first token, followed by the tokens of the rest. With the blank case, this fixes `split()` on every text. |
| PyStr.LastWordEnds | docugit.py:136 | `split()[-1]` is the word that ends the text: a word preceded by nothing or by whitespace and followed only by whitespace. |
| PyStr.WordsSingle | docugit.py:136 | Whitespace followed by one token splits into that token, and strips to it. |
| Seqs.Filter | docugit.py:138 | The comprehension keeps each element's count exactly for the elements that satisfy the condition, and nothing else. |
| Seqs.FilterAppend | docugit.py:138 | Filtering a concatenation filters each part, in order. |
| Seqs.FlatMap | docugit.py:136 | Every element of the result comes from the list produced for some element of the input. |
| Seqs.FlatMapAppend | docugit.py:136 | Mapping a concatenation maps each part, in order. |
| Seqs.FlatMapSingle | docugit.py:136 | A single element contributes exactly its own list; with `FlatMapAppend`, the result is the in-order concatenation of the per-element lists. |
| PathFilters.FiltersMonotone | docugit.py:236-237 | Neither filter keeps more when the configuration gets stricter: fewer file types, or more ignored names, extensions or folders. |
| PathFilters.KeepNewNarrower | docugit.py:270 | The new-file filter keeps a subset of what the initial filter keeps. It misses exactly the `Dockerfile`s whose extension is not a file type. |
| PathFilters.NewDockerfileSkipped | docugit.py:236-270 | A `Dockerfile` present at the initial commit is diffed, but one added in the last commit is not. |
| PathFilters.InitialFiles | docugit.py:236-237 | A file is among the initial files exactly when it was found and the initial filter keeps it. |
| PathFilters.NewFiles | docugit.py:264-270 | A reported name is a new file exactly when it was changed, is not an initial file, and the new-file filter keeps it. |
| PathFilters.DiffCandidatesSound | docugit.py:236-270 | Every file considered for diffing passes the initial filter. It is a found file, or, when there is an initial commit, a changed file that was not found. |
| PathFilters.DiffCandidatesNoRepeats | docugit.py:264-270 | A path listed at most once by the glob and by the diff report is considered at most once. |
| Periods.ParsePeriod | docugit.py:20-31 | A known name gives a delta that moves time forward. Any other name fails with the `ValueError` message. |
| Periods.ParsePeriodRoundTrip | docugit.py:18-31 | Exactly the five names are accepted, each maps to a different delta, and the name can be read back from that delta. |
| Periods.NameOfRoundTrip | docugit.py:20-31 | A delta that has a name is what that name parses to. |
| Periods.Midnight | docugit.py:16 | The result falls on a day boundary and lies within the day before the given time. |
| Periods.MidnightIdempotent | docugit.py:16 | Midnight of midnight is midnight. |
| Periods.WindowsTile | docugit.py:196-202 | The windows begin at the start date, each ends later than it begins, each begins before the end date, each begins where the previous one ended, and the last reaches the end date. There are none when the start date is not before the end date. |
| Periods.WindowsFinite | docugit.py:197 | The loop runs at most once per microsecond of the range, so it ends. |
| Periods.WindowsCover | docugit.py:196-213 | Every instant of the range lies in exactly one window. |
| Periods.StartsIncrease | docugit.py:202-213 | A later window begins at or after the end of an earlier one. |
| Periods.FixedStepCount | docugit.py:196-202 | With a fixed step, the number of windows is the range length divided by the step, rounded up. |
| Periods.WeeklyWindows | docugit.py:20-23 | Weekly and bi-weekly windows from the start date begin at midnight, last exactly their weeks, and number the range in weeks rounded up. |
| CommitSelection.SortByDateSorted | docugit.py:216 | The stable sort on `committed_date` keeps the commits and orders them by date. |
| CommitSelection.SortByDateLast | docugit.py:216-217 | After the sort, the last commit is the latest one, and among commits of that date the one listed last. |
| CommitSelection.LatestIndex | docugit.py:216-217 | The picked commit's date is the maximum, and every commit listed after it is strictly older. |
| CommitSelection.LatestIndexUnique | docugit.py:216-217 | Only one index has those two properties. |
| CommitSelection.LastAfterSort | docugit.py:217 | `commits[-1]` after the sort is a commit of the list and is dated no earlier than any of them. |
| CommitSelection.SelectCommits | docugit.py:211-225 | A window without commits gives nothing. Otherwise the last commit is a latest commit of the window. The initial commit is a latest commit before the window, or the last commit when there is none, and `initial_commit_empty` holds exactly then. |
| CommitSelection.InitialNotAfterLast | docugit.py:209-225 | When the queries keep to their bounds, with the window start read in the epoch seconds of `committed_date`, the initial commit is not later than the last one. |
| CommitSelection.ReportOf | docugit.py:209-225 | A window gives one report exactly when it holds a commit, and that report carries the window's selection. |
| CommitSelection.ReportsForContents | docugit.py:196-225 | Every report is for a visited window and carries its selection. Every visited window that holds a commit is reported. |
| CommitSelection.ReportsForOrdered | docugit.py:196-213 | Reports come in window order and never overlap. |
| CommitSelection.Run | docugit.py:15-31 | The run fails exactly when the period name is unknown, and then with the `ValueError` message. |
| CommitSelection.RunReports | docugit.py:196-282 | Every report's window begins between midnight of the start date and the end date, and reports come in time order. |
| CommitSelection.RunLoop | docugit.py:196-282 | The `while` loop, skipping windows without commits, produces exactly the reports of the windows from midnight of the start date, in window order. |
| Checkout.UpdateGitignore | docugit.py:150-170 | An existing text is kept as a prefix. `need_to_update` holds exactly when the file is absent or some path does not occur in the old text. With no update, the text is unchanged. |
| Checkout.GitignoreLines | docugit.py:150-164 | For paths without line breaks, read as lines: after the old text come a line break and the missing paths in input order, duplicates kept. A fresh file holds the paths, one per line, then an empty last piece. |
| Checkout.AppendMissingEmpty | docugit.py:155-159 | Nothing is appended exactly when every path already occurs in the old text. |
| Checkout.GitignoreIdempotent | docugit.py:150-170 | A second update with the same paths has nothing to add. |
| Checkout.SubstringCountsAsListed | docugit.py:158 | A path that is only part of a longer existing line counts as present and is not added. |
| Checkout.TokenOf | docugit.py:136 | A line gives a token exactly when its stripped form starts with `barcode_production/`, and that token is the line's `split()[-1]`. |
| Checkout.TokenOfLastWord | docugit.py:136 | A line that names a path and ends in a word followed only by whitespace gives that word. |
| Checkout.UntrackedTokens | docugit.py:136 | Every token taken from the error text's lines is a non-empty run of non-whitespace. |
| Checkout.UntrackedTokensOne | docugit.py:136 | One line contributes exactly its own token, if it has one; with `FlatMapAppend`, the lines contribute in order. |
| Checkout.ProductionFiles | docugit.py:136-138 | Every extracted path is a whitespace-free token that contains "_production". |
| Checkout.ProductionFilesLines | docugit.py:136-138 | The error text is read line by line: two texts joined by a line break give the paths of the first, then those of the second. |
| Checkout.ProductionFilesOneLine | docugit.py:136-138 | A single line gives its last token exactly when the stripped line starts with `barcode_production/` and the token contains "_production". Otherwise it gives nothing. |
| Checkout.IndentedPathKept | docugit.py:136-138 | A production path indented by whitespace, as git lists it, is extracted as is. |
| Checkout.HandleCheckoutError | docugit.py:132-140 | The recovery runs exactly when the error text reports untracked files that a checkout would overwrite, and it keeps the existing `.gitignore` text as a prefix. |
| Checkout.HandleCheckoutAddsProductionPaths | docugit.py:132-164 | In an existing `.gitignore`, every piece written after the first added line break contains "_production"; that break ends the old last line, so a file already ending in a line break gains one empty line. Every line of a fresh `.gitignore` contains "_production". |
| Checkout.AppendOneMissing | docugit.py:158-160 | A path that does not occur in an existing `.gitignore` is appended after a line break, with nothing between the old text and that break. |
| Checkout.TrailingBreakGainsEmptyLine | docugit.py:155-160 | Adding `barcode_production/x` to the text "a\n" gives "a\n\nbarcode_production/x": an empty line appears. |

## Left out

- Every git call: `checkout` with its retry, `diff`, `iter_commits`, `is_dirty` and `symbolic_ref`. Their behaviour lives in git, so commit lists, diff text and error text are inputs of the model.
- The file system: `glob`, `mkdir`, opening and writing files, `exists`, and `save_code_state`. The chunker returns each part's lines and whether the separator follows them, instead of writing files.
- The file and folder names the tool builds (`<stem>_partN.txt`, the `strftime` period folder). Only the part number is kept.
- Deriving a path's name, extension and components from its text (`pathlib`). They are inputs of the filters.
- `handle_lock_file` and `check_uncommitted_changes`: polling, sleeping and repository state.
- Loading the YAML configuration, `datetime.now()`, `strptime`, and all `print` output.
- `relativedelta` calendar arithmetic (month lengths, end-of-month clamping, leap years). Only weeks are given an exact length.
- CommitSelection.Run: `advance` is total, but Python's `datetime` ends at 9999-12-31. Adding a period that passes it raises (`ValueError` from `relativedelta`, `OverflowError` from `timedelta`) at docugit.py:202, so the run stops before reporting that window. The model reports the window.
- CommitSelection.RunLoop: for the same reason, the loop is equal to the fold only while every window end stays within year 9999.
- The `strftime` rounding of query bounds to whole seconds. Windows start at midnight and move by whole weeks, months or years, so their bounds are whole seconds already.
- Filling `commit_info_dict` by file name, where a later file with the same name replaces an earlier one. The checkout of the original branch at the end is left out too.
- Whether an initial file still exists in the last commit, and whether its diff is empty. Both depend on git and the file system, so `PathFilters.DiffCandidates` gives the files considered for diffing, not the files finally reported.
