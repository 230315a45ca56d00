# viewdf in Dafny

viewdf is a small command-line viewer for tabular files: it loads a CSV/TSV
file or a pickled pandas DataFrame and prints what the options ask for
(column names, shape, info, describe, head, tail, a random sample, or a
positional range of rows), optionally writing the DataFrame back out as a
pickle. Nearly all of the work is done by pandas. This project models the
three pieces of viewdf's own logic and proves what they guarantee:

- **Slicing** (`slicing.dfy`, module `Slicing`): the `--slice` text is split
  on `:`, each field is read as an optional integer, one to three fields make
  a Python `slice`, and the slice is resolved against the row count with
  Python's sequence-slicing rules (defaults that depend on the step's sign,
  negative bounds counted from the end, clamping, step 0 rejected). Parsing
  is total (a `Result`), and resolution is proved to yield positions within
  `[0, n)`, strictly ascending or descending with the step, and equal to
  CPython's arithmetic description (length `ceil((stop-start)/step)`, k-th
  element `start + k*step`). `slice_examples.dfy` (module `SliceExamples`)
  works through concrete range texts on a ten-row table.
- **Loading** (`loading.dfy`, module `Loading`): the choice between
  unpickling and delimited text, and of the separator, from the path's suffix
  and `--sep`; and the single load error raised for a reader failure or a
  pickle that does not hold a DataFrame. What the pandas readers return is a
  parameter (`Readers`).
- **The main procedure** (`cli.dfy`, module `Cli`): `Cli.Execute` takes the
  parsed arguments and the outcomes of the outside world (the readers, the
  pickle write) and builds the ordered trace of abstract actions the program
  performs and its exit code, block by block as the source does, with its
  early returns and the loop that prints the column names. It is proved equal
  to the specification function `Cli.Run`, and `cli_properties.dfy` (module
  `CliProperties`) proves what `Run` guarantees: the meaning of each exit code
  (2 load failure, 3 missing describe column, 4 failed pickle write, 5 bad
  slice, 0 otherwise), that a slice ends the run, when the default head
  appears, that the trace follows the order of the blocks of `main`, and that
  error reports appear only last and only on failure.

`wrappers.dfy` holds the `Option` and `Result` types.

Behaviour of the code that the model keeps as written:

- `--describe` defaults to `None`, so the test `args.describe is not False`
  (viewdf.py:109) always holds: a run without `--describe` also prints the
  whole-table describe, and a run with no options prints the describe and
  then the first five rows (`CliProperties.WholeDescribeIff`,
  `CliProperties.DefaultHead`).
- Truthiness decides two tests: `--describe ""` is a column name (checked
  against the columns) but does not count as an action option, and
  `--to-pickle ""` neither writes nor counts as an action option.
- For a negative step, Python clamps bounds into `[-1, n-1]`, not `[0, n]`;
  the model follows Python (`Slicing.AdjustBound`), and a bound below `-n`
  stays clamped rather than wrapping a second time.
- A bad field is reported before the number of fields is checked (the list
  comprehension runs first), so `1:2:3:x` fails on the field; both errors
  exit with 5.

## Model

| member | source | states |
|---|---|---|
| `Slicing.Split` | viewdf.py:130 | splitting on `:` gives one more piece than there are colons, and no piece contains a colon |
| `Slicing.JoinSplit` | viewdf.py:130 | the pieces of a split join back to the original text |
| `Slicing.SplitJoin` | viewdf.py:130 | colon-free pieces are recovered exactly by splitting their join |
| `Slicing.ParseShowInt` | viewdf.py:130 | reading the decimal text of any integer yields that integer |
| `Slicing.ParseFields` | viewdf.py:130 | the comprehension succeeds iff every field is empty or an integer, maps empty to absent and each field to its value, and otherwise names the first rejected field and its position |
| `Slicing.ParseSliceOutcome` | viewdf.py:130-138 | parsing succeeds iff there are at most three fields and each is well formed; too many well-formed fields is the field-count error; one field is the stop, two are start and stop, three are start, stop and step |
| `Slicing.ParseShowSlice` | viewdf.py:130-136 | every slice is recovered from its `start:stop:step` text |
| `Slicing.TooManyColonsFails` | viewdf.py:137-138 | three or more colons always fail |
| `Slicing.ParseSingleStop` | viewdf.py:131-132 | a lone non-negative number is the stop, start and step absent |
| `Slicing.AdjustBound` | viewdf.py:139 | a given bound lands in `[0, n]` for a positive step and `[-1, n-1]` for a negative one; a bound in `[-n, 0)` is offset by `n`; a bound in `[0, n)` is unchanged; a bound below `-n` is clamped to 0 (positive step) or -1 (negative step); a bound at or above `n` is clamped to `n` (positive step) or `n-1` (negative step) |
| `Slicing.PositionsShape` | viewdf.py:139 | the positions number CPython's slice length and the k-th is `start + k*step` |
| `Slicing.PositionsWithin` | viewdf.py:139 | every position lies between start (inclusive) and stop (exclusive) in the step's direction |
| `Slicing.PositionsMonotone` | viewdf.py:139 | positions strictly increase for a positive step and strictly decrease for a negative one |
| `Slicing.Resolve` | viewdf.py:139 | fails iff the step is 0 (the zero-step error); otherwise every position is a row in `[0, n)` and the list is strictly monotone in the step's direction; an empty range is a success |
| `Slicing.ResolveShape` | viewdf.py:139 | a resolved slice has CPython's length and the k-th position is the normalised start plus k steps |
| `Slicing.SingleFieldIsPrefix` | viewdf.py:130-139 | `--slice k` with `k >= 0` selects positions `0 .. min(k, n)-1` in order |
| `Slicing.EmptyTextSelectsAll` | viewdf.py:130-139 | an empty range text selects every row in order |
| `Slicing.ParseTwoFields` | viewdf.py:130-134 | the text `start:stop` parses to a slice with that start and stop and no step |
| `Slicing.NegativeStartIsSuffix` | viewdf.py:130-139 | the text `-k:` with `k >= 1` selects the last `min(k, n)` rows in order, so a start before the first row selects every row |
| `Slicing.ReversedWhole` | viewdf.py:139 | a slice with no bounds and step -1 (the parse of `::-1`) lists every row, last first |
| `SliceExamples.StopOnly` | viewdf.py:130-139 | `5` on ten rows gives `[0,1,2,3,4]` |
| `SliceExamples.StartStop` | viewdf.py:130-139 | `0:2` on ten rows gives `[0,1]` |
| `SliceExamples.EverySecond` | viewdf.py:130-139 | `::2` on ten rows gives `[0,2,4,6,8]` |
| `SliceExamples.FromSeven` | viewdf.py:130-139 | `7::` on ten rows gives `[7,8,9]` |
| `SliceExamples.LastThree` | viewdf.py:130-139 | `-3::` on ten rows gives `[7,8,9]` |
| `SliceExamples.StepTwo` | viewdf.py:130-139 | `1:6:2` on ten rows gives `[1,3,5]` |
| `SliceExamples.Backwards` | viewdf.py:130-139 | `8:2:-3` on ten rows gives `[8,5]` |
| `SliceExamples.ZeroStepRejected` | viewdf.py:139 | `::0` is the zero-step error |
| `SliceExamples.FourFieldsRejected` | viewdf.py:137-138 | `1:2:3:4` fails for every row count |
| `Loading.ChooseFormatCases` | viewdf.py:44-54 | a path is unpickled iff it ends in `.pkl`, whatever `--sep` says; otherwise an explicit separator wins; otherwise `.tsv` and `.txt` give tab; otherwise comma |
| `Loading.TabSeparatorIff` | viewdf.py:44-54 | text is read with a tab exactly when the path is not `.pkl` and either `--sep` is tab or, without `--sep`, the path ends in `.tsv` or `.txt` |
| `Loading.SuffixDefaults` | viewdf.py:44-54 | for every stem, `.pkl` is a pickle for any `--sep`, `.tsv` and `.txt` default to tab, `.csv` to comma |
| `Loading.TextSuffixIsNotPickle` | viewdf.py:44-51 | the `.tsv`/`.txt` and `.pkl` suffix tests never both hold |
| `Loading.LoadDataFrame` | viewdf.py:43-58 | an error always names the path; a loaded pickle is the DataFrame `read_pickle` returned; loaded text is what `read_csv` returned for the chosen separator |
| `Loading.LoadFailureCases` | viewdf.py:43-57 | loading fails exactly when the chosen reader raises or a pickle holds a non-DataFrame, and the latter is reported with the object's type name |
| `Cli.PrintColumns` | viewdf.py:101-103 | the loop prints one line per column, in column order |
| `Cli.PrintListing` | viewdf.py:101-108 | the columns, shape and info blocks produce exactly their listing, in that order |
| `Cli.ShowViews` | viewdf.py:121-126 | the head, tail and sample blocks produce exactly their views, in that order |
| `Cli.Conclude` | viewdf.py:127-164 | the slice, default-head and pickle blocks produce exactly the trace and exit code of `Cli.Conclusion` |
| `Cli.Act` | viewdf.py:100-164 | the actions after a successful load follow the specification, including the early return 3 |
| `Cli.Execute` | viewdf.py:94-164 | the whole run, step by step, produces exactly the trace and exit code of the specification `Run` |
| `CliProperties.ConclusionCodes` | viewdf.py:127-164 | the last stage exits 0, 4 or 5; 5 iff a slice was given and rejected; 4 iff no slice, a pickle destination, and a failed write |
| `CliProperties.ConclusionAppends` | viewdf.py:127-164 | the last stage keeps what was shown and appends only the slice rows or report, or the default head and the pickle write and its report |
| `CliProperties.AddedReports` | viewdf.py:127-164 | the last stage appends at most one report, as its final action, and exactly when it exits non-zero |
| `CliProperties.AddedKinds` | viewdf.py:149-154 | the only head the last stage shows is `head(5)`, and only when no action option was given |
| `CliProperties.ExitTwoIffLoadFails` | viewdf.py:94-98 | exit 2 iff loading fails (including a non-DataFrame pickle), and then the load error is the whole trace |
| `CliProperties.ExitThreeIffColumnMissing` | viewdf.py:115-118 | exit 3 iff the file loaded and `--describe COL` names an absent column; the "not found" report is last and no head, tail, sample, slice or pickle action ran |
| `CliProperties.ExistingColumnSucceeds` | tests/test_viewdf.py:27-33 | with an existing describe column and no slice or pickle, the column is described (not the whole table) and the run exits 0 |
| `CliProperties.ExitFiveIffSliceFails` | viewdf.py:127-147 | exit 5 iff the file loaded, describe passed, and the slice text failed to parse or resolve |
| `CliProperties.ExitFourIffPickleWriteFails` | viewdf.py:157-162 | exit 4 iff the file loaded, describe passed, no slice was given, a pickle destination was given and the write failed |
| `CliProperties.ExitCodesKnown` | viewdf.py:94-164 | every run exits with 0, 2, 3, 4 or 5 |
| `CliProperties.SliceSuccessEndsRun` | viewdf.py:139-144 | a resolved slice exits 0 with the rows as the last action; no pickle write and no report occur, and only an explicit `--head` shows a head |
| `CliProperties.WholeDescribeIff` | viewdf.py:109-113 | the whole-table describe is printed iff the file loaded and `--describe` is absent or has no value |
| `CliProperties.DefaultHead` | viewdf.py:149-154 | with no action option the run prints the describe and then `head(5)`, and exits 0 |
| `CliProperties.HeadOnlyWhenAsked` | viewdf.py:149-154 | when any action option is given, every head printed is the one `--head` asked for |
| `CliProperties.ColumnsListedFirst` | viewdf.py:101-103 | with `--columns` the trace begins with one line per column, in column order |
| `CliProperties.RunInBlockOrder` | viewdf.py:100-164 | every trace lists its actions in the order of the blocks of `main` |
| `CliProperties.ReportsOnlyOnFailure` | viewdf.py:94-164 | every trace is non-empty, only its last action may be an error report, and the last is a report exactly when the exit code is non-zero |

## Left out

- The pandas readers (`read_csv`, `read_pickle`), CSV type inference and ragged rows: their outcome is the `Readers` parameter (a DataFrame's column names and row count, another object's type name, or an exception message).
- `describe`, `info`, `head`, `tail`, `sample`, `to_string`, `print_df` and the pandas display options: they appear only as abstract actions in the trace; their output, statistics (floating point) and randomness are not modelled.
- `to_pickle`: only whether the write succeeded (`World.pickleWriteOk`).
- Exceptions pandas raises outside a `try` (for example `sample` asking for more rows than there are), and exceptions raised while printing inside the slice `try` block: printing is taken to succeed.
- Command-line parsing (`build_parser`, viewdf.py:67-86), including `--head` without a value meaning 5 and argparse's own usage errors: `Execute` takes the parsed `Args`.
- `Slicing.ParseInt` accepts an optional `+`/`-` followed by ASCII digits; Python's `int()` also accepts surrounding whitespace, `_` between digits and non-ASCII digits. In the other direction, Python 3.11 and later reject decimal text of more than 4300 digits (a `ValueError`, so exit 5), while the model accepts any length.
- Column labels are taken to be strings (`Frame.columns: seq<string>`), so `--describe COL` is a string membership test. A pickled DataFrame may have non-string labels (say the integers `0..k-1`), for which the source's `COL not in df.columns` (viewdf.py:116) is true even when `--columns` prints `COL`, and the run exits 3; the model cannot represent such a frame.
- The single-row transpose branch (viewdf.py:140-141): a slice always yields a DataFrame, so it is never taken.
- The wording of messages; the trace records which report was made and with which path, column, text or destination.
- tests/conftest.py: test-runner hooks and temporary-directory copying.
- Table construction, type inference, per-column statistics and the snapshot round trip described for the wider system: in this repository they are pandas' work and no code of viewdf implements them.
