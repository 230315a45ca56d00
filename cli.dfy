/**
 * `main` (viewdf.py:89-164): after loading the file it runs a fixed series
 * of optional actions in order, with early exits for a missing describe
 * column (3), any slice (0 when it succeeds, 5 when it fails) and a failed
 * pickle write (4); a load failure ends the run with 2 before any action.
 *
 * The arguments are taken as already parsed; printing, describing and the
 * pandas calls are recorded as abstract actions in a trace.
 */
module Cli {
  import opened Wrappers
  import opened Slicing
  import opened Loading

  /**
   * The value of `--describe`: absent (argparse's default None), given
   * without a value (True), or given a column name.
   */
  datatype DescribeFlag = NotGiven | WholeTable | OneColumn(name: string)

  /** The parsed command line. */
  datatype Args = Args(
    path: string,
    sep: Option<string>,
    head: Option<int>,
    tail: Option<int>,
    describe: DescribeFlag,
    info: bool,
    columns: bool,
    shape: bool,
    sample: Option<int>,
    slice: Option<string>,
    maxRows: int,
    toPickle: Option<string>)

  /** What the outside world does when the program asks: reading the file, writing the pickle. */
  datatype World = World(readers: Readers, pickleWriteOk: bool)

  /** One observable step of a run, in the order the program performs it. */
  datatype Action =
    | ReportLoadFailure(loadError: LoadError)         // to stderr
    | PrintColumnName(name: string)
    | PrintShape(rows: nat, cols: nat)
    | PrintInfo
    | DescribeAll
    | DescribeColumn(name: string)
    | ReportColumnNotFound(name: string)          // "Column ... not found", to stderr
    | ShowHead(n: int, maxRows: int)
    | ShowTail(n: int, maxRows: int)
    | ShowSample(n: int, maxRows: int)
    | ShowRows(positions: seq<int>, maxRows: int)
    | ReportBadSlice(text: string, sliceError: SliceError) // to stderr
    | SavePickle(dest: string)
    | ReportSaveFailure(dest: string)             // to stderr

  /** The trace of a run and its exit code. */
  datatype Outcome = Outcome(trace: seq<Action>, code: int)

  /** Python truthiness of `args.describe`: None is false, True is true, a string is true unless empty. */
  predicate DescribeTruthy(d: DescribeFlag)
  {
    match d
    case NotGiven => false
    case WholeTable => true
    case OneColumn(name) => name != ""
  }

  /** `if args.to_pickle`: given and non-empty. */
  predicate PickleRequested(args: Args)
  {
    args.toPickle.Some? && args.toPickle.value != ""
  }

  /** No option that selects an action was given, so the program falls back to head(5). */
  predicate NoActionFlag(args: Args)
  {
    !(args.columns || args.shape || args.info || DescribeTruthy(args.describe) ||
      args.head.Some? || args.tail.Some? || args.sample.Some? || args.slice.Some? ||
      PickleRequested(args))
  }

  /** One line per column name, in column order. */
  function ColumnLines(columns: seq<string>): seq<Action>
  {
    seq(|columns|, i requires 0 <= i < |columns| => PrintColumnName(columns[i]))
  }

  /** The listing actions `--columns`, `--shape` and `--info`, in that order. */
  function Listing(args: Args, df: Frame): seq<Action>
  {
    (if args.columns then ColumnLines(df.columns) else []) +
    (if args.shape then [PrintShape(df.rowCount, |df.columns|)] else []) +
    (if args.info then [PrintInfo] else [])
  }

  /** The describe output for a flag whose column, if any, exists. */
  function DescribeLines(d: DescribeFlag): seq<Action>
  {
    match d
    case OneColumn(name) => [DescribeColumn(name)]
    case _ => [DescribeAll]
  }

  /** `--head`, `--tail` and `--sample`, in that order. */
  function Views(args: Args): seq<Action>
  {
    (if args.head.Some? then [ShowHead(args.head.value, args.maxRows)] else []) +
    (if args.tail.Some? then [ShowTail(args.tail.value, args.maxRows)] else []) +
    (if args.sample.Some? then [ShowSample(args.sample.value, args.maxRows)] else [])
  }

  /** A missing `--describe` column stops the run. */
  predicate ColumnMissing(args: Args, df: Frame)
  {
    args.describe.OneColumn? && args.describe.name !in df.columns
  }

  /**
   * The last stage, after the views: a slice ends the run (0 or 5);
   * otherwise the default head, then the pickle write (4 if it fails).
   */
  function Conclusion(args: Args, rowCount: nat, shown: seq<Action>, pickleWriteOk: bool): Outcome
  {
    match args.slice
    case Some(text) =>
      (match ResolveText(text, rowCount)
       case Success(ps) => Outcome(shown + [ShowRows(ps, args.maxRows)], 0)
       case Failure(e) => Outcome(shown + [ReportBadSlice(text, e)], 5))
    case None =>
      var defaulted := shown + (if NoActionFlag(args) then [ShowHead(5, args.maxRows)] else []);
      if !PickleRequested(args) then Outcome(defaulted, 0)
      else if pickleWriteOk then Outcome(defaulted + [SavePickle(args.toPickle.value)], 0)
      else Outcome(defaulted + [SavePickle(args.toPickle.value), ReportSaveFailure(args.toPickle.value)], 4)
  }

  /** The run after a successful load. */
  function RunLoaded(args: Args, df: Frame, pickleWriteOk: bool): Outcome
  {
    var listed := Listing(args, df);
    if ColumnMissing(args, df) then
      Outcome(listed + [ReportColumnNotFound(args.describe.name)], 3)
    else
      Conclusion(args, df.rowCount, listed + DescribeLines(args.describe) + Views(args), pickleWriteOk)
  }

  /** The `--columns` block: prints each column name on its own line, first column first. */
  method PrintColumns(columns: seq<string>) returns (lines: seq<Action>)
    ensures lines == ColumnLines(columns)
  {
    lines := [];
    var i := 0;
    while i < |columns|
      invariant 0 <= i <= |columns|
      invariant lines == ColumnLines(columns[..i])
    {
      lines := lines + [PrintColumnName(columns[i])];
      i := i + 1;
    }
    assert columns[..i] == columns;
  }

  /** The whole run: load, then act. */
  function Run(args: Args, world: World): Outcome
  {
    match LoadDataFrame(args.path, args.sep, world.readers)
    case Failure(e) => Outcome([ReportLoadFailure(e)], 2)
    case Success(df) => RunLoaded(args, df, world.pickleWriteOk)
  }

  /**
   * The program's entry point, step by step: each block appends what it
   * prints to the trace, and the early exits return their codes.
   */
  method Execute(args: Args, world: World) returns (trace: seq<Action>, code: int)
    ensures Outcome(trace, code) == Run(args, world)
  {
    trace := [];
    var loaded := LoadDataFrame(args.path, args.sep, world.readers);
    if loaded.Failure? {
      trace := trace + [ReportLoadFailure(loaded.error)];
      return trace, 2;
    }
    trace, code := Act(args, loaded.value, world.pickleWriteOk);
  }

  /** The actions of `main` once the file is loaded, in order, with their early exits. */
  method Act(args: Args, df: Frame, pickleWriteOk: bool) returns (trace: seq<Action>, code: int)
    ensures Outcome(trace, code) == RunLoaded(args, df, pickleWriteOk)
  {
    trace := PrintListing(args, df);
    if args.describe.NotGiven? || args.describe.WholeTable? {
      trace := trace + [DescribeAll];
    } else {
      var col := args.describe.name;
      if col !in df.columns {
        trace := trace + [ReportColumnNotFound(col)];
        return trace, 3;
      }
      trace := trace + [DescribeColumn(col)];
    }
    var views := ShowViews(args);
    trace := trace + views;
    trace, code := Conclude(args, df.rowCount, trace, pickleWriteOk);
  }

  /** The `--columns`, `--shape` and `--info` blocks of `main`. */
  method PrintListing(args: Args, df: Frame) returns (trace: seq<Action>)
    ensures trace == Listing(args, df)
  {
    trace := [];
    if args.columns {
      trace := PrintColumns(df.columns);
    }
    if args.shape {
      trace := trace + [PrintShape(df.rowCount, |df.columns|)];
    }
    if args.info {
      trace := trace + [PrintInfo];
    }
  }

  /** The `--head`, `--tail` and `--sample` blocks of `main`. */
  method ShowViews(args: Args) returns (trace: seq<Action>)
    ensures trace == Views(args)
  {
    trace := [];
    if args.head.Some? {
      trace := trace + [ShowHead(args.head.value, args.maxRows)];
    }
    if args.tail.Some? {
      trace := trace + [ShowTail(args.tail.value, args.maxRows)];
    }
    if args.sample.Some? {
      trace := trace + [ShowSample(args.sample.value, args.maxRows)];
    }
  }

  /** The slice, default-head and pickle blocks at the end of `main`. */
  method Conclude(args: Args, rowCount: nat, shown: seq<Action>, pickleWriteOk: bool)
    returns (trace: seq<Action>, code: int)
    ensures Outcome(trace, code) == Conclusion(args, rowCount, shown, pickleWriteOk)
  {
    trace := shown;
    if args.slice.Some? {
      var text := args.slice.value;
      var resolved := ResolveText(text, rowCount);
      if resolved.Success? {
        trace := trace + [ShowRows(resolved.value, args.maxRows)];
        return trace, 0;
      }
      trace := trace + [ReportBadSlice(text, resolved.error)];
      return trace, 5;
    }

    if NoActionFlag(args) {
      trace := trace + [ShowHead(5, args.maxRows)];
    }

    if PickleRequested(args) {
      var dest := args.toPickle.value;
      trace := trace + [SavePickle(dest)];
      if !pickleWriteOk {
        trace := trace + [ReportSaveFailure(dest)];
        return trace, 4;
      }
    }
    return trace, 0;
  }
}
