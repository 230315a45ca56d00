/**
 * What a run of `main` guarantees, stated over the specification `Run`
 * that `Cli.Execute` is proved to follow: the meaning of each exit code, the
 * order of the output, when the default head appears, and that nothing
 * runs after a slice or a failed step.
 */
module CliProperties {
  import opened Wrappers
  import opened Slicing
  import opened Loading
  import opened Cli

  /** Messages written to stderr, each paired with a non-zero exit. */
  predicate IsReport(a: Action)
  {
    a.ReportLoadFailure? || a.ReportColumnNotFound? || a.ReportBadSlice? || a.ReportSaveFailure?
  }

  /** Actions of the blocks that come after `--describe` in `main`. */
  predicate AfterDescribe(a: Action)
  {
    a.ShowHead? || a.ShowTail? || a.ShowSample? || a.ShowRows? || a.ReportBadSlice? ||
    a.SavePickle? || a.ReportSaveFailure?
  }

  /** The position of an action's block in `main`. */
  function Rank(a: Action): nat
  {
    match a
    case ReportLoadFailure(_) => 0
    case PrintColumnName(_) => 1
    case PrintShape(_, _) => 2
    case PrintInfo => 3
    case DescribeAll => 4
    case DescribeColumn(_) => 4
    case ReportColumnNotFound(_) => 4
    case ShowHead(_, _) => 5
    case ShowTail(_, _) => 6
    case ShowSample(_, _) => 7
    case ShowRows(_, _) => 8
    case ReportBadSlice(_, _) => 8
    case SavePickle(_) => 9
    case ReportSaveFailure(_) => 10
  }

  /** The trace follows the order of the blocks in `main`. */
  predicate InBlockOrder(trace: seq<Action>)
  {
    forall i, j :: 0 <= i < j < |trace| ==> Rank(trace[i]) <= Rank(trace[j])
  }

  function Loaded(args: Args, world: World): Result<Frame, LoadError>
  {
    LoadDataFrame(args.path, args.sep, world.readers)
  }

  /** What is shown before the last stage, when the describe column exists. */
  function Shown(args: Args, df: Frame): seq<Action>
  {
    Listing(args, df) + DescribeLines(args.describe) + Views(args)
  }

  /** The kinds of action shown before the last stage: no report, no pickle write, no unrequested head. */
  predicate ShownKind(args: Args, a: Action)
  {
    Rank(a) <= 7 && !IsReport(a) && !a.SavePickle? && (a.ShowHead? ==> args.head == Some(a.n))
  }

  /** What the last stage appends to what was shown. */
  function Added(args: Args, n: nat, ok: bool): seq<Action>
  {
    match args.slice
    case Some(text) =>
      (match ResolveText(text, n)
       case Success(ps) => [ShowRows(ps, args.maxRows)]
       case Failure(e) => [ReportBadSlice(text, e)])
    case None => DefaultHeadLines(args) + SaveLines(args, ok)
  }

  /** The head shown when no action option was given. */
  function DefaultHeadLines(args: Args): seq<Action>
  {
    if NoActionFlag(args) then [ShowHead(5, args.maxRows)] else []
  }

  /** The pickle write, and its report when it failed. */
  function SaveLines(args: Args, ok: bool): seq<Action>
  {
    if !PickleRequested(args) then []
    else if ok then [SavePickle(args.toPickle.value)]
    else [SavePickle(args.toPickle.value), ReportSaveFailure(args.toPickle.value)]
  }

  // ---------------------------------------------------------------------
  // The stages of a run
  // ---------------------------------------------------------------------

  /** After a load, a run either stops at the missing column or passes what it showed to the last stage. */
  lemma RunStages(args: Args, world: World)
    requires Loaded(args, world).Success?
    ensures var df := Loaded(args, world).value;
      Run(args, world) ==
        if ColumnMissing(args, df) then Outcome(Listing(args, df) + [ReportColumnNotFound(args.describe.name)], 3)
        else Conclusion(args, df.rowCount, Shown(args, df), world.pickleWriteOk)
  {
  }

  /** The last stage appends to what was shown, whatever that was. */
  lemma ConclusionAppends(args: Args, n: nat, shown: seq<Action>, ok: bool)
    ensures Conclusion(args, n, shown, ok).trace == shown + Added(args, n, ok)
  {
  }

  /** Every code the last stage can produce, with what causes it. */
  lemma ConclusionCodes(args: Args, n: nat, shown: seq<Action>, ok: bool)
    ensures var c := Conclusion(args, n, shown, ok).code;
      && (c == 0 || c == 4 || c == 5)
      && (c == 5 <==> args.slice.Some? && ResolveText(args.slice.value, n).Failure?)
      && (c == 4 <==> args.slice.None? && PickleRequested(args) && !ok)
  {
  }

  /** The last stage appends only slice, default-head and pickle actions. */
  lemma AddedKinds(args: Args, n: nat, ok: bool)
    ensures forall a :: a in Added(args, n, ok) ==>
              && 5 <= Rank(a)
              && (a.ShowHead? ==> a == ShowHead(5, args.maxRows) && NoActionFlag(args))
  {
  }

  /** What the last stage appends is in block order. */
  lemma AddedInOrder(args: Args, n: nat, ok: bool)
    ensures InBlockOrder(Added(args, n, ok))
  {
    if args.slice.None? {
      OrderedByBound(DefaultHeadLines(args), SaveLines(args, ok), 5);
    }
  }

  /**
   * What the last stage appends holds at most one report, placed last and
   * present exactly when the stage fails.
   */
  lemma AddedReports(args: Args, n: nat, ok: bool)
    ensures forall i :: 0 <= i < |Added(args, n, ok)| - 1 ==> !IsReport(Added(args, n, ok)[i])
    ensures Conclusion(args, n, [], ok).code != 0 <==>
              Added(args, n, ok) != [] && IsReport(Added(args, n, ok)[|Added(args, n, ok)| - 1])
  {
  }

  /** The listing blocks produce no action of a later block. */
  lemma ListingBeforeDescribe(args: Args, df: Frame)
    ensures forall a :: a in Listing(args, df) ==> Rank(a) <= 3 && !IsReport(a)
  {
    forall a | a in Listing(args, df) ensures Rank(a) <= 3 && !IsReport(a) {
      if a in ColumnLines(df.columns) {
        var i :| 0 <= i < |df.columns| && ColumnLines(df.columns)[i] == a;
      }
    }
  }

  /** The views are of ranks 5 to 7, and a head among them is the requested one. */
  lemma ViewsKinds(args: Args)
    ensures forall a :: a in Views(args) ==> 5 <= Rank(a) <= 7 && (a.ShowHead? ==> args.head == Some(a.n))
  {
  }

  /** What is shown before the last stage reports nothing, writes nothing, and heads only on request. */
  lemma ShownActions(args: Args, df: Frame)
    ensures Shown(args, df) != []
    ensures forall a :: a in Shown(args, df) ==> ShownKind(args, a)
  {
    var listed, described, views := Listing(args, df), DescribeLines(args.describe), Views(args);
    ListingBeforeDescribe(args, df);
    ViewsKinds(args);
    assert forall a :: a in listed ==> ShownKind(args, a);
    assert forall a :: a in described ==> ShownKind(args, a);
    assert forall a :: a in views ==> ShownKind(args, a);
    assert Shown(args, df) == listed + described + views;
  }

  /** The whole-table describe is shown exactly when `--describe` is absent or has no value. */
  lemma ShownDescribeAll(args: Args, df: Frame)
    ensures DescribeAll in Shown(args, df) <==> args.describe.NotGiven? || args.describe.WholeTable?
  {
    ListingBeforeDescribe(args, df);
    ViewsKinds(args);
    var listed, described, views := Listing(args, df), DescribeLines(args.describe), Views(args);
    assert Shown(args, df) == listed + described + views;
    assert DescribeAll !in listed && DescribeAll !in views;
  }

  // ---------------------------------------------------------------------
  // Exit codes
  // ---------------------------------------------------------------------

  /**
   * Exit code 2 means exactly that loading failed, and then the error report
   * is the whole trace: no action ran.
   */
  lemma ExitTwoIffLoadFails(args: Args, world: World)
    ensures Run(args, world).code == 2 <==> Loaded(args, world).Failure?
    ensures Loaded(args, world).Failure? ==>
              Run(args, world).trace == [ReportLoadFailure(Loaded(args, world).error)]
  {
    if Loaded(args, world).Success? {
      var df := Loaded(args, world).value;
      RunStages(args, world);
      ConclusionCodes(args, df.rowCount, Shown(args, df), world.pickleWriteOk);
    }
  }

  /**
   * Exit code 3 means exactly that the file loaded and `--describe COL`
   * named a column it lacks; the "not found" report is then the last action
   * and none of head, tail, sample, slice or pickle ran.
   */
  lemma ExitThreeIffColumnMissing(args: Args, world: World)
    ensures Run(args, world).code == 3 <==>
              Loaded(args, world).Success? && ColumnMissing(args, Loaded(args, world).value)
    ensures Run(args, world).code == 3 ==>
              && Run(args, world).trace[|Run(args, world).trace| - 1] == ReportColumnNotFound(args.describe.name)
              && forall a :: a in Run(args, world).trace ==> !AfterDescribe(a)
  {
    if Loaded(args, world).Success? {
      var df := Loaded(args, world).value;
      RunStages(args, world);
      ConclusionCodes(args, df.rowCount, Shown(args, df), world.pickleWriteOk);
      ListingBeforeDescribe(args, df);
    }
  }

  /** With an existing `--describe` column and no slice or pickle, the run describes it and succeeds. */
  lemma ExistingColumnSucceeds(args: Args, world: World, col: string)
    requires Loaded(args, world).Success? && col in Loaded(args, world).value.columns
    requires args.describe == OneColumn(col) && args.slice.None? && args.toPickle.None?
    ensures Run(args, world).code == 0
    ensures DescribeColumn(col) in Run(args, world).trace
    ensures DescribeAll !in Run(args, world).trace
  {
    var df := Loaded(args, world).value;
    RunStages(args, world);
    ConclusionAppends(args, df.rowCount, Shown(args, df), world.pickleWriteOk);
    ShownDescribeAll(args, df);
    assert Shown(args, df)[|Listing(args, df)|] == DescribeColumn(col);
  }

  /** Exit code 5 means exactly that the file loaded, describe passed, and the slice text was rejected. */
  lemma ExitFiveIffSliceFails(args: Args, world: World)
    ensures Run(args, world).code == 5 <==>
              && Loaded(args, world).Success?
              && !ColumnMissing(args, Loaded(args, world).value)
              && args.slice.Some?
              && ResolveText(args.slice.value, Loaded(args, world).value.rowCount).Failure?
  {
    if Loaded(args, world).Success? {
      var df := Loaded(args, world).value;
      RunStages(args, world);
      ConclusionCodes(args, df.rowCount, Shown(args, df), world.pickleWriteOk);
    }
  }

  /**
   * Exit code 4 means exactly that the pickle write was attempted and
   * failed: the file loaded, describe passed, no slice was asked for, and
   * `--to-pickle` named a destination.
   */
  lemma ExitFourIffPickleWriteFails(args: Args, world: World)
    ensures Run(args, world).code == 4 <==>
              && Loaded(args, world).Success?
              && !ColumnMissing(args, Loaded(args, world).value)
              && args.slice.None? && PickleRequested(args) && !world.pickleWriteOk
  {
    if Loaded(args, world).Success? {
      var df := Loaded(args, world).value;
      RunStages(args, world);
      ConclusionCodes(args, df.rowCount, Shown(args, df), world.pickleWriteOk);
    }
  }

  /** Exit codes are 0, 2, 3, 4 or 5. */
  lemma ExitCodesKnown(args: Args, world: World)
    ensures Run(args, world).code in {0, 2, 3, 4, 5}
  {
    ExitTwoIffLoadFails(args, world);
  }

  // ---------------------------------------------------------------------
  // Slices end the run
  // ---------------------------------------------------------------------

  /**
   * A slice that resolves ends the run with 0 right after showing the rows:
   * no default head and no pickle write follow it.
   */
  lemma SliceSuccessEndsRun(args: Args, world: World)
    requires Loaded(args, world).Success? && !ColumnMissing(args, Loaded(args, world).value)
    requires args.slice.Some? && ResolveText(args.slice.value, Loaded(args, world).value.rowCount).Success?
    ensures Run(args, world).code == 0
    ensures var t := Run(args, world).trace;
      t[|t| - 1] == ShowRows(ResolveText(args.slice.value, Loaded(args, world).value.rowCount).value, args.maxRows)
    ensures forall a :: a in Run(args, world).trace ==> !a.SavePickle? && !IsReport(a)
    ensures forall n, m :: ShowHead(n, m) in Run(args, world).trace ==> args.head == Some(n)
  {
    var df := Loaded(args, world).value;
    RunStages(args, world);
    ShownActions(args, df);
    var ps := ResolveText(args.slice.value, df.rowCount).value;
    assert Run(args, world).trace == Shown(args, df) + [ShowRows(ps, args.maxRows)];
  }

  // ---------------------------------------------------------------------
  // Describe and the default head
  // ---------------------------------------------------------------------

  /**
   * The whole-table describe is printed exactly when the file loads and
   * `--describe` is absent or has no value; so a run with no option at all
   * prints it too.
   */
  lemma WholeDescribeIff(args: Args, world: World)
    ensures DescribeAll in Run(args, world).trace <==>
              Loaded(args, world).Success? && (args.describe.NotGiven? || args.describe.WholeTable?)
  {
    if Loaded(args, world).Success? {
      var df := Loaded(args, world).value;
      RunStages(args, world);
      ListingBeforeDescribe(args, df);
      if ColumnMissing(args, df) {
        assert DescribeAll !in Listing(args, df);
        assert Run(args, world).trace == Listing(args, df) + [ReportColumnNotFound(args.describe.name)];
      } else {
        var shown, added := Shown(args, df), Added(args, df.rowCount, world.pickleWriteOk);
        ShownDescribeAll(args, df);
        ConclusionAppends(args, df.rowCount, shown, world.pickleWriteOk);
        AddedKinds(args, df.rowCount, world.pickleWriteOk);
        assert DescribeAll !in added;
        assert Run(args, world).trace == shown + added;
      }
    }
  }

  /**
   * With no action option the run prints the (whole-table) describe and
   * then the first five rows, and succeeds.
   */
  lemma DefaultHead(args: Args, world: World)
    requires Loaded(args, world).Success? && NoActionFlag(args)
    requires !ColumnMissing(args, Loaded(args, world).value)
    ensures Run(args, world) == Outcome(DescribeLines(args.describe) + [ShowHead(5, args.maxRows)], 0)
  {
    RunStages(args, world);
  }

  /** When some action option is given, every head shown is the one `--head` asked for. */
  lemma HeadOnlyWhenAsked(args: Args, world: World)
    requires !NoActionFlag(args)
    ensures forall n, m :: ShowHead(n, m) in Run(args, world).trace ==> args.head == Some(n)
  {
    if Loaded(args, world).Success? {
      var df := Loaded(args, world).value;
      RunStages(args, world);
      ListingBeforeDescribe(args, df);
      if !ColumnMissing(args, df) {
        ShownActions(args, df);
        ConclusionAppends(args, df.rowCount, Shown(args, df), world.pickleWriteOk);
        AddedKinds(args, df.rowCount, world.pickleWriteOk);
      }
    }
  }

  /** With `--columns`, the run begins with one line per column, in column order. */
  lemma ColumnsListedFirst(args: Args, world: World)
    requires Loaded(args, world).Success? && args.columns
    ensures var cols := Loaded(args, world).value.columns;
      |Run(args, world).trace| > |cols| &&
      forall i :: 0 <= i < |cols| ==> Run(args, world).trace[i] == PrintColumnName(cols[i])
  {
    var df := Loaded(args, world).value;
    RunStages(args, world);
    if !ColumnMissing(args, df) {
      ConclusionAppends(args, df.rowCount, Shown(args, df), world.pickleWriteOk);
    }
  }

  // ---------------------------------------------------------------------
  // Order and error reports
  // ---------------------------------------------------------------------

  lemma {:induction false} OrderedConcat(a: seq<Action>, b: seq<Action>)
    requires InBlockOrder(a) && InBlockOrder(b)
    requires forall i, j :: 0 <= i < |a| && 0 <= j < |b| ==> Rank(a[i]) <= Rank(b[j])
    ensures InBlockOrder(a + b)
  {
    var c := a + b;
    forall i, j | 0 <= i < j < |c| ensures Rank(c[i]) <= Rank(c[j]) {
      if j < |a| {
      } else if i >= |a| {
        assert c[i] == b[i - |a|] && c[j] == b[j - |a|];
      } else {
        assert c[i] == a[i] && c[j] == b[j - |a|];
      }
    }
  }

  /** Everything of rank at most `r` followed by everything of rank at least `r` is in order. */
  lemma OrderedByBound(a: seq<Action>, b: seq<Action>, r: nat)
    requires InBlockOrder(a) && InBlockOrder(b)
    requires forall x :: x in a ==> Rank(x) <= r
    requires forall x :: x in b ==> r <= Rank(x)
    ensures InBlockOrder(a + b)
  {
    forall i, j | 0 <= i < |a| && 0 <= j < |b| ensures Rank(a[i]) <= Rank(b[j]) {
      assert a[i] in a && b[j] in b;
    }
    OrderedConcat(a, b);
  }

  lemma ListingInOrder(args: Args, df: Frame)
    ensures InBlockOrder(Listing(args, df))
  {
    var cols := if args.columns then ColumnLines(df.columns) else [];
    var shape := if args.shape then [PrintShape(df.rowCount, |df.columns|)] else [];
    var info := if args.info then [PrintInfo] else [];
    forall a | a in cols ensures Rank(a) <= 1 {
      var i :| 0 <= i < |cols| && cols[i] == a;
    }
    OrderedByBound(cols, shape, 1);
    OrderedByBound(cols + shape, info, 2);
  }

  lemma ViewsInOrder(args: Args)
    ensures InBlockOrder(Views(args))
  {
    var h := if args.head.Some? then [ShowHead(args.head.value, args.maxRows)] else [];
    var t := if args.tail.Some? then [ShowTail(args.tail.value, args.maxRows)] else [];
    var s := if args.sample.Some? then [ShowSample(args.sample.value, args.maxRows)] else [];
    OrderedByBound(h, t, 5);
    OrderedByBound(h + t, s, 6);
  }

  /** What is shown before the last stage is in block order. */
  lemma ShownInOrder(args: Args, df: Frame)
    ensures InBlockOrder(Shown(args, df))
  {
    ListingInOrder(args, df);
    ListingBeforeDescribe(args, df);
    ViewsInOrder(args);
    ViewsKinds(args);
    var listed := Listing(args, df);
    OrderedByBound(listed, DescribeLines(args.describe), 4);
    OrderedByBound(listed + DescribeLines(args.describe), Views(args), 4);
  }

  /** The actions of every run appear in the order of the blocks of `main`. */
  lemma RunInBlockOrder(args: Args, world: World)
    ensures InBlockOrder(Run(args, world).trace)
  {
    if Loaded(args, world).Success? {
      var df := Loaded(args, world).value;
      RunStages(args, world);
      if ColumnMissing(args, df) {
        ListingInOrder(args, df);
        ListingBeforeDescribe(args, df);
        OrderedByBound(Listing(args, df), [ReportColumnNotFound(args.describe.name)], 4);
      } else {
        var shown, added := Shown(args, df), Added(args, df.rowCount, world.pickleWriteOk);
        ShownInOrder(args, df);
        ShownActions(args, df);
        AddedKinds(args, df.rowCount, world.pickleWriteOk);
        AddedInOrder(args, df.rowCount, world.pickleWriteOk);
        ConclusionAppends(args, df.rowCount, shown, world.pickleWriteOk);
        if NoActionFlag(args) {
          assert shown == DescribeLines(args.describe);
          OrderedByBound(shown, added, 5);
        } else {
          OrderedByBound(shown, added, 7);
        }
      }
    }
  }

  /** A trace whose only report, if any, is its last action. */
  predicate ReportsLast(t: seq<Action>, failed: bool)
  {
    t != [] && (forall i :: 0 <= i < |t| - 1 ==> !IsReport(t[i])) && (failed <==> IsReport(t[|t| - 1]))
  }

  /** Report-free actions followed by a trace that reports last still report last. */
  lemma {:induction false} ReportsLastAfter(shown: seq<Action>, t: seq<Action>, failed: bool)
    requires forall a :: a in shown ==> !IsReport(a)
    requires ReportsLast(t, failed)
    ensures ReportsLast(shown + t, failed)
  {
    var c := shown + t;
    forall i | 0 <= i < |c| - 1 ensures !IsReport(c[i]) {
      if i < |shown| {
        assert c[i] == shown[i] && shown[i] in shown;
      } else {
        assert c[i] == t[i - |shown|];
      }
    }
    assert c[|c| - 1] == t[|t| - 1];
  }

  /**
   * A run reports an error exactly when it fails: its trace is never empty,
   * no action but the last is a report, and the last is a report exactly
   * when the exit code is non-zero.
   */
  lemma ReportsOnlyOnFailure(args: Args, world: World)
    ensures ReportsLast(Run(args, world).trace, Run(args, world).code != 0)
  {
    if Loaded(args, world).Success? {
      var df := Loaded(args, world).value;
      RunStages(args, world);
      if ColumnMissing(args, df) {
        ListingBeforeDescribe(args, df);
        ReportsLastAfter(Listing(args, df), [ReportColumnNotFound(args.describe.name)], true);
      } else {
        ShownActions(args, df);
        assert forall a :: a in Shown(args, df) ==> !IsReport(a);
        ConclusionReportsLast(args, df.rowCount, Shown(args, df), world.pickleWriteOk);
      }
    }
  }

  /** After report-free output, the last stage reports last and exactly when it fails. */
  lemma ConclusionReportsLast(args: Args, n: nat, shown: seq<Action>, ok: bool)
    requires shown != [] && forall a :: a in shown ==> !IsReport(a)
    ensures ReportsLast(Conclusion(args, n, shown, ok).trace, Conclusion(args, n, shown, ok).code != 0)
  {
    var added := Added(args, n, ok);
    AddedReports(args, n, ok);
    ConclusionAppends(args, n, shown, ok);
    var failed := Conclusion(args, n, [], ok).code != 0;
    assert Conclusion(args, n, shown, ok).code != 0 <==> failed;
    if added == [] {
      assert Conclusion(args, n, shown, ok).trace == shown;
    } else {
      ReportsLastAfter(shown, added, failed);
    }
  }
}
