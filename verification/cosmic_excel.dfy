/** The COSMIC Excel report: a "时序图" sheet left blank and a
    "功能点拆分表" sheet with one header row and one row per step, in process
    order. Trigger event and functional process cells are merged over runs of
    rows with the same value; the first three columns are merged over all
    data rows. */
module CosmicExcel {

  import opened Results
  import opened CosmicProcesses
  import opened CosmicImport

  /** Header texts of the ten report columns, in column order. */
  const REPORT_HEADERS: seq<string> :=
    ["客户需求", "功能用户", "功能用户需求", "触发事件", "功能过程", "子过程描述", "数据移动类型", "数据组", "数据属性", "CFP"]

  const CFP_COL: nat := 9

  /** The row written for one step of a process. */
  function StepRow(p: Process, s: Step): (r: Row)
    ensures |r| == |REPORT_HEADERS|
  {
    ["", "", "", p.triggerEvent, p.functionalProcess, s.subProcessDesc, s.dataMovementType, s.dataGroup,
     s.dataAttributes, "1"]
  }

  // ---------------------------------------------------------------------------
  // Row layout
  // ---------------------------------------------------------------------------

  /** Where a data row comes from: a process and the position of one of its steps. */
  datatype Slot = Slot(process: Process, stepIndex: nat)

  function TotalSteps(ps: seq<Process>): nat {
    if ps == [] then 0 else TotalSteps(ps[..|ps| - 1]) + |ps[|ps| - 1].steps|
  }

  /** The data rows in the order they are written: processes in order, and
      within a process its steps in order. */
  function Slots(ps: seq<Process>): (r: seq<Slot>)
    ensures |r| == TotalSteps(ps)
    ensures forall k :: 0 <= k < |r| ==> r[k].stepIndex < |r[k].process.steps|
  {
    if ps == [] then []
    else
      var p := ps[|ps| - 1];
      Slots(ps[..|ps| - 1]) + seq(|p.steps|, j requires 0 <= j < |p.steps| => Slot(p, j))
  }

  /** Step `j` of process `i` is written at data position
      `TotalSteps(ps[..i]) + j`, that is at sheet row one more than that. */
  lemma {:induction false} SlotOfStep(ps: seq<Process>, i: nat, j: nat)
    requires i < |ps| && j < |ps[i].steps|
    ensures TotalSteps(ps[..i]) + j < |Slots(ps)|
    ensures Slots(ps)[TotalSteps(ps[..i]) + j] == Slot(ps[i], j)
    decreases |ps|
  {
    var init := ps[..|ps| - 1];
    if i == |ps| - 1 {
      assert ps[..i] == init;
    } else {
      assert init[..i] == ps[..i];
      SlotOfStep(init, i, j);
    }
  }

  /** A row that is not the first of its process follows the row of the
      previous step of the same process. */
  lemma {:induction false} SlotsContinue(ps: seq<Process>)
    ensures forall k :: 0 <= k < |Slots(ps)| && Slots(ps)[k].stepIndex > 0 ==>
              k > 0 && Slots(ps)[k - 1] == Slot(Slots(ps)[k].process, Slots(ps)[k].stepIndex - 1)
    decreases |ps|
  {
    if ps != [] {
      SlotsContinue(ps[..|ps| - 1]);
    }
  }

  /** The data rows of a report. */
  function DataRows(ps: seq<Process>): (r: seq<Row>)
    ensures |r| == TotalSteps(ps)
    ensures forall k :: 0 <= k < |r| ==>
              |r[k]| == |REPORT_HEADERS| && r[k][CFP_COL] == "1" && r[k][0] == "" && r[k][1] == "" && r[k][2] == ""
  {
    var slots := Slots(ps);
    seq(|slots|, k requires 0 <= k < |slots| =>
      StepRow(slots[k].process, slots[k].process.steps[slots[k].stepIndex]))
  }

  /** Every step has its row, carrying its process's trigger event and name
      and its own four fields. */
  lemma RowOfStep(ps: seq<Process>, i: nat, j: nat)
    requires i < |ps| && j < |ps[i].steps|
    ensures TotalSteps(ps[..i]) + j < |DataRows(ps)|
    ensures DataRows(ps)[TotalSteps(ps[..i]) + j] == StepRow(ps[i], ps[i].steps[j])
  {
    SlotOfStep(ps, i, j);
  }

  // ---------------------------------------------------------------------------
  // Merge tracking
  // ---------------------------------------------------------------------------

  /** Merge tracking for one column: the value of the run being followed,
      the sheet row where it started (-1 before any) and the regions added. */
  datatype Tracker = Tracker(column: nat, currentValue: Option<string>, startRow: int, regions: seq<Region>)

  function NewTracker(column: nat): Tracker {
    Tracker(column, None, -1, [])
  }

  /** Closes the current run at `endRow`; a run of a single row is not merged. */
  function FinishMerge(t: Tracker, endRow: int): Tracker {
    if 0 <= t.startRow < endRow then t.(regions := t.regions + [Region(t.startRow, endRow, t.column, t.column)])
    else t
  }

  /** A new value closes the current run just above `currentRow` and starts
      one there; the same value continues the run. */
  function TryFinishAndStart(t: Tracker, newValue: string, currentRow: int): Tracker {
    var closed := if t.currentValue.Some? && t.currentValue.value != newValue then FinishMerge(t, currentRow - 1) else t;
    if closed.currentValue != Some(newValue) then closed.(currentValue := Some(newValue), startRow := currentRow)
    else closed
  }

  function Finish(t: Tracker, lastRow: int): Tracker {
    if t.currentValue.Some? then FinishMerge(t, lastRow) else t
  }

  /** The tracker after sheet rows 1..n-1, where row `r` has value `vals[r]`
      and is reported to the tracker only when `firsts[r]` holds. Row 0 is
      the header, which the tracker never sees. */
  function Track(column: nat, vals: seq<string>, firsts: seq<bool>, n: nat): Tracker
    requires 1 <= n <= |vals| == |firsts|
  {
    if n == 1 then NewTracker(column)
    else
      var t := Track(column, vals, firsts, n - 1);
      if firsts[n - 1] then TryFinishAndStart(t, vals[n - 1], n - 1) else t
  }

  /** Rows `lo..hi` all hold the value of row `lo`. */
  predicate ConstantRun(vals: seq<string>, lo: int, hi: int)
    requires 0 <= lo && hi < |vals|
  {
    forall r :: lo <= r <= hi ==> vals[r] == vals[lo]
  }

  /** No run of equal values in rows 1.. extends above row `lo`. */
  predicate RunStartsAt(vals: seq<string>, lo: int)
    requires 1 <= lo < |vals|
  {
    lo == 1 || vals[lo - 1] != vals[lo]
  }

  /** `g` spans a maximal run of at least two equal values within rows
      1..bound-1. */
  predicate MaximalRun(vals: seq<string>, g: Region, bound: int)
    requires bound <= |vals|
  {
    1 <= g.firstRow < g.lastRow < bound
    && ConstantRun(vals, g.firstRow, g.lastRow) && RunStartsAt(vals, g.firstRow)
    && (g.lastRow == bound - 1 || vals[g.lastRow + 1] != vals[g.lastRow])
  }

  /** Rows `r` and `r + 1` lie in one region. */
  predicate Covered(regions: seq<Region>, r: int) {
    exists k :: 0 <= k < |regions| && regions[k].firstRow <= r < regions[k].lastRow
  }

  /** The regions, in row order, are exactly the maximal runs of two or more
      equal values of column `col` within rows 1..bound-1: each region is such
      a run, and any two adjacent equal rows lie in a region. */
  predicate MergedRuns(vals: seq<string>, regions: seq<Region>, col: nat, bound: int)
    requires bound <= |vals|
  {
    (forall k :: 0 <= k < |regions| ==>
       regions[k].firstCol == col && regions[k].lastCol == col && MaximalRun(vals, regions[k], bound))
    && (forall k :: 0 <= k < |regions| - 1 ==> regions[k].lastRow < regions[k + 1].firstRow)
    && (forall r :: 1 <= r < bound - 1 && vals[r] == vals[r + 1] ==> Covered(regions, r))
  }

  /** What holds of a tracker after rows 1..n-1: it follows the run ending at
      row n-1, and its regions are the maximal runs above that run. */
  predicate Tracking(t: Tracker, vals: seq<string>, col: nat, n: nat)
    requires 1 <= n <= |vals|
  {
    t.column == col
    && (n == 1 ==> t.currentValue.None? && t.startRow == -1 && t.regions == [])
    && (n > 1 ==> t.currentValue == Some(vals[n - 1]) && 1 <= t.startRow <= n - 1
                  && ConstantRun(vals, t.startRow, n - 1) && RunStartsAt(vals, t.startRow)
                  && MergedRuns(vals, t.regions, col, t.startRow))
  }

  /** Rows are reported to the tracker at least whenever their value differs
      from the row above, and the first data row is always reported. */
  predicate ReportsChanges(vals: seq<string>, firsts: seq<bool>)
    requires |vals| == |firsts|
  {
    (|firsts| > 1 ==> firsts[1])
    && forall r :: 2 <= r < |firsts| && !firsts[r] ==> vals[r] == vals[r - 1]
  }

  /** The regions after closing the run `s..e`: a region for it when it
      spans two rows or more. */
  function Closed(before: seq<Region>, col: nat, s: int, e: int): seq<Region> {
    before + (if s < e then [Region(s, e, col, col)] else [])
  }

  /** Closing a run that starts a new value keeps the regions exactly the
      maximal runs, now up to the run's last row. */
  lemma CloseRun(vals: seq<string>, before: seq<Region>, col: nat, s: int, e: int)
    requires 1 <= s <= e < |vals|
    requires MergedRuns(vals, before, col, s) && RunStartsAt(vals, s) && ConstantRun(vals, s, e)
    ensures MergedRuns(vals, Closed(before, col, s, e), col, e + 1)
  {
    CloseRunMaximal(vals, before, col, s, e);
    CloseRunOrdered(vals, before, col, s, e);
    CloseRunCovers(vals, before, col, s, e);
  }

  lemma CloseRunMaximal(vals: seq<string>, before: seq<Region>, col: nat, s: int, e: int)
    requires 1 <= s <= e < |vals|
    requires MergedRuns(vals, before, col, s) && RunStartsAt(vals, s) && ConstantRun(vals, s, e)
    ensures var regions := Closed(before, col, s, e);
            forall k :: 0 <= k < |regions| ==>
              regions[k].firstCol == col && regions[k].lastCol == col && MaximalRun(vals, regions[k], e + 1)
  {
    var regions := Closed(before, col, s, e);
    forall k | 0 <= k < |before|
      ensures MaximalRun(vals, before[k], e + 1)
    {
      assert before[k].lastRow < s;
    }
    if s < e {
      assert MaximalRun(vals, regions[|before|], e + 1);
    }
  }

  lemma CloseRunOrdered(vals: seq<string>, before: seq<Region>, col: nat, s: int, e: int)
    requires 1 <= s <= e < |vals|
    requires MergedRuns(vals, before, col, s)
    ensures var regions := Closed(before, col, s, e);
            forall k :: 0 <= k < |regions| - 1 ==> regions[k].lastRow < regions[k + 1].firstRow
  {
    if s < e && before != [] {
      assert MaximalRun(vals, before[|before| - 1], s);
    }
  }

  lemma CloseRunCovers(vals: seq<string>, before: seq<Region>, col: nat, s: int, e: int)
    requires 1 <= s <= e < |vals|
    requires MergedRuns(vals, before, col, s) && RunStartsAt(vals, s) && ConstantRun(vals, s, e)
    ensures forall r :: 1 <= r < e && vals[r] == vals[r + 1] ==> Covered(Closed(before, col, s, e), r)
  {
    var regions := Closed(before, col, s, e);
    forall r | 1 <= r < e && vals[r] == vals[r + 1]
      ensures Covered(regions, r)
    {
      if r < s - 1 {
        var k :| 0 <= k < |before| && before[k].firstRow <= r < before[k].lastRow;
        assert regions[k] == before[k];
      } else {
        assert s <= r;
        assert regions[|before|].firstRow <= r < regions[|before|].lastRow;
      }
    }
  }

  /** A row with a new value closes the run above it and opens its own. */
  lemma TrackNewRun(t: Tracker, vals: seq<string>, col: nat, n: nat)
    requires 2 <= n < |vals| && Tracking(t, vals, col, n) && vals[n] != vals[n - 1]
    ensures Tracking(TryFinishAndStart(t, vals[n], n), vals, col, n + 1)
  {
    CloseRun(vals, t.regions, col, t.startRow, n - 1);
    assert TryFinishAndStart(t, vals[n], n).regions == Closed(t.regions, col, t.startRow, n - 1);
  }

  /** One row more keeps the tracker's invariant. */
  lemma TrackRow(t: Tracker, vals: seq<string>, firsts: seq<bool>, col: nat, n: nat)
    requires 1 <= n < |vals| == |firsts| && ReportsChanges(vals, firsts) && Tracking(t, vals, col, n)
    ensures Tracking(if firsts[n] then TryFinishAndStart(t, vals[n], n) else t, vals, col, n + 1)
  {
    if n > 1 && (firsts[n] ==> vals[n] == vals[n - 1]) {
      assert ConstantRun(vals, t.startRow, n);
    } else if n > 1 {
      TrackNewRun(t, vals, col, n);
    }
  }

  lemma {:induction false} TrackKeepsRuns(col: nat, vals: seq<string>, firsts: seq<bool>, n: nat)
    requires 1 <= n <= |vals| == |firsts| && ReportsChanges(vals, firsts)
    ensures Tracking(Track(col, vals, firsts, n), vals, col, n)
    decreases n
  {
    if n > 1 {
      TrackKeepsRuns(col, vals, firsts, n - 1);
      TrackRow(Track(col, vals, firsts, n - 1), vals, firsts, col, n - 1);
    }
  }

  /** The regions a column tracker leaves behind are exactly the maximal runs
      of two or more equal values over all data rows. */
  lemma TrackedRegions(col: nat, vals: seq<string>, firsts: seq<bool>)
    requires 1 <= |vals| == |firsts| && ReportsChanges(vals, firsts)
    ensures MergedRuns(vals, Finish(Track(col, vals, firsts, |vals|), |vals| - 1).regions, col, |vals|)
  {
    TrackKeepsRuns(col, vals, firsts, |vals|);
    FinishTracked(Track(col, vals, firsts, |vals|), vals, col);
  }

  /** Finishing a tracker that has seen every row closes its last run. */
  lemma FinishTracked(t: Tracker, vals: seq<string>, col: nat)
    requires 1 <= |vals| && Tracking(t, vals, col, |vals|)
    ensures MergedRuns(vals, Finish(t, |vals| - 1).regions, col, |vals|)
  {
    if |vals| > 1 {
      CloseRun(vals, t.regions, col, t.startRow, |vals| - 1);
      assert Finish(t, |vals| - 1).regions == Closed(t.regions, col, t.startRow, |vals| - 1);
    }
  }

  // ---------------------------------------------------------------------------
  // The report
  // ---------------------------------------------------------------------------

  /** The "功能点拆分表" sheet: header and data rows, and the merged regions
      of the trigger-event column, the functional-process column and the
      three leading columns. */
  datatype Report = Report(rows: seq<Row>, triggerRegions: seq<Region>, processRegions: seq<Region>,
                           leadingRegions: seq<Region>)

  /** The values of column `col` by sheet row. */
  function ColumnValues(rows: seq<Row>, col: nat): (r: seq<string>)
    requires forall k :: 0 <= k < |rows| ==> col < |rows[k]|
    ensures |r| == |rows|
  {
    seq(|rows|, k requires 0 <= k < |rows| => rows[k][col])
  }

  /** Which sheet rows are reported to the trackers: the first row of each
      process. */
  function FirstSteps(ps: seq<Process>): (r: seq<bool>)
    ensures |r| == TotalSteps(ps) + 1
  {
    var slots := Slots(ps);
    [true] + seq(|slots|, k requires 0 <= k < |slots| => slots[k].stepIndex == 0)
  }

  /** The three leading columns are merged over all data rows when there are
      at least two. */
  function LeadingRegions(totalRows: nat): (r: seq<Region>)
    ensures totalRows > 1 ==> r == seq(3, c requires 0 <= c < 3 => Region(1, totalRows, c, c))
    ensures totalRows <= 1 ==> r == []
  {
    if totalRows > 1 then [Region(1, totalRows, 0, 0), Region(1, totalRows, 1, 1), Region(1, totalRows, 2, 2)]
    else []
  }

  /** The header row followed by the data rows. */
  function ReportRows(ps: seq<Process>): seq<Row> {
    [REPORT_HEADERS] + DataRows(ps)
  }

  /** Writes the header and one row per step from sheet row 1, tracking runs
      of trigger events and functional processes. */
  function FillData(ps: seq<Process>): (r: Report)
    ensures |r.rows| == TotalSteps(ps) + 1 && r.rows[0] == REPORT_HEADERS && r.rows[1..] == DataRows(ps)
    ensures r.leadingRegions == LeadingRegions(TotalSteps(ps))
  {
    var rows := ReportRows(ps);
    var firsts := FirstSteps(ps);
    var last := |rows| - 1;
    var trigger := Finish(Track(TRIGGER_COL, ColumnValues(rows, TRIGGER_COL), firsts, |rows|), last);
    var process := Finish(Track(PROCESS_COL, ColumnValues(rows, PROCESS_COL), firsts, |rows|), last);
    Report(rows, trigger.regions, process.regions, LeadingRegions(last))
  }

  /** The first rows of processes are reported, and the others repeat the
      trigger event and functional process of the row above. */
  lemma FirstStepsReportChanges(ps: seq<Process>, col: nat)
    requires col == TRIGGER_COL || col == PROCESS_COL
    ensures ReportsChanges(ColumnValues(FillData(ps).rows, col), FirstSteps(ps))
  {
    var rows := FillData(ps).rows;
    var slots := Slots(ps);
    var firsts := FirstSteps(ps);
    SlotsContinue(ps);
    forall r | 2 <= r < |firsts| && !firsts[r]
      ensures rows[r][col] == rows[r - 1][col]
    {
      assert slots[r - 1].stepIndex > 0;
      assert slots[r - 2].process == slots[r - 1].process;
    }
    if |firsts| > 1 {
      assert slots[0].stepIndex == 0;
    }
  }

  /** The trigger-event and functional-process regions are exactly the
      maximal runs of two or more rows with equal text in their column. */
  lemma MergedRegionsAreRuns(ps: seq<Process>)
    ensures var r := FillData(ps);
            MergedRuns(ColumnValues(r.rows, TRIGGER_COL), r.triggerRegions, TRIGGER_COL, |r.rows|)
            && MergedRuns(ColumnValues(r.rows, PROCESS_COL), r.processRegions, PROCESS_COL, |r.rows|)
  {
    FirstStepsReportChanges(ps, TRIGGER_COL);
    FirstStepsReportChanges(ps, PROCESS_COL);
    var rows := FillData(ps).rows;
    TrackedRegions(TRIGGER_COL, ColumnValues(rows, TRIGGER_COL), FirstSteps(ps));
    TrackedRegions(PROCESS_COL, ColumnValues(rows, PROCESS_COL), FirstSteps(ps));
  }

  /** Builds the report; an empty process list is refused. */
  function GenerateExcelReport(ps: seq<Process>): (r: Result<Report>)
    ensures ps == [] <==> r == Err(EMPTY_PROCESSES)
    ensures r.Ok? ==> |r.value.rows| == TotalSteps(ps) + 1 && r.value.rows[0] == REPORT_HEADERS
                      && r.value.rows[1..] == DataRows(ps)
                      && r.value.leadingRegions == LeadingRegions(TotalSteps(ps))
  {
    if ps == [] then Err(EMPTY_PROCESSES) else Ok(FillData(ps))
  }
}
