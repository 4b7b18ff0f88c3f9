/** Reading a generated COSMIC report back: the rows the report writes pass
    every check of the import, and grouping them rebuilds the processes that
    were written, provided they are clean, name a data group on every step
    and differ in trigger event or functional process. */
module CosmicRoundTrip {

  import opened Results
  import opened Text
  import opened CosmicProcesses
  import opened CosmicImport
  import opened CosmicExcel

  /** The rows of a written sheet, every one present. */
  function SheetOf(rows: seq<Row>): (s: Sheet)
    ensures |s| == |rows| && forall k :: 0 <= k < |rows| ==> s[k] == Some(rows[k])
  {
    seq(|rows|, k requires 0 <= k < |rows| => Some(rows[k]))
  }

  /** The entry a data row stands for. */
  function SlotEntry(s: Slot): Entry
    requires s.stepIndex < |s.process.steps|
  {
    Entry(s.process.triggerEvent, s.process.functionalProcess, s.process.steps[s.stepIndex])
  }

  /** The entries of the processes, one per step, in report order. */
  function FlatEntries(ps: seq<Process>): (r: seq<Entry>)
    ensures |r| == TotalSteps(ps)
  {
    EntriesOf(Slots(ps))
  }

  /** The entries of the first `j` steps of `p`. */
  function Block(p: Process, j: nat): (r: seq<Entry>)
    requires j <= |p.steps|
    ensures |r| == j
  {
    seq(j, m requires 0 <= m < j => Entry(p.triggerEvent, p.functionalProcess, p.steps[m]))
  }

  lemma FlatEntriesSnoc(ps: seq<Process>)
    requires ps != []
    ensures FlatEntries(ps) == FlatEntries(ps[..|ps| - 1]) + Block(ps[|ps| - 1], |ps[|ps| - 1].steps|)
  {
  }

  /** Processes a report can carry through an import unchanged. */
  predicate Exportable(ps: seq<Process>) {
    ps != []
    && forall i :: 0 <= i < |ps| ==>
         CleanProcess(ps[i]) && forall j :: 0 <= j < |ps[i].steps| ==> HasText(ps[i].steps[j].dataGroup)
  }

  predicate DistinctKeys(ps: seq<Process>) {
    forall i, j :: 0 <= i < j < |ps| ==> KeyOf(ps[i]) != KeyOf(ps[j])
  }

  // ---------------------------------------------------------------------------
  // Reading the written cells
  // ---------------------------------------------------------------------------

  /** A single supported movement letter has text and is its own trim. */
  lemma MovementTrimmed(m: string)
    requires IsMovementType(m)
    ensures JavaTrim(m) == m && HasText(m)
  {
    Unpadded(m);
  }

  /** A trimmed value written to a cell reads back unchanged. */
  lemma CellRead(row: Row, col: nat, v: string)
    requires col < |row| && row[col] == v && JavaTrim(v) == v
    ensures Cell(row, col) == v
  {
  }

  /** The cells a data row holds. */
  function SlotCells(s: Slot): Cells
    requires s.stepIndex < |s.process.steps|
  {
    var step := s.process.steps[s.stepIndex];
    Cells(s.process.triggerEvent, s.process.functionalProcess, step.subProcessDesc, step.dataMovementType,
          step.dataGroup, step.dataAttributes)
  }

  /** Every field of a clean step is its own trim. */
  lemma CleanStepTrimmed(step: Step)
    requires CleanStep(step)
    ensures JavaTrim(step.subProcessDesc) == step.subProcessDesc && JavaTrim(step.dataMovementType) == step.dataMovementType
    ensures JavaTrim(step.dataGroup) == step.dataGroup && JavaTrim(step.dataAttributes) == step.dataAttributes
  {
    MovementTrimmed(step.dataMovementType);
  }

  /** Where a step row puts the process's and the step's values. */
  lemma StepRowCells(p: Process, step: Step)
    ensures var row := StepRow(p, step);
            && row[TRIGGER_COL] == p.triggerEvent && row[PROCESS_COL] == p.functionalProcess
            && row[SUB_PROCESS_COL] == step.subProcessDesc && row[MOVEMENT_COL] == step.dataMovementType
            && row[GROUP_COL] == step.dataGroup && row[ATTRIBUTES_COL] == step.dataAttributes
  {
  }

  /** Reading a step row whose values are all trimmed returns the values written. */
  lemma StepRowRead(p: Process, step: Step)
    requires JavaTrim(p.triggerEvent) == p.triggerEvent && JavaTrim(p.functionalProcess) == p.functionalProcess
    requires JavaTrim(step.subProcessDesc) == step.subProcessDesc && JavaTrim(step.dataMovementType) == step.dataMovementType
    requires JavaTrim(step.dataGroup) == step.dataGroup && JavaTrim(step.dataAttributes) == step.dataAttributes
    ensures ReadRow(StepRow(p, step))
            == Cells(p.triggerEvent, p.functionalProcess, step.subProcessDesc, step.dataMovementType, step.dataGroup,
                     step.dataAttributes)
  {
    var row := StepRow(p, step);
    StepRowCells(p, step);
    CellRead(row, TRIGGER_COL, p.triggerEvent);
    CellRead(row, PROCESS_COL, p.functionalProcess);
    CellRead(row, SUB_PROCESS_COL, step.subProcessDesc);
    CellRead(row, MOVEMENT_COL, step.dataMovementType);
    CellRead(row, GROUP_COL, step.dataGroup);
    CellRead(row, ATTRIBUTES_COL, step.dataAttributes);
  }

  /** The report's header is the header the import expects. */
  lemma HeaderRead()
    ensures ValidateHeader(HeaderNames(ReadRow(REPORT_HEADERS)), 0).Ok?
  {
    Unpadded(REPORT_HEADERS[3]);
    Unpadded(REPORT_HEADERS[4]);
    Unpadded(REPORT_HEADERS[5]);
    Unpadded(REPORT_HEADERS[6]);
    Unpadded(REPORT_HEADERS[7]);
    Unpadded(REPORT_HEADERS[8]);
    assert HeaderNames(ReadRow(REPORT_HEADERS)) == EXPECTED_HEADERS;
  }

  /** Every slot belongs to one of the processes. */
  lemma {:induction false} SlotInList(ps: seq<Process>, k: nat)
    requires k < |Slots(ps)|
    ensures exists i :: 0 <= i < |ps| && ps[i] == Slots(ps)[k].process
    decreases |ps|
  {
    var init := ps[..|ps| - 1];
    if k < |Slots(init)| {
      SlotInList(init, k);
      var i :| 0 <= i < |init| && init[i] == Slots(init)[k].process;
      assert ps[i] == init[i];
    } else {
      assert Slots(ps)[k].process == ps[|ps| - 1];
    }
  }

  /** The cells the import requires to have text do. */
  predicate ReadyRow(c: Cells) {
    HasText(c.trigger) && HasText(c.functionalProcess) && HasText(c.subProcessDesc)
    && HasText(c.dataMovementType) && HasText(c.dataGroup)
  }

  /** The table holds a header and, below it, the ready cells of the slots in order. */
  predicate HoldsSlots(t: Table, slots: seq<Slot>) {
    |t| == |slots| + 1
    && forall k :: 0 <= k < |slots| ==>
         slots[k].stepIndex < |slots[k].process.steps| && t[k + 1] == Some(SlotCells(slots[k]))
         && ReadyRow(SlotCells(slots[k]))
  }

  /** The entries of the slots, in order. */
  function EntriesOf(slots: seq<Slot>): (r: seq<Entry>)
    requires forall k :: 0 <= k < |slots| ==> slots[k].stepIndex < |slots[k].process.steps|
    ensures |r| == |slots|
  {
    seq(|slots|, k requires 0 <= k < |slots| => SlotEntry(slots[k]))
  }

  /** A ready data row has no problem and stands for its slot's entry. */
  lemma DataRowEntry(t: Table, i: nat, s: Slot)
    requires 1 <= i < |t| && s.stepIndex < |s.process.steps| && t[i] == Some(SlotCells(s)) && ReadyRow(SlotCells(s))
    ensures !Skipped(t, i) && RowError(t, i).None? && RowEntry(t, i) == SlotEntry(s)
  {
    assert TextAt(t, i, TriggerColumn) && TextAt(t, i, ProcessColumn);
  }

  /** No row of such a table has a problem. */
  lemma SlotRowsClean(t: Table, slots: seq<Slot>)
    requires HoldsSlots(t, slots)
    ensures forall i :: 1 <= i < |t| ==> RowError(t, i).None?
  {
    forall i | 1 <= i < |t|
      ensures RowError(t, i).None?
    {
      DataRowEntry(t, i, slots[i - 1]);
    }
  }

  /** Rows that are all kept and stand for the listed entries yield those entries. */
  lemma {:induction false} EntriesAsListed(t: Table, es: seq<Entry>, n: nat)
    requires 1 <= n <= |t| && n - 1 <= |es|
    requires forall i :: 1 <= i < n ==> !Skipped(t, i) && RowEntry(t, i) == es[i - 1]
    ensures EntriesUpTo(t, n) == es[..n - 1]
    decreases n
  {
    if n > 1 {
      EntriesAsListed(t, es, n - 1);
      assert es[..n - 1] == es[..n - 2] + [es[n - 2]];
    }
  }

  /** Every data row of such a table is kept, has no problem and stands for
      its slot's entry. */
  lemma SlotRowsListed(t: Table, slots: seq<Slot>)
    requires HoldsSlots(t, slots)
    ensures |EntriesOf(slots)| == |t| - 1
    ensures forall i :: 1 <= i < |t| ==>
              RowError(t, i).None? && !Skipped(t, i) && RowEntry(t, i) == EntriesOf(slots)[i - 1]
  {
    forall i | 1 <= i < |t|
      ensures RowError(t, i).None? && !Skipped(t, i) && RowEntry(t, i) == EntriesOf(slots)[i - 1]
    {
      DataRowEntry(t, i, slots[i - 1]);
    }
  }

  /** A table whose rows are all kept, free of problems and standing for the
      listed entries extracts to those entries. */
  lemma ExtractListed(t: Table, es: seq<Entry>)
    requires |t| >= 1 && |es| == |t| - 1
    requires forall i :: 1 <= i < |t| ==> RowError(t, i).None? && !Skipped(t, i) && RowEntry(t, i) == es[i - 1]
    ensures ExtractUpTo(t, |t|) == Ok(es)
  {
    EntriesAsListed(t, es, |t|);
    assert es[..|t| - 1] == es;
    ExtractUpToClean(t, |t|);
  }

  /** Such a table extracts to the slots' entries. */
  lemma ReadBack(t: Table, slots: seq<Slot>)
    requires HoldsSlots(t, slots)
    ensures ExtractUpTo(t, |t|) == Ok(EntriesOf(slots))
  {
    SlotRowsListed(t, slots);
    ExtractListed(t, EntriesOf(slots));
  }

  /** The step in slot `k` of exportable processes is written trimmed and
      has text wherever the import requires it. */
  lemma SlotReady(ps: seq<Process>, k: nat)
    requires Exportable(ps) && k < |Slots(ps)|
    ensures var s := Slots(ps)[k];
            var step := s.process.steps[s.stepIndex];
            JavaTrim(s.process.triggerEvent) == s.process.triggerEvent
            && JavaTrim(s.process.functionalProcess) == s.process.functionalProcess
            && JavaTrim(step.subProcessDesc) == step.subProcessDesc && JavaTrim(step.dataMovementType) == step.dataMovementType
            && JavaTrim(step.dataGroup) == step.dataGroup && JavaTrim(step.dataAttributes) == step.dataAttributes
            && ReadyRow(SlotCells(s))
  {
    var s := Slots(ps)[k];
    SlotInList(ps, k);
    var step := s.process.steps[s.stepIndex];
    assert CleanStep(step) && HasText(step.dataGroup);
    CleanStepTrimmed(step);
    MovementTrimmed(step.dataMovementType);
  }

  /** A sheet row holding a slot's step, written trimmed, reads back as the
      slot's cells. */
  lemma SlotRowRead(sheet: Sheet, i: nat, s: Slot)
    requires i < |sheet| && s.stepIndex < |s.process.steps|
    requires sheet[i] == Some(StepRow(s.process, s.process.steps[s.stepIndex]))
    requires var step := s.process.steps[s.stepIndex];
             JavaTrim(s.process.triggerEvent) == s.process.triggerEvent
             && JavaTrim(s.process.functionalProcess) == s.process.functionalProcess
             && JavaTrim(step.subProcessDesc) == step.subProcessDesc && JavaTrim(step.dataMovementType) == step.dataMovementType
             && JavaTrim(step.dataGroup) == step.dataGroup && JavaTrim(step.dataAttributes) == step.dataAttributes
    ensures ReadSheet(sheet)[i] == Some(SlotCells(s))
  {
    StepRowRead(s.process, s.process.steps[s.stepIndex]);
  }

  /** Data row `k` of a report of exportable processes reads back as its slot's ready cells. */
  lemma ReportRowRead(ps: seq<Process>, k: nat)
    requires Exportable(ps) && k < |Slots(ps)|
    ensures var s := Slots(ps)[k];
            ReadSheet(SheetOf(ReportRows(ps)))[k + 1] == Some(SlotCells(s)) && ReadyRow(SlotCells(s))
  {
    SlotReady(ps, k);
    ReportRowAt(ps, k);
    SlotRowRead(SheetOf(ReportRows(ps)), k + 1, Slots(ps)[k]);
  }

  /** Sheet row `k + 1` of the report holds the step in slot `k`. */
  lemma ReportRowAt(ps: seq<Process>, k: nat)
    requires k < |Slots(ps)|
    ensures var s := Slots(ps)[k];
            k + 1 < |SheetOf(ReportRows(ps))|
            && SheetOf(ReportRows(ps))[k + 1] == Some(StepRow(s.process, s.process.steps[s.stepIndex]))
  {
  }

  lemma ReportHoldsSlots(ps: seq<Process>)
    requires Exportable(ps)
    ensures HoldsSlots(ReadSheet(SheetOf(ReportRows(ps))), Slots(ps))
  {
    forall k | 0 <= k < |Slots(ps)|
      ensures ReadSheet(SheetOf(ReportRows(ps)))[k + 1] == Some(SlotCells(Slots(ps)[k]))
              && ReadyRow(SlotCells(Slots(ps)[k]))
    {
      ReportRowRead(ps, k);
    }
  }

  // ---------------------------------------------------------------------------
  // Grouping the written steps
  // ---------------------------------------------------------------------------

  /** Grouping continued from the processes `gs`. */
  function GroupOnto(gs: seq<Process>, es: seq<Entry>): seq<Process> {
    if es == [] then gs else AddEntry(GroupOnto(gs, es[..|es| - 1]), es[|es| - 1])
  }

  /** Grouping a concatenation groups the second part onto the groups of the first. */
  lemma {:induction false} GroupConcat(a: seq<Entry>, b: seq<Entry>)
    ensures Group(a + b) == GroupOnto(Group(a), b)
    decreases |b|
  {
    if b == [] {
      assert a + b == a;
    } else {
      var init := b[..|b| - 1];
      assert (a + b)[..|a + b| - 1] == a + init;
      GroupConcat(a, init);
    }
  }

  /** The steps of a process with a new key, grouped onto processes with
      other keys, form one new process at the end. */
  lemma {:induction false} GroupBlock(gs: seq<Process>, p: Process, j: nat)
    requires 1 <= j <= |p.steps|
    requires forall m :: 0 <= m < |gs| ==> KeyOf(gs[m]) != KeyOf(p)
    ensures GroupOnto(gs, Block(p, j)) == gs + [Process(p.triggerEvent, p.functionalProcess, p.steps[..j])]
    decreases j
  {
    var b := Block(p, j);
    var e := b[j - 1];
    if j == 1 {
      assert b[..0] == [];
      assert FindKey(gs, Key(e)) == |gs|;
      assert p.steps[..1] == [p.steps[0]];
    } else {
      assert b[..j - 1] == Block(p, j - 1);
      GroupBlock(gs, p, j - 1);
      var before := gs + [Process(p.triggerEvent, p.functionalProcess, p.steps[..j - 1])];
      assert KeyOf(before[|gs|]) == Key(e);
      assert forall m :: 0 <= m < |gs| ==> before[m] == gs[m];
      assert FindKey(before, Key(e)) == |gs|;
      assert p.steps[..j - 1] + [p.steps[j - 1]] == p.steps[..j];
    }
  }

  /** Grouping the written steps rebuilds the processes when their keys are distinct. */
  lemma {:induction false} GroupWritten(ps: seq<Process>)
    requires DistinctKeys(ps) && forall i :: 0 <= i < |ps| ==> ps[i].steps != []
    ensures Group(FlatEntries(ps)) == ps
    decreases |ps|
  {
    if ps != [] {
      var init := ps[..|ps| - 1];
      var p := ps[|ps| - 1];
      forall i, j | 0 <= i < j < |init|
        ensures KeyOf(init[i]) != KeyOf(init[j]) && init[i].steps != []
      {
        assert init[i] == ps[i] && init[j] == ps[j];
      }
      forall m | 0 <= m < |init|
        ensures KeyOf(init[m]) != KeyOf(p) && init[m].steps != []
      {
        assert init[m] == ps[m];
      }
      GroupWritten(init);
      calc {
        Group(FlatEntries(ps));
        == { FlatEntriesSnoc(ps); }
        Group(FlatEntries(init) + Block(p, |p.steps|));
        == { GroupConcat(FlatEntries(init), Block(p, |p.steps|)); }
        GroupOnto(init, Block(p, |p.steps|));
        == { GroupBlock(init, p, |p.steps|); assert p.steps[..|p.steps|] == p.steps; }
        init + [p];
      }
      assert init + [p] == ps;
    }
  }

  /** The first row of the report reads as the expected header. */
  lemma ReportHeaderRead(ps: seq<Process>)
    ensures var t := ReadSheet(SheetOf(ReportRows(ps)));
            |t| > 0 && t[0].Some? && ValidateHeader(HeaderNames(t[0].value), 0).Ok?
  {
    var sheet := SheetOf(ReportRows(ps));
    assert sheet[0] == Some(REPORT_HEADERS);
    SheetRowRead(sheet, 0);
    HeaderRead();
  }

  /** Reading a present sheet row reads its cells. */
  lemma SheetRowRead(sheet: Sheet, i: nat)
    requires i < |sheet| && sheet[i].Some?
    ensures ReadSheet(sheet)[i] == Some(ReadRow(sheet[i].value))
  {
  }

  /** The rows of a report read back as the processes' steps, in order. */
  lemma ReportReadBack(ps: seq<Process>)
    requires Exportable(ps)
    ensures var t := ReadSheet(SheetOf(ReportRows(ps)));
            ExtractUpTo(t, |t|) == Ok(FlatEntries(ps))
  {
    ReportHoldsSlots(ps);
    ReadBack(ReadSheet(SheetOf(ReportRows(ps))), Slots(ps));
  }

  /** A generated report, read back, passes the header check and every row
      check, and its steps group and sanitise to the processes written. */
  lemma ExportThenImport(ps: seq<Process>)
    requires Exportable(ps) && DistinctKeys(ps)
    ensures var t := ReadSheet(SheetOf(FillData(ps).rows));
            |t| > 0 && t[0].Some?
            && ValidateHeader(HeaderNames(t[0].value), 0).Ok?
            && ExtractUpTo(t, |t|) == Ok(FlatEntries(ps))
            && GroupSpec(FlatEntries(ps)) == ps
            && SanitizeProcesses(ps) == Ok(ps)
  {
    assert FillData(ps).rows == ReportRows(ps);
    ReportHeaderRead(ps);
    ReportReadBack(ps);
    GroupWritten(ps);
    GroupByFirstOccurrence(FlatEntries(ps));
    CleanProcessesFixed(ps);
  }
}
