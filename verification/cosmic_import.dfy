/** Reading COSMIC processes back from the "功能点拆分表" sheet of an uploaded
    workbook. Columns D..I hold trigger event, functional process,
    sub-process description, data movement type, data group and data
    attributes. Trigger event and functional process are written once per
    group and carried down to the rows below; every other non-blank row is a
    step of the process named by the carried pair. A second import reads only
    the functional-process column and skips the covered cells of merged
    regions. */
module CosmicImport {

  import opened Results
  import opened Text
  import opened CosmicProcesses

  /** The text of a row's cells by column; a missing cell reads as "". */
  type Row = seq<string>

  /** A sheet's rows by row number; row 0 is the header and an absent row is `None`. */
  type Sheet = seq<Option<Row>>

  const TRIGGER_COL: nat := 3
  const PROCESS_COL: nat := 4
  const SUB_PROCESS_COL: nat := 5
  const MOVEMENT_COL: nat := 6
  const GROUP_COL: nat := 7
  const ATTRIBUTES_COL: nat := 8

  /** The trimmed text of a cell. */
  function Cell(row: Row, col: nat): string {
    JavaTrim(if col < |row| then row[col] else "")
  }

  /** The six columns of a row as the import reads them, each trimmed. */
  datatype Cells = Cells(trigger: string, functionalProcess: string, subProcessDesc: string,
                         dataMovementType: string, dataGroup: string, dataAttributes: string)

  function ReadRow(row: Row): Cells {
    Cells(Cell(row, TRIGGER_COL), Cell(row, PROCESS_COL), Cell(row, SUB_PROCESS_COL),
          Cell(row, MOVEMENT_COL), Cell(row, GROUP_COL), Cell(row, ATTRIBUTES_COL))
  }

  /** The rows of a sheet, read. */
  type Table = seq<Option<Cells>>

  function ReadSheet(sheet: Sheet): (t: Table)
    ensures |t| == |sheet|
    ensures forall i :: 0 <= i < |sheet| ==> t[i].Some? == sheet[i].Some?
  {
    seq(|sheet|, i requires 0 <= i < |sheet| => if sheet[i].None? then None else Some(ReadRow(sheet[i].value)))
  }

  /** The two columns whose values are carried down. */
  datatype Carry = TriggerColumn | ProcessColumn

  function Field(c: Cells, col: Carry): string {
    match col
    case TriggerColumn => c.trigger
    case ProcessColumn => c.functionalProcess
  }

  /** Row `j` exists and has text in column `col`. */
  predicate TextAt(t: Table, j: nat, col: Carry)
    requires j < |t|
  {
    t[j].Some? && HasText(Field(t[j].value, col))
  }

  /** None of the six columns has text. */
  predicate BlankRow(c: Cells) {
    !HasText(c.trigger) && !HasText(c.functionalProcess) && !HasText(c.subProcessDesc)
    && !HasText(c.dataMovementType) && !HasText(c.dataGroup) && !HasText(c.dataAttributes)
  }

  /** Absent and blank rows are passed over. */
  predicate Skipped(t: Table, i: nat)
    requires i < |t|
  {
    t[i].None? || BlankRow(t[i].value)
  }

  // ---------------------------------------------------------------------------
  // Carrying trigger event and functional process down
  // ---------------------------------------------------------------------------

  /** The value of column `col` in force at row `i`, as the import keeps it:
      a row with text there replaces it, any other row leaves it. */
  function Carried(t: Table, i: nat, col: Carry): string
    requires i < |t|
  {
    if i == 0 then ""
    else if TextAt(t, i, col) then Field(t[i].value, col)
    else Carried(t, i - 1, col)
  }

  /** The nearest row at or above `i`, below the header, with text in `col`;
      0 when there is none. */
  function NearestTextRow(t: Table, i: nat, col: Carry): (r: nat)
    requires i < |t|
    ensures r <= i
    ensures r > 0 ==> TextAt(t, r, col)
    ensures forall k :: r < k <= i ==> !TextAt(t, k, col)
  {
    if i == 0 then 0
    else if TextAt(t, i, col) then i
    else NearestTextRow(t, i - 1, col)
  }

  /** The carried value is the text of the nearest row with text, and there
      is a carried value exactly when such a row exists. */
  lemma {:induction false} CarriedIsNearest(t: Table, i: nat, col: Carry)
    requires i < |t|
    ensures var j := NearestTextRow(t, i, col);
            Carried(t, i, col) == (if j == 0 then "" else Field(t[j].value, col))
    ensures HasText(Carried(t, i, col)) <==> NearestTextRow(t, i, col) > 0
    decreases i
  {
    if i > 0 && !TextAt(t, i, col) {
      CarriedIsNearest(t, i - 1, col);
    }
  }

  // ---------------------------------------------------------------------------
  // Row checks
  // ---------------------------------------------------------------------------

  /** The message for row number `i` (shown one-based). */
  function RowMessage(i: nat, problem: string): string {
    "第 " + NatToString(i + 1) + " 行" + problem
  }

  /** The first problem of row `i` with the carried values `trigger` and
      `process`, checked in the order of the import: carried trigger,
      carried process, description, movement type, data group. */
  function RowProblem(i: nat, c: Cells, trigger: string, process: string): (r: Option<string>)
    ensures r.None? <==> HasText(trigger) && HasText(process) && HasText(c.subProcessDesc)
                         && HasText(c.dataMovementType) && HasText(c.dataGroup)
    ensures !HasText(trigger) ==> r == Some(RowMessage(i, "缺少触发事件"))
  {
    if !HasText(trigger) then Some(RowMessage(i, "缺少触发事件"))
    else if !HasText(process) then Some(RowMessage(i, "缺少功能过程"))
    else if !HasText(c.subProcessDesc) then Some(RowMessage(i, "子过程描述不能为空"))
    else if !HasText(c.dataMovementType) then Some(RowMessage(i, "数据移动类型不能为空"))
    else if !HasText(c.dataGroup) then Some(RowMessage(i, "数据组不能为空"))
    else None
  }

  /** The problem of row `i` of a table; skipped rows have none. */
  function RowError(t: Table, i: nat): Option<string>
    requires 1 <= i < |t|
  {
    if Skipped(t, i) then None
    else RowProblem(i, t[i].value, Carried(t, i, TriggerColumn), Carried(t, i, ProcessColumn))
  }

  /** A step together with the trigger event and functional process it belongs to. */
  datatype Entry = Entry(trigger: string, functionalProcess: string, step: Step)

  function StepOf(c: Cells): Step {
    Step(c.subProcessDesc, c.dataMovementType, c.dataGroup, c.dataAttributes)
  }

  /** The entry row `i` contributes. */
  function RowEntry(t: Table, i: nat): Entry
    requires 1 <= i < |t| && t[i].Some?
  {
    Entry(Carried(t, i, TriggerColumn), Carried(t, i, ProcessColumn), StepOf(t[i].value))
  }

  /** The entries of rows 1..n-1, in row order, one per row that is not skipped. */
  function EntriesUpTo(t: Table, n: nat): seq<Entry>
    requires n <= |t|
  {
    if n <= 1 then []
    else EntriesUpTo(t, n - 1) + (if Skipped(t, n - 1) then [] else [RowEntry(t, n - 1)])
  }

  /** An entry whose every required part has text. */
  predicate CompleteEntry(e: Entry) {
    HasText(e.trigger) && HasText(e.functionalProcess) && HasText(e.step.subProcessDesc)
    && HasText(e.step.dataMovementType) && HasText(e.step.dataGroup)
  }

  /** Every entry of a table without row errors is complete. */
  lemma {:induction false} EntriesComplete(t: Table, n: nat)
    requires n <= |t|
    requires forall i :: 1 <= i < n ==> RowError(t, i).None?
    ensures forall e :: e in EntriesUpTo(t, n) ==> CompleteEntry(e)
    decreases n
  {
    if n > 1 {
      EntriesComplete(t, n - 1);
      if !Skipped(t, n - 1) {
        assert RowError(t, n - 1).None?;
        assert CompleteEntry(RowEntry(t, n - 1));
      }
    }
  }

  /** The walk over rows 1..n-1: the first row with a problem fails it,
      otherwise it yields the entries of the rows that are not skipped. */
  function ExtractUpTo(t: Table, n: nat): (r: Result<seq<Entry>>)
    requires n <= |t|
    ensures r.Ok? ==> |r.value| <= n
    ensures r.Err? ==> exists i :: 1 <= i < n && RowError(t, i) == Some(r.error)
  {
    if n <= 1 then Ok([])
    else
      var prev :- ExtractUpTo(t, n - 1);
      var problem := RowError(t, n - 1);
      if problem.Some? then Err(problem.value)
      else Ok(prev + (if Skipped(t, n - 1) then [] else [RowEntry(t, n - 1)]))
  }

  /** A walk over rows without problems yields their entries. */
  lemma {:induction false} ExtractUpToClean(t: Table, n: nat)
    requires n <= |t|
    requires forall i :: 1 <= i < n ==> RowError(t, i).None?
    ensures ExtractUpTo(t, n) == Ok(EntriesUpTo(t, n))
    decreases n
  {
    if n > 1 {
      ExtractUpToClean(t, n - 1);
    }
  }

  /** A successful walk yields the entries of the rows it passed. */
  lemma {:induction false} ExtractUpToValue(t: Table, n: nat)
    requires n <= |t| && ExtractUpTo(t, n).Ok?
    ensures ExtractUpTo(t, n).value == EntriesUpTo(t, n)
    decreases n
  {
    if n > 1 {
      ExtractUpToValue(t, n - 1);
    }
  }

  /** The walk succeeds exactly when no row has a problem, yields every
      entry in row order, and otherwise reports the first problem. */
  lemma {:induction false} ExtractUpToSpec(t: Table, n: nat)
    requires n <= |t|
    ensures ExtractUpTo(t, n).Ok? <==> forall i :: 1 <= i < n ==> RowError(t, i).None?
    ensures ExtractUpTo(t, n).Ok? ==> ExtractUpTo(t, n).value == EntriesUpTo(t, n)
    ensures ExtractUpTo(t, n).Err? ==>
              exists i :: 1 <= i < n && RowError(t, i) == Some(ExtractUpTo(t, n).error)
                          && forall k :: 1 <= k < i ==> RowError(t, k).None?
    decreases n
  {
    if n > 1 {
      ExtractUpToSpec(t, n - 1);
    }
  }

  /** Once the walk has failed, later rows do not change its result. */
  lemma {:induction false} ExtractFailureStays(t: Table, n: nat, m: nat)
    requires n <= m <= |t| && ExtractUpTo(t, n).Err?
    ensures ExtractUpTo(t, m) == ExtractUpTo(t, n)
  {
    ExtractUpToSpec(t, n);
    ExtractUpToSpec(t, m);
    var i :| 1 <= i < n && RowError(t, i) == Some(ExtractUpTo(t, n).error)
             && forall k :: 1 <= k < i ==> RowError(t, k).None?;
    var j :| 1 <= j < m && RowError(t, j) == Some(ExtractUpTo(t, m).error)
             && forall k :: 1 <= k < j ==> RowError(t, k).None?;
    assert i == j;
  }

  /** The value a row leaves carried: its own text if it has any, else the
      value carried so far. */
  function CarryOn(row: Option<Cells>, col: Carry, carried: string): string {
    if row.Some? && HasText(Field(row.value, col)) then Field(row.value, col) else carried
  }

  /** One row of the walk: the carried values advance, and the row's problem
      and entry are those the reference walk sees. */
  lemma ExtractRow(t: Table, i: nat, trigger: string, process: string, entries: seq<Entry>)
    requires 1 <= i < |t|
    requires trigger == Carried(t, i - 1, TriggerColumn) && process == Carried(t, i - 1, ProcessColumn)
    requires ExtractUpTo(t, i) == Ok(entries)
    ensures CarryOn(t[i], TriggerColumn, trigger) == Carried(t, i, TriggerColumn)
    ensures CarryOn(t[i], ProcessColumn, process) == Carried(t, i, ProcessColumn)
    ensures Skipped(t, i) ==> ExtractUpTo(t, i + 1) == Ok(entries)
    ensures !Skipped(t, i) ==>
              var trigger', process' := CarryOn(t[i], TriggerColumn, trigger), CarryOn(t[i], ProcessColumn, process);
              var problem := RowProblem(i, t[i].value, trigger', process');
              ExtractUpTo(t, i + 1)
              == if problem.Some? then Err(problem.value) else Ok(entries + [Entry(trigger', process', StepOf(t[i].value))])
  {
    assert entries + [] == entries;
  }

  /** The rows below the header in order, carrying trigger event and
      functional process down; the first row with a problem fails the import. */
  method ExtractEntries(t: Table) returns (r: Result<seq<Entry>>)
    ensures r == ExtractUpTo(t, |t|)
  {
    if |t| <= 1 {
      return Ok([]);
    }
    var trigger := "";
    var process := "";
    var entries: seq<Entry> := [];
    var rowIndex := 1;
    while rowIndex < |t|
      invariant 1 <= rowIndex <= |t|
      invariant trigger == Carried(t, rowIndex - 1, TriggerColumn)
      invariant process == Carried(t, rowIndex - 1, ProcessColumn)
      invariant ExtractUpTo(t, rowIndex) == Ok(entries)
    {
      ExtractRow(t, rowIndex, trigger, process, entries);
      trigger := CarryOn(t[rowIndex], TriggerColumn, trigger);
      process := CarryOn(t[rowIndex], ProcessColumn, process);
      if t[rowIndex].Some? && !BlankRow(t[rowIndex].value) {
        var problem := RowProblem(rowIndex, t[rowIndex].value, trigger, process);
        if problem.Some? {
          ExtractFailureStays(t, rowIndex + 1, |t|);
          return Err(problem.value);
        }
        entries := entries + [Entry(trigger, process, StepOf(t[rowIndex].value))];
      }
      rowIndex := rowIndex + 1;
    }
    return Ok(entries);
  }

  // ---------------------------------------------------------------------------
  // Grouping
  // ---------------------------------------------------------------------------

  /** The pair a process is identified by. */
  function Key(e: Entry): (string, string) {
    (e.trigger, e.functionalProcess)
  }

  function KeyOf(p: Process): (string, string) {
    (p.triggerEvent, p.functionalProcess)
  }

  /** The distinct keys of the entries, in order of first occurrence. */
  function Keys(es: seq<Entry>): (r: seq<(string, string)>)
    ensures forall i, j :: 0 <= i < j < |r| ==> r[i] != r[j]
    ensures forall i :: 0 <= i < |es| ==> Key(es[i]) in r
    ensures forall k :: k in r ==> exists i :: 0 <= i < |es| && Key(es[i]) == k
  {
    if es == [] then []
    else
      var init := es[..|es| - 1];
      var ks := Keys(init);
      assert forall i :: 0 <= i < |init| ==> init[i] == es[i];
      if Key(es[|es| - 1]) in ks then ks else ks + [Key(es[|es| - 1])]
  }

  /** The steps of the entries with key `k`, in order. */
  function StepsFor(es: seq<Entry>, k: (string, string)): seq<Step> {
    if es == [] then []
    else StepsFor(es[..|es| - 1], k) + (if Key(es[|es| - 1]) == k then [es[|es| - 1].step] else [])
  }

  /** The reference grouping: one process per distinct key in order of first
      occurrence, holding exactly the steps with that key in row order. */
  function GroupSpec(es: seq<Entry>): seq<Process> {
    var ks := Keys(es);
    seq(|ks|, i requires 0 <= i < |ks| => Process(ks[i].0, ks[i].1, StepsFor(es, ks[i])))
  }

  /** Position of the first process with key `k`, or the length when there is none. */
  function FindKey(gs: seq<Process>, k: (string, string)): (r: nat)
    ensures r <= |gs|
    ensures r < |gs| ==> KeyOf(gs[r]) == k
    ensures forall j :: 0 <= j < r ==> KeyOf(gs[j]) != k
  {
    if gs == [] then 0
    else if KeyOf(gs[0]) == k then 0
    else 1 + FindKey(gs[1..], k)
  }

  /** Adds an entry's step to the process with its key, opening a new process
      at the end for a key not seen yet. */
  function AddEntry(gs: seq<Process>, e: Entry): (r: seq<Process>)
    ensures |gs| <= |r| <= |gs| + 1
    ensures r != []
  {
    var i := FindKey(gs, Key(e));
    if i < |gs| then gs[i := gs[i].(steps := gs[i].steps + [e.step])]
    else gs + [Process(e.trigger, e.functionalProcess, [e.step])]
  }

  /** The grouping the import performs, entry by entry. */
  function Group(es: seq<Entry>): (r: seq<Process>)
    ensures |r| <= |es|
    ensures r == [] <==> es == []
  {
    if es == [] then [] else AddEntry(Group(es[..|es| - 1]), es[|es| - 1])
  }

  /** A key no entry carries has no steps. */
  lemma {:induction false} StepsForAbsent(es: seq<Entry>, k: (string, string))
    requires k !in Keys(es)
    ensures StepsFor(es, k) == []
    decreases |es|
  {
    if es != [] {
      var init := es[..|es| - 1];
      assert k != Key(es[|es| - 1]);
      forall i | 0 <= i < |init| ensures Key(init[i]) != k {
        assert init[i] == es[i];
      }
      StepsForAbsent(init, k);
    }
  }

  /** Adding an entry whose key is already present matches the reference
      grouping of the longer sequence. */
  lemma AddToKnownKey(es: seq<Entry>)
    requires es != [] && Key(es[|es| - 1]) in Keys(es[..|es| - 1])
    ensures GroupSpec(es) == AddEntry(GroupSpec(es[..|es| - 1]), es[|es| - 1])
  {
    var init := es[..|es| - 1];
    var e := es[|es| - 1];
    var ks := Keys(init);
    var gs := GroupSpec(init);
    assert Keys(es) == ks;
    var w :| 0 <= w < |ks| && ks[w] == Key(e);
    assert KeyOf(gs[w]) == Key(e);
    var i := FindKey(gs, Key(e));
    assert i == w;
    var lhs := GroupSpec(es);
    var rhs := gs[w := gs[w].(steps := gs[w].steps + [e.step])];
    forall j | 0 <= j < |lhs| ensures lhs[j] == rhs[j] {
      assert StepsFor(es, ks[j]) == StepsFor(init, ks[j]) + (if Key(e) == ks[j] then [e.step] else []);
    }
    assert lhs == rhs;
  }

  /** Adding an entry with a new key matches the reference grouping of the
      longer sequence. */
  lemma AddNewKey(es: seq<Entry>)
    requires es != [] && Key(es[|es| - 1]) !in Keys(es[..|es| - 1])
    ensures GroupSpec(es) == AddEntry(GroupSpec(es[..|es| - 1]), es[|es| - 1])
  {
    var init := es[..|es| - 1];
    var e := es[|es| - 1];
    var ks := Keys(init);
    var gs := GroupSpec(init);
    assert Keys(es) == ks + [Key(e)];
    assert FindKey(gs, Key(e)) == |gs|;
    StepsForAbsent(init, Key(e));
    var lhs := GroupSpec(es);
    var rhs := gs + [Process(e.trigger, e.functionalProcess, [e.step])];
    forall j | 0 <= j < |lhs| ensures lhs[j] == rhs[j] {
      assert StepsFor(es, Keys(es)[j]) == StepsFor(init, Keys(es)[j]) + (if Key(e) == Keys(es)[j] then [e.step] else []);
    }
    assert lhs == rhs;
  }

  /** The incremental grouping is the reference grouping: processes in order
      of first occurrence of their key, each with all and only its steps in
      row order. */
  lemma {:induction false} GroupByFirstOccurrence(es: seq<Entry>)
    ensures Group(es) == GroupSpec(es)
    decreases |es|
  {
    if es != [] {
      GroupByFirstOccurrence(es[..|es| - 1]);
      if Key(es[|es| - 1]) in Keys(es[..|es| - 1]) {
        AddToKnownKey(es);
      } else {
        AddNewKey(es);
      }
    }
  }

  /** The grouping as written keys processes by the text `trigger + "||" +
      process` rather than by the pair. */
  function TextKey(trigger: string, functionalProcess: string): string {
    trigger + "||" + functionalProcess
  }

  function FindTextKey(gs: seq<Process>, key: string): (r: nat)
    ensures r <= |gs|
    ensures r < |gs| ==> TextKey(gs[r].triggerEvent, gs[r].functionalProcess) == key
  {
    if gs == [] then 0
    else if TextKey(gs[0].triggerEvent, gs[0].functionalProcess) == key then 0
    else 1 + FindTextKey(gs[1..], key)
  }

  function AddEntryByText(gs: seq<Process>, e: Entry): (r: seq<Process>)
    ensures |gs| <= |r| <= |gs| + 1
    ensures r != []
  {
    var i := FindTextKey(gs, TextKey(e.trigger, e.functionalProcess));
    if i < |gs| then gs[i := gs[i].(steps := gs[i].steps + [e.step])]
    else gs + [Process(e.trigger, e.functionalProcess, [e.step])]
  }

  function GroupByTextKey(es: seq<Entry>): (r: seq<Process>)
    ensures |r| <= |es|
    ensures r == [] <==> es == []
  {
    if es == [] then [] else AddEntryByText(GroupByTextKey(es[..|es| - 1]), es[|es| - 1])
  }

  /** Two different pairs whose texts join to the same key: the grouping as
      written files the second row under the first row's process, while the
      pair grouping keeps two processes. */
  lemma TextKeysCollide()
    ensures var s := Step("d", "E", "g", "");
            var es := [Entry("a||b", "c", s), Entry("a", "b||c", s)];
            |GroupByTextKey(es)| == 1 && GroupByTextKey(es)[0].steps == [s, s]
            && |Group(es)| == 2
  {
    var s := Step("d", "E", "g", "");
    var e1 := Entry("a||b", "c", s);
    var e2 := Entry("a", "b||c", s);
    var es := [e1, e2];
    assert es[..1] == [e1];
    assert [e1][..0] == [];
    assert TextKey("a||b", "c") == TextKey("a", "b||c");
    assert GroupByTextKey([e1]) == [Process("a||b", "c", [s])];
    assert Group([e1]) == [Process("a||b", "c", [s])];
    assert Key(e2) != KeyOf(Process("a||b", "c", [s]));
  }

  // ---------------------------------------------------------------------------
  // The import
  // ---------------------------------------------------------------------------

  const EXPECTED_HEADERS: seq<string> := ["触发事件", "功能过程", "子过程描述", "数据移动类型", "数据组", "数据属性"]

  /** The six header texts from column D on. */
  function HeaderNames(c: Cells): (r: seq<string>)
    ensures |r| == |EXPECTED_HEADERS|
  {
    [c.trigger, c.functionalProcess, c.subProcessDesc, c.dataMovementType, c.dataGroup, c.dataAttributes]
  }

  /** The header texts from position `i` on must read the expected names;
      the first mismatch is reported. */
  function ValidateHeader(names: seq<string>, i: nat): (r: Result<()>)
    requires |names| == |EXPECTED_HEADERS| && i <= |names|
    ensures r.Ok? <==> forall j :: i <= j < |names| ==> names[j] == EXPECTED_HEADERS[j]
    ensures r.Err? ==> exists j :: i <= j < |names| && names[j] != EXPECTED_HEADERS[j]
                                   && r.error == "Excel 表头与模板不一致，期待列名: " + EXPECTED_HEADERS[j]
                                   && forall k :: i <= k < j ==> names[k] == EXPECTED_HEADERS[k]
    decreases |names| - i
  {
    if i == |names| then Ok(())
    else if names[i] != EXPECTED_HEADERS[i] then Err("Excel 表头与模板不一致，期待列名: " + EXPECTED_HEADERS[i])
    else ValidateHeader(names, i + 1)
  }

  /** An uploaded workbook: its file name, whether the upload is empty, the
      message of the parser's failure when the bytes are not a readable
      workbook, the sheet named "功能点拆分表" if the workbook has one, and
      that sheet's merged regions. */
  datatype Upload = Upload(filename: Option<string>, isEmpty: bool, parseFailure: Option<string>,
                           cosmicSheet: Option<Sheet>, mergedRegions: seq<Region>)

  predicate SpreadsheetName(name: Option<string>) {
    name.Some? && (EndsWith(name.value, ".xlsx") || EndsWith(name.value, ".xls"))
  }

  const SHEET_NOT_FOUND: string := "Sheet '功能点拆分表' not found"
  const MISSING_HEADER: string := "Sheet '功能点拆分表' missing header row"
  const PARSE_FAILED: string := "Failed to parse Excel file: "

  /** The checks every upload passes first: a non-empty file with a
      spreadsheet name, readable as a workbook, holding the sheet and its
      header row. */
  function OpenSheet(file: Option<Upload>): (r: Result<Sheet>)
    ensures file.None? || file.value.isEmpty ==> r == Err("请上传Excel文件")
    ensures file.Some? && !file.value.isEmpty && !SpreadsheetName(file.value.filename) ==> r == Err("文件格式异常。")
    ensures file.Some? && !file.value.isEmpty && SpreadsheetName(file.value.filename) && file.value.parseFailure.Some?
            ==> r == Err(PARSE_FAILED + file.value.parseFailure.value)
    ensures r.Ok? <==> file.Some? && !file.value.isEmpty && SpreadsheetName(file.value.filename)
                       && file.value.parseFailure.None?
                       && file.value.cosmicSheet.Some? && |file.value.cosmicSheet.value| > 0
                       && file.value.cosmicSheet.value[0].Some?
    ensures r.Ok? ==> r.value == file.value.cosmicSheet.value
  {
    if file.None? || file.value.isEmpty then Err("请上传Excel文件")
    else if !SpreadsheetName(file.value.filename) then Err("文件格式异常。")
    else if file.value.parseFailure.Some? then Err(PARSE_FAILED + file.value.parseFailure.value)
    else if file.value.cosmicSheet.None? then Err(SHEET_NOT_FOUND)
    else
      var sheet := file.value.cosmicSheet.value;
      if |sheet| == 0 || sheet[0].None? then Err(MISSING_HEADER)
      else Ok(sheet)
  }

  const NO_PROCESSES: string := "Excel file does not contain valid COSMIC processes"

  /** Imports the COSMIC processes of an uploaded workbook: header check,
      row extraction, grouping by carried pair, then the same sanitising as
      every other path. */
  method ImportCosmicProcesses(file: Option<Upload>) returns (r: Result<seq<Process>>)
    ensures OpenSheet(file).Err? ==> r == Err(OpenSheet(file).error)
    ensures OpenSheet(file).Ok? ==>
              var t := ReadSheet(OpenSheet(file).value);
              var header := ValidateHeader(HeaderNames(t[0].value), 0);
              (header.Err? ==> r == Err(header.error))
              && (header.Ok? && ExtractUpTo(t, |t|).Err? ==> r == Err(ExtractUpTo(t, |t|).error))
              && (header.Ok? && ExtractUpTo(t, |t|).Ok? ==>
                    r == if GroupSpec(EntriesUpTo(t, |t|)) == [] then Err(NO_PROCESSES)
                         else SanitizeProcesses(GroupSpec(EntriesUpTo(t, |t|))))
    ensures r.Ok? ==> r.value != [] && forall i :: 0 <= i < |r.value| ==> CleanProcess(r.value[i])
  {
    var open := OpenSheet(file);
    if open.Err? {
      return Err(open.error);
    }
    var t := ReadSheet(open.value);
    var header := ValidateHeader(HeaderNames(t[0].value), 0);
    if header.Err? {
      return Err(header.error);
    }
    var entries := ExtractEntries(t);
    if entries.Err? {
      return Err(entries.error);
    }
    ExtractUpToValue(t, |t|);
    var processes := Group(entries.value);
    GroupByFirstOccurrence(entries.value);
    if processes == [] {
      return Err(NO_PROCESSES);
    }
    r := SanitizeProcesses(processes);
  }

  // ---------------------------------------------------------------------------
  // Merged regions and the functional-process import
  // ---------------------------------------------------------------------------

  /** A merged region, bounds inclusive. */
  datatype Region = Region(firstRow: int, lastRow: int, firstCol: int, lastCol: int)

  predicate InRegion(g: Region, row: int, col: int) {
    g.firstRow <= row <= g.lastRow && g.firstCol <= col <= g.lastCol
  }

  /** `i` is the first region holding the cell. */
  predicate FirstRegionAt(regions: seq<Region>, row: int, col: int, i: int) {
    0 <= i < |regions| && InRegion(regions[i], row, col)
    && forall j :: 0 <= j < i ==> !InRegion(regions[j], row, col)
  }

  /** Whether a cell is a covered cell of a merged region: the first region
      holding it decides, and only its top-left cell is read. */
  function ShouldSkipMergedCell(regions: seq<Region>, row: int, col: int): (r: bool)
    ensures r ==> exists i :: 0 <= i < |regions| && InRegion(regions[i], row, col)
                              && !(row == regions[i].firstRow && col == regions[i].firstCol)
  {
    assert forall j :: 1 <= j < |regions| ==> regions[j] == regions[1..][j - 1];
    if regions == [] then false
    else if InRegion(regions[0], row, col) then !(row == regions[0].firstRow && col == regions[0].firstCol)
    else ShouldSkipMergedCell(regions[1..], row, col)
  }

  /** A cell is skipped exactly when a region holds it and the first such
      region does not start at it. */
  lemma {:induction false} SkipDecidedByFirstRegion(regions: seq<Region>, row: int, col: int)
    ensures ShouldSkipMergedCell(regions, row, col) <==>
              exists i :: FirstRegionAt(regions, row, col, i)
                          && !(row == regions[i].firstRow && col == regions[i].firstCol)
    decreases |regions|
  {
    if regions != [] {
      if InRegion(regions[0], row, col) {
        assert FirstRegionAt(regions, row, col, 0);
        forall i | FirstRegionAt(regions, row, col, i) ensures i == 0 {
        }
      } else {
        SkipDecidedByFirstRegion(regions[1..], row, col);
        forall i | 1 <= i < |regions| ensures FirstRegionAt(regions, row, col, i) <==> FirstRegionAt(regions[1..], row, col, i - 1) {
          assert forall j :: 1 <= j < |regions| ==> regions[j] == regions[1..][j - 1];
        }
        if ShouldSkipMergedCell(regions, row, col) {
          var k :| FirstRegionAt(regions[1..], row, col, k)
                   && !(row == regions[1..][k].firstRow && col == regions[1..][k].firstCol);
          assert FirstRegionAt(regions, row, col, k + 1);
        }
      }
    }
  }

  const PROCESS_HEADER: string := "功能过程"

  /** A header cell naming the functional-process column. */
  predicate IsProcessHeader(s: string) {
    JavaTrim(s) == PROCESS_HEADER
  }

  /** The first header column reading "功能过程", or -1. */
  function LocateProcessColumn(header: Row, from: nat): (r: int)
    ensures r == -1 <==> forall j :: from <= j < |header| ==> !IsProcessHeader(header[j])
    ensures r != -1 ==> from <= r < |header| && IsProcessHeader(header[r])
                        && forall j :: from <= j < r ==> !IsProcessHeader(header[j])
    decreases |header| - from
  {
    if from >= |header| then -1
    else if IsProcessHeader(header[from]) then from
    else LocateProcessColumn(header, from + 1)
  }

  /** Row `i` is read by the functional-process import and has text in `col`. */
  predicate ReadsDescription(sheet: Sheet, regions: seq<Region>, col: nat, i: nat)
    requires i < |sheet|
  {
    !ShouldSkipMergedCell(regions, i, col) && sheet[i].Some? && HasText(Cell(sheet[i].value, col))
  }

  /** The rows from `from` on that the import reads a description from, in
      ascending order. */
  function DescriptionRows(sheet: Sheet, regions: seq<Region>, col: nat, from: nat): (r: seq<nat>)
    requires 1 <= from <= |sheet|
    ensures forall k :: 0 <= k < |r| ==> from <= r[k] < |sheet| && ReadsDescription(sheet, regions, col, r[k])
    ensures forall a, b :: 0 <= a < b < |r| ==> r[a] < r[b]
    decreases |sheet| - from
  {
    if from == |sheet| then []
    else
      var rest := DescriptionRows(sheet, regions, col, from + 1);
      if ReadsDescription(sheet, regions, col, from) then [from] + rest else rest
  }

  /** Every row the import reads is among the rows listed. */
  lemma {:induction false} DescriptionRowsComplete(sheet: Sheet, regions: seq<Region>, col: nat, from: nat, i: nat)
    requires 1 <= from <= i < |sheet| && ReadsDescription(sheet, regions, col, i)
    ensures i in DescriptionRows(sheet, regions, col, from)
    decreases |sheet| - from
  {
    if i != from {
      DescriptionRowsComplete(sheet, regions, col, from + 1, i);
    }
  }

  /** The trimmed texts of column `col` from row `from` on, skipping covered
      merged cells, absent rows and blank cells: one description per row
      read, in row order. */
  function ExtractDescriptions(sheet: Sheet, regions: seq<Region>, col: nat, from: nat): (r: seq<string>)
    requires 1 <= from <= |sheet|
    ensures forall d :: d in r ==> HasText(d) && JavaTrim(d) == d
    ensures var rows := DescriptionRows(sheet, regions, col, from);
            |r| == |rows| && forall k :: 0 <= k < |r| ==> r[k] == Cell(sheet[rows[k]].value, col)
    decreases |sheet| - from
  {
    if from == |sheet| then []
    else
      var rest := ExtractDescriptions(sheet, regions, col, from + 1);
      if ReadsDescription(sheet, regions, col, from) then
        var d := Cell(sheet[from].value, col);
        JavaTrimIdempotent(if col < |sheet[from].value| then sheet[from].value[col] else "");
        [d] + rest
      else rest
  }

  /** Every row read contributes its description, and every description
      comes from a row read. */
  lemma DescriptionsFromRows(sheet: Sheet, regions: seq<Region>, col: nat, from: nat)
    requires 1 <= from <= |sheet|
    ensures var r := ExtractDescriptions(sheet, regions, col, from);
            (forall d :: d in r ==> exists i :: from <= i < |sheet| && ReadsDescription(sheet, regions, col, i)
                                                && d == Cell(sheet[i].value, col))
            && (forall i :: from <= i < |sheet| && ReadsDescription(sheet, regions, col, i) ==> Cell(sheet[i].value, col) in r)
  {
    var r := ExtractDescriptions(sheet, regions, col, from);
    var rows := DescriptionRows(sheet, regions, col, from);
    forall d | d in r
      ensures exists i :: from <= i < |sheet| && ReadsDescription(sheet, regions, col, i) && d == Cell(sheet[i].value, col)
    {
      var k :| 0 <= k < |r| && r[k] == d;
      assert rows[k] in rows;
    }
    forall i | from <= i < |sheet| && ReadsDescription(sheet, regions, col, i)
      ensures Cell(sheet[i].value, col) in r
    {
      DescriptionRowsComplete(sheet, regions, col, from, i);
      var k :| 0 <= k < |rows| && rows[k] == i;
      assert r[k] == Cell(sheet[i].value, col);
    }
  }

  /** Imports the functional-process descriptions of an uploaded workbook. */
  function ImportFunctionalProcesses(file: Option<Upload>): (r: Result<seq<string>>)
    ensures OpenSheet(file).Err? ==> r == Err(OpenSheet(file).error)
    ensures r.Ok? ==> r.value != [] && forall d :: d in r.value ==> HasText(d) && JavaTrim(d) == d
    ensures r.Ok? ==> var sheet := OpenSheet(file).value;
                      var col := LocateProcessColumn(sheet[0].value, 0);
                      col >= 0 && r.value == ExtractDescriptions(sheet, file.value.mergedRegions, col, 1)
    ensures OpenSheet(file).Ok? && LocateProcessColumn(OpenSheet(file).value[0].value, 0) == -1
            ==> r == Err("Unable to locate functional process column")
    ensures OpenSheet(file).Ok? && LocateProcessColumn(OpenSheet(file).value[0].value, 0) >= 0
            && DescriptionRows(OpenSheet(file).value, file.value.mergedRegions,
                               LocateProcessColumn(OpenSheet(file).value[0].value, 0), 1) == []
            ==> r == Err("Excel file does not contain valid functional processes")
  {
    var sheet :- OpenSheet(file);
    var col := LocateProcessColumn(sheet[0].value, 0);
    if col < 0 then Err("Unable to locate functional process column")
    else
      var found := ExtractDescriptions(sheet, file.value.mergedRegions, col, 1);
      if found == [] then Err("Excel file does not contain valid functional processes")
      else Ok(found)
  }
}
