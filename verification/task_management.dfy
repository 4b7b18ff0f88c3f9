/** Project task management: reading the template sheet of tasks, publishing a
    batch of tasks, reassigning a task, updating its status and the batch
    summaries. Users and stored tasks are values passed in; persistence,
    ids and the clock are left to the caller. */
module TaskManagement {

  import opened Results
  import opened Text
  import opened Decimals
  import opened Workbooks

  // ---------------------------------------------------------------------------
  // Users, statuses and tasks
  // ---------------------------------------------------------------------------

  datatype User = User(id: int, username: string, role: Option<string>)

  /** `"USER".equalsIgnoreCase(role)`; a missing role is not USER. */
  predicate IsUserRole(role: Option<string>) {
    role.Some? && Upper(role.value) == "USER"
  }

  /** The role test is the case-insensitive comparison with "USER". */
  lemma UserRoleIgnoresCase(role: string)
    ensures IsUserRole(Some(role)) <==> EqualsIgnoreCase("USER", role)
  {
    assert Upper("USER") == "USER" by {
      var u := Upper("USER");
      assert forall k :: 0 <= k < 4 ==> u[k] == UpperChar("USER"[k]) == "USER"[k];
    }
  }

  datatype TaskStatus = NotStarted | Completed

  function StatusName(s: TaskStatus): string {
    match s
    case NotStarted => "NOT_STARTED"
    case Completed => "COMPLETED"
  }

  function StatusLabel(s: TaskStatus): string {
    match s
    case NotStarted => "未完成"
    case Completed => "已完成"
  }

  datatype ProjectTask = ProjectTask(
    id: int, batchId: int, title: string, description: string, workloadManDay: Option<Decimal>,
    status: Option<string>, assigneeId: Option<int>, createdBy: int)

  // ---------------------------------------------------------------------------
  // Workloads
  // ---------------------------------------------------------------------------

  function RowNumber(rowIndex: nat): string {
    NatToString(rowIndex + 1)
  }

  /** The workload check as the source writes it: the parsed value must be
      positive, and is then rounded half up to two places, so a positive
      value below 0.005 is accepted and stored as 0.00. */
  function ParseWorkloadAsWritten(raw: string, rowIndex: nat): (r: Result<Decimal>)
    ensures r.Ok? ==> r.value.scale == 2
    ensures r.Ok? <==> HasText(raw) && ParseDecimal(JavaTrim(raw)).Some? && Positive(ParseDecimal(JavaTrim(raw)).value)
    ensures r.Ok? ==> r.value == SetScale(ParseDecimal(JavaTrim(raw)).value, 2)
  {
    if !HasText(raw) then Err("第 " + RowNumber(rowIndex) + " 行工作量不能为空")
    else
      var parsed := ParseDecimal(JavaTrim(raw));
      if parsed.None? then Err("第 " + RowNumber(rowIndex) + " 行工作量格式不合法")
      else if !Positive(parsed.value) then Err("第 " + RowNumber(rowIndex) + " 行工作量必须大于 0")
      else Ok(SetScale(parsed.value, 2))
  }

  /** "0.004" reads as four thousandths. */
  lemma ReadTiny()
    ensures ParseDecimal("0.004") == Some(Decimal(4, 3))
  {
    var s := "0.004";
    TinyUnsigned();
    SignRead(false, s);
    assert SplitSign(s) == (false, s) by {
      assert (if false then "-" else "") + s == s;
    }
  }

  lemma TinyUnsigned()
    ensures ParseUnsigned("0.004") == Some((4, 3))
  {
    TinyMantissa();
    NoExponent("0.004");
  }

  lemma TinyMantissa()
    ensures ParseMantissa("0.004") == Some((4, 3))
  {
    MantissaPointed("0", "004");
    assert "0.004" == "0" + "." + "004";
    assert "0" + "004" == "0004";
    TinyDigits();
  }

  lemma TinyDigits()
    ensures AllDigits("0004") && DigitsValue("0004") == 4
  {
    var digits := "0004";
    assert digits[..3] == "000" && "000"[..2] == "00" && "00"[..1] == "0" && "0"[..0] == "";
  }

  /** "0.004" passes the positive check and comes out as zero. */
  lemma TinyWorkloadBecomesZero(raw: string)
    requires raw == "0.004"
    ensures ParseWorkloadAsWritten(raw, 1) == Ok(Decimal(0, 2))
  {
    TinyReads(raw);
    WrittenAccepts(raw, 1, Decimal(4, 3));
    assert SetScale(Decimal(4, 3), 2) == Decimal(RoundHalfUp(4, 10), 2);
  }

  lemma TinyReads(raw: string)
    requires raw == "0.004"
    ensures HasText(raw) && ParseDecimal(JavaTrim(raw)) == Some(Decimal(4, 3))
  {
    Unpadded(raw);
    ReadTiny();
  }

  /** The written check accepts any positive reading and rounds it. */
  lemma WrittenAccepts(raw: string, rowIndex: nat, d: Decimal)
    requires HasText(raw) && ParseDecimal(JavaTrim(raw)) == Some(d) && Positive(d)
    ensures ParseWorkloadAsWritten(raw, rowIndex) == Ok(SetScale(d, 2))
  {
  }

  /** The intended check: the workload as stored must be positive. */
  function ParseWorkload(raw: string, rowIndex: nat): (r: Result<Decimal>)
    ensures r.Ok? ==> r.value.scale == 2 && Positive(r.value)
    ensures r.Ok? <==> HasText(raw) && ParseDecimal(JavaTrim(raw)).Some?
                       && Positive(SetScale(ParseDecimal(JavaTrim(raw)).value, 2))
    ensures r.Ok? ==> r.value == SetScale(ParseDecimal(JavaTrim(raw)).value, 2)
  {
    if !HasText(raw) then Err("第 " + RowNumber(rowIndex) + " 行工作量不能为空")
    else
      var parsed := ParseDecimal(JavaTrim(raw));
      if parsed.None? then Err("第 " + RowNumber(rowIndex) + " 行工作量格式不合法")
      else
        var scaled := SetScale(parsed.value, 2);
        if !Positive(scaled) then Err("第 " + RowNumber(rowIndex) + " 行工作量必须大于 0")
        else Ok(scaled)
  }

  /** The corrected check differs from the written one only on values that
      round to zero: every workload it accepts the written check accepts
      with the same result. */
  lemma CorrectedWorkloadNarrower(raw: string, rowIndex: nat)
    requires ParseWorkload(raw, rowIndex).Ok?
    ensures ParseWorkloadAsWritten(raw, rowIndex) == ParseWorkload(raw, rowIndex)
  {
    var d := ParseDecimal(JavaTrim(raw)).value;
    if !Positive(d) {
      ScaledSign(d);
    }
  }

  /** Rounding half up never turns a value that is not positive into a
      positive one. */
  lemma ScaledSign(d: Decimal)
    requires !Positive(d)
    ensures !Positive(SetScale(d, 2))
  {
    if 2 >= d.scale {
      assert SetScale(d, 2).unscaled == d.unscaled * Pow10(2 - d.scale);
      NonPositiveProduct(d.unscaled, Pow10(2 - d.scale));
    } else {
      var den := Pow10(d.scale - 2);
      RoundNonPositive(d.unscaled, den, RoundHalfUp(d.unscaled, den));
    }
  }

  lemma NonPositiveProduct(a: int, b: int)
    requires a <= 0 && b >= 0
    ensures a * b <= 0
  {
  }

  /** A quotient rounded to the nearest integer keeps a numerator's sign. */
  lemma RoundNonPositive(num: int, den: int, r: int)
    requires num <= 0 && den > 0 && -den <= 2 * (num - r * den)
    ensures r <= 0
  {
    if r >= 1 {
      MultipleAtLeast(r, den);
    }
  }

  // ---------------------------------------------------------------------------
  // The template sheet
  // ---------------------------------------------------------------------------

  const TITLE_HEADER := "需求标题"
  const DESCRIPTION_HEADER := "需求描述"
  const WORKLOAD_HEADER := "计入工作量(人天)"
  const HEADER_ERROR := "Excel 表头必须包含：需求标题、需求描述、计入工作量(人天)"

  /** A row of cell texts; a missing cell reads as "". */
  type Row = seq<string>

  function CellText(row: Row, col: nat): string {
    if col < |row| then row[col] else ""
  }

  /** A header cell naming `name` once trimmed. */
  predicate Names(cell: string, name: string) {
    HasText(cell) && JavaTrim(cell) == name
  }

  /** The last column among the first `n` whose trimmed text is `name`. */
  function LastColumnOf(header: Row, name: string, n: nat): (r: Option<nat>)
    requires n <= |header|
    ensures r.Some? ==> r.value < n && Names(header[r.value], name)
    ensures r.Some? ==> forall k :: r.value < k < n ==> !Names(header[k], name)
    ensures r.None? ==> forall k :: 0 <= k < n ==> !Names(header[k], name)
  {
    if n == 0 then None
    else if Names(header[n - 1], name) then Some(n - 1)
    else LastColumnOf(header, name, n - 1)
  }

  /** `col` is the last column of the header naming `name`. */
  predicate LastNaming(header: Row, name: string, col: nat) {
    col < |header| && Names(header[col], name) && forall k :: col < k < |header| ==> !Names(header[k], name)
  }

  predicate HasColumn(header: Row, name: string) {
    exists k :: 0 <= k < |header| && Names(header[k], name)
  }

  /** The columns of the three template headers. */
  datatype Columns = Columns(title: nat, description: nat, workload: nat)

  /** Each header's column is the last one holding it; all three must be
      found. */
  function ResolveColumnIndex(header: Row): (r: Result<Columns>)
    ensures r.Ok? <==> HasColumn(header, TITLE_HEADER) && HasColumn(header, DESCRIPTION_HEADER)
                       && HasColumn(header, WORKLOAD_HEADER)
    ensures r.Err? ==> r.error == HEADER_ERROR
    ensures r.Ok? ==> LastNaming(header, TITLE_HEADER, r.value.title)
                      && LastNaming(header, DESCRIPTION_HEADER, r.value.description)
                      && LastNaming(header, WORKLOAD_HEADER, r.value.workload)
  {
    var t := LastColumnOf(header, TITLE_HEADER, |header|);
    var d := LastColumnOf(header, DESCRIPTION_HEADER, |header|);
    var w := LastColumnOf(header, WORKLOAD_HEADER, |header|);
    if t.None? || d.None? || w.None? then Err(HEADER_ERROR)
    else Ok(Columns(t.value, d.value, w.value))
  }

  datatype TaskDraft = TaskDraft(rowIndex: nat, title: string, description: string, workloadManDay: Decimal)

  /** Sheet row `rowIndex`: a row with no text in any of the three columns
      is passed over (`None`); otherwise title and description need text
      and the workload must parse. */
  function ReadDraft(row: Row, cols: Columns, rowIndex: nat): (r: Result<Option<TaskDraft>>)
    ensures r.Ok? && r.value.Some? ==>
              && r.value.value.rowIndex == rowIndex + 1
              && r.value.value.title == JavaTrim(CellText(row, cols.title))
              && r.value.value.description == JavaTrim(CellText(row, cols.description))
              && ParseWorkload(CellText(row, cols.workload), rowIndex) == Ok(r.value.value.workloadManDay)
    ensures r.Ok? <==> r == Ok(None)
                       || (HasText(CellText(row, cols.title)) && HasText(CellText(row, cols.description))
                           && ParseWorkload(CellText(row, cols.workload), rowIndex).Ok?)
    ensures r == Ok(None) <==> !HasText(CellText(row, cols.title)) && !HasText(CellText(row, cols.description))
                                && !HasText(CellText(row, cols.workload))
  {
    var title := CellText(row, cols.title);
    var description := CellText(row, cols.description);
    var workloadRaw := CellText(row, cols.workload);
    if !HasText(title) && !HasText(description) && !HasText(workloadRaw) then Ok(None)
    else if !HasText(title) then Err("第 " + RowNumber(rowIndex) + " 行任务标题不能为空")
    else if !HasText(description) then Err("第 " + RowNumber(rowIndex) + " 行任务描述不能为空")
    else
      var workload :- ParseWorkload(workloadRaw, rowIndex);
      Ok(Some(TaskDraft(rowIndex + 1, JavaTrim(title), JavaTrim(description), workload)))
  }

  /** The rows among 1..n-1 that are present and read as an item, in
      ascending order. */
  function HeldRows<D>(read: (Row, nat) -> Result<Option<D>>, sheet: seq<Option<Row>>, n: nat): (r: seq<nat>)
    requires n <= |sheet|
    ensures forall k :: 0 <= k < |r| ==> 1 <= r[k] < n && sheet[r[k]].Some? && read(sheet[r[k]].value, r[k]).Ok?
                                         && read(sheet[r[k]].value, r[k]).value.Some?
    ensures forall a, b :: 0 <= a < b < |r| ==> r[a] < r[b]
  {
    if n <= 1 then []
    else
      var before := HeldRows(read, sheet, n - 1);
      if sheet[n - 1].Some? && read(sheet[n - 1].value, n - 1).Ok? && read(sheet[n - 1].value, n - 1).value.Some?
      then before + [n - 1]
      else before
  }

  /** Every row that reads as an item is listed. */
  lemma {:induction false} HeldRowsComplete<D>(read: (Row, nat) -> Result<Option<D>>, sheet: seq<Option<Row>>, n: nat, i: nat)
    requires 1 <= i < n <= |sheet| && sheet[i].Some? && read(sheet[i].value, i).Ok? && read(sheet[i].value, i).value.Some?
    ensures i in HeldRows(read, sheet, n)
  {
    if i < n - 1 {
      HeldRowsComplete(read, sheet, n - 1, i);
    }
  }

  /** Reading sheet rows 1..n-1 with `read`: absent rows and rows that read
      as nothing are passed over, every other row contributes its item in
      row order, and the first row that fails decides the error. */
  function ReadRows<D>(read: (Row, nat) -> Result<Option<D>>, sheet: seq<Option<Row>>, n: nat): (r: Result<seq<D>>)
    requires n <= |sheet|
    ensures r.Ok? <==> forall i :: 1 <= i < n && sheet[i].Some? ==> read(sheet[i].value, i).Ok?
    ensures r.Ok? ==> var rows := HeldRows(read, sheet, n);
                      |r.value| == |rows|
                      && forall k :: 0 <= k < |rows| ==> read(sheet[rows[k]].value, rows[k]) == Ok(Some(r.value[k]))
    ensures r.Err? ==> exists i :: 1 <= i < n && sheet[i].Some? && read(sheet[i].value, i) == Err(r.error)
                                   && forall k :: 1 <= k < i && sheet[k].Some? ==> read(sheet[k].value, k).Ok?
  {
    if n <= 1 then Ok([])
    else
      var before :- ReadRows(read, sheet, n - 1);
      if sheet[n - 1].None? then Ok(before)
      else
        var item :- read(sheet[n - 1].value, n - 1);
        if item.None? then Ok(before) else Ok(before + [item.value])
  }

  /** A row that reads as a draft gives it its one-based row number and a
      positive workload. */
  lemma DraftRead(row: Row, cols: Columns, i: nat, d: TaskDraft)
    requires DraftReader(cols)(row, i) == Ok(Some(d))
    ensures d.rowIndex == i + 1 && Positive(d.workloadManDay)
  {
    assert ReadDraft(row, cols, i) == Ok(Some(d));
  }

  function DraftReader(cols: Columns): (Row, nat) -> Result<Option<TaskDraft>> {
    (row: Row, i: nat) => ReadDraft(row, cols, i)
  }

  /** The drafts of sheet rows 1..n-1 (`ReadRows` with `ReadDraft`): each
      draft carries its one-based row number, rows come in order and every
      workload is positive. */
  function ReadDrafts(sheet: seq<Option<Row>>, cols: Columns, n: nat): (r: Result<seq<TaskDraft>>)
    requires n <= |sheet|
    ensures r.Ok? ==> forall i :: 0 <= i < |r.value| ==> 2 <= r.value[i].rowIndex <= n
                                                          && Positive(r.value[i].workloadManDay)
    ensures r.Ok? ==> forall i, j :: 0 <= i < j < |r.value| ==> r.value[i].rowIndex < r.value[j].rowIndex
    ensures r.Ok? ==> var rows := HeldRows(DraftReader(cols), sheet, n);
                      |r.value| == |rows| && forall k :: 0 <= k < |rows| ==> r.value[k].rowIndex == rows[k] + 1
  {
    var r := ReadRows(DraftReader(cols), sheet, n);
    if r.Ok? then
      var rows := HeldRows(DraftReader(cols), sheet, n);
      forall k | 0 <= k < |rows|
        ensures r.value[k].rowIndex == rows[k] + 1 && Positive(r.value[k].workloadManDay)
      {
        DraftRead(sheet[rows[k]].value, cols, rows[k], r.value[k]);
      }
      r
    else r
  }

  datatype TemplateFile = TemplateFile(filename: Option<string>, isEmpty: bool, workbook: Workbook)

  /** The upload is present, non-empty and named like an Excel file. */
  predicate ExcelUpload(file: Option<TemplateFile>) {
    && file.Some? && !file.value.isEmpty && file.value.filename.Some?
    && (EndsWith(file.value.filename.value, ".xlsx") || EndsWith(file.value.filename.value, ".xls"))
  }

  /** Reading the uploaded template: an Excel file whose first sheet has a
      header row naming the three columns and at least one task row. A
      workbook that cannot be read is reported with the I/O exception's
      message, and one that cannot be parsed (a workbook without any sheet
      among them) with the exception's message. */
  function ParseTaskTemplate(file: Option<TemplateFile>): (r: Result<seq<TaskDraft>>)
    ensures file.None? || file.value.isEmpty ==> r == Err("请上传 Excel 模板")
    ensures file.Some? && !file.value.isEmpty && !ExcelUpload(file) ==> r == Err("仅支持 .xlsx 或 .xls 格式的 Excel 文件")
    ensures ExcelUpload(file) && file.value.workbook.Unreadable? ==>
              r == Err("读取 Excel 文件失败: " + ExceptionText(file.value.workbook.ioMessage))
    ensures ExcelUpload(file) && file.value.workbook.Malformed? ==>
              r == Err("解析 Excel 失败: " + ExceptionText(file.value.workbook.message))
    ensures ExcelUpload(file) && file.value.workbook.Opened? &&
              (file.value.workbook.sheet == [] || file.value.workbook.sheet[0].None?) ==>
              r == Err("Excel 缺少表头行")
    ensures r.Ok? ==> r.value != [] && forall i :: 0 <= i < |r.value| ==> Positive(r.value[i].workloadManDay)
    ensures r.Ok? ==> ExcelUpload(file) && file.value.workbook.Opened? && var sheet := file.value.workbook.sheet;
                      sheet != [] && sheet[0].Some? && ResolveColumnIndex(sheet[0].value).Ok?
                      && ReadRows(DraftReader(ResolveColumnIndex(sheet[0].value).value), sheet, |sheet|) == r
  {
    if file.None? || file.value.isEmpty then Err("请上传 Excel 模板")
    else if !ExcelUpload(file) then Err("仅支持 .xlsx 或 .xls 格式的 Excel 文件")
    else
      match file.value.workbook
      case Unreadable(m) => Err("读取 Excel 文件失败: " + ExceptionText(m))
      case Malformed(m) => Err("解析 Excel 失败: " + ExceptionText(m))
      case Opened(sheet) =>
        if sheet == [] || sheet[0].None? then Err("Excel 缺少表头行")
        else
          var cols :- ResolveColumnIndex(sheet[0].value);
          var drafts :- ReadDrafts(sheet, cols, |sheet|);
          if drafts == [] then Err("Excel 未包含有效任务数据") else Ok(drafts)
  }

  // ---------------------------------------------------------------------------
  // Publishing a batch
  // ---------------------------------------------------------------------------

  datatype PublishItem = PublishItem(rowIndex: int, title: string, description: string,
                                     workloadManDay: Option<Decimal>, assigneeId: Option<int>)

  datatype PublishRequest = PublishRequest(batchTitle: Option<string>, batchDescription: Option<string>,
                                           tasks: seq<PublishItem>)

  datatype Batch = Batch(title: string, description: Option<string>, createdBy: int)

  /** The per-item check as the source writes it: the workload must be
      positive before it is rounded to two places. */
  function ItemErrorAsWritten(item: PublishItem, users: map<int, User>): (r: Option<string>)
    ensures r.None? <==> item.assigneeId.Some? && item.assigneeId.value in users
                         && IsUserRole(users[item.assigneeId.value].role)
                         && item.workloadManDay.Some? && Positive(item.workloadManDay.value)
  {
    var row := IntToString(item.rowIndex);
    if item.assigneeId.None? then Some("请为行号 " + row + " 的任务选择执行人")
    else if item.assigneeId.value !in users then Some("找不到执行人，行号 " + row)
    else if !IsUserRole(users[item.assigneeId.value].role) then Some("执行人必须为 USER 角色，行号 " + row)
    else if item.workloadManDay.None? || !Positive(item.workloadManDay.value) then Some("工作量必须大于 0，人天行号 " + row)
    else None
  }

  /** A workload of 0.004 passes the written check yet is published as 0.00. */
  lemma TinyWorkloadPublishedAsZero(users: map<int, User>, id: int)
    requires id in users && IsUserRole(users[id].role)
    ensures var item := PublishItem(1, "t", "d", Some(Decimal(4, 3)), Some(id));
            ItemErrorAsWritten(item, users).None? && SetScale(item.workloadManDay.value, 2) == Decimal(0, 2)
  {
  }

  /** The intended per-item check: the workload as stored must be positive. */
  function ItemError(item: PublishItem, users: map<int, User>): (r: Option<string>)
    ensures r.None? <==> item.assigneeId.Some? && item.assigneeId.value in users
                         && IsUserRole(users[item.assigneeId.value].role)
                         && item.workloadManDay.Some? && Positive(SetScale(item.workloadManDay.value, 2))
  {
    var row := IntToString(item.rowIndex);
    if item.assigneeId.None? then Some("请为行号 " + row + " 的任务选择执行人")
    else if item.assigneeId.value !in users then Some("找不到执行人，行号 " + row)
    else if !IsUserRole(users[item.assigneeId.value].role) then Some("执行人必须为 USER 角色，行号 " + row)
    else if item.workloadManDay.None? || !Positive(SetScale(item.workloadManDay.value, 2))
    then Some("工作量必须大于 0，人天行号 " + row)
    else None
  }

  /** Both checks name the item's row number in every message they give. */
  lemma ItemErrorsNameRow(item: PublishItem, users: map<int, User>)
    ensures ItemError(item, users).Some? ==> Contains(ItemError(item, users).value, IntToString(item.rowIndex))
    ensures ItemErrorAsWritten(item, users).Some?
            ==> Contains(ItemErrorAsWritten(item, users).value, IntToString(item.rowIndex))
  {
    var row := IntToString(item.rowIndex);
    Mentions("请为行号 ", row, " 的任务选择执行人");
    Mentions("找不到执行人，行号 ", row, "");
    assert "找不到执行人，行号 " + row + "" == "找不到执行人，行号 " + row;
    Mentions("执行人必须为 USER 角色，行号 ", row, "");
    assert "执行人必须为 USER 角色，行号 " + row + "" == "执行人必须为 USER 角色，行号 " + row;
    Mentions("工作量必须大于 0，人天行号 ", row, "");
    assert "工作量必须大于 0，人天行号 " + row + "" == "工作量必须大于 0，人天行号 " + row;
  }

  /** Every item the intended check accepts, the written check accepts too. */
  lemma ItemCheckNarrower(item: PublishItem, users: map<int, User>)
    requires ItemError(item, users).None?
    ensures ItemErrorAsWritten(item, users).None?
  {
    if !Positive(item.workloadManDay.value) {
      ScaledSign(item.workloadManDay.value);
    }
  }

  /** The first item error, in request order. */
  function FirstItemError(items: seq<PublishItem>, users: map<int, User>): (r: Option<string>)
    ensures r.None? <==> forall i :: 0 <= i < |items| ==> ItemError(items[i], users).None?
    ensures r.Some? ==> exists i :: 0 <= i < |items| && ItemError(items[i], users) == r
                                   && forall k :: 0 <= k < i ==> ItemError(items[k], users).None?
  {
    if items == [] then None
    else if ItemError(items[0], users).Some? then ItemError(items[0], users)
    else
      var rest := FirstItemError(items[1..], users);
      assert forall i :: 1 <= i < |items| ==> items[i] == items[1..][i - 1];
      if rest.Some? then
        var j :| 0 <= j < |items[1..]| && ItemError(items[1..][j], users) == rest
                 && forall k :: 0 <= k < j ==> ItemError(items[1..][k], users).None?;
        assert ItemError(items[j + 1], users) == rest;
        rest
      else rest
  }

  /** The stored task for a validated item. */
  function NewTask(item: PublishItem, batchId: int, creator: int): ProjectTask
    requires item.workloadManDay.Some?
  {
    ProjectTask(0, batchId, JavaTrim(item.title), JavaTrim(item.description),
                Some(SetScale(item.workloadManDay.value, 2)), Some(StatusName(NotStarted)), item.assigneeId, creator)
  }

  /** Publishing a batch: at least one task and a titled batch; every item
      needs an existing USER assignee and a positive workload. Every task
      starts not started with its workload at two places. `users` holds the
      users found for the items' assignee ids. */
  function PublishTaskBatch(request: Option<PublishRequest>, users: map<int, User>, creator: int, batchId: int)
    : (r: Result<(Batch, seq<ProjectTask>)>)
    ensures r.Ok? <==> request.Some? && request.value.tasks != [] && request.value.batchTitle.Some?
                       && HasText(request.value.batchTitle.value)
                       && forall i :: 0 <= i < |request.value.tasks| ==> ItemError(request.value.tasks[i], users).None?
    ensures r.Ok? ==> var items := request.value.tasks;
                      var (batch, tasks) := r.value;
                      batch.title == JavaTrim(request.value.batchTitle.value) && batch.createdBy == creator
                      && |tasks| == |items|
                      && forall i :: 0 <= i < |items| ==>
                           tasks[i].status == Some(StatusName(NotStarted))
                           && tasks[i].assigneeId == items[i].assigneeId
                           && tasks[i].batchId == batchId
                           && tasks[i].workloadManDay == Some(SetScale(items[i].workloadManDay.value, 2))
                           && Positive(tasks[i].workloadManDay.value) && tasks[i].workloadManDay.value.scale == 2
    ensures r.Ok? ==> var items := request.value.tasks;
                      var (batch, tasks) := r.value;
                      var description := request.value.batchDescription;
                      batch.description == (if description.Some? && HasText(description.value)
                                            then Some(JavaTrim(description.value)) else None)
                      && forall i :: 0 <= i < |items| ==>
                           tasks[i].title == JavaTrim(items[i].title)
                           && tasks[i].description == JavaTrim(items[i].description)
                           && tasks[i].createdBy == creator
  {
    if request.None? || request.value.tasks == [] then Err("任务列表不能为空")
    else if request.value.batchTitle.None? || !HasText(request.value.batchTitle.value) then Err("批次标题不能为空")
    else
      var items := request.value.tasks;
      var problem := FirstItemError(items, users);
      if problem.Some? then Err(problem.value)
      else
        var description := request.value.batchDescription;
        var batch := Batch(JavaTrim(request.value.batchTitle.value),
                           if description.Some? && HasText(description.value) then Some(JavaTrim(description.value)) else None,
                           creator);
        Ok((batch, seq(|items|, i requires 0 <= i < |items| => NewTask(items[i], batchId, creator))))
  }

  // ---------------------------------------------------------------------------
  // Reassigning and status updates
  // ---------------------------------------------------------------------------

  /** Reassigning a task to a USER-role user resets it to not started. */
  function UpdateTaskAssignee(task: Option<ProjectTask>, assignee: Option<User>, assigneeId: int): (r: Result<ProjectTask>)
    ensures r.Ok? <==> task.Some? && assignee.Some? && IsUserRole(assignee.value.role)
    ensures r.Ok? ==> r.value == task.value.(assigneeId := Some(assigneeId), status := Some(StatusName(NotStarted)))
  {
    if task.None? then Err("任务不存在")
    else if assignee.None? then Err("执行人不存在")
    else if !IsUserRole(assignee.value.role) then Err("执行人必须为 USER 角色")
    else Ok(task.value.(assigneeId := Some(assigneeId), status := Some(StatusName(NotStarted))))
  }

  /** Setting a task's status: without the override only the assignee may
      do it (a task with no assignee matches an operator with no id), and
      only the two task statuses are accepted. */
  function UpdateTaskStatus(task: Option<ProjectTask>, status: Option<TaskStatus>, operatorId: Option<int>,
                            allowOverride: bool): (r: Result<ProjectTask>)
    ensures r.Ok? <==> task.Some? && (allowOverride || task.value.assigneeId == operatorId) && status.Some?
    ensures task.Some? && !allowOverride && task.value.assigneeId != operatorId ==> r == Err("只能更新分配给自己的任务")
    ensures r.Ok? ==> r.value == task.value.(status := Some(StatusName(status.value)))
  {
    if task.None? then Err("任务不存在")
    else if !allowOverride && task.value.assigneeId != operatorId then Err("只能更新分配给自己的任务")
    else if status.None? then Err("不支持的任务状态")
    else Ok(task.value.(status := Some(StatusName(status.value))))
  }

  /** `TaskStatus.fromValue`: the constant whose name equals the value,
      ignoring case. */
  function StatusFromValue(value: string): (r: Option<TaskStatus>)
    ensures r.Some? ==> Upper(value) == StatusName(r.value)
    ensures r.None? ==> Upper(value) != StatusName(NotStarted) && Upper(value) != StatusName(Completed)
  {
    var key := Upper(value);
    if key == StatusName(NotStarted) then Some(NotStarted)
    else if key == StatusName(Completed) then Some(Completed)
    else None
  }

  datatype TaskResponse = TaskResponse(task: ProjectTask, status: TaskStatus, statusLabel: string)

  /** The response for a task: its stored status must have text and name a
      task status. */
  function MapTaskResponse(task: ProjectTask): (r: Result<TaskResponse>)
    ensures r.Ok? <==> task.status.Some? && HasText(task.status.value) && StatusFromValue(task.status.value).Some?
    ensures r.Ok? ==> r.value.status == StatusFromValue(task.status.value).value
                      && r.value.statusLabel == StatusLabel(r.value.status)
  {
    if task.status.None? || !HasText(task.status.value) then Err("任务状态异常")
    else
      var status := StatusFromValue(task.status.value);
      if status.None? then Err("未知任务状态: " + task.status.value)
      else Ok(TaskResponse(task, status.value, StatusLabel(status.value)))
  }

  /** The constant names are upper case and have text. */
  lemma StatusNameReads(s: TaskStatus)
    ensures Upper(StatusName(s)) == StatusName(s) && HasText(StatusName(s))
  {
    var n := StatusName(s);
    assert forall k :: 0 <= k < |n| ==> UpperChar(n[k]) == n[k];
    assert !IsJavaWhitespace(n[0]);
  }

  /** A task just updated always maps to a response carrying the new status. */
  lemma UpdatedTaskResponds(task: Option<ProjectTask>, status: Option<TaskStatus>, operatorId: Option<int>,
                            allowOverride: bool)
    requires UpdateTaskStatus(task, status, operatorId, allowOverride).Ok?
    ensures var t := UpdateTaskStatus(task, status, operatorId, allowOverride).value;
            MapTaskResponse(t).Ok? && MapTaskResponse(t).value.status == status.value
  {
    StatusNameReads(status.value);
  }

  // ---------------------------------------------------------------------------
  // Summaries
  // ---------------------------------------------------------------------------

  /** `COMPLETED.name().equalsIgnoreCase(status)`. */
  predicate IsCompleted(t: ProjectTask) {
    t.status.Some? && Upper(t.status.value) == StatusName(Completed)
  }

  function CountCompleted(tasks: seq<ProjectTask>): (r: nat)
    ensures r <= |tasks|
    decreases |tasks|
  {
    if tasks == [] then 0
    else CountCompleted(tasks[..|tasks| - 1]) + (if IsCompleted(tasks[|tasks| - 1]) then 1 else 0)
  }

  /** The workloads that are present, in order. */
  function Workloads(tasks: seq<ProjectTask>): (r: seq<Decimal>)
    ensures |r| <= |tasks|
    decreases |tasks|
  {
    if tasks == [] then []
    else
      var last := tasks[|tasks| - 1];
      Workloads(tasks[..|tasks| - 1]) + (if last.workloadManDay.Some? then [last.workloadManDay.value] else [])
  }

  /** Positions of the completed tasks. */
  ghost function CompletedAt(tasks: seq<ProjectTask>): set<int> {
    set i | 0 <= i < |tasks| && IsCompleted(tasks[i])
  }

  /** The completed count is the number of completed positions. */
  lemma {:induction false} CountCompletedPositions(tasks: seq<ProjectTask>)
    ensures CountCompleted(tasks) == |CompletedAt(tasks)|
    decreases |tasks|
  {
    if tasks != [] {
      var n := |tasks| - 1;
      CountCompletedPositions(tasks[..n]);
      assert forall i :: 0 <= i < n ==> tasks[i] == tasks[..n][i];
      assert CompletedAt(tasks) == CompletedAt(tasks[..n]) + (if IsCompleted(tasks[n]) then {n} else {});
      assert n !in CompletedAt(tasks[..n]);
    }
  }

  datatype Summary = Summary(totalTasks: nat, completedTasks: nat, totalWorkload: Decimal)

  function BuildSummary(tasks: seq<ProjectTask>): (r: Summary)
    ensures r.completedTasks <= r.totalTasks == |tasks|
    ensures r.completedTasks == |CompletedAt(tasks)|
    ensures r.totalWorkload.scale == 2
  {
    CountCompletedPositions(tasks);
    Summary(|tasks|, CountCompleted(tasks), SetScale(Sum(Workloads(tasks)), 2))
  }

  /** Tasks assigned to `assignee`, in order. */
  function AssignedTo(tasks: seq<ProjectTask>, assignee: int): (r: seq<ProjectTask>)
    ensures |r| <= |tasks|
    ensures forall i :: 0 <= i < |r| ==> r[i] in tasks && r[i].assigneeId == Some(assignee)
    decreases |tasks|
  {
    if tasks == [] then []
    else
      var last := tasks[|tasks| - 1];
      AssignedTo(tasks[..|tasks| - 1], assignee) + (if last.assigneeId == Some(assignee) then [last] else [])
  }

  /** Positions in the batch of the tasks assigned to `assignee`. */
  ghost function AssignedPositions(tasks: seq<ProjectTask>, assignee: int): set<int>
  {
    set i | 0 <= i < |tasks| && tasks[i].assigneeId == Some(assignee)
  }

  /** Positions in the batch of the completed tasks assigned to `assignee`. */
  ghost function CompletedPositions(tasks: seq<ProjectTask>, assignee: int): set<int>
  {
    set i | 0 <= i < |tasks| && tasks[i].assigneeId == Some(assignee) && IsCompleted(tasks[i])
  }

  /** Filtering by assignee keeps one task per assigned position, and one
      completed task per completed assigned position. */
  lemma {:induction false} AssignedCounts(tasks: seq<ProjectTask>, assignee: int)
    ensures |AssignedTo(tasks, assignee)| == |AssignedPositions(tasks, assignee)|
    ensures CountCompleted(AssignedTo(tasks, assignee)) == |CompletedPositions(tasks, assignee)|
    decreases |tasks|
  {
    if tasks != [] {
      var n := |tasks| - 1;
      var init := tasks[..n];
      var last := tasks[n];
      AssignedCounts(init, assignee);
      var mine := AssignedTo(init, assignee);
      var all := AssignedTo(tasks, assignee);
      PositionsSnoc(tasks, assignee);
      var before := AssignedPositions(init, assignee);
      var done := CompletedPositions(init, assignee);
      if last.assigneeId == Some(assignee) {
        assert all == mine + [last];
        assert all[..|all| - 1] == mine;
        assert CountCompleted(all) == CountCompleted(mine) + (if IsCompleted(last) then 1 else 0);
        assert |before + {n}| == |before| + 1;
        assert |done + {n}| == |done| + 1;
      } else {
        assert all == mine + [];
        assert all == mine;
      }
    }
  }

  /** Appending a task adds its own position to the position sets it
      qualifies for, and nothing else. */
  lemma PositionsSnoc(tasks: seq<ProjectTask>, assignee: int)
    requires tasks != []
    ensures var n := |tasks| - 1;
      n !in AssignedPositions(tasks[..n], assignee) && n !in CompletedPositions(tasks[..n], assignee)
    ensures var n := |tasks| - 1;
      AssignedPositions(tasks, assignee)
        == AssignedPositions(tasks[..n], assignee) + (if tasks[n].assigneeId == Some(assignee) then {n} else {})
    ensures var n := |tasks| - 1;
      CompletedPositions(tasks, assignee)
        == CompletedPositions(tasks[..n], assignee)
           + (if tasks[n].assigneeId == Some(assignee) && IsCompleted(tasks[n]) then {n} else {})
  {
    var n := |tasks| - 1;
    assert forall i :: 0 <= i < n ==> tasks[i] == tasks[..n][i];
  }

  /** An assignee's summary of a batch counts only their own tasks: as many
      tasks as the batch has assigned to them, as many completed ones as are
      both theirs and completed, and a two-place total workload that is zero
      when nothing is theirs. */
  function BuildUserSummary(tasks: seq<ProjectTask>, assignee: int): (r: Summary)
    ensures r.totalTasks == |AssignedPositions(tasks, assignee)|
    ensures r.completedTasks == |CompletedPositions(tasks, assignee)|
    ensures r.totalWorkload.scale == 2
    ensures AssignedPositions(tasks, assignee) == {} ==> r.totalWorkload.unscaled == 0
  {
    AssignedCounts(tasks, assignee);
    var mine := AssignedTo(tasks, assignee);
    assert AssignedPositions(tasks, assignee) == {} ==> Workloads(mine) == [];
    BuildSummary(mine)
  }

  /** An assignee's summary never counts more tasks, or more completed
      tasks, than the whole batch. */
  lemma {:induction false} UserSummaryWithin(tasks: seq<ProjectTask>, assignee: int)
    ensures BuildUserSummary(tasks, assignee).totalTasks <= BuildSummary(tasks).totalTasks
    ensures BuildUserSummary(tasks, assignee).completedTasks <= BuildSummary(tasks).completedTasks
    decreases |tasks|
  {
    if tasks != [] {
      var init := tasks[..|tasks| - 1];
      var last := tasks[|tasks| - 1];
      UserSummaryWithin(init, assignee);
      var mine := AssignedTo(init, assignee);
      if last.assigneeId == Some(assignee) {
        var all := mine + [last];
        assert all[..|all| - 1] == mine;
      } else {
        assert AssignedTo(tasks, assignee) == mine + [];
        assert mine + [] == mine;
      }
    }
  }

  /** Every present workload at most two places: the total is exactly their sum. */
  lemma {:induction false} SumScale(ds: seq<Decimal>)
    requires forall i :: 0 <= i < |ds| ==> ds[i].scale <= 2
    ensures Sum(ds).scale <= 2
    decreases |ds|
  {
    if ds != [] {
      SumScale(ds[..|ds| - 1]);
    }
  }

  /** Published workloads have two places, so the summary total is exactly
      the sum of the present workloads. */
  lemma {:induction false} SummaryTotalExact(tasks: seq<ProjectTask>)
    requires forall i :: 0 <= i < |tasks| ==> tasks[i].workloadManDay.Some? ==> tasks[i].workloadManDay.value.scale == 2
    ensures SameValue(BuildSummary(tasks).totalWorkload, Sum(Workloads(tasks)))
  {
    WorkloadsScale(tasks);
    SumScale(Workloads(tasks));
  }

  /** The same for one assignee: their summary's total is exactly the sum
      of the present workloads of the tasks assigned to them. */
  lemma UserSummaryTotalExact(tasks: seq<ProjectTask>, assignee: int)
    requires forall i :: 0 <= i < |tasks| ==> tasks[i].workloadManDay.Some? ==> tasks[i].workloadManDay.value.scale == 2
    ensures SameValue(BuildUserSummary(tasks, assignee).totalWorkload, Sum(Workloads(AssignedTo(tasks, assignee))))
  {
    var mine := AssignedTo(tasks, assignee);
    assert forall i :: 0 <= i < |mine| ==> mine[i].workloadManDay.Some? ==> mine[i].workloadManDay.value.scale == 2 by {
      forall i | 0 <= i < |mine| && mine[i].workloadManDay.Some?
        ensures mine[i].workloadManDay.value.scale == 2
      {
        var j :| 0 <= j < |tasks| && tasks[j] == mine[i];
      }
    }
    SummaryTotalExact(mine);
  }

  lemma {:induction false} WorkloadsScale(tasks: seq<ProjectTask>)
    requires forall i :: 0 <= i < |tasks| ==> tasks[i].workloadManDay.Some? ==> tasks[i].workloadManDay.value.scale == 2
    ensures forall i :: 0 <= i < |Workloads(tasks)| ==> Workloads(tasks)[i].scale <= 2
    decreases |tasks|
  {
    if tasks != [] {
      WorkloadsScale(tasks[..|tasks| - 1]);
    }
  }
}
