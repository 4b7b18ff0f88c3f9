/** Vacation sheet processing: reading the attendance sheet, splitting each
    corrected remark into vacation records, formatting dates and day counts,
    and laying the details out as the vacation table. The remark correction
    is a service call and is passed in as a function. */
module Vacations {

  import opened Results
  import opened Text
  import opened Decimals
  import opened Workbooks

  // ---------------------------------------------------------------------------
  // The input sheet
  // ---------------------------------------------------------------------------

  /** The columns read from the attendance sheet. */
  datatype Column = IdCard | Name | Department | Remark

  function ColumnHeader(c: Column): string {
    match c
    case IdCard => "身份证号码"
    case Name => "姓名"
    case Department => "一级部门"
    case Remark => "备注"
  }

  /** The required columns, in the order the missing ones are listed. */
  const REQUIRED: seq<Column> := [IdCard, Name, Department, Remark]

  /** A row of cell texts; a missing cell reads as "". */
  type Row = seq<string>

  function CellText(row: Row, col: nat): string {
    if col < |row| then row[col] else ""
  }

  /** The last of the first `n` header cells whose trimmed text is `name`. */
  function HeaderColumn(header: Row, name: string, n: nat): (r: Option<nat>)
    requires n <= |header|
    ensures r.Some? ==> r.value < n && JavaTrim(header[r.value]) == name
    ensures r.Some? ==> forall k :: r.value < k < n ==> JavaTrim(header[k]) != name
    ensures r.None? ==> forall k :: 0 <= k < n ==> JavaTrim(header[k]) != name
  {
    if n == 0 then None
    else if JavaTrim(header[n - 1]) == name then Some(n - 1)
    else HeaderColumn(header, name, n - 1)
  }

  /** The column holding `c`'s header, if any; a later cell overrides an
      earlier one with the same header. */
  function Found(header: Row, c: Column): Option<nat> {
    HeaderColumn(header, ColumnHeader(c), |header|)
  }

  /** The column found for each header. */
  datatype HeaderColumns = HeaderColumns(idCard: Option<nat>, name: Option<nat>, department: Option<nat>, remark: Option<nat>)

  function ColumnOf(found: HeaderColumns, c: Column): Option<nat> {
    match c
    case IdCard => found.idCard
    case Name => found.name
    case Department => found.department
    case Remark => found.remark
  }

  /** Some header cell's trimmed text is `c`'s header. */
  predicate HeaderNamed(header: Row, c: Column) {
    exists k :: 0 <= k < |header| && JavaTrim(header[k]) == ColumnHeader(c)
  }

  /** `col` is the column of `c`: present exactly when the header names
      `c`, and then at a cell holding that name. */
  predicate Locates(header: Row, col: Option<nat>, c: Column) {
    && (col.Some? <==> HeaderNamed(header, c))
    && (col.Some? ==> col.value < |header| && JavaTrim(header[col.value]) == ColumnHeader(c))
  }

  lemma FoundMeans(header: Row, c: Column)
    ensures Locates(header, Found(header, c), c)
  {
  }

  /** Each column is found exactly when some header cell's trimmed text is
      its header, and then at such a cell. */
  function ParseHeader(header: Row): (r: HeaderColumns)
    ensures Locates(header, r.idCard, IdCard) && Locates(header, r.name, Name)
    ensures Locates(header, r.department, Department) && Locates(header, r.remark, Remark)
  {
    FoundMeans(header, IdCard);
    FoundMeans(header, Name);
    FoundMeans(header, Department);
    FoundMeans(header, Remark);
    HeaderColumns(Found(header, IdCard), Found(header, Name), Found(header, Department), Found(header, Remark))
  }

  /** The headers of the required columns not found, in order. */
  function MissingColumns(found: HeaderColumns, cols: seq<Column>): (r: seq<string>)
    ensures forall c :: c in cols && ColumnOf(found, c).None? ==> ColumnHeader(c) in r
    ensures forall h :: h in r ==> exists c :: c in cols && ColumnOf(found, c).None? && h == ColumnHeader(c)
    ensures r == [] <==> forall c :: c in cols ==> ColumnOf(found, c).Some?
  {
    if cols == [] then []
    else (if ColumnOf(found, cols[0]).Some? then [] else [ColumnHeader(cols[0])]) + MissingColumns(found, cols[1..])
  }

  /** Every required column must have been found; otherwise the error lists
      the missing headers. */
  function ValidateRequiredColumns(found: HeaderColumns): (r: Option<string>)
    ensures r.None? <==> found.idCard.Some? && found.name.Some? && found.department.Some? && found.remark.Some?
    ensures r.Some? ==> r.value == "Excel缺少必需的列: " + Join(", ", MissingColumns(found, REQUIRED))
  {
    var missing := MissingColumns(found, REQUIRED);
    assert IdCard in REQUIRED && Name in REQUIRED && Department in REQUIRED && Remark in REQUIRED;
    assert ColumnOf(found, IdCard) == found.idCard && ColumnOf(found, Name) == found.name;
    assert ColumnOf(found, Department) == found.department && ColumnOf(found, Remark) == found.remark;
    if missing == [] then None else Some("Excel缺少必需的列: " + Join(", ", missing))
  }

  datatype VacationRecord = VacationRecord(idCard: string, name: string, department: string, remark: string)

  /** `trim().isEmpty()`. */
  predicate Blank(s: string) {
    JavaTrim(s) == ""
  }

  /** A cell of a column that was found, or "" for one that was not. */
  function CellAt(row: Row, col: Option<nat>): string {
    if col.None? then "" else CellText(row, col.value)
  }

  /** A row's record: each field is the cell of its column, and "" when the
      column was not found or the row is shorter. */
  function ParseRow(row: Row, cols: HeaderColumns): (r: VacationRecord)
    ensures cols.remark.Some? && cols.remark.value < |row| ==> r.remark == row[cols.remark.value]
    ensures cols.remark.None? || cols.remark.value >= |row| ==> r.remark == ""
    ensures cols.idCard.Some? && cols.idCard.value < |row| ==> r.idCard == row[cols.idCard.value]
    ensures cols.idCard.None? || cols.idCard.value >= |row| ==> r.idCard == ""
    ensures cols.name.Some? && cols.name.value < |row| ==> r.name == row[cols.name.value]
    ensures cols.name.None? || cols.name.value >= |row| ==> r.name == ""
    ensures cols.department.Some? && cols.department.value < |row| ==> r.department == row[cols.department.value]
    ensures cols.department.None? || cols.department.value >= |row| ==> r.department == ""
  {
    VacationRecord(CellAt(row, cols.idCard), CellAt(row, cols.name), CellAt(row, cols.department), CellAt(row, cols.remark))
  }

  /** Sheet row `k` exists and its remark is not blank. */
  predicate Remarked(sheet: seq<Option<Row>>, cols: HeaderColumns, k: nat)
    requires k < |sheet|
  {
    sheet[k].Some? && !Blank(CellAt(sheet[k].value, cols.remark))
  }

  /** The rows among 1..n-1 that exist and carry a remark, ascending. */
  function RemarkedRows(sheet: seq<Option<Row>>, cols: HeaderColumns, n: nat): (r: seq<nat>)
    requires n <= |sheet|
    ensures forall k :: 0 <= k < |r| ==> 1 <= r[k] < n && Remarked(sheet, cols, r[k])
    ensures forall a, b :: 0 <= a < b < |r| ==> r[a] < r[b]
  {
    if n <= 1 then []
    else
      var before := RemarkedRows(sheet, cols, n - 1);
      if Remarked(sheet, cols, n - 1) then before + [n - 1] else before
  }

  /** Every row with a remark is listed. */
  lemma {:induction false} RemarkedRowsComplete(sheet: seq<Option<Row>>, cols: HeaderColumns, n: nat, k: nat)
    requires 1 <= k < n <= |sheet| && Remarked(sheet, cols, k)
    ensures k in RemarkedRows(sheet, cols, n)
  {
    if k < n - 1 {
      RemarkedRowsComplete(sheet, cols, n - 1, k);
    }
  }

  /** The records of sheet rows 1..n-1 whose remark is not blank: one
      record per such row, in row order. */
  function RemarkedRecords(sheet: seq<Option<Row>>, cols: HeaderColumns, n: nat): (r: seq<VacationRecord>)
    requires n <= |sheet|
    ensures |r| <= n
    ensures forall i :: 0 <= i < |r| ==> !Blank(r[i].remark)
    ensures var rows := RemarkedRows(sheet, cols, n);
            |r| == |rows| && forall k :: 0 <= k < |rows| ==> r[k] == ParseRow(sheet[rows[k]].value, cols)
  {
    if n <= 1 then []
    else
      var before := RemarkedRecords(sheet, cols, n - 1);
      if sheet[n - 1].None? then before
      else
        var record := ParseRow(sheet[n - 1].value, cols);
        if Blank(record.remark) then before else before + [record]
  }

  /** Every row with a remark contributes its record. */
  lemma RemarkedRecordsComplete(sheet: seq<Option<Row>>, cols: HeaderColumns, n: nat)
    requires n <= |sheet|
    ensures forall k :: 1 <= k < n && Remarked(sheet, cols, k) ==> ParseRow(sheet[k].value, cols) in RemarkedRecords(sheet, cols, n)
  {
    var rows := RemarkedRows(sheet, cols, n);
    forall k | 1 <= k < n && Remarked(sheet, cols, k)
      ensures ParseRow(sheet[k].value, cols) in RemarkedRecords(sheet, cols, n)
    {
      RemarkedRowsComplete(sheet, cols, n, k);
      var j :| 0 <= j < |rows| && rows[j] == k;
      assert RemarkedRecords(sheet, cols, n)[j] == ParseRow(sheet[k].value, cols);
    }
  }

  /** `getPhysicalNumberOfRows`: the rows that exist. */
  function PhysicalRows(sheet: seq<Option<Row>>): (r: nat)
    ensures r <= |sheet|
  {
    if sheet == [] then 0 else PhysicalRows(sheet[..|sheet| - 1]) + (if sheet[|sheet| - 1].Some? then 1 else 0)
  }

  datatype VacationFile = VacationFile(filename: Option<string>, isEmpty: bool, workbook: Workbook)

  /** The upload is present, non-empty and named like an Excel file. */
  predicate AcceptedUpload(file: Option<VacationFile>) {
    && file.Some? && !file.value.isEmpty && file.value.filename.Some?
    && (EndsWith(file.value.filename.value, ".xlsx") || EndsWith(file.value.filename.value, ".xls"))
  }

  /** Reading the uploaded sheet: an Excel file with at least two rows, a
      header row holding the four columns, and the rows whose remark is not
      blank. A workbook that cannot be read or parsed is reported with the
      exception's message. */
  function ParseValidVacationRecords(file: Option<VacationFile>): (r: Result<seq<VacationRecord>>)
    ensures (file.None? || file.value.isEmpty) ==> r == Err("上传的文件不能为空")
    ensures file.Some? && !file.value.isEmpty && !AcceptedUpload(file)
            ==> r == Err("文件格式不正确，请上传Excel文件(.xlsx或.xls)")
    ensures AcceptedUpload(file) && file.value.workbook.Unreadable?
            ==> r == Err("读取Excel文件失败: " + ExceptionText(file.value.workbook.ioMessage))
    ensures AcceptedUpload(file) && file.value.workbook.Malformed?
            ==> r == Err("解析Excel文件失败: " + ExceptionText(file.value.workbook.message))
    ensures AcceptedUpload(file) && file.value.workbook.Opened? && PhysicalRows(file.value.workbook.sheet) < 2
            ==> r == Err("Excel文件中没有数据")
    ensures r.Ok? <==> AcceptedUpload(file) && file.value.workbook.Opened?
                       && PhysicalRows(file.value.workbook.sheet) >= 2
                       && file.value.workbook.sheet[0].Some?
                       && ValidateRequiredColumns(ParseHeader(file.value.workbook.sheet[0].value)).None?
    ensures r.Ok? ==> forall i :: 0 <= i < |r.value| ==> !Blank(r.value[i].remark)
    ensures r.Ok? ==> var sheet := file.value.workbook.sheet;
                      r.value == RemarkedRecords(sheet, ParseHeader(sheet[0].value), |sheet|)
  {
    if file.None? || file.value.isEmpty then Err("上传的文件不能为空")
    else if file.value.filename.None?
            || (!EndsWith(file.value.filename.value, ".xlsx") && !EndsWith(file.value.filename.value, ".xls"))
    then Err("文件格式不正确，请上传Excel文件(.xlsx或.xls)")
    else
      match file.value.workbook
      case Unreadable(m) => Err("读取Excel文件失败: " + ExceptionText(m))
      case Malformed(m) => Err("解析Excel文件失败: " + ExceptionText(m))
      case Opened(sheet) =>
        if PhysicalRows(sheet) < 2 then Err("Excel文件中没有数据")
        else if sheet[0].None? then Err("Excel表头不能为空")
        else
          var cols := ParseHeader(sheet[0].value);
          var problem := ValidateRequiredColumns(cols);
          if problem.Some? then Err(problem.value)
          else Ok(RemarkedRecords(sheet, cols, |sheet|))
  }

  // ---------------------------------------------------------------------------
  // Dates and day counts
  // ---------------------------------------------------------------------------

  predicate IsSlash(c: char) {
    c == '/'
  }

  /** A one-character month or day gets a leading zero. */
  function PadTwo(p: string): (r: string)
    ensures EndsWith(r, p)
    ensures p != [] ==> |r| >= 2
  {
    if |p| == 1 then "0" + p else p
  }

  /** `y/m/d` (exactly three parts) becomes `y-mm-dd`; anything else is
      kept as it is. */
  function FormatDate(date: string): (r: string)
    ensures !HasDelim(date, IsSlash) ==> r == date
    ensures |JavaSplit(date, IsSlash)| != 3 ==> r == date
  {
    var parts := JavaSplit(date, IsSlash);
    if |parts| == 3 then parts[0] + "-" + PadTwo(parts[1]) + "-" + PadTwo(parts[2]) else date
  }

  /** Reading a slashed date: the year is kept and the month and day are
      padded to two digits. */
  lemma FormatSlashedDate(year: string, month: string, day: string)
    requires day != ""
    requires forall k :: 0 <= k < |year| ==> !IsSlash(year[k])
    requires forall k :: 0 <= k < |month| ==> !IsSlash(month[k])
    requires forall k :: 0 <= k < |day| ==> !IsSlash(day[k])
    ensures FormatDate(year + "/" + month + "/" + day) == year + "-" + PadTwo(month) + "-" + PadTwo(day)
  {
    var parts := [year, month, day];
    assert Join("/", parts) == year + "/" + month + "/" + day by {
      assert Join("/", parts[1..]) == month + "/" + day;
    }
    JavaSplitJoin(parts, '/', IsSlash);
  }

  const HOURS_PER_DAY: nat := 8

  predicate IsQuantityChar(c: char) {
    IsAsciiDigit(c) || c == '.'
  }

  /** Full-width and ASCII commas become points, then everything but digits
      and points is dropped. */
  function NormalizeQuantity(quantity: string): (r: string)
    ensures |r| <= |quantity|
    ensures forall k :: 0 <= k < |r| ==> IsQuantityChar(r[k])
  {
    Keep(ReplaceChar(ReplaceChar(quantity, '，', ','), ',', '.'), IsQuantityChar)
  }

  lemma NormalizeDigits(s: string)
    requires AllDigits(s)
    ensures NormalizeQuantity(s) == s
  {
    var once := ReplaceChar(s, '，', ',');
    assert once == s;
    var twice := ReplaceChar(once, ',', '.');
    assert twice == s;
    KeepAll(s, IsQuantityChar);
  }

  /** The number of days a normalised quantity stands for: a unit naming
      hours divides by eight hours a day at four places, rounding half up. */
  function DaysValue(normalized: string, unit: string): (r: Option<Decimal>)
    ensures r.Some? <==> ParseDecimal(normalized).Some?
    ensures r.Some? && Contains(unit, "小") ==> r.value.scale == 4
  {
    var parsed := ParseDecimal(normalized);
    if parsed.None? then None
    else if Contains(unit, "小") then Some(DivideBy(parsed.value, HOURS_PER_DAY, 4))
    else parsed
  }

  /** The day count as written to the table: the value without trailing
      zeros in plain notation, or the quantity as given when it does not
      read as a number. */
  function FormatVacationDays(quantity: string, unit: string): (r: string)
    ensures quantity == "" ==> r == ""
    ensures quantity != "" && DaysValue(NormalizeQuantity(quantity), unit).None? ==> r == quantity
    ensures quantity != "" && DaysValue(NormalizeQuantity(quantity), unit).Some? ==>
              r == ToPlainString(StripTrailingZeros(DaysValue(NormalizeQuantity(quantity), unit).value))
  {
    if quantity == "" then ""
    else
      var normalized := NormalizeQuantity(quantity);
      if normalized == "" then quantity
      else
        var days := DaysValue(normalized, unit);
        if days.None? then quantity else ToPlainString(StripTrailingZeros(days.value))
  }

  lemma ReadNat(n: nat)
    ensures ParseDecimal(NatToString(n)) == Some(Decimal(n, 0))
  {
    ParsePlain(Decimal(n, 0));
    if n == 0 {
      assert NatToString(0) == "0";
    } else {
      assert ToPlainString(Decimal(n, 0)) == "" + NatToString(n) + "";
      assert "" + NatToString(n) + "" == NatToString(n);
    }
  }

  /** A whole number of hours is that many eighths of a day, exactly:
      n hours are n * 1250 ten-thousandths of a day. */
  lemma WholeHoursAreEighths(n: nat, unit: string)
    requires Contains(unit, "小")
    ensures FormatVacationDays(NatToString(n), unit) == ToPlainString(StripTrailingZeros(Decimal(n * 1250, 4)))
  {
    NormalizeDigits(NatToString(n));
    ReadNat(n);
    assert DivideBy(Decimal(n, 0), 8, 4).unscaled == RoundHalfUp(n * 10000, 8);
    assert n * 10000 == (n * 1250) * 8;
    RoundExact(n * 1250, 8);
  }

  /** A whole number of days in any other unit is kept as that number. */
  lemma WholeDaysKept(n: nat, unit: string)
    requires !Contains(unit, "小")
    ensures FormatVacationDays(NatToString(n), unit) == ToPlainString(StripTrailingZeros(Decimal(n, 0)))
  {
    NormalizeDigits(NatToString(n));
    ReadNat(n);
  }

  // ---------------------------------------------------------------------------
  // Vacation types counted as one day
  // ---------------------------------------------------------------------------

  const FIXED_ONE_DAY_TYPES: set<string> := {"迟到", "迟到早退", "未刷卡"}

  /** The separators between listed types: 、 , ， / ; ； and white space. */
  predicate IsTypeSeparator(c: char) {
    c == '、' || c == ',' || c == '，' || c == '/' || c == ';' || c == '；' || IsRegexSpace(c)
  }

  /** Some non-empty trimmed part is a type counted as one day. */
  predicate AnyFixedPart(parts: seq<string>) {
    exists i :: 0 <= i < |parts| && JavaTrim(parts[i]) != "" && JavaTrim(parts[i]) in FIXED_ONE_DAY_TYPES
  }

  /** Late arrival, leaving early and a missed clock-in count as one day,
      named alone or in a list with other types. */
  function ShouldUseFixedOneDay(vacationType: string): (r: bool)
    ensures r ==> HasText(vacationType)
    ensures HasText(vacationType) && JavaTrim(vacationType) in FIXED_ONE_DAY_TYPES ==> r
  {
    if !HasText(vacationType) then false
    else
      var normalized := JavaTrim(vacationType);
      if normalized in FIXED_ONE_DAY_TYPES then true
      else
        var parts := JavaSplitRuns(normalized, IsTypeSeparator);
        |parts| > 1 && AnyFixedPart(parts)
  }

  /** A word of a type list: not empty, no separator, nothing trimmed. */
  predicate Word(s: string) {
    s != [] && forall k :: 0 <= k < |s| ==> !IsTrimmable(s[k]) && !IsJavaWhitespace(s[k]) && !IsTypeSeparator(s[k])
  }

  lemma WordUnpadded(s: string)
    requires Word(s)
    ensures JavaTrim(s) == s && HasText(s)
  {
    Unpadded(s);
  }

  /** A pair of words listed with 、 splits back into the two words. */
  lemma PairSplit(a: string, b: string)
    requires Word(a) && Word(b)
    ensures JavaTrim(a + "、" + b) == a + "、" + b && HasText(a + "、" + b)
    ensures JavaSplitRuns(a + "、" + b, IsTypeSeparator) == [a, b]
  {
    var parts := [a, b];
    assert Join("、", parts) == a + "、" + b;
    JoinEnds("、", parts);
    Unpadded(a + "、" + b);
    JavaSplitRunsJoin(parts, '、', IsTypeSeparator);
  }

  /** No type counted as one day holds a separator. */
  lemma PairNotFixed(a: string, b: string)
    ensures a + "、" + b !in FIXED_ONE_DAY_TYPES
  {
    var pair := a + "、" + b;
    assert pair[|a|] == '、';
    assert forall t :: t in FIXED_ONE_DAY_TYPES ==> forall k :: 0 <= k < |t| ==> t[k] != '、';
  }

  /** Two types listed with 、 count as one day exactly when one of them
      does. */
  lemma FixedInPair(a: string, b: string)
    requires Word(a) && Word(b)
    ensures ShouldUseFixedOneDay(a + "、" + b) <==> a in FIXED_ONE_DAY_TYPES || b in FIXED_ONE_DAY_TYPES
  {
    PairSplit(a, b);
    PairNotFixed(a, b);
    WordUnpadded(a);
    WordUnpadded(b);
    var parts := [a, b];
    assert AnyFixedPart(parts) <==> a in FIXED_ONE_DAY_TYPES || b in FIXED_ONE_DAY_TYPES by {
      assert JavaTrim(parts[0]) == a && JavaTrim(parts[1]) == b;
    }
  }

  // ---------------------------------------------------------------------------
  // Remarks
  // ---------------------------------------------------------------------------

  datatype DetailItem = DetailItem(startDate: string, endDate: string, vacationType: string, vacationDays: string)

  predicate IsDash(c: char) {
    c == '-'
  }

  /** One record `date type quantity unit`, separated by white space: a date
      with a dash is a range, any other date is a single day. Fewer than four
      parts, or a dash with nothing after it, gives no item. */
  function ParseVacationRecord(record: string): (r: Option<DetailItem>)
    ensures r.Some? ==> |JavaSplitRuns(record, IsRegexSpace)| >= 4
    ensures r.Some? ==> var parts := JavaSplitRuns(record, IsRegexSpace);
                        r.value.vacationType == parts[1]
  {
    var parts := JavaSplitRuns(record, IsRegexSpace);
    if |parts| < 4 then None
    else
      var date := parts[0];
      var days := FormatVacationDays(parts[2], parts[3]);
      if Contains(date, "-") then
        var dates := JavaSplit(date, IsDash);
        if |dates| < 2 then None
        else Some(DetailItem(FormatDate(JavaTrim(dates[0])), FormatDate(JavaTrim(dates[1])), parts[1], days))
      else
        var day := FormatDate(date);
        Some(DetailItem(day, day, parts[1], days))
  }

  /** A field of a record: not empty, nothing trimmed, no record separator. */
  predicate Field(s: string) {
    s != [] && forall k :: 0 <= k < |s| ==> !IsTrimmable(s[k]) && !IsJavaWhitespace(s[k]) && !IsRecordSeparator(s[k])
  }

  lemma FieldsSplit(fields: seq<string>)
    requires |fields| == 4 && forall i :: 0 <= i < 4 ==> Field(fields[i])
    ensures JavaSplitRuns(Join(" ", fields), IsRegexSpace) == fields
  {
    JavaSplitRunsJoin(fields, ' ', IsRegexSpace);
  }

  lemma RecordText(date: string, vacationType: string, quantity: string, unit: string)
    ensures Join(" ", [date, vacationType, quantity, unit]) == date + " " + vacationType + " " + quantity + " " + unit
  {
    var xs := [date, vacationType, quantity, unit];
    assert Join(" ", xs[3..]) == unit;
    assert Join(" ", xs[2..]) == quantity + " " + unit;
    assert Join(" ", xs[1..]) == vacationType + " " + quantity + " " + unit;
  }

  /** A single-day record reads back its four fields. */
  lemma SingleDayRecord(date: string, vacationType: string, quantity: string, unit: string)
    requires Field(date) && Field(vacationType) && Field(quantity) && Field(unit)
    requires forall k :: 0 <= k < |date| ==> date[k] != '-'
    ensures ParseVacationRecord(date + " " + vacationType + " " + quantity + " " + unit)
            == Some(DetailItem(FormatDate(date), FormatDate(date), vacationType, FormatVacationDays(quantity, unit)))
  {
    RecordText(date, vacationType, quantity, unit);
    FieldsSplit([date, vacationType, quantity, unit]);
    ContainsChar(date, '-');
  }

  /** A date range `from-to` is one field holding a dash. */
  lemma RangeField(from: string, to: string)
    requires Field(from) && Field(to)
    ensures Field(from + "-" + to) && Contains(from + "-" + to, "-")
  {
    var date := from + "-" + to;
    assert forall k :: 0 <= k < |date| ==> date[k] == '-' || date[k] in from || date[k] in to;
    assert date[|from|] == '-';
    ContainsChar(date, '-');
  }

  /** A date range splits at its dash into its two ends. */
  lemma RangeSplit(from: string, to: string)
    requires Field(from) && Field(to)
    requires forall k :: 0 <= k < |from| ==> from[k] != '-'
    requires forall k :: 0 <= k < |to| ==> to[k] != '-'
    ensures JavaSplit(from + "-" + to, IsDash) == [from, to]
    ensures JavaTrim(from) == from && JavaTrim(to) == to
  {
    assert Join("-", [from, to]) == from + "-" + to;
    JavaSplitJoin([from, to], '-', IsDash);
    Unpadded(from);
    Unpadded(to);
  }

  /** A record over a date range reads back both ends. */
  lemma DateRangeRecord(from: string, to: string, vacationType: string, quantity: string, unit: string)
    requires Field(from) && Field(to) && Field(vacationType) && Field(quantity) && Field(unit)
    requires forall k :: 0 <= k < |from| ==> from[k] != '-'
    requires forall k :: 0 <= k < |to| ==> to[k] != '-'
    ensures ParseVacationRecord(from + "-" + to + " " + vacationType + " " + quantity + " " + unit)
            == Some(DetailItem(FormatDate(from), FormatDate(to), vacationType, FormatVacationDays(quantity, unit)))
  {
    var date := from + "-" + to;
    RangeField(from, to);
    RangeSplit(from, to);
    RecordText(date, vacationType, quantity, unit);
    FieldsSplit([date, vacationType, quantity, unit]);
  }

  /** Records are separated by ';' or '；'. */
  predicate IsRecordSeparator(c: char) {
    c == ';' || c == '；'
  }

  /** A record as it stands in a remark: not empty, nothing to trim at
      either end, no record separator. */
  predicate Piece(s: string) {
    && s != [] && !IsTrimmable(s[0]) && !IsJavaWhitespace(s[0]) && !IsTrimmable(s[|s| - 1])
    && forall k :: 0 <= k < |s| ==> !IsRecordSeparator(s[k])
  }

  /** The item of one piece of a remark, if its trimmed text reads as a
      record under `parse`. */
  function PieceItems(piece: string, parse: string -> Option<DetailItem>): (r: seq<DetailItem>)
    ensures |r| <= 1
  {
    var trimmed := JavaTrim(piece);
    if trimmed == "" then []
    else
      var item := parse(trimmed);
      if item.None? then [] else [item.value]
  }

  function ItemsOf(pieces: seq<string>, parse: string -> Option<DetailItem>): (r: seq<DetailItem>)
    ensures |r| <= |pieces|
  {
    if pieces == [] then [] else ItemsOf(pieces[..|pieces| - 1], parse) + PieceItems(pieces[|pieces| - 1], parse)
  }

  /** A remark is split into records; blank pieces and pieces that do not
      read as a record are passed over. */
  function ParseVacationDetails(remark: string): (r: seq<DetailItem>)
    ensures Blank(remark) ==> r == []
    ensures |r| <= |JavaSplit(remark, IsRecordSeparator)|
  {
    if Blank(remark) then [] else ItemsOf(JavaSplit(remark, IsRecordSeparator), ParseVacationRecord)
  }

  /** Pieces with nothing to trim that each read as a record give their
      items in order. */
  lemma {:induction false} ItemsOfRecords(records: seq<string>, parse: string -> Option<DetailItem>)
    requires forall i :: 0 <= i < |records| ==> Piece(records[i]) && parse(records[i]).Some?
    ensures |ItemsOf(records, parse)| == |records|
    ensures forall i :: 0 <= i < |records| ==> Some(ItemsOf(records, parse)[i]) == parse(records[i])
    decreases |records|
  {
    if records != [] {
      var init := records[..|records| - 1];
      var last := records[|records| - 1];
      ItemsOfRecords(init, parse);
      Unpadded(last);
      var items := ItemsOf(records, parse);
      assert items == ItemsOf(init, parse) + [parse(last).value];
      forall i | 0 <= i < |records|
        ensures Some(items[i]) == parse(records[i])
      {
        if i < |init| {
          assert records[i] == init[i];
        }
      }
    }
  }

  /** Records joined with ';' give their items in order. */
  lemma RemarkOfRecords(records: seq<string>)
    requires records != []
    requires forall i :: 0 <= i < |records| ==> Piece(records[i]) && ParseVacationRecord(records[i]).Some?
    ensures |ParseVacationDetails(Join(";", records))| == |records|
    ensures forall i :: 0 <= i < |records| ==> Some(ParseVacationDetails(Join(";", records))[i]) == ParseVacationRecord(records[i])
  {
    RemarkPieces(records);
    ItemsOfRecords(records, ParseVacationRecord);
  }

  /** A remark joined from pieces splits back into them. */
  lemma RemarkPieces(records: seq<string>)
    requires records != []
    requires forall i :: 0 <= i < |records| ==> Piece(records[i])
    ensures ParseVacationDetails(Join(";", records)) == ItemsOf(records, ParseVacationRecord)
  {
    JoinedPiecesKept(records);
    JoinedPiecesSplit(records);
  }

  /** Pieces joined with ";" have nothing to trim. */
  lemma JoinedPiecesKept(records: seq<string>)
    requires records != []
    requires forall i :: 0 <= i < |records| ==> Piece(records[i])
    ensures !Blank(Join(";", records))
  {
    JoinEnds(";", records);
    Unpadded(Join(";", records));
  }

  lemma JoinedPiecesSplit(records: seq<string>)
    requires records != []
    requires forall i :: 0 <= i < |records| ==> Piece(records[i])
    ensures JavaSplit(Join(";", records), IsRecordSeparator) == records
  {
    if |records| == 1 {
      assert Join(";", records) == records[0];
    } else {
      JavaSplitJoin(records, ';', IsRecordSeparator);
    }
  }

  // ---------------------------------------------------------------------------
  // Details and the vacation table
  // ---------------------------------------------------------------------------

  datatype VacationDetail = VacationDetail(
    idCard: string, name: string, department: string, startDate: string, endDate: string,
    vacationType: string, vacationDays: string)

  /** The details of one record's corrected remark; the person's fields come
      from the record and fixed one-day types count as "1". */
  function ConvertToDetailRequests(record: VacationRecord, corrected: string): (r: seq<VacationDetail>)
    ensures Blank(corrected) ==> r == []
    ensures !Blank(corrected) ==> |r| == |ParseVacationDetails(corrected)|
    ensures forall i :: 0 <= i < |r| ==>
              r[i].idCard == record.idCard && r[i].name == record.name && r[i].department == record.department
  {
    if Blank(corrected) then []
    else
      var items := ParseVacationDetails(corrected);
      seq(|items|, i requires 0 <= i < |items| =>
        VacationDetail(record.idCard, record.name, record.department, items[i].startDate, items[i].endDate,
                       items[i].vacationType,
                       if ShouldUseFixedOneDay(items[i].vacationType) then "1" else items[i].vacationDays))
  }

  /** Each detail keeps its item's dates and type; a type counted as one
      day has "1" as its day count, any other the item's own. */
  lemma DetailOfItem(record: VacationRecord, corrected: string, i: nat)
    requires i < |ConvertToDetailRequests(record, corrected)|
    ensures var item := ParseVacationDetails(corrected)[i];
            var d := ConvertToDetailRequests(record, corrected)[i];
            && d.startDate == item.startDate && d.endDate == item.endDate && d.vacationType == item.vacationType
            && d.vacationDays == (if ShouldUseFixedOneDay(item.vacationType) then "1" else item.vacationDays)
  {
  }

  /** One record: the corrected remark, or the remark itself when the
      correction fails (`None`). */
  function BuildDetailsForRecord(record: VacationRecord, correct: string -> Option<string>): (r: seq<VacationDetail>)
    ensures Blank(record.remark) ==> r == []
    ensures forall i :: 0 <= i < |r| ==> r[i].idCard == record.idCard && r[i].name == record.name
  {
    if Blank(record.remark) then []
    else
      var corrected := correct(record.remark);
      ConvertToDetailRequests(record, if corrected.None? then record.remark else corrected.value)
  }

  /** A failed correction costs nothing: the record's details are those of a
      correction that returns the remark unchanged. */
  lemma CorrectionFallback(record: VacationRecord, correct: string -> Option<string>)
    requires correct(record.remark).None?
    ensures BuildDetailsForRecord(record, correct) == BuildDetailsForRecord(record, s => Some(s))
  {
  }

  /** The details of all records, record by record in order. */
  function BuildVacationDetails(records: seq<VacationRecord>, correct: string -> Option<string>): (r: seq<VacationDetail>)
    ensures (forall i :: 0 <= i < |records| ==> Blank(records[i].remark)) ==> r == []
    ensures |records| == 1 ==> r == BuildDetailsForRecord(records[0], correct)
  {
    if records == [] then []
    else BuildVacationDetails(records[..|records| - 1], correct) + BuildDetailsForRecord(records[|records| - 1], correct)
  }

  /** Every detail belongs to one of the records: it carries that record's
      id card and name. */
  lemma {:induction false} DetailsFromRecords(records: seq<VacationRecord>, correct: string -> Option<string>, i: nat)
    returns (j: nat)
    requires i < |BuildVacationDetails(records, correct)|
    ensures j < |records|
    ensures BuildVacationDetails(records, correct)[i].idCard == records[j].idCard
    ensures BuildVacationDetails(records, correct)[i].name == records[j].name
    decreases |records|
  {
    NoRecordsNoDetails(correct);
    var n := |records| - 1;
    var init := records[..n];
    var before := BuildVacationDetails(init, correct);
    var last := BuildDetailsForRecord(records[n], correct);
    DetailsSnoc(records, correct);
    var all := BuildVacationDetails(records, correct);
    assert all == before + last;
    if i < |before| {
      j := DetailsFromRecords(init, correct, i);
      AppendedBefore(before, last, i);
      assert all[i] == before[i];
      assert init[j] == records[j];
    } else {
      j := n;
      AppendedAt(before, last, i);
      assert all[i] == last[i - |before|];
    }
  }

  /** `f` applied to each element of `xs`, the results joined in order. */
  function Flatten<T, U>(f: T -> seq<U>, xs: seq<T>): (r: seq<U>)
    ensures xs == [] ==> r == []
    decreases |xs|
  {
    if xs == [] then [] else Flatten(f, xs[..|xs| - 1]) + f(xs[|xs| - 1])
  }

  lemma {:induction false} FlattenConcat<T, U>(f: T -> seq<U>, a: seq<T>, b: seq<T>)
    ensures Flatten(f, a + b) == Flatten(f, a) + Flatten(f, b)
    decreases |b|
  {
    if b == [] {
      assert a + b == a;
    } else {
      var ab := a + b;
      assert ab[..|ab| - 1] == a + b[..|b| - 1] && ab[|ab| - 1] == b[|b| - 1];
      FlattenConcat(f, a, b[..|b| - 1]);
    }
  }

  function DetailsOf(correct: string -> Option<string>): VacationRecord -> seq<VacationDetail> {
    record => BuildDetailsForRecord(record, correct)
  }

  /** The details of the records are each record's details joined in order. */
  lemma {:induction false} DetailsFlatten(records: seq<VacationRecord>, correct: string -> Option<string>)
    ensures BuildVacationDetails(records, correct) == Flatten(DetailsOf(correct), records)
    decreases |records|
  {
    if records != [] {
      DetailsFlatten(records[..|records| - 1], correct);
    }
  }

  /** The details of two runs of records are the details of each, in turn. */
  lemma DetailsConcat(a: seq<VacationRecord>, b: seq<VacationRecord>, correct: string -> Option<string>)
    ensures BuildVacationDetails(a + b, correct) == BuildVacationDetails(a, correct) + BuildVacationDetails(b, correct)
  {
    DetailsFlatten(a + b, correct);
    DetailsFlatten(a, correct);
    DetailsFlatten(b, correct);
    FlattenConcat(DetailsOf(correct), a, b);
  }

  lemma NoRecordsNoDetails(correct: string -> Option<string>)
    ensures BuildVacationDetails([], correct) == []
  {
  }

  lemma DetailsSnoc(records: seq<VacationRecord>, correct: string -> Option<string>)
    requires records != []
    ensures BuildVacationDetails(records, correct)
            == BuildVacationDetails(records[..|records| - 1], correct) + BuildDetailsForRecord(records[|records| - 1], correct)
  {
  }

  lemma AppendedBefore(a: seq<VacationDetail>, b: seq<VacationDetail>, i: nat)
    requires i < |a|
    ensures (a + b)[i] == a[i]
  {
  }

  lemma AppendedAt(a: seq<VacationDetail>, b: seq<VacationDetail>, i: nat)
    requires |a| <= i < |a| + |b|
    ensures (a + b)[i] == b[i - |a|]
  {
  }

  const VACATION_TABLE_HEADERS: seq<string> :=
    ["序号", "身份证号码", "姓名", "开始日期", "结束日期", "开始时间", "结束时间", "休假天数", "休假类型",
     "年休假归属年份", "子女姓名", "备注", "一级部门"]

  /** Row `i + 1` of the table: its number, then the detail, with the
      columns the model leaves empty written as "". */
  function DetailRow(d: VacationDetail, i: nat): (r: Row)
    ensures |r| == |VACATION_TABLE_HEADERS|
  {
    [NatToString(i + 1), d.idCard, d.name, d.startDate, d.endDate, "", "", d.vacationDays, d.vacationType,
     "", "", "", d.department]
  }

  /** The vacation table: the header row and one numbered row per detail. */
  function VacationTable(details: seq<VacationDetail>): (r: seq<Row>)
    ensures |r| == |details| + 1 && r[0] == VACATION_TABLE_HEADERS
    ensures forall i :: 1 <= i < |r| ==> |r[i]| == |VACATION_TABLE_HEADERS|
  {
    [VACATION_TABLE_HEADERS] + seq(|details|, i requires 0 <= i < |details| => DetailRow(details[i], i))
  }

  /** The detail a table row holds, read by header. */
  function ReadDetailRow(row: Row): VacationDetail
    requires |row| == |VACATION_TABLE_HEADERS|
  {
    VacationDetail(row[1], row[2], row[12], row[3], row[4], row[8], row[7])
  }

  /** Every detail can be read back from its row of the table, which carries
      its position as the row number. */
  lemma TableReadBack(details: seq<VacationDetail>, i: nat)
    requires i < |details|
    ensures ReadDetailRow(VacationTable(details)[i + 1]) == details[i]
    ensures VacationTable(details)[i + 1][0] == NatToString(i + 1)
  {
  }

  /** The whole flow: the records with a remark, their details, and the
      table; no remark or no detail at all is an error. */
  function ProcessVacationExcel(file: Option<VacationFile>, correct: string -> Option<string>): (r: Result<seq<Row>>)
    ensures r.Ok? ==> ParseValidVacationRecords(file).Ok? && ParseValidVacationRecords(file).value != []
    ensures r.Ok? ==> var details := BuildVacationDetails(ParseValidVacationRecords(file).value, correct);
                      details != [] && r.value == VacationTable(details)
    ensures ParseValidVacationRecords(file).Err? ==> r == Err(ParseValidVacationRecords(file).error)
  {
    var records :- ParseValidVacationRecords(file);
    if records == [] then Err("Excel文件中没有需要处理的备注记录")
    else
      var details := BuildVacationDetails(records, correct);
      if details == [] then Err("AI解析未生成有效的休假数据，请检查备注内容")
      else Ok(VacationTable(details))
  }
}
