/** ChatBI queries one dataset, TASK. This module fixes which plan fields exist, the SQL
    expression each one selects, which aggregations, filter operators and
    sort directions a plan may use, and which fields need the user and
    batch tables joined in. */
module ChatBiSchema {

  import opened Results

  const DATASET_CODE: string := "TASK"

  /** A field a plan may name. */
  datatype Field =
    | TaskId | BatchId | BatchTitle | Title | Status | AssigneeId | AssigneeName
    | CreatedBy | PublishedTime | WorkloadManDay | PublishedAgeDays

  /** The code by which a plan names the field. */
  function FieldCode(f: Field): string {
    match f
    case TaskId => "TASK_ID"
    case BatchId => "BATCH_ID"
    case BatchTitle => "BATCH_TITLE"
    case Title => "TITLE"
    case Status => "STATUS"
    case AssigneeId => "ASSIGNEE_ID"
    case AssigneeName => "ASSIGNEE_NAME"
    case CreatedBy => "CREATED_BY"
    case PublishedTime => "PUBLISHED_TIME"
    case WorkloadManDay => "WORKLOAD_MAN_DAY"
    case PublishedAgeDays => "PUBLISHED_AGE_DAYS"
  }

  /** Membership in the allowed field set: the field whose code is exactly `s`. */
  function ParseField(s: string): (r: Option<Field>)
    ensures r.Some? ==> FieldCode(r.value) == s
    ensures r.None? ==> forall f: Field :: FieldCode(f) != s
  {
    if s == "TASK_ID" then Some(TaskId)
    else if s == "BATCH_ID" then Some(BatchId)
    else if s == "BATCH_TITLE" then Some(BatchTitle)
    else if s == "TITLE" then Some(Title)
    else if s == "STATUS" then Some(Status)
    else if s == "ASSIGNEE_ID" then Some(AssigneeId)
    else if s == "ASSIGNEE_NAME" then Some(AssigneeName)
    else if s == "CREATED_BY" then Some(CreatedBy)
    else if s == "PUBLISHED_TIME" then Some(PublishedTime)
    else if s == "WORKLOAD_MAN_DAY" then Some(WorkloadManDay)
    else if s == "PUBLISHED_AGE_DAYS" then Some(PublishedAgeDays)
    else None
  }

  /** Fields whose expression reads the joined `sys_user u` or `project_task_batch b`. */
  predicate JoinRequired(f: Field) {
    f == AssigneeName || f == BatchTitle
  }

  /** The two fields aggregations other than counting may be applied to. */
  predicate Numeric(f: Field) {
    f == WorkloadManDay || f == PublishedAgeDays
  }

  /** An expression reads a joined table when it mentions the `u` or `b` alias. */
  predicate ReadsJoinedTable(expr: string) {
    |expr| >= 2 && expr[1] == '.' && (expr[0] == 'u' || expr[0] == 'b')
  }

  /** The SQL expression a field selects. It reads a joined table exactly
      when the field requires the join. */
  function Expression(f: Field): (r: string)
    ensures ReadsJoinedTable(r) <==> JoinRequired(f)
  {
    match f
    case TaskId => "t.id"
    case BatchId => "t.batch_id"
    case BatchTitle => "b.title"
    case Title => "t.title"
    case Status => "t.status"
    case AssigneeId => "t.assignee_id"
    case AssigneeName => "u.username"
    case CreatedBy => "t.created_by"
    case PublishedTime => "t.published_time"
    case WorkloadManDay => "t.workload_man_day"
    case PublishedAgeDays => "TIMESTAMPDIFF(DAY, " + "t.published_time, " + "NOW())"
  }

  /** No field expression holds a placeholder. */
  lemma ExpressionUnmarked(f: Field)
    ensures '?' !in Expression(f)
  {
    if f == PublishedAgeDays {
      AgeExpressionUnmarked();
    }
  }

  lemma AgeExpressionUnmarked()
    ensures '?' !in Expression(PublishedAgeDays)
  {
    var e := Expression(PublishedAgeDays);
    assert e == "TIMESTAMPDIFF(DAY, " + "t.published_time, " + "NOW())";
  }

  /** An aggregation a measure may use. */
  datatype Agg = Count | CountDistinct | Sum | Avg | Min | Max

  function AggCode(a: Agg): string {
    match a
    case Count => "COUNT"
    case CountDistinct => "COUNT_DISTINCT"
    case Sum => "SUM"
    case Avg => "AVG"
    case Min => "MIN"
    case Max => "MAX"
  }

  /** Membership in the allowed aggregation set. */
  function ParseAgg(s: string): (r: Option<Agg>)
    ensures r.Some? ==> AggCode(r.value) == s
    ensures r.None? ==> forall a: Agg :: AggCode(a) != s
  {
    if s == "COUNT" then Some(Count)
    else if s == "COUNT_DISTINCT" then Some(CountDistinct)
    else if s == "SUM" then Some(Sum)
    else if s == "AVG" then Some(Avg)
    else if s == "MIN" then Some(Min)
    else if s == "MAX" then Some(Max)
    else None
  }

  /** COUNT and COUNT_DISTINCT apply to any field; the rest only to numeric ones. */
  predicate AggAppliesTo(a: Agg, f: Field) {
    a == Count || a == CountDistinct || Numeric(f)
  }

  /** A filter operator. */
  datatype FilterOp = Eq | Ne | In | Gt | Gte | Lt | Lte | Between

  function FilterOpCode(op: FilterOp): string {
    match op
    case Eq => "EQ"
    case Ne => "NE"
    case In => "IN"
    case Gt => "GT"
    case Gte => "GTE"
    case Lt => "LT"
    case Lte => "LTE"
    case Between => "BETWEEN"
  }

  /** Membership in the allowed filter operator set. */
  function ParseFilterOp(s: string): (r: Option<FilterOp>)
    ensures r.Some? ==> FilterOpCode(r.value) == s
    ensures r.None? ==> forall op: FilterOp :: FilterOpCode(op) != s
  {
    if s == "EQ" then Some(Eq)
    else if s == "NE" then Some(Ne)
    else if s == "IN" then Some(In)
    else if s == "GT" then Some(Gt)
    else if s == "GTE" then Some(Gte)
    else if s == "LT" then Some(Lt)
    else if s == "LTE" then Some(Lte)
    else if s == "BETWEEN" then Some(Between)
    else None
  }

  /** Membership in the allowed sort direction set. */
  predicate IsDirection(s: string) {
    s == "ASC" || s == "DESC"
  }

  /** Whether any used field needs the joined tables. The source scans the
      set and stops at the first such field. */
  method RequiresJoin(usedFields: set<Field>) returns (b: bool)
    ensures b <==> exists f :: f in usedFields && JoinRequired(f)
  {
    var rest := usedFields;
    while rest != {}
      invariant rest <= usedFields
      invariant forall f :: f in usedFields - rest ==> !JoinRequired(f)
      decreases |rest|
    {
      var f :| f in rest;
      if JoinRequired(f) {
        return true;
      }
      rest := rest - {f};
    }
    assert usedFields - rest == usedFields;
    return false;
  }

  /** Functional form of `RequiresJoin`, for use inside other functions. */
  predicate NeedsJoin(usedFields: set<Field>) {
    exists f :: f in usedFields && JoinRequired(f)
  }
}
