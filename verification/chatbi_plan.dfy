/** The ChatBI query plan a language model proposes, and the validation that
    decides whether it may run: the data set must be TASK, a plan asking for
    clarification must carry its question, and every dimension, measure,
    filter and sort key must name an allowed field with an allowed
    aggregation, operator or direction. A validated plan has its limit
    clamped, its aliases filled in, and its operators, filter values and
    directions normalised. */
module ChatBiPlan {

  import opened Results
  import opened Text
  import opened ChatBiSchema

  const DEFAULT_LIMIT: int := 50
  const MAX_LIMIT: int := 200

  datatype Measure = Measure(agg: string, field: string, alias: string)

  datatype Dimension = Dimension(field: string, alias: string)

  datatype Filter = Filter(field: string, op: string, value: string, values: seq<string>, from: string, to: string)

  datatype OrderBy = OrderBy(field: string, direction: string)

  /** A plan as proposed. Absent strings are empty; absent lists are empty. */
  datatype QueryPlan = QueryPlan(
    dataset: string,
    needClarification: Option<bool>,
    clarifyingQuestion: string,
    measures: seq<Measure>,
    dimensions: seq<Dimension>,
    filters: seq<Filter>,
    orderBy: seq<OrderBy>,
    limit: Option<int>)

  /** The normalised plan, the fields it touches, and the row limit. */
  datatype ValidatedPlan = ValidatedPlan(plan: QueryPlan, usedFields: set<Field>, limit: int)

  predicate Clarifying(p: QueryPlan) {
    p.needClarification == Some(true)
  }

  /** The field a raw field string names once trimmed. */
  function FieldOf(raw: string): Option<Field> {
    ParseField(JavaTrim(raw))
  }

  function AggOf(raw: string): Option<Agg> {
    ParseAgg(Upper(JavaTrim(raw)))
  }

  function FilterOpOf(raw: string): Option<FilterOp> {
    ParseFilterOp(Upper(JavaTrim(raw)))
  }

  // ---------------------------------------------------------------------------
  // The rules a plan must satisfy, stated element by element
  // ---------------------------------------------------------------------------

  predicate DimensionOk(d: Dimension) {
    HasText(d.field) && FieldOf(d.field).Some?
  }

  predicate MeasureOk(m: Measure) {
    HasText(m.agg) && HasText(m.field) && AggOf(m.agg).Some? && FieldOf(m.field).Some?
    && AggAppliesTo(AggOf(m.agg).value, FieldOf(m.field).value)
  }

  predicate FilterValuesOk(op: FilterOp, f: Filter) {
    match op
    case In => exists k :: 0 <= k < |f.values| && HasText(f.values[k])
    case Between => HasText(f.from) && HasText(f.to)
    case _ => HasText(f.value)
  }

  predicate FilterOk(f: Filter) {
    HasText(f.field) && HasText(f.op) && FieldOf(f.field).Some? && FilterOpOf(f.op).Some?
    && FilterValuesOk(FilterOpOf(f.op).value, f)
  }

  predicate OrderOk(o: OrderBy) {
    HasText(o.field) && FieldOf(o.field).Some? && IsDirection(Upper(JavaTrim(o.direction)))
  }

  /** The plan passes validation. */
  predicate Acceptable(p: QueryPlan) {
    EqualsIgnoreCase(p.dataset, DATASET_CODE)
    && if Clarifying(p) then HasText(p.clarifyingQuestion)
       else p.measures != [] && ElementsOk(p)
  }

  /** Every dimension, measure, filter and sort key passes its check. */
  predicate ElementsOk(p: QueryPlan) {
    (forall i :: 0 <= i < |p.dimensions| ==> DimensionOk(p.dimensions[i]))
    && (forall i :: 0 <= i < |p.measures| ==> MeasureOk(p.measures[i]))
    && (forall i :: 0 <= i < |p.filters| ==> FilterOk(p.filters[i]))
    && (forall i :: 0 <= i < |p.orderBy| ==> OrderOk(p.orderBy[i]))
  }

  /** Every field a plan names, as far as it names an allowed one. */
  function PlanFields(p: QueryPlan): set<Field> {
    FieldSet(DimensionFieldNames(p.dimensions)) + FieldSet(MeasureFieldNames(p.measures))
    + FieldSet(FilterFieldNames(p.filters)) + FieldSet(OrderFieldNames(p.orderBy))
  }

  /** The known fields among raw field names. */
  function FieldSet(names: seq<string>): set<Field> {
    set i | 0 <= i < |names| && FieldOf(names[i]).Some? :: FieldOf(names[i]).value
  }

  function DimensionFieldNames(ds: seq<Dimension>): seq<string> {
    seq(|ds|, i requires 0 <= i < |ds| => ds[i].field)
  }

  function MeasureFieldNames(ms: seq<Measure>): seq<string> {
    seq(|ms|, i requires 0 <= i < |ms| => ms[i].field)
  }

  function FilterFieldNames(fs: seq<Filter>): seq<string> {
    seq(|fs|, i requires 0 <= i < |fs| => fs[i].field)
  }

  function OrderFieldNames(os: seq<OrderBy>): seq<string> {
    seq(|os|, i requires 0 <= i < |os| => os[i].field)
  }

  /** The shape a validated, non-clarifying plan has. */
  predicate Normalized(p: QueryPlan) {
    DimensionsNormalized(p.dimensions) && MeasuresNormalized(p.measures)
    && FiltersNormalized(p.filters) && OrdersNormalized(p.orderBy)
  }

  predicate DimensionsNormalized(ds: seq<Dimension>) {
    forall i :: 0 <= i < |ds| ==> DimensionOk(ds[i]) && HasText(ds[i].alias)
  }

  predicate MeasuresNormalized(ms: seq<Measure>) {
    forall i :: 0 <= i < |ms| ==> MeasureOk(ms[i]) && HasText(ms[i].alias)
  }

  predicate FiltersNormalized(fs: seq<Filter>) {
    forall i :: 0 <= i < |fs| ==> NormalizedFilter(fs[i])
  }

  predicate OrdersNormalized(os: seq<OrderBy>) {
    forall i :: 0 <= i < |os| ==>
      HasText(os[i].field) && FieldOf(os[i].field).Some? && IsDirection(os[i].direction)
  }

  /** A validated filter: an exact operator code and trimmed operands, with at
      least one value for IN. */
  predicate NormalizedFilter(f: Filter) {
    HasText(f.field) && FieldOf(f.field).Some? && ParseFilterOp(f.op).Some?
    && match ParseFilterOp(f.op).value
       case In => f.values != [] && forall k :: 0 <= k < |f.values| ==> f.values[k] == JavaTrim(f.values[k])
       case Between => f.from == JavaTrim(f.from) && f.to == JavaTrim(f.to)
       case _ => f.value == JavaTrim(f.value)
  }

  /** Validation keeps the data set, the fields and the aggregations. */
  predicate SameFields(p: QueryPlan, q: QueryPlan) {
    q.dataset == p.dataset
    && SameDimensionFields(p.dimensions, q.dimensions) && SameMeasureFields(p.measures, q.measures)
    && SameFilterFields(p.filters, q.filters) && SameOrderFields(p.orderBy, q.orderBy)
  }

  predicate SameDimensionFields(ds: seq<Dimension>, qs: seq<Dimension>) {
    |qs| == |ds| && forall i :: 0 <= i < |ds| ==> qs[i].field == ds[i].field
  }

  predicate SameMeasureFields(ms: seq<Measure>, qs: seq<Measure>) {
    |qs| == |ms| && forall i :: 0 <= i < |ms| ==> qs[i].field == ms[i].field && qs[i].agg == ms[i].agg
  }

  predicate SameFilterFields(fs: seq<Filter>, qs: seq<Filter>) {
    |qs| == |fs| && forall i :: 0 <= i < |fs| ==> qs[i].field == fs[i].field
  }

  predicate SameOrderFields(os: seq<OrderBy>, qs: seq<OrderBy>) {
    |qs| == |os| && forall i :: 0 <= i < |os| ==> qs[i].field == os[i].field
  }

  // ---------------------------------------------------------------------------
  // Validation
  // ---------------------------------------------------------------------------

  /** The requested row limit, defaulted when missing or not positive and
      capped at the maximum. */
  function NormalizeLimit(raw: Option<int>): (r: int)
    ensures 1 <= r <= MAX_LIMIT
    ensures raw.Some? && 1 <= raw.value <= MAX_LIMIT ==> r == raw.value
    ensures raw.Some? && raw.value > MAX_LIMIT ==> r == MAX_LIMIT
    ensures (raw.None? || raw.value <= 0) ==> r == DEFAULT_LIMIT
  {
    var value := if raw.Some? then raw.value else DEFAULT_LIMIT;
    var positive := if value <= 0 then DEFAULT_LIMIT else value;
    if positive > MAX_LIMIT then MAX_LIMIT else positive
  }

  function RequireText(value: string, path: string): (r: Result<string>)
    ensures r.Ok? <==> HasText(value)
  {
    if HasText(value) then Ok(value) else Err(path + " 不能为空")
  }

  function ValidateField(raw: string, path: string): (r: Result<Field>)
    ensures r.Ok? <==> FieldOf(raw).Some?
    ensures r.Ok? ==> FieldCode(r.value) == JavaTrim(raw)
  {
    match FieldOf(raw)
    case Some(f) => Ok(f)
    case None => Err("不支持的字段(" + path + "): " + raw)
  }

  function CheckDimension(d: Dimension): (r: Result<Dimension>)
    ensures r.Ok? <==> DimensionOk(d)
    ensures r.Ok? ==> r.value.field == d.field && HasText(r.value.alias)
    ensures r.Ok? ==> r.value.alias == if HasText(d.alias) then d.alias else d.field
  {
    var _ :- RequireText(d.field, "dimensions.field");
    var _ :- ValidateField(d.field, "dimensions.field");
    Ok(if HasText(d.alias) then d else d.(alias := d.field))
  }

  lemma ConcatHasText(a: string, b: string)
    requires HasText(a)
    ensures HasText(a + b)
  {
    var k :| 0 <= k < |a| && !IsJavaWhitespace(a[k]);
    assert (a + b)[k] == a[k];
  }

  function CheckMeasure(m: Measure): (r: Result<Measure>)
    ensures r.Ok? <==> MeasureOk(m)
    ensures r.Ok? ==> r.value.field == m.field && r.value.agg == m.agg && HasText(r.value.alias)
    ensures r.Ok? ==> r.value.alias == if HasText(m.alias) then m.alias else m.agg + "_" + m.field
  {
    var _ :- RequireText(m.agg, "measures.agg");
    var _ :- RequireText(m.field, "measures.field");
    match AggOf(m.agg)
    case None => Err("不支持的聚合: " + m.agg)
    case Some(a) =>
      var f :- ValidateField(m.field, "measures.field");
      if !AggAppliesTo(a, f) then
        Err("聚合 " + AggCode(a) + " 仅允许作用于 WORKLOAD_MAN_DAY 或 PUBLISHED_AGE_DAYS")
      else if HasText(m.alias) then Ok(m)
      else
        ConcatHasText(m.agg, "_" + m.field);
        assert m.agg + "_" + m.field == m.agg + ("_" + m.field);
        Ok(m.(alias := m.agg + "_" + m.field))
  }

  function NormalizeFilterValue(f: Filter, op: FilterOp): (r: Result<Filter>)
    ensures r.Ok? <==> FilterValuesOk(op, f)
    ensures r.Ok? ==> r.value.field == f.field && r.value.op == FilterOpCode(op)
    ensures r.Ok? ==> NormalizedOperands(op, r.value)
    ensures r.Ok? ==> OperandsTrimmed(op, f, r.value)
  {
    var g := f.(op := FilterOpCode(op));
    match op
    case In =>
      if f.values == [] then Err("IN 操作必须提供 values")
      else
        var vs := TrimmedTexts(f.values);
        TrimmedTextsTrimmed(f.values);
        if vs == [] then Err("IN 操作必须提供非空 values") else Ok(g.(values := vs))
    case Between =>
      if !HasText(f.from) || !HasText(f.to) then Err("BETWEEN 操作必须提供 from/to")
      else
        JavaTrimIdempotent(f.from);
        JavaTrimIdempotent(f.to);
        Ok(g.(from := JavaTrim(f.from), to := JavaTrim(f.to)))
    case _ =>
      if !HasText(f.value) then Err(FilterOpCode(op) + " 操作必须提供 value")
      else
        JavaTrimIdempotent(f.value);
        Ok(g.(value := JavaTrim(f.value)))
  }

  predicate NormalizedOperands(op: FilterOp, f: Filter) {
    match op
    case In => f.values != [] && forall k :: 0 <= k < |f.values| ==> f.values[k] == JavaTrim(f.values[k])
    case Between => f.from == JavaTrim(f.from) && f.to == JavaTrim(f.to)
    case _ => f.value == JavaTrim(f.value)
  }

  /** The operands the operator reads are trimmed (the IN list keeps only the
      values with text), and the others are left as they were. */
  predicate OperandsTrimmed(op: FilterOp, f: Filter, g: Filter) {
    match op
    case In => g.values == TrimmedTexts(f.values) && g.value == f.value && g.from == f.from && g.to == f.to
    case Between => g.from == JavaTrim(f.from) && g.to == JavaTrim(f.to) && g.value == f.value && g.values == f.values
    case _ => g.value == JavaTrim(f.value) && g.values == f.values && g.from == f.from && g.to == f.to
  }

  function CheckFilter(f: Filter): (r: Result<Filter>)
    ensures r.Ok? <==> FilterOk(f)
    ensures r.Ok? ==> r.value.field == f.field && NormalizedFilter(r.value)
    ensures r.Ok? ==> r.value.op == Upper(JavaTrim(f.op)) && OperandsTrimmed(FilterOpOf(f.op).value, f, r.value)
  {
    var _ :- RequireText(f.field, "filters.field");
    var _ :- RequireText(f.op, "filters.op");
    var _ :- ValidateField(f.field, "filters.field");
    match FilterOpOf(f.op)
    case None => Err("不支持的过滤操作符: " + f.op)
    case Some(op) =>
      var g :- NormalizeFilterValue(f, op);
      assert ParseFilterOp(g.op) == Some(op);
      Ok(g)
  }

  function CheckOrder(o: OrderBy): (r: Result<OrderBy>)
    ensures r.Ok? <==> OrderOk(o)
    ensures r.Ok? ==> r.value.field == o.field && IsDirection(r.value.direction)
    ensures r.Ok? ==> r.value.direction == Upper(JavaTrim(o.direction))
  {
    var _ :- RequireText(o.field, "orderBy.field");
    var _ :- ValidateField(o.field, "orderBy.field");
    var direction := Upper(JavaTrim(o.direction));
    if !IsDirection(direction) then Err("不支持的排序方向: " + o.direction)
    else Ok(o.(direction := direction))
  }

  /** Validates a plan and returns its normalised form. A plan that asks for
      clarification is returned untouched with the default limit; any other
      accepted plan keeps its fields and gains a clamped limit, aliases,
      operator codes and trimmed operands. */
  function Validate(plan: Option<QueryPlan>): (r: Result<ValidatedPlan>)
    ensures r.Ok? <==> plan.Some? && Acceptable(plan.value)
    ensures r.Ok? ==> 1 <= r.value.limit <= MAX_LIMIT
    ensures r.Ok? && Clarifying(plan.value) ==> r.value == ValidatedPlan(plan.value, {}, DEFAULT_LIMIT)
    ensures r.Ok? && !Clarifying(plan.value) ==> ValidatedFrom(plan.value, r.value)
  {
    if plan.None? then Err("查询计划为空")
    else
      var p := plan.value;
      if !EqualsIgnoreCase(p.dataset, DATASET_CODE) then Err("不支持的数据集: " + p.dataset)
      else if Clarifying(p) then
        if !HasText(p.clarifyingQuestion) then Err("needClarification=true 时必须给出 clarifyingQuestion")
        else Ok(ValidatedPlan(p, {}, DEFAULT_LIMIT))
      else if p.measures == [] then Err("查询计划缺少 measures")
      else ValidateQuery(p)
  }

  /** What validation promises of an accepted query plan `p` and its result. */
  predicate ValidatedFrom(p: QueryPlan, v: ValidatedPlan) {
    Normalized(v.plan) && SameFields(p, v.plan)
    && v.plan.limit == Some(v.limit) && v.limit == NormalizeLimit(p.limit)
    && v.usedFields == PlanFields(v.plan)
    && DimensionsCheckedTo(p.dimensions, v.plan.dimensions) && MeasuresCheckedTo(p.measures, v.plan.measures)
    && FiltersCheckedTo(p.filters, v.plan.filters) && OrdersCheckedTo(p.orderBy, v.plan.orderBy)
  }

  /** Each validated dimension is the check of the proposed one at its place. */
  predicate DimensionsCheckedTo(ds: seq<Dimension>, qs: seq<Dimension>) {
    |qs| == |ds| && forall i :: 0 <= i < |ds| ==> CheckDimension(ds[i]) == Ok(qs[i])
  }

  /** Each validated measure is the check of the proposed one at its place. */
  predicate MeasuresCheckedTo(ms: seq<Measure>, qs: seq<Measure>) {
    |qs| == |ms| && forall i :: 0 <= i < |ms| ==> CheckMeasure(ms[i]) == Ok(qs[i])
  }

  /** Each validated sort key is the check of the proposed one at its place. */
  predicate OrdersCheckedTo(os: seq<OrderBy>, qs: seq<OrderBy>) {
    |qs| == |os| && forall i :: 0 <= i < |os| ==> CheckOrder(os[i]) == Ok(qs[i])
  }

  /** Each validated filter is the check of the proposed filter at its place. */
  predicate FiltersCheckedTo(fs: seq<Filter>, qs: seq<Filter>) {
    |qs| == |fs| && forall i :: 0 <= i < |fs| ==> CheckFilter(fs[i]) == Ok(qs[i])
  }

  /** The element checks of a plan that does not ask for clarification. */
  function ValidateQuery(p: QueryPlan): (r: Result<ValidatedPlan>)
    ensures r.Ok? <==> ElementsOk(p)
    ensures r.Ok? ==> ValidatedFrom(p, r.value)
  {
    var limit := NormalizeLimit(p.limit);
    var dims := MapResult(p.dimensions, CheckDimension);
    var measures := MapResult(p.measures, CheckMeasure);
    var filters := MapResult(p.filters, CheckFilter);
    var orders := MapResult(p.orderBy, CheckOrder);
    ElementsOkIff(p);
    if dims.Err? then Err(dims.error)
    else if measures.Err? then Err(measures.error)
    else if filters.Err? then Err(filters.error)
    else if orders.Err? then Err(orders.error)
    else
      var q := p.(limit := Some(limit), dimensions := dims.value, measures := measures.value,
                  filters := filters.value, orderBy := orders.value);
      CheckedElements(p, q);
      Ok(ValidatedPlan(q, PlanFields(q), limit))
  }

  lemma ElementsOkIff(p: QueryPlan)
    ensures ElementsOk(p) <==>
              MapResult(p.dimensions, CheckDimension).Ok? && MapResult(p.measures, CheckMeasure).Ok?
              && MapResult(p.filters, CheckFilter).Ok? && MapResult(p.orderBy, CheckOrder).Ok?
  {
  }

  lemma CheckedElements(p: QueryPlan, q: QueryPlan)
    requires MapResult(p.dimensions, CheckDimension) == Ok(q.dimensions)
    requires MapResult(p.measures, CheckMeasure) == Ok(q.measures)
    requires MapResult(p.filters, CheckFilter) == Ok(q.filters)
    requires MapResult(p.orderBy, CheckOrder) == Ok(q.orderBy)
    requires q.dataset == p.dataset
    ensures Normalized(q) && SameFields(p, q)
    ensures DimensionsCheckedTo(p.dimensions, q.dimensions) && MeasuresCheckedTo(p.measures, q.measures)
    ensures FiltersCheckedTo(p.filters, q.filters) && OrdersCheckedTo(p.orderBy, q.orderBy)
  {
    CheckedDimensions(p.dimensions, q.dimensions);
    CheckedMeasures(p.measures, q.measures);
    CheckedFilters(p.filters, q.filters);
    CheckedOrders(p.orderBy, q.orderBy);
  }

  lemma CheckedDimensions(ds: seq<Dimension>, qs: seq<Dimension>)
    requires MapResult(ds, CheckDimension) == Ok(qs)
    ensures DimensionsNormalized(qs) && SameDimensionFields(ds, qs) && DimensionsCheckedTo(ds, qs)
  {
    forall i | 0 <= i < |ds| ensures qs[i] == CheckDimension(ds[i]).value {}
  }

  lemma CheckedMeasures(ms: seq<Measure>, qs: seq<Measure>)
    requires MapResult(ms, CheckMeasure) == Ok(qs)
    ensures MeasuresNormalized(qs) && SameMeasureFields(ms, qs) && MeasuresCheckedTo(ms, qs)
  {
    forall i | 0 <= i < |ms| ensures qs[i] == CheckMeasure(ms[i]).value {}
  }

  lemma CheckedFilters(fs: seq<Filter>, qs: seq<Filter>)
    requires MapResult(fs, CheckFilter) == Ok(qs)
    ensures FiltersNormalized(qs) && SameFilterFields(fs, qs) && FiltersCheckedTo(fs, qs)
  {
    forall i | 0 <= i < |fs| ensures qs[i] == CheckFilter(fs[i]).value {}
  }

  lemma CheckedOrders(os: seq<OrderBy>, qs: seq<OrderBy>)
    requires MapResult(os, CheckOrder) == Ok(qs)
    ensures OrdersNormalized(qs) && SameOrderFields(os, qs) && OrdersCheckedTo(os, qs)
  {
    forall i | 0 <= i < |os| ensures qs[i] == CheckOrder(os[i]).value {}
  }

  /** Validation keeps the set of fields a plan uses. */
  lemma SameFieldsSameSet(p: QueryPlan, q: QueryPlan)
    requires SameFields(p, q)
    ensures PlanFields(p) == PlanFields(q)
  {
    assert DimensionFieldNames(p.dimensions) == DimensionFieldNames(q.dimensions);
    assert MeasureFieldNames(p.measures) == MeasureFieldNames(q.measures);
    assert FilterFieldNames(p.filters) == FilterFieldNames(q.filters);
    assert OrderFieldNames(p.orderBy) == OrderFieldNames(q.orderBy);
  }

  // ---------------------------------------------------------------------------
  // Checking again
  // ---------------------------------------------------------------------------

  /** A checked sort key passes the check again unchanged. */
  lemma CheckOrderStable(o: OrderBy)
    requires CheckOrder(o).Ok?
    ensures CheckOrder(CheckOrder(o).value) == CheckOrder(o)
  {
    DirectionUnpadded(CheckOrder(o).value.direction);
  }

  lemma DirectionUnpadded(d: string)
    requires IsDirection(d)
    ensures Upper(JavaTrim(d)) == d
  {
    CodeUnpadded(d);
  }

  /** An upper-case code is its own trim and its own upper case, and has text. */
  lemma CodeUnpadded(s: string)
    requires s != [] && forall k :: 0 <= k < |s| ==> 'A' <= s[k] <= 'Z' || s[k] == '_'
    ensures JavaTrim(s) == s && Upper(s) == s && HasText(s)
  {
    Unpadded(s);
    UpperOfUpper(s);
  }

  /** A checked filter passes the check again unchanged, provided trimming
      leaves its operands with text. */
  lemma CheckFilterStable(f: Filter)
    requires CheckFilter(f).Ok?
    requires forall k :: 0 <= k < |f.values| ==> HasText(f.values[k]) ==> HasText(JavaTrim(f.values[k]))
    requires HasText(f.value) ==> HasText(JavaTrim(f.value))
    requires HasText(f.from) ==> HasText(JavaTrim(f.from))
    requires HasText(f.to) ==> HasText(JavaTrim(f.to))
    ensures CheckFilter(CheckFilter(f).value) == CheckFilter(f)
  {
    var g := CheckFilter(f).value;
    var op := FilterOpOf(f.op).value;
    assert NormalizeFilterValue(f, op) == Ok(g);
    NormalizeStable(f, op, g);
    OpCodeUnpadded(op);
    assert FilterOpOf(g.op) == Some(op);
  }

  /** The operand step applied to its own result changes nothing. */
  lemma NormalizeStable(f: Filter, op: FilterOp, g: Filter)
    requires NormalizeFilterValue(f, op) == Ok(g)
    requires forall k :: 0 <= k < |f.values| ==> HasText(f.values[k]) ==> HasText(JavaTrim(f.values[k]))
    requires HasText(f.value) ==> HasText(JavaTrim(f.value))
    requires HasText(f.from) ==> HasText(JavaTrim(f.from))
    requires HasText(f.to) ==> HasText(JavaTrim(f.to))
    ensures NormalizeFilterValue(g, op) == Ok(g)
  {
    OpCodeUnpadded(op);
    match op
    case In =>
      TrimmedTextsTrimmed(f.values);
      TrimmedTextsHaveText(f.values);
      TrimmedTextsFixed(g.values);
    case Between =>
      JavaTrimIdempotent(f.from);
      JavaTrimIdempotent(f.to);
    case _ =>
      JavaTrimIdempotent(f.value);
  }

  lemma OpCodeUnpadded(op: FilterOp)
    ensures JavaTrim(FilterOpCode(op)) == FilterOpCode(op) && Upper(FilterOpCode(op)) == FilterOpCode(op)
    ensures HasText(FilterOpCode(op))
  {
    CodeUnpadded(FilterOpCode(op));
  }

  /** The condition on the operands cannot be dropped: an IN filter whose
      values all lose their text to `trim` passes once, and its checked form
      is refused. */
  lemma TrimmedAwayRefused(f: Filter)
    requires CheckFilter(f).Ok? && FilterOpOf(f.op) == Some(In)
    requires forall k :: 0 <= k < |f.values| ==> !HasText(JavaTrim(f.values[k]))
    ensures CheckFilter(CheckFilter(f).value).Err?
  {
    var g := CheckFilter(f).value;
    OpCodeUnpadded(In);
    assert FilterOpOf(g.op) == Some(In);
    forall i | 0 <= i < |g.values|
      ensures !HasText(g.values[i])
    {
      TrimmedTextsMember(f.values, g.values[i]);
    }
  }

  /** Such values exist: U+0001 has text for `hasText`, and `trim` removes it. */
  lemma ControlTrimmedAway()
    ensures HasText("\U{0001}") && JavaTrim("\U{0001}") == ""
  {
    var c := "\U{0001}";
    assert !IsJavaWhitespace(c[0]) && IsTrimmable(c[0]);
  }
}
