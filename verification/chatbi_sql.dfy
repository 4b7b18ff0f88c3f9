/** Turns a validated ChatBI plan into one parameterised SQL statement over
    `project_task t`: the dimensions and measures become aliased select
    items, the dimensions also the GROUP BY list, the filters WHERE
    conditions with one `?` per bound value, and the sort keys the ORDER BY
    list. The user and batch tables are joined when a used field reads
    them. */
module ChatBiSql {

  import opened Results
  import opened Text
  import opened ChatBiSchema
  import opened ChatBiPlan

  /** A bound parameter, typed as the JDBC driver receives it. */
  datatype Param =
    | NullParam
    | TextParam(text: string)
    | IntParam(i: int)
    | LongParam(l: int)
    | DoubleParam(literal: string)
    | TimeParam(literal: string)

  /** The library parsers the model does not spell out: `Double.parseDouble`
      acceptance and the loose date-time formats of the plan validator. */
  datatype Parsers = Parsers(isDouble: string -> bool, isDateTime: string -> bool)

  datatype BuiltQuery = BuiltQuery(sql: string, params: seq<Param>, columns: seq<string>)

  const USER_JOIN: string := "LEFT JOIN sys_user u " + "ON u.id = t.assignee_id " + "AND u.deleted = 0 "
  const NOT_DELETED: string := "t.deleted = 0"
  const BATCH_JOIN: string := "LEFT JOIN project_task_batch b " + "ON b.id = t.batch_id " + "AND b.deleted = 0 "

  // ---------------------------------------------------------------------------
  // Column aliases
  // ---------------------------------------------------------------------------

  /** Characters a display alias may keep: ASCII letters and digits, `_`, and
      the CJK unified ideographs U+4E00..U+9FA5. */
  predicate IsAliasChar(c: char) {
    IsAsciiDigit(c) || IsAsciiLetter(c) || c == '_' || ('\U{4E00}' <= c <= '\U{9FA5}')
  }

  /** Replaces every character that is not an alias character by `_`. */
  function SanitizeAlias(s: string): (r: string)
    ensures |r| == |s|
    ensures forall k :: 0 <= k < |r| ==> IsAliasChar(r[k])
    ensures forall k :: 0 <= k < |s| && IsAliasChar(s[k]) ==> r[k] == s[k]
  {
    if s == [] then [] else [if IsAliasChar(s[0]) then s[0] else '_'] + SanitizeAlias(s[1..])
  }

  /** The display name of a column: the trimmed alias when it has text,
      otherwise the fallback, with unexpected characters replaced. */
  function NormalizeAlias(alias: string, fallback: string): (r: string)
    ensures HasText(alias) ==> |r| == |JavaTrim(alias)|
    ensures !HasText(alias) ==> |r| == |fallback|
    ensures forall k :: 0 <= k < |r| ==> IsAliasChar(r[k])
  {
    SanitizeAlias(if HasText(alias) then JavaTrim(alias) else fallback)
  }

  /** A name made only of alias characters is its own sanitised form. */
  lemma {:induction false} SanitizeAliasFixed(s: string)
    requires forall k :: 0 <= k < |s| ==> IsAliasChar(s[k])
    ensures SanitizeAlias(s) == s
    decreases |s|
  {
    if s != [] {
      SanitizeAliasFixed(s[1..]);
    }
  }

  // ---------------------------------------------------------------------------
  // Expressions and parameters
  // ---------------------------------------------------------------------------

  /** The SQL expression of a trimmed field name. */
  function Expr(field: string): (r: Result<string>)
    ensures r.Ok? <==> ParseField(field).Some?
    ensures r.Ok? ==> r.value == Expression(ParseField(field).value) && '?' !in r.value
  {
    match ParseField(field)
    case Some(f) => ExpressionUnmarked(f); Ok(Expression(f))
    case None => Err("不支持的字段: " + field)
  }

  function AggSql(a: Agg, e: string): (r: string)
    ensures '?' !in e ==> '?' !in r
  {
    match a
    case Count => "COUNT(" + e + ")"
    case CountDistinct => "COUNT(DISTINCT " + e + ")"
    case Sum => "SUM(" + e + ")"
    case Avg => "AVG(" + e + ")"
    case Min => "MIN(" + e + ")"
    case Max => "MAX(" + e + ")"
  }

  /** The aggregate expression of a normalised aggregation and trimmed field. */
  function AggExpression(agg: string, field: string): (r: Result<string>)
    ensures r.Ok? <==> ParseField(field).Some? && ParseAgg(agg).Some?
    ensures r.Ok? ==> '?' !in r.value
  {
    var e :- Expr(field);
    match ParseAgg(agg)
    case Some(a) => Ok(AggSql(a, e))
    case None => Err("不支持的聚合: " + agg)
  }

  predicate IsIdField(f: Field) {
    f == AssigneeId || f == BatchId || f == TaskId || f == CreatedBy
  }

  /** Converts a filter operand to the type of its column. Blank operands bind
      SQL NULL; whole-number columns accept only an optional sign and ASCII
      digits within the Java `int` or `long` range. */
  function CastParam(f: Field, raw: string, parsers: Parsers): (r: Result<Param>)
    ensures !HasText(raw) ==> r == Ok(NullParam)
    ensures r.Ok? && r.value.IntParam? ==>
              f == PublishedAgeDays && INT_MIN <= r.value.i <= INT_MAX
              && ParseBoundedInt(JavaTrim(raw), INT_MIN, INT_MAX) == Some(r.value.i)
    ensures r.Ok? && r.value.LongParam? ==>
              IsIdField(f) && LONG_MIN <= r.value.l <= LONG_MAX
              && ParseBoundedInt(JavaTrim(raw), LONG_MIN, LONG_MAX) == Some(r.value.l)
    ensures r.Ok? && r.value.TextParam? ==>
              HasText(raw) && r.value.text == JavaTrim(raw)
              && !(IsIdField(f) || f == PublishedAgeDays || f == WorkloadManDay || f == PublishedTime)
    ensures r.Ok? && HasText(raw) && IsIdField(f) ==> r.value.LongParam?
    ensures r.Ok? && HasText(raw) && f == PublishedAgeDays ==> r.value.IntParam?
    ensures HasText(raw) && IsIdField(f) ==> (r.Ok? <==> ParseBoundedInt(JavaTrim(raw), LONG_MIN, LONG_MAX).Some?)
    ensures HasText(raw) && f == PublishedAgeDays ==> (r.Ok? <==> ParseBoundedInt(JavaTrim(raw), INT_MIN, INT_MAX).Some?)
    ensures HasText(raw) && f == WorkloadManDay ==>
              r == if parsers.isDouble(JavaTrim(raw)) then Ok(DoubleParam(JavaTrim(raw))) else Err("WORKLOAD_MAN_DAY 必须是数字")
    ensures HasText(raw) && f == PublishedTime ==>
              r == if !HasText(JavaTrim(raw)) then Ok(NullParam)
                   else if parsers.isDateTime(JavaTrim(raw)) then Ok(TimeParam(JavaTrim(raw)))
                   else Err("无法解析时间: " + JavaTrim(raw))
    ensures HasText(raw) && !(IsIdField(f) || f == PublishedAgeDays || f == WorkloadManDay || f == PublishedTime) ==>
              r == Ok(TextParam(JavaTrim(raw)))
  {
    if !HasText(raw) then Ok(NullParam)
    else
      var t := JavaTrim(raw);
      match f
      case PublishedTime =>
        if !HasText(t) then Ok(NullParam)
        else if parsers.isDateTime(t) then Ok(TimeParam(t))
        else Err("无法解析时间: " + t)
      case PublishedAgeDays =>
        (match ParseBoundedInt(t, INT_MIN, INT_MAX)
         case Some(v) => Ok(IntParam(v))
         case None => Err("PUBLISHED_AGE_DAYS 必须是整数"))
      case WorkloadManDay =>
        if parsers.isDouble(t) then Ok(DoubleParam(t)) else Err("WORKLOAD_MAN_DAY 必须是数字")
      case _ =>
        if IsIdField(f) then
          match ParseBoundedInt(t, LONG_MIN, LONG_MAX)
          case Some(v) => Ok(LongParam(v))
          case None => Err(FieldCode(f) + " 必须是数字")
        else Ok(TextParam(t))
  }

  /** An identifier rendered in decimal binds as that identifier. */
  lemma CastIdRoundTrip(f: Field, id: int, parsers: Parsers)
    requires IsIdField(f) && LONG_MIN <= id <= LONG_MAX
    ensures CastParam(f, IntToString(id), parsers) == Ok(LongParam(id))
  {
    RenderedUnpadded(id);
    ParseRendered(id, LONG_MIN, LONG_MAX);
  }

  // ---------------------------------------------------------------------------
  // Filters
  // ---------------------------------------------------------------------------

  function ComparisonSymbol(op: FilterOp): (r: string)
    requires op != In && op != Between
    ensures '?' !in r
  {
    match op
    case Eq => "="
    case Ne => "<>"
    case Gt => ">"
    case Gte => ">="
    case Lt => "<"
    case Lte => "<="
  }

  /** Whether the builder binds anything for a filter: it skips filters with a
      blank field or operator. */
  predicate Skipped(flt: Filter) {
    !HasText(flt.field) || !HasText(flt.op)
  }

  /** Number of values of an IN list that have text. */
  function TextCount(xs: seq<string>): (n: nat)
    ensures n <= |xs|
    ensures n == 0 <==> forall k :: 0 <= k < |xs| ==> !HasText(xs[k])
  {
    if xs == [] then 0
    else
      assert forall k :: 1 <= k < |xs| ==> xs[k] == xs[1..][k - 1];
      (if HasText(xs[0]) then 1 else 0) + TextCount(xs[1..])
  }

  /** Number of parameters an operator binds for a filter: one per
      comparison, two for BETWEEN, one per IN value with text. */
  function OpArity(op: FilterOp, flt: Filter): nat {
    match op
    case In => TextCount(flt.values)
    case Between => 2
    case _ => 1
  }

  /** Number of parameters the builder binds for a filter. */
  function Arity(flt: Filter): nat {
    if Skipped(flt) then 0
    else match FilterOpOf(flt.op)
      case Some(op) => OpArity(op, flt)
      case None => 0
  }

  function ParamCount(filters: seq<Filter>): nat {
    if filters == [] then 0 else Arity(filters[0]) + ParamCount(filters[1..])
  }

  /** The IN values that have text, in order. */
  function WithText(xs: seq<string>): (r: seq<string>)
    ensures |r| == TextCount(xs)
    ensures forall k :: 0 <= k < |r| ==> HasText(r[k])
    ensures forall k :: 0 <= k < |xs| && HasText(xs[k]) ==> xs[k] in r
  {
    if xs == [] then []
    else
      assert forall k :: 1 <= k < |xs| ==> xs[k] == xs[1..][k - 1];
      (if HasText(xs[0]) then [xs[0]] else []) + WithText(xs[1..])
  }

  /** The cast of one IN value. */
  function CastValue(f: Field, parsers: Parsers, v: string): Result<Param> {
    CastParam(f, JavaTrim(v), parsers)
  }

  /** The casts of the IN values that have text, in order; the first value
      that does not cast stops the walk with its error. */
  function CastValues(f: Field, values: seq<string>, parsers: Parsers): (r: Result<seq<Param>>)
    ensures r.Ok? ==> |r.value| == TextCount(values)
    ensures r.Ok? ==> forall k :: 0 <= k < |values| && HasText(values[k]) ==> CastValue(f, parsers, values[k]).Ok?
    ensures r.Ok? ==> forall i :: 0 <= i < |r.value| ==> CastValue(f, parsers, WithText(values)[i]) == Ok(r.value[i])
    ensures r.Err? ==> exists i :: 0 <= i < |values| && HasText(values[i])
                        && CastValue(f, parsers, values[i]) == Err(r.error)
                        && forall k :: 0 <= k < i && HasText(values[k]) ==> CastValue(f, parsers, values[k]).Ok?
  {
    CastEach(v => CastValue(f, parsers, v), values)
  }

  /** `CastValues` for any cast: the casts of the values that have text, in
      order, or the error of the first one that does not cast. */
  function CastEach(cast: string -> Result<Param>, values: seq<string>): (r: Result<seq<Param>>)
    ensures r.Ok? ==> |r.value| == TextCount(values)
    ensures r.Ok? ==> forall k :: 0 <= k < |values| && HasText(values[k]) ==> cast(values[k]).Ok?
    ensures r.Ok? ==> forall i :: 0 <= i < |r.value| ==> cast(WithText(values)[i]) == Ok(r.value[i])
    ensures r.Err? ==> exists i :: 0 <= i < |values| && HasText(values[i])
                        && cast(values[i]) == Err(r.error)
                        && forall k :: 0 <= k < i && HasText(values[k]) ==> cast(values[k]).Ok?
  {
    if values == [] then Ok([])
    else if HasText(values[0]) then
      match cast(values[0])
      case Err(e) => CastFails(cast, values, e); Err(e)
      case Ok(p) =>
        match CastEach(cast, values[1..])
        case Err(e) => CastFails(cast, values, e); Err(e)
        case Ok(rest) => CastsCons(cast, values, [p], rest); Ok([p] + rest)
    else
      match CastEach(cast, values[1..])
      case Err(e) => CastFails(cast, values, e); Err(e)
      case Ok(rest) => CastsCons(cast, values, [], rest); Ok(rest)
  }

  /** The cast of the first value, if it has text, followed by the casts of
      the rest are the casts of the whole list. */
  lemma CastsCons(cast: string -> Result<Param>, values: seq<string>, head: seq<Param>, rest: seq<Param>)
    requires values != []
    requires HasText(values[0]) ==> |head| == 1 && cast(values[0]) == Ok(head[0])
    requires !HasText(values[0]) ==> head == []
    requires |rest| == TextCount(values[1..])
    requires forall k :: 0 <= k < |values[1..]| && HasText(values[1..][k]) ==> cast(values[1..][k]).Ok?
    requires forall i :: 0 <= i < |rest| ==> cast(WithText(values[1..])[i]) == Ok(rest[i])
    ensures |head + rest| == TextCount(values)
    ensures forall k :: 0 <= k < |values| && HasText(values[k]) ==> cast(values[k]).Ok?
    ensures forall i :: 0 <= i < |head + rest| ==> cast(WithText(values)[i]) == Ok((head + rest)[i])
  {
    var tail := values[1..];
    assert forall k :: 1 <= k < |values| ==> values[k] == tail[k - 1];
    assert WithText(values) == (if HasText(values[0]) then [values[0]] else []) + WithText(tail);
  }

  /** An error of the first value, or of the rest after a first value that
      casts or has no text, is the first error of the whole list. */
  lemma CastFails(cast: string -> Result<Param>, values: seq<string>, e: string)
    requires values != []
    requires (HasText(values[0]) && cast(values[0]) == Err(e))
             || ((HasText(values[0]) ==> cast(values[0]).Ok?)
                 && exists i :: 0 <= i < |values[1..]| && HasText(values[1..][i]) && cast(values[1..][i]) == Err(e)
                                && forall k :: 0 <= k < i && HasText(values[1..][k]) ==> cast(values[1..][k]).Ok?)
    ensures exists i :: 0 <= i < |values| && HasText(values[i]) && cast(values[i]) == Err(e)
                        && forall k :: 0 <= k < i && HasText(values[k]) ==> cast(values[k]).Ok?
  {
    if !(HasText(values[0]) && cast(values[0]) == Err(e)) {
      var tail := values[1..];
      var i :| 0 <= i < |tail| && HasText(tail[i]) && cast(tail[i]) == Err(e)
               && forall k :: 0 <= k < i && HasText(tail[k]) ==> cast(tail[k]).Ok?;
      assert values[i + 1] == tail[i];
      assert forall k :: 1 <= k < i + 1 ==> values[k] == tail[k - 1];
    }
  }

  /** The fixed SQL words hold no placeholder. */
  lemma WordsUnmarked()
    ensures '?' !in "SELECT " && '?' !in " FROM " && '?' !in "project_task t "
    ensures '?' !in "WHERE " && '?' !in "GROUP BY " && '?' !in "ORDER BY " && '?' !in "LIMIT "
    ensures '?' !in ", " && '?' !in " AND " && '?' !in " " && '?' !in "" && '?' !in ","
    ensures '?' !in " IN (" && '?' !in ")" && '?' !in " BETWEEN " && '?' !in NOT_DELETED
  {
  }

  lemma JoinsUnmarked()
    ensures '?' !in USER_JOIN && '?' !in BATCH_JOIN
  {
  }

  lemma MarkCount()
    ensures CountChar("?", '?') == 1
  {
  }

  lemma Count3(a: string, b: string, c: string)
    ensures CountChar(a + b + c, '?') == CountChar(a, '?') + CountChar(b, '?') + CountChar(c, '?')
  {
    CountCharConcat(a, b, '?');
    CountCharConcat(a + b, c, '?');
  }

  /** `n` placeholders separated by commas. */
  function Placeholders(n: nat): (r: string)
    ensures CountChar(r, '?') == n
  {
    if n == 0 then ""
    else if n == 1 then "?"
    else
      WordsUnmarked();
      Count3("?", ",", Placeholders(n - 1));
      "?" + "," + Placeholders(n - 1)
  }

  function InCondition(e: string, f: Field, flt: Filter, parsers: Parsers): (r: Result<(string, seq<Param>)>)
    requires '?' !in e
    ensures r.Ok? ==> CountChar(r.value.0, '?') == |r.value.1| == TextCount(flt.values) > 0
  {
    if flt.values == [] then Err("IN 操作缺少 values")
    else
      var ps :- CastValues(f, flt.values, parsers);
      if ps == [] then Err("IN 操作缺少有效 values")
      else
        WordsUnmarked();
        Count3(e + " IN (", Placeholders(|ps|), ")");
        CountCharConcat(e, " IN (", '?');
        Ok((e + " IN (" + Placeholders(|ps|) + ")", ps))
  }

  function BetweenCondition(e: string, f: Field, flt: Filter, parsers: Parsers): (r: Result<(string, seq<Param>)>)
    requires '?' !in e
    ensures r.Ok? ==> CountChar(r.value.0, '?') == |r.value.1| == 2
  {
    var a :- CastParam(f, flt.from, parsers);
    var b :- CastParam(f, flt.to, parsers);
    var sql := e + " BETWEEN " + "?" + " AND " + "?";
    WordsUnmarked();
    MarkCount();
    CountCharConcat(e, " BETWEEN ", '?');
    Count3(e + " BETWEEN ", "?", " AND ");
    CountCharConcat(e + " BETWEEN " + "?" + " AND ", "?", '?');
    Ok((sql, [a, b]))
  }

  function ComparisonCondition(e: string, f: Field, op: FilterOp, flt: Filter, parsers: Parsers): (r: Result<(string, seq<Param>)>)
    requires '?' !in e && op != In && op != Between
    ensures r.Ok? ==> CountChar(r.value.0, '?') == |r.value.1| == 1
  {
    var p :- CastParam(f, flt.value, parsers);
    var sym := ComparisonSymbol(op);
    WordsUnmarked();
    MarkCount();
    CountCharConcat(e, " ", '?');
    Count3(e + " ", sym, " ");
    CountCharConcat(e + " " + sym + " ", "?", '?');
    Ok((e + " " + sym + " " + "?", [p]))
  }

  /** The WHERE condition and bound parameters of one filter, or nothing when
      the filter is skipped. The condition holds one placeholder per
      parameter. */
  function FilterCondition(flt: Filter, parsers: Parsers): (r: Result<Option<(string, seq<Param>)>>)
    ensures r.Ok? && r.value.None? <==> Skipped(flt)
    ensures r.Ok? && r.value.Some? ==>
              CountChar(r.value.value.0, '?') == |r.value.value.1| == Arity(flt)
  {
    if Skipped(flt) then Ok(None)
    else
      var field := JavaTrim(flt.field);
      var opCode := Upper(JavaTrim(flt.op));
      var e :- Expr(field);
      var f := ParseField(field).value;
      match ParseFilterOp(opCode)
      case None => Err("不支持的过滤操作符: " + opCode)
      case Some(op) =>
        var c :- OperatorCondition(e, f, op, flt, parsers);
        Ok(Some(c))
  }

  function OperatorCondition(e: string, f: Field, op: FilterOp, flt: Filter, parsers: Parsers): (r: Result<(string, seq<Param>)>)
    requires '?' !in e
    ensures r.Ok? ==> CountChar(r.value.0, '?') == |r.value.1| == OpArity(op, flt)
  {
    match op
    case In => InCondition(e, f, flt, parsers)
    case Between => BetweenCondition(e, f, flt, parsers)
    case _ => ComparisonCondition(e, f, op, flt, parsers)
  }

  /** Sum of the placeholder counts of a list of SQL fragments. */
  function SumCount(xs: seq<string>): nat {
    if xs == [] then 0 else CountChar(xs[0], '?') + SumCount(xs[1..])
  }

  lemma {:induction false} SumCountAppend(xs: seq<string>, ys: seq<string>)
    ensures SumCount(xs + ys) == SumCount(xs) + SumCount(ys)
    decreases |xs|
  {
    if xs != [] {
      SumCountAppend(xs[1..], ys);
      assert (xs + ys)[1..] == xs[1..] + ys;
    } else {
      assert xs + ys == ys;
    }
  }

  /** The WHERE conditions and parameters of all filters, in order. */
  function FilterConditions(filters: seq<Filter>, parsers: Parsers): (r: Result<(seq<string>, seq<Param>)>)
    ensures r.Ok? ==> SumCount(r.value.0) == |r.value.1| == ParamCount(filters)
  {
    if filters == [] then Ok(([], []))
    else Combine(FilterCondition(filters[0], parsers), FilterConditions(filters[1..], parsers))
  }

  /** The parameters a filter condition binds; none for a skipped filter. */
  function HeadParams(head: Option<(string, seq<Param>)>): seq<Param> {
    if head.Some? then head.value.1 else []
  }

  /** Prepends one filter's condition, if any, to the conditions of the rest;
      the first error wins. */
  function Combine(head: Result<Option<(string, seq<Param>)>>, rest: Result<(seq<string>, seq<Param>)>)
    : (r: Result<(seq<string>, seq<Param>)>)
    ensures r.Ok? <==> head.Ok? && rest.Ok?
    ensures r.Ok? ==> r.value.1 == HeadParams(head.value) + rest.value.1
    ensures r.Ok? ==> SumCount(r.value.0)
                      == SumCount(rest.value.0) + (if head.value.Some? then CountChar(head.value.value.0, '?') else 0)
  {
    if head.Err? then Err(head.error)
    else if rest.Err? then Err(rest.error)
    else match head.value
      case None => rest
      case Some(c) =>
        assert ([c.0] + rest.value.0)[1..] == rest.value.0;
        Ok(([c.0] + rest.value.0, c.1 + rest.value.1))
  }

  // ---------------------------------------------------------------------------
  // Assembly
  // ---------------------------------------------------------------------------

  /** Placeholders in a join of fragments whose separator holds none. */
  lemma {:induction false} CountJoin(sep: string, xs: seq<string>)
    requires '?' !in sep
    ensures CountChar(Join(sep, xs), '?') == SumCount(xs)
    decreases |xs|
  {
    if |xs| == 1 {
      assert xs[1..] == [];
    } else if |xs| > 1 {
      CountJoin(sep, xs[1..]);
      CountCharConcat(xs[0], sep, '?');
      CountCharConcat(xs[0] + sep, Join(sep, xs[1..]), '?');
    }
  }

  /** `expr AS c<i>` for every select expression, numbered from zero. */
  function AliasSelects(exprs: seq<string>): (r: seq<string>)
    ensures |r| == |exprs|
    ensures forall i :: 0 <= i < |exprs| ==> r[i] == exprs[i] + " AS c" + NatToString(i)
    ensures (forall i :: 0 <= i < |exprs| ==> '?' !in exprs[i]) ==> SumCount(r) == 0
  {
    var r := seq(|exprs|, i requires 0 <= i < |exprs| => exprs[i] + " AS c" + NatToString(i));
    NoPlaceholders(r);
    r
  }

  lemma {:induction false} NoPlaceholders(xs: seq<string>)
    ensures (forall i :: 0 <= i < |xs| ==> '?' !in xs[i]) ==> SumCount(xs) == 0
    decreases |xs|
  {
    if xs != [] {
      NoPlaceholders(xs[1..]);
    }
  }

  function SelectClause(selects: seq<string>): (r: string)
    ensures CountChar(r, '?') == SumCount(selects)
  {
    WordsUnmarked();
    CountJoin(", ", selects);
    CountCharConcat(" FROM ", "project_task t ", '?');
    Count3("SELECT ", Join(", ", selects), " FROM " + "project_task t ");
    "SELECT " + Join(", ", selects) + (" FROM " + "project_task t ")
  }

  function JoinClause(join: bool): (r: string)
    ensures CountChar(r, '?') == 0
    ensures join ==> r == USER_JOIN + BATCH_JOIN
    ensures !join ==> r == ""
  {
    JoinsUnmarked();
    CountCharConcat(USER_JOIN, BATCH_JOIN, '?');
    if join then USER_JOIN + BATCH_JOIN else ""
  }

  /** The WHERE clause; the list always starts with the soft-delete test. */
  function WhereClause(wheres: seq<string>): (r: string)
    ensures CountChar(r, '?') == SumCount(wheres)
  {
    WordsUnmarked();
    CountJoin(" AND ", wheres);
    Count3("WHERE ", Join(" AND ", wheres), " ");
    "WHERE " + Join(" AND ", wheres) + " "
  }

  /** A `GROUP BY` or `ORDER BY` clause, omitted when the list is empty. */
  function ListClause(keyword: string, items: seq<string>): (r: string)
    requires '?' !in keyword
    ensures CountChar(r, '?') == SumCount(items)
  {
    if items == [] then ""
    else
      WordsUnmarked();
      CountJoin(", ", items);
      Count3(keyword, Join(", ", items), " ");
      keyword + Join(", ", items) + " "
  }

  function LimitClause(limit: int): (r: string)
    ensures CountChar(r, '?') == 0
    ensures StartsWith(r, "LIMIT ")
  {
    var digits := IntToString(limit);
    assert '?' !in digits by {
      if limit < 0 {
        assert digits == "-" + NatToString(-limit);
        assert forall k :: 1 <= k < |digits| ==> digits[k] == NatToString(-limit)[k - 1];
      }
    }
    WordsUnmarked();
    CountCharConcat("LIMIT ", digits, '?');
    "LIMIT " + digits
  }

  /** Concatenates the clauses of the statement. */
  function AssembleSql(selects: seq<string>, join: bool, wheres: seq<string>, groupBy: seq<string>,
                       orders: seq<string>, limit: int): (r: string)
    ensures StartsWith(r, "SELECT ")
    ensures EndsWith(r, LimitClause(limit))
    ensures join ==> Contains(r, USER_JOIN) && Contains(r, BATCH_JOIN)
    ensures CountChar(r, '?') == SumCount(selects) + SumCount(wheres) + SumCount(groupBy) + SumCount(orders)
  {
    WordsUnmarked();
    var head := SelectClause(selects);
    var body := WhereClause(wheres) + ListClause("GROUP BY ", groupBy) + ListClause("ORDER BY ", orders);
    var tail := LimitClause(limit);
    Count3(WhereClause(wheres), ListClause("GROUP BY ", groupBy), ListClause("ORDER BY ", orders));
    ClauseShape(head, JoinClause(join), body, tail);
    JoinsPresent(head, join, body, tail);
    SelectStarts(selects);
    StartsWithConcat(head, JoinClause(join), "SELECT ");
    StartsWithConcat(head + JoinClause(join), body, "SELECT ");
    StartsWithConcat(head + JoinClause(join) + body, tail, "SELECT ");
    head + JoinClause(join) + body + tail
  }

  /** The assembled statement, written out clause by clause: the select
      list, the two joins when asked for, the WHERE list, the GROUP BY and
      ORDER BY lists when not empty, and the row limit. */
  lemma AssembledText(selects: seq<string>, join: bool, wheres: seq<string>, groupBy: seq<string>,
                      orders: seq<string>, limit: int)
    ensures AssembleSql(selects, join, wheres, groupBy, orders, limit)
            == ("SELECT " + Join(", ", selects) + " FROM project_task t ")
               + (if join then USER_JOIN + BATCH_JOIN else "")
               + ("WHERE " + Join(" AND ", wheres) + " ")
               + (if groupBy == [] then "" else "GROUP BY " + Join(", ", groupBy) + " ")
               + (if orders == [] then "" else "ORDER BY " + Join(", ", orders) + " ")
               + ("LIMIT " + IntToString(limit))
  {
    WordsUnmarked();
    ClauseTexts(selects, wheres, groupBy, orders, limit);
    AssembleClauses(selects, join, wheres, groupBy, orders, limit);
    Rewrite6(SelectClause(selects), JoinClause(join), WhereClause(wheres), ListClause("GROUP BY ", groupBy),
             ListClause("ORDER BY ", orders), LimitClause(limit),
             "SELECT " + Join(", ", selects) + " FROM project_task t ",
             if join then USER_JOIN + BATCH_JOIN else "",
             "WHERE " + Join(" AND ", wheres) + " ",
             if groupBy == [] then "" else "GROUP BY " + Join(", ", groupBy) + " ",
             if orders == [] then "" else "ORDER BY " + Join(", ", orders) + " ",
             "LIMIT " + IntToString(limit));
  }

  /** Six clauses written out one by one give the statement written out. */
  lemma Rewrite6(s: string, j: string, w: string, g: string, o: string, l: string,
                 s': string, j': string, w': string, g': string, o': string, l': string)
    requires s == s' && j == j' && w == w' && g == g' && o == o' && l == l'
    ensures s + j + (w + g + o) + l == s' + j' + w' + g' + o' + l'
  {
    Regroup(s, j, w, g, o, l);
  }

  lemma AssembleClauses(selects: seq<string>, join: bool, wheres: seq<string>, groupBy: seq<string>,
                        orders: seq<string>, limit: int)
    ensures AssembleSql(selects, join, wheres, groupBy, orders, limit)
            == SelectClause(selects) + JoinClause(join)
               + (WhereClause(wheres) + ListClause("GROUP BY ", groupBy) + ListClause("ORDER BY ", orders))
               + LimitClause(limit)
    ensures JoinClause(join) == if join then USER_JOIN + BATCH_JOIN else ""
  {
  }

  lemma ClauseTexts(selects: seq<string>, wheres: seq<string>, groupBy: seq<string>, orders: seq<string>, limit: int)
    ensures SelectClause(selects) == "SELECT " + Join(", ", selects) + " FROM project_task t "
    ensures WhereClause(wheres) == "WHERE " + Join(" AND ", wheres) + " "
    ensures ListClause("GROUP BY ", groupBy) == (if groupBy == [] then "" else "GROUP BY " + Join(", ", groupBy) + " ")
    ensures ListClause("ORDER BY ", orders) == (if orders == [] then "" else "ORDER BY " + Join(", ", orders) + " ")
    ensures LimitClause(limit) == "LIMIT " + IntToString(limit)
  {
    assert " FROM " + "project_task t " == " FROM project_task t ";
  }

  lemma Regroup3(a: string, b: string, c: string, d: string)
    ensures a + (b + c) + d == a + b + c + d
  {
  }

  lemma Regroup(s: string, j: string, w: string, g: string, o: string, l: string)
    ensures s + j + (w + g + o) + l == s + j + w + g + o + l
  {
  }

  lemma SelectStarts(selects: seq<string>)
    ensures StartsWith(SelectClause(selects), "SELECT ")
  {
    var r := SelectClause(selects);
    assert r[..7] == "SELECT ";
  }

  /** Shape facts about four concatenated clauses, for any clause contents. */
  lemma ClauseShape(head: string, joins: string, body: string, tail: string)
    ensures CountChar(head + joins + body + tail, '?')
            == CountChar(head, '?') + CountChar(joins, '?') + CountChar(body, '?') + CountChar(tail, '?')
    ensures EndsWith(head + joins + body + tail, tail)
  {
    Count3(head, joins, body);
    CountCharConcat(head + joins + body, tail, '?');
    var r := head + joins + body + tail;
    assert r[|r| - |tail|..] == tail;
  }

  lemma JoinsPresent(head: string, join: bool, body: string, tail: string)
    ensures join ==> Contains(head + JoinClause(join) + body + tail, USER_JOIN)
    ensures join ==> Contains(head + JoinClause(join) + body + tail, BATCH_JOIN)
  {
    if join {
      assert head + JoinClause(join) + body + tail == head + (USER_JOIN + BATCH_JOIN) + (body + tail);
      ContainsPair(head, USER_JOIN, BATCH_JOIN, body + tail);
    }
  }

  // ---------------------------------------------------------------------------
  // The statement
  // ---------------------------------------------------------------------------

  /** A select item: its SQL expression and its display name. */
  datatype Column = Column(expr: string, name: string)

  predicate Unmarked(cs: seq<Column>) {
    forall i :: 0 <= i < |cs| ==> '?' !in cs[i].expr
  }

  /** A dimension selects its field under the alias, or the field code. */
  function DimensionColumn(d: Dimension): (r: Result<Column>)
    ensures r.Ok? <==> FieldOf(d.field).Some?
    ensures r.Ok? ==> '?' !in r.value.expr && r.value.name == NormalizeAlias(d.alias, JavaTrim(d.field))
    ensures r.Ok? ==> AliasName(r.value.name)
  {
    var field := JavaTrim(d.field);
    var e :- Expr(field);
    Ok(Column(e, NormalizeAlias(d.alias, field)))
  }

  /** A measure selects its aggregate under the alias, or `AGG_FIELD`. */
  function MeasureColumn(m: Measure): (r: Result<Column>)
    ensures r.Ok? <==> FieldOf(m.field).Some? && AggOf(m.agg).Some?
    ensures r.Ok? ==> '?' !in r.value.expr
                      && r.value.name == NormalizeAlias(m.alias, Upper(JavaTrim(m.agg)) + "_" + JavaTrim(m.field))
    ensures r.Ok? ==> AliasName(r.value.name)
  {
    var agg := Upper(JavaTrim(m.agg));
    var field := JavaTrim(m.field);
    var e :- AggExpression(agg, field);
    Ok(Column(e, NormalizeAlias(m.alias, agg + "_" + field)))
  }

  /** A sort key: the field expression and the upper-cased direction. */
  function OrderItem(o: OrderBy): (r: Result<string>)
    ensures r.Ok? <==> FieldOf(o.field).Some?
    ensures r.Ok? && '?' !in o.direction ==> '?' !in r.value
  {
    var e :- Expr(JavaTrim(o.field));
    var direction := Upper(JavaTrim(o.direction));
    assert '?' !in o.direction ==> '?' !in direction by {
      TrimUnmarked(o.direction);
    }
    CountCharConcat(e, " ", '?');
    CountCharConcat(e + " ", direction, '?');
    WordsUnmarked();
    Ok(e + " " + direction)
  }

  lemma TrimUnmarked(s: string)
    ensures '?' !in s ==> '?' !in Upper(JavaTrim(s))
  {
    var t := JavaTrim(s);
    if '?' !in s {
      assert forall k :: 0 <= k < |t| ==> t[k] in s;
      assert forall k :: 0 <= k < |t| ==> Upper(t)[k] == UpperChar(t[k]);
    }
  }

  function Exprs(cs: seq<Column>): (r: seq<string>)
    ensures |r| == |cs| && forall i :: 0 <= i < |cs| ==> r[i] == cs[i].expr
  {
    seq(|cs|, i requires 0 <= i < |cs| => cs[i].expr)
  }

  function Names(cs: seq<Column>): (r: seq<string>)
    ensures |r| == |cs| && forall i :: 0 <= i < |cs| ==> r[i] == cs[i].name
  {
    seq(|cs|, i requires 0 <= i < |cs| => cs[i].name)
  }

  /** Builds the statement of a validated plan: the dimensions are selected
      and grouped, the measures selected, every filter with a field and an
      operator adds a condition after the soft-delete test, and the sort keys
      order the rows. */
  function Build(vp: ValidatedPlan, parsers: Parsers): (r: Result<BuiltQuery>)
    ensures vp.plan.dimensions == [] && vp.plan.measures == [] ==> r.Err?
    ensures r.Ok? ==> |r.value.columns| == |vp.plan.dimensions| + |vp.plan.measures|
    ensures r.Ok? ==> forall i :: 0 <= i < |r.value.columns| ==> AliasName(r.value.columns[i])
    ensures r.Ok? ==> StartsWith(r.value.sql, "SELECT ") && EndsWith(r.value.sql, LimitClause(vp.limit))
    ensures r.Ok? && NeedsJoin(vp.usedFields) ==> Contains(r.value.sql, USER_JOIN) && Contains(r.value.sql, BATCH_JOIN)
    ensures r.Ok? ==> |r.value.params| == ParamCount(vp.plan.filters)
    ensures r.Ok? ==> FilterConditions(vp.plan.filters, parsers).Ok?
                      && r.value.params == FilterConditions(vp.plan.filters, parsers).value.1
    ensures r.Ok? && DirectionsUnmarked(vp.plan.orderBy) ==> CountChar(r.value.sql, '?') == |r.value.params|
  {
    var p := vp.plan;
    var cols :- SelectColumns(p);
    var filtered :- FilterConditions(p.filters, parsers);
    var orders :- SortKeys(p.orderBy);
    var sql := Statement(cols.0, cols.1, filtered.0, orders, NeedsJoin(vp.usedFields), vp.limit);
    Ok(BuiltQuery(sql, filtered.1, Names(cols.0)))
  }

  /** The built statement written out: the select items `expr AS c<i>` in
      column order, the joins exactly when a used field reads the user or
      batch table, the soft-delete test followed by the filter conditions,
      the dimension expressions as GROUP BY list, the sort keys, and the
      limit. */
  lemma BuiltText(vp: ValidatedPlan, parsers: Parsers)
    requires Build(vp, parsers).Ok?
    ensures SelectColumns(vp.plan).Ok? && FilterConditions(vp.plan.filters, parsers).Ok?
            && SortKeys(vp.plan.orderBy).Ok?
    ensures var cols := SelectColumns(vp.plan).value.0;
            var conds := FilterConditions(vp.plan.filters, parsers).value.0;
            var keys := SortKeys(vp.plan.orderBy).value;
            Build(vp, parsers).value.sql
            == ("SELECT " + Join(", ", AliasSelects(Exprs(cols))) + " FROM project_task t ")
               + (if NeedsJoin(vp.usedFields) then USER_JOIN + BATCH_JOIN else "")
               + ("WHERE " + NOT_DELETED + (if conds == [] then "" else " AND " + Join(" AND ", conds)) + " ")
               + (if vp.plan.dimensions == [] then ""
                  else "GROUP BY " + Join(", ", Exprs(cols[..|vp.plan.dimensions|])) + " ")
               + (if keys == [] then "" else "ORDER BY " + Join(", ", keys) + " ")
               + ("LIMIT " + IntToString(vp.limit))
  {
    BuildIsStatement(vp, parsers);
    GroupByDimensions(vp.plan);
    var cols := SelectColumns(vp.plan).value;
    StatementGroupedBy(Build(vp, parsers).value.sql, cols.0, cols.1, vp.plan.dimensions,
                       FilterConditions(vp.plan.filters, parsers).value.0, SortKeys(vp.plan.orderBy).value,
                       NeedsJoin(vp.usedFields), vp.limit);
  }

  /** The statement text, with the GROUP BY list written as the first
      `|ds|` select expressions. */
  lemma StatementGroupedBy<D>(sql: string, columns: seq<Column>, dims: seq<Column>, ds: seq<D>, conds: seq<string>,
                              keys: seq<string>, join: bool, limit: int)
    requires Unmarked(columns) && Unmarked(dims) && |ds| <= |columns|
    requires sql == Statement(columns, dims, conds, keys, join, limit)
    requires (if dims == [] then "" else "GROUP BY " + Join(", ", Exprs(dims)) + " ")
             == (if ds == [] then "" else "GROUP BY " + Join(", ", Exprs(columns[..|ds|])) + " ")
    ensures sql
            == ("SELECT " + Join(", ", AliasSelects(Exprs(columns))) + " FROM project_task t ")
               + (if join then USER_JOIN + BATCH_JOIN else "")
               + ("WHERE " + NOT_DELETED + (if conds == [] then "" else " AND " + Join(" AND ", conds)) + " ")
               + (if ds == [] then "" else "GROUP BY " + Join(", ", Exprs(columns[..|ds|])) + " ")
               + (if keys == [] then "" else "ORDER BY " + Join(", ", keys) + " ")
               + ("LIMIT " + IntToString(limit))
  {
    StatementText(columns, dims, conds, keys, join, limit);
    SwapPart("SELECT " + Join(", ", AliasSelects(Exprs(columns))) + " FROM project_task t ",
             if join then USER_JOIN + BATCH_JOIN else "",
             "WHERE " + NOT_DELETED + (if conds == [] then "" else " AND " + Join(" AND ", conds)) + " ",
             if dims == [] then "" else "GROUP BY " + Join(", ", Exprs(dims)) + " ",
             if ds == [] then "" else "GROUP BY " + Join(", ", Exprs(columns[..|ds|])) + " ",
             if keys == [] then "" else "ORDER BY " + Join(", ", keys) + " ",
             "LIMIT " + IntToString(limit));
  }

  lemma GroupByDimensions(p: QueryPlan)
    requires SelectColumns(p).Ok?
    ensures var cols := SelectColumns(p).value;
            (if cols.1 == [] then "" else "GROUP BY " + Join(", ", Exprs(cols.1)) + " ")
            == (if p.dimensions == [] then "" else "GROUP BY " + Join(", ", Exprs(cols.0[..|p.dimensions|])) + " ")
  {
    SelectColumnsOrder(p);
  }

  lemma SwapPart(s: string, j: string, w: string, g1: string, g2: string, o: string, l: string)
    requires g1 == g2
    ensures s + j + w + g1 + o + l == s + j + w + g2 + o + l
  {
  }

  lemma BuildIsStatement(vp: ValidatedPlan, parsers: Parsers)
    requires Build(vp, parsers).Ok?
    ensures SelectColumns(vp.plan).Ok? && FilterConditions(vp.plan.filters, parsers).Ok?
            && SortKeys(vp.plan.orderBy).Ok?
    ensures var cols := SelectColumns(vp.plan).value;
            Build(vp, parsers).value.sql
            == Statement(cols.0, cols.1, FilterConditions(vp.plan.filters, parsers).value.0,
                         SortKeys(vp.plan.orderBy).value, NeedsJoin(vp.usedFields), vp.limit)
  {
  }

  lemma StatementText(columns: seq<Column>, dims: seq<Column>, conds: seq<string>, orders: seq<string>,
                      join: bool, limit: int)
    requires Unmarked(columns) && Unmarked(dims)
    ensures Statement(columns, dims, conds, orders, join, limit)
            == ("SELECT " + Join(", ", AliasSelects(Exprs(columns))) + " FROM project_task t ")
               + (if join then USER_JOIN + BATCH_JOIN else "")
               + ("WHERE " + NOT_DELETED + (if conds == [] then "" else " AND " + Join(" AND ", conds)) + " ")
               + (if dims == [] then "" else "GROUP BY " + Join(", ", Exprs(dims)) + " ")
               + (if orders == [] then "" else "ORDER BY " + Join(", ", orders) + " ")
               + ("LIMIT " + IntToString(limit))
  {
    AssembledText(AliasSelects(Exprs(columns)), join, [NOT_DELETED] + conds, Exprs(dims), orders, limit);
    SoftDeleteFirst(conds);
    Regroup3("WHERE ", NOT_DELETED, if conds == [] then "" else " AND " + Join(" AND ", conds), " ");
    assert Exprs(dims) == [] <==> dims == [];
  }

  /** The WHERE list is the soft-delete test, then each filter condition. */
  lemma SoftDeleteFirst(conds: seq<string>)
    ensures Join(" AND ", [NOT_DELETED] + conds)
            == NOT_DELETED + (if conds == [] then "" else " AND " + Join(" AND ", conds))
  {
    if conds != [] {
      assert ([NOT_DELETED] + conds)[1..] == conds;
    }
  }

  /** The select columns (dimensions first) and the dimension columns. */
  function SelectColumns(p: QueryPlan): (r: Result<(seq<Column>, seq<Column>)>)
    ensures p.dimensions == [] && p.measures == [] ==> r.Err?
    ensures r.Ok? ==> |r.value.0| == |p.dimensions| + |p.measures| && |r.value.1| == |p.dimensions|
    ensures r.Ok? ==> Unmarked(r.value.0) && Unmarked(r.value.1)
    ensures r.Ok? ==> forall i :: 0 <= i < |r.value.0| ==> AliasName(r.value.0[i].name)
  {
    var dims :- DimensionColumns(p.dimensions);
    var measures :- MeasureColumns(p.measures);
    if dims == [] && measures == [] then Err("查询计划缺少可选字段")
    else
      ColumnsConcat(dims, measures);
      Ok((dims + measures, dims))
  }

  predicate WellNamed(cs: seq<Column>) {
    Unmarked(cs) && forall i :: 0 <= i < |cs| ==> AliasName(cs[i].name)
  }

  /** The select columns are the dimension columns, in plan order, followed
      by the measure columns, in plan order. */
  lemma SelectColumnsOrder(p: QueryPlan)
    requires SelectColumns(p).Ok?
    ensures var cs := SelectColumns(p).value;
            cs.1 == cs.0[..|p.dimensions|]
            && (forall i :: 0 <= i < |p.dimensions| ==> DimensionColumn(p.dimensions[i]) == Ok(cs.0[i]))
            && (forall i :: |p.dimensions| <= i < |cs.0| ==> MeasureColumn(p.measures[i - |p.dimensions|]) == Ok(cs.0[i]))
  {
    var dims := DimensionColumns(p.dimensions).value;
    var measures := MeasureColumns(p.measures).value;
    assert SelectColumns(p).value == (dims + measures, dims);
    ColumnParts(dims, measures);
  }

  lemma ColumnParts(xs: seq<Column>, ys: seq<Column>)
    ensures (xs + ys)[..|xs|] == xs
    ensures forall i :: 0 <= i < |xs| ==> (xs + ys)[i] == xs[i]
    ensures forall i :: |xs| <= i < |xs + ys| ==> (xs + ys)[i] == ys[i - |xs|]
  {
  }

  lemma ColumnsConcat(xs: seq<Column>, ys: seq<Column>)
    requires WellNamed(xs) && WellNamed(ys)
    ensures WellNamed(xs + ys)
  {
    assert forall i :: |xs| <= i < |xs + ys| ==> (xs + ys)[i] == ys[i - |xs|];
  }

  function DimensionColumns(ds: seq<Dimension>): (r: Result<seq<Column>>)
    ensures r.Ok? ==> |r.value| == |ds| && WellNamed(r.value)
    ensures r.Ok? ==> forall i :: 0 <= i < |ds| ==> DimensionColumn(ds[i]) == Ok(r.value[i])
  {
    MapResult(ds, DimensionColumn)
  }

  function MeasureColumns(ms: seq<Measure>): (r: Result<seq<Column>>)
    ensures r.Ok? ==> |r.value| == |ms| && WellNamed(r.value)
    ensures r.Ok? ==> forall i :: 0 <= i < |ms| ==> MeasureColumn(ms[i]) == Ok(r.value[i])
  {
    MapResult(ms, MeasureColumn)
  }

  function SortKeys(os: seq<OrderBy>): (r: Result<seq<string>>)
    ensures r.Ok? ==> |r.value| == |os|
    ensures r.Ok? && DirectionsUnmarked(os) ==> forall i :: 0 <= i < |r.value| ==> '?' !in r.value[i]
  {
    MapResult(os, OrderItem)
  }

  predicate DirectionsUnmarked(os: seq<OrderBy>) {
    forall i :: 0 <= i < |os| ==> '?' !in os[i].direction
  }

  predicate AliasName(name: string) {
    forall k :: 0 <= k < |name| ==> IsAliasChar(name[k])
  }

  /** The statement over given columns, conditions and sort keys: the only
      placeholders are those of the filter conditions. */
  function Statement(columns: seq<Column>, dims: seq<Column>, wheres: seq<string>, orders: seq<string>,
                     join: bool, limit: int): (sql: string)
    requires Unmarked(columns) && Unmarked(dims)
    ensures StartsWith(sql, "SELECT ") && EndsWith(sql, LimitClause(limit))
    ensures join ==> Contains(sql, USER_JOIN) && Contains(sql, BATCH_JOIN)
    ensures (forall i :: 0 <= i < |orders| ==> '?' !in orders[i]) ==> CountChar(sql, '?') == SumCount(wheres)
  {
    BuildCounts(columns, dims, wheres, orders);
    AssembleSql(AliasSelects(Exprs(columns)), join, [NOT_DELETED] + wheres, Exprs(dims), orders, limit)
  }

  /** Placeholder counts of the pieces `Build` assembles. */
  lemma BuildCounts(columns: seq<Column>, dims: seq<Column>, wheres: seq<string>, orders: seq<string>)
    requires Unmarked(columns) && Unmarked(dims)
    ensures SumCount(AliasSelects(Exprs(columns))) == 0
    ensures SumCount(Exprs(dims)) == 0
    ensures SumCount([NOT_DELETED] + wheres) == SumCount(wheres)
    ensures (forall i :: 0 <= i < |orders| ==> '?' !in orders[i]) ==> SumCount(orders) == 0
  {
    NoPlaceholders(Exprs(dims));
    NoPlaceholders(orders);
    WordsUnmarked();
    assert ([NOT_DELETED] + wheres)[1..] == wheres;
  }

  /** For an accepted query plan, the built statement binds exactly one value
      per placeholder, and it joins the user and batch tables exactly when
      the plan names a field read from them (the join clause of `BuiltText`
      is empty otherwise). */
  lemma ValidatedStatement(plan: QueryPlan, vp: ValidatedPlan, parsers: Parsers)
    requires Validate(Some(plan)) == Ok(vp) && !Clarifying(plan)
    requires Build(vp, parsers).Ok?
    ensures CountChar(Build(vp, parsers).value.sql, '?') == |Build(vp, parsers).value.params|
    ensures (exists f :: f in PlanFields(plan) && JoinRequired(f)) ==>
              Contains(Build(vp, parsers).value.sql, USER_JOIN) && Contains(Build(vp, parsers).value.sql, BATCH_JOIN)
    ensures NeedsJoin(vp.usedFields) <==> exists f :: f in PlanFields(plan) && JoinRequired(f)
  {
    assert ValidatedFrom(plan, vp);
    ValidatedDirections(vp.plan.orderBy);
    SameFieldsSameSet(plan, vp.plan);
    assert (exists f :: f in PlanFields(plan) && JoinRequired(f)) ==> NeedsJoin(vp.usedFields);
    assert NeedsJoin(vp.usedFields) ==> exists f :: f in PlanFields(plan) && JoinRequired(f);
  }

  lemma ValidatedDirections(os: seq<OrderBy>)
    requires OrdersNormalized(os)
    ensures DirectionsUnmarked(os)
  {
    forall i | 0 <= i < |os| ensures '?' !in os[i].direction {
      assert IsDirection(os[i].direction);
    }
  }

}
