/** One ChatBI question end to end: the question is normalised, the plan the
    language model proposes is guarded, validated and compiled, the statement
    is run, and the rows are summarised in one sentence. Debug output (the
    statement and the plan) is shown to administrators only. Sessions belong
    to their creator; administrators may read every session. */
module ChatBiService {

  import opened Results
  import opened Text
  import opened ChatBiSchema
  import opened ChatBiPlan
  import opened ChatBiSql
  import opened ChatBiGuard

  const NO_DATA: string := "没有符合条件的数据"
  const DEFAULT_CLARIFICATION: string := "需要进一步澄清你的问题"
  const TITLE_MAX: nat := 40

  /** Rows as the driver returns them, every cell already rendered as text. */
  datatype QueryResult = QueryResult(columns: seq<string>, rows: seq<seq<string>>)

  datatype Session = Session(userId: Option<int>)

  datatype Response = Response(
    sessionId: int,
    needClarification: bool,
    clarifyingQuestion: string,
    answer: string,
    rows: Option<QueryResult>,
    debugSql: Option<string>,
    debugPlan: Option<QueryPlan>)

  /** A question must have text; it is kept trimmed. */
  function NormalizeQuestion(raw: string): (r: Result<string>)
    ensures r.Ok? <==> HasText(raw)
    ensures r.Ok? ==> r.value == JavaTrim(raw) && JavaTrim(r.value) == r.value
  {
    if !HasText(raw) then Err("问题不能为空")
    else
      JavaTrimIdempotent(raw);
      Ok(JavaTrim(raw))
  }

  /** The title of a new session: the trimmed question, cut to 40 characters
      with an ellipsis, or "ChatBI" for a blank question. */
  function BuildSessionTitle(question: string): (r: string)
    ensures !HasText(JavaTrim(question)) ==> r == "ChatBI"
    ensures HasText(JavaTrim(question)) && |JavaTrim(question)| <= TITLE_MAX ==> r == JavaTrim(question)
    ensures HasText(JavaTrim(question)) && |JavaTrim(question)| > TITLE_MAX ==>
              |r| == TITLE_MAX + 1 && StartsWith(JavaTrim(question), r[..TITLE_MAX]) && r[TITLE_MAX] == '…'
    ensures |r| <= TITLE_MAX + 1
  {
    var q := JavaTrim(question);
    if !HasText(q) then "ChatBI"
    else if |q| <= TITLE_MAX then q
    else
      assert (q[..TITLE_MAX] + "…")[..TITLE_MAX] == q[..TITLE_MAX];
      q[..TITLE_MAX] + "…"
  }

  /** The name a one-row answer uses for column `i`. */
  function ColumnLabel(columns: seq<string>, i: nat): string {
    if i < |columns| then columns[i] else "col" + NatToString(i)
  }

  /** `label=value` for every cell of the row. */
  function CellTexts(columns: seq<string>, row: seq<string>): (r: seq<string>)
    ensures |r| == |row|
    ensures forall i :: 0 <= i < |row| ==> r[i] == ColumnLabel(columns, i) + "=" + row[i]
  {
    seq(|row|, i requires 0 <= i < |row| => ColumnLabel(columns, i) + "=" + row[i])
  }

  /** The sentence that answers a query: no data, the one row spelled out, or
      the number of rows. */
  function BuildAnswerText(result: Option<QueryResult>): (r: string)
    ensures result.None? || result.value.rows == [] ==> r == NO_DATA
    ensures result.Some? && |result.value.rows| == 1 && result.value.rows[0] == [] ==> r == NO_DATA
    ensures result.Some? && |result.value.rows| == 1 && result.value.rows[0] != [] ==>
              r == "结果：" + Join("，", CellTexts(result.value.columns, result.value.rows[0]))
              && StartsWith(r, "结果：")
              && forall i :: 0 <= i < |result.value.rows[0]| ==>
                   Contains(r, ColumnLabel(result.value.columns, i) + "=" + result.value.rows[0][i])
    ensures result.Some? && |result.value.rows| > 1 ==>
              r == "已返回 " + NatToString(|result.value.rows|) + " 行结果"
  {
    if result.None? || result.value.rows == [] then NO_DATA
    else
      var res := result.value;
      if |res.rows| == 1 then
        var row := res.rows[0];
        if row == [] then NO_DATA
        else
          var cells := CellTexts(res.columns, row);
          OneRowListsCells("结果：", cells);
          "结果：" + Join("，", cells)
      else
        "已返回 " + NatToString(|res.rows|) + " 行结果"
  }

  /** The one-row answer starts with its head, holds every cell text, and
      ends with the last cell after a "，" that follows the earlier cells. */
  lemma OneRowListsCells(head: string, cells: seq<string>)
    ensures StartsWith(head + Join("，", cells), head)
    ensures forall i :: 0 <= i < |cells| ==> Contains(head + Join("，", cells), cells[i])
    ensures |cells| >= 2 ==>
              head + Join("，", cells) == head + Join("，", cells[..|cells| - 1]) + "，" + cells[|cells| - 1]
  {
    OneRowHoldsCells(head, cells);
    if |cells| >= 2 {
      OneRowEndsWithLast(head, cells);
    }
  }

  lemma OneRowEndsWithLast(head: string, cells: seq<string>)
    requires |cells| >= 2
    ensures head + Join("，", cells) == head + Join("，", cells[..|cells| - 1]) + "，" + cells[|cells| - 1]
  {
    JoinLast("，", cells);
    PrefixRegroup(head, Join("，", cells[..|cells| - 1]), "，", cells[|cells| - 1]);
  }

  lemma PrefixRegroup(head: string, front: string, sep: string, last: string)
    ensures head + (front + sep + last) == head + front + sep + last
  {
  }

  lemma OneRowHoldsCells(head: string, cells: seq<string>)
    ensures StartsWith(head + Join("，", cells), head)
    ensures forall i :: 0 <= i < |cells| ==> Contains(head + Join("，", cells), cells[i])
  {
    assert (head + Join("，", cells))[..|head|] == head;
    forall i | 0 <= i < |cells| ensures Contains(head + Join("，", cells), cells[i]) {
      JoinContains("，", cells, i);
      ContainsConcat(head, Join("，", cells), cells[i]);
    }
  }

  /** The answer for one non-empty row, built the way the source's
      StringBuilder loop builds it: each `label=value`, then "，" unless it
      is the last cell. */
  method OneRowAnswer(columns: seq<string>, row: seq<string>) returns (sb: string)
    requires row != []
    ensures sb == BuildAnswerText(Some(QueryResult(columns, [row])))
  {
    sb := "结果：";
    var i := 0;
    while i < |row|
      invariant 0 <= i <= |row|
      invariant i == 0 ==> sb == "结果："
      invariant 0 < i ==> sb == "结果：" + Join("，", CellTexts(columns, row)[..i]) + (if i < |row| then "，" else "")
    {
      var cell := ColumnLabel(columns, i) + "=" + row[i];
      ghost var before := CellTexts(columns, row)[..i];
      assert CellTexts(columns, row)[..i + 1] == before + [cell];
      if 0 < i {
        JoinSnoc("，", before, cell);
      }
      sb := sb + cell;
      if i != |row| - 1 {
        sb := sb + "，";
      }
      i := i + 1;
    }
    assert CellTexts(columns, row)[..|row|] == CellTexts(columns, row);
  }

  /** A session can be read by an administrator, or by the user it belongs to. */
  function AssertSessionReadable(session: Option<Session>, user: Option<User>): (r: Result<()>)
    ensures r.Ok? <==> session.Some? && user.Some?
                       && (IsAdmin(user.value) || session.value.userId == user.value.id)
    ensures session.None? ==> r == Err("会话不存在")
  {
    if session.None? then Err("会话不存在")
    else if user.None? then Err("用户为空")
    else if IsAdmin(user.value) then Ok(())
    else if session.value.userId != user.value.id then Err("无权访问该会话")
    else Ok(())
  }

  /** Debug fields carry the statement and plan for administrators and are
      cleared for everyone else. */
  function AttachDebugIfAdmin(resp: Response, user: User, sql: Option<string>, plan: Option<QueryPlan>): (r: Response)
    ensures !IsAdmin(user) ==> r.debugSql.None? && r.debugPlan.None?
    ensures IsAdmin(user) ==> r.debugSql == sql && r.debugPlan == plan
    ensures r.(debugSql := resp.debugSql, debugPlan := resp.debugPlan) == resp
  {
    if IsAdmin(user) then resp.(debugSql := sql, debugPlan := plan)
    else resp.(debugSql := None, debugPlan := None)
  }

  /** What the pipeline does with a question once the plan is proposed. */
  datatype Step =
    | Clarify(text: string, plan: QueryPlan)
    | Execute(plan: QueryPlan, validated: ValidatedPlan, query: BuiltQuery)

  /** Guard, then either ask back or validate and compile. An error carries
      the guarded plan when the guard got that far. */
  function PlanQuery(user: User, question: string, aiPlan: Option<QueryPlan>, parsers: Parsers)
    : (r: Result<Step>)
    ensures r.Ok? && r.value.Execute? ==>
              Guard(user, question, aiPlan) == Ok(GuardResult(true, r.value.plan))
              && !Clarifying(r.value.plan)
              && Validate(Some(r.value.plan)) == Ok(r.value.validated)
              && Build(r.value.validated, parsers) == Ok(r.value.query)
    ensures r.Ok? && r.value.Clarify? ==> HasText(r.value.text)
    ensures Guard(user, question, aiPlan).Err? ==> r.Err?
  {
    var guard :- Guard(user, question, aiPlan);
    var p := guard.plan;
    if !guard.allowExecute || Clarifying(p) then
      assert HasText(DEFAULT_CLARIFICATION) by {
        assert !IsJavaWhitespace(DEFAULT_CLARIFICATION[0]);
      }
      Ok(Clarify(if HasText(p.clarifyingQuestion) then p.clarifyingQuestion else DEFAULT_CLARIFICATION, p))
    else
      var vp :- Validate(Some(p));
      var built :- Build(vp, parsers);
      Ok(Execute(p, vp, built))
  }

  /** Conversely, a plan that the guard lets through and that validates and
      compiles is executed. */
  lemma PlanQueryExecutes(user: User, question: string, aiPlan: Option<QueryPlan>, parsers: Parsers,
                          g: GuardResult, vp: ValidatedPlan, built: BuiltQuery)
    requires Guard(user, question, aiPlan) == Ok(g) && g.allowExecute && !Clarifying(g.plan)
    requires Validate(Some(g.plan)) == Ok(vp) && Build(vp, parsers) == Ok(built)
    ensures PlanQuery(user, question, aiPlan, parsers) == Ok(Execute(g.plan, vp, built))
  {
  }

  /** A plan the guard holds back, or one that asks back, becomes the
      clarifying question. */
  lemma PlanQueryClarifies(user: User, question: string, aiPlan: Option<QueryPlan>, parsers: Parsers, g: GuardResult)
    requires Guard(user, question, aiPlan) == Ok(g) && (!g.allowExecute || Clarifying(g.plan))
    ensures PlanQuery(user, question, aiPlan, parsers)
            == Ok(Clarify(if HasText(g.plan.clarifyingQuestion) then g.plan.clarifyingQuestion else DEFAULT_CLARIFICATION,
                          g.plan))
  {
  }

  /** The plan shown in debug output: the guarded plan, once the guard ran. */
  function GuardedPlan(user: User, question: string, aiPlan: Option<QueryPlan>): Option<QueryPlan> {
    match Guard(user, question, aiPlan)
    case Ok(g) => Some(g.plan)
    case Err(_) => None
  }

  /** Whether the question may go to the session it names: a new session
      (no id) always may, an existing one must be readable by the user. */
  function SessionAccess(sessionId: Option<int>, lookup: int -> Option<Session>, user: User): (r: Result<()>)
    ensures sessionId.None? ==> r.Ok?
    ensures sessionId.Some? && lookup(sessionId.value).None? ==> r == Err("会话不存在")
    ensures sessionId.Some? && lookup(sessionId.value).Some? ==>
              (r.Ok? <==> IsAdmin(user) || lookup(sessionId.value).value.userId == user.id)
    ensures r.Err? ==> r == AssertSessionReadable(lookup(sessionId.value), Some(user))
  {
    if sessionId.None? then Ok(()) else AssertSessionReadable(lookup(sessionId.value), Some(user))
  }

  const BUSY: string := "系统繁忙，请稍后重试"

  /** An exception from a call the service makes: a `BusinessException`,
      whose message is shown, or any other exception. */
  datatype Fault = Business(message: string) | Unexpected(cause: Option<string>)

  /** The outcome of a call into the language model or the database. */
  datatype Call<+T> = Returned(value: T) | Threw(fault: Fault)

  /** The answer for an exception after the session check: a business
      message is shown with the debug output reached so far, anything else
      becomes the busy answer with no debug output at all. */
  function Failed(empty: Response, fault: Fault, user: User, sql: Option<string>, plan: Option<QueryPlan>)
    : (r: Response)
    requires empty.debugSql.None? && empty.debugPlan.None?
    ensures r.rows == empty.rows && r.needClarification == empty.needClarification
    ensures fault.Unexpected? ==> r == empty.(answer := BUSY)
    ensures fault.Business? ==> r == AttachDebugIfAdmin(empty.(answer := fault.message), user, sql, plan)
  {
    match fault
    case Unexpected(_) => empty.(answer := BUSY)
    case Business(m) => AttachDebugIfAdmin(empty.(answer := m), user, sql, plan)
  }

  /** The answer once the plan is proposed: a planning error or a
      clarification is the answer text, and an executed statement gives its
      rows or, when it fails, the failure's answer. */
  function RespondToStep(empty: Response, user: User, shown: Option<QueryPlan>, step: Result<Step>,
                         run: BuiltQuery -> Call<QueryResult>): (r: Response)
    requires empty.debugSql.None? && empty.debugPlan.None? && empty.rows.None? && !empty.needClarification
    requires step.Ok? && step.value.Clarify? ==> HasText(step.value.text)
    ensures r.sessionId == empty.sessionId
    ensures !IsAdmin(user) ==> r.debugSql.None? && r.debugPlan.None?
    ensures r.needClarification ==> HasText(r.answer) && r.rows.None?
    ensures step.Err? ==> r == AttachDebugIfAdmin(empty.(answer := step.error), user, None, shown)
    ensures step.Ok? && step.value.Execute? && run(step.value.query).Threw? ==>
              r == Failed(empty, run(step.value.query).fault, user, Some(step.value.query.sql), Some(step.value.plan))
    ensures step.Ok? && step.value.Execute? && run(step.value.query).Returned? ==>
              var rows := run(step.value.query).value;
              r.rows == Some(rows) && !r.needClarification && r.answer == BuildAnswerText(Some(rows))
    ensures r.rows.Some? ==> step.Ok? && step.value.Execute? && run(step.value.query) == Returned(r.rows.value)
  {
    match step
    case Err(message) => AttachDebugIfAdmin(empty.(answer := message), user, None, shown)
    case Ok(Clarify(text, p)) =>
      AttachDebugIfAdmin(empty.(needClarification := true, clarifyingQuestion := text, answer := text),
                         user, None, Some(p))
    case Ok(Execute(p, vp, built)) =>
      match run(built)
      case Threw(fault) => Failed(empty, fault, user, Some(built.sql), Some(p))
      case Returned(result) =>
        AttachDebugIfAdmin(empty.(answer := BuildAnswerText(Some(result)), rows := Some(result)),
                           user, Some(built.sql), Some(p))
  }

  /** Answers a question. A blank question is an error, and so is a session
      id that names a missing session or another user's session; every
      failure after that becomes the answer text. `lookup` reads stored
      sessions, `newId` is the id a new session is stored under, `ai` is
      the language model's proposed plan or its exception, and `run`
      executes a statement. */
  function Ask(user: User, rawQuestion: string, sessionId: Option<int>, lookup: int -> Option<Session>, newId: int,
               ai: Call<Option<QueryPlan>>, parsers: Parsers, run: BuiltQuery -> Call<QueryResult>)
    : (r: Result<Response>)
    ensures r.Ok? <==> HasText(rawQuestion) && SessionAccess(sessionId, lookup, user).Ok?
    ensures !HasText(rawQuestion) ==> r == Err("问题不能为空")
    ensures HasText(rawQuestion) && SessionAccess(sessionId, lookup, user).Err? ==>
              r == Err(SessionAccess(sessionId, lookup, user).error)
    ensures r.Ok? ==> r.value.sessionId == if sessionId.Some? then sessionId.value else newId
    ensures r.Ok? && !IsAdmin(user) ==> r.value.debugSql.None? && r.value.debugPlan.None?
    ensures r.Ok? && r.value.needClarification ==> HasText(r.value.answer) && r.value.rows.None?
    ensures r.Ok? && ai.Threw? ==> r.value.rows.None? && !r.value.needClarification
    ensures r.Ok? && ai.Threw? && ai.fault.Unexpected? ==>
              r.value.answer == BUSY && r.value.debugSql.None? && r.value.debugPlan.None?
    ensures r.Ok? && ai.Threw? && ai.fault.Business? ==>
              r.value.answer == ai.fault.message && r.value.debugSql.None? && r.value.debugPlan.None?
    ensures r.Ok? && r.value.rows.Some? ==>
              ai.Returned? && exists s :: PlanQuery(user, JavaTrim(rawQuestion), ai.value, parsers) == Ok(s)
                                          && s.Execute? && run(s.query) == Returned(r.value.rows.value)
  {
    var question :- NormalizeQuestion(rawQuestion);
    var _ :- SessionAccess(sessionId, lookup, user);
    var id := if sessionId.Some? then sessionId.value else newId;
    var empty := Response(id, false, "", "", None, None, None);
    match ai
    case Threw(fault) => Ok(Failed(empty, fault, user, None, None))
    case Returned(aiPlan) =>
      var step := PlanQuery(user, question, aiPlan, parsers);
      Ok(RespondToStep(empty, user, GuardedPlan(user, question, aiPlan), step, run))
  }

  /** An executed plan's rows are the answer's rows. */
  lemma AskRuns(user: User, rawQuestion: string, sessionId: Option<int>, lookup: int -> Option<Session>, newId: int,
                aiPlan: Option<QueryPlan>, parsers: Parsers, run: BuiltQuery -> Call<QueryResult>,
                p: QueryPlan, vp: ValidatedPlan, built: BuiltQuery, result: QueryResult)
    requires HasText(rawQuestion) && SessionAccess(sessionId, lookup, user).Ok?
    requires PlanQuery(user, JavaTrim(rawQuestion), aiPlan, parsers) == Ok(Execute(p, vp, built))
    requires run(built) == Returned(result)
    ensures var r := Ask(user, rawQuestion, sessionId, lookup, newId, Returned(aiPlan), parsers, run);
            r.Ok? && r.value.rows == Some(result) && !r.value.needClarification
            && r.value.answer == BuildAnswerText(Some(result))
  {
  }

  /** A planning failure after the session check is the answer, not an error. */
  lemma AskReportsFailure(user: User, rawQuestion: string, sessionId: Option<int>, lookup: int -> Option<Session>,
                          newId: int, aiPlan: Option<QueryPlan>, parsers: Parsers, run: BuiltQuery -> Call<QueryResult>)
    requires HasText(rawQuestion) && SessionAccess(sessionId, lookup, user).Ok?
    requires PlanQuery(user, JavaTrim(rawQuestion), aiPlan, parsers).Err?
    ensures var r := Ask(user, rawQuestion, sessionId, lookup, newId, Returned(aiPlan), parsers, run);
            r.Ok? && r.value.answer == PlanQuery(user, JavaTrim(rawQuestion), aiPlan, parsers).error
            && r.value.rows.None? && !r.value.needClarification
  {
  }

  /** A statement that fails to run gives no rows: a business message is
      the answer, with the statement and plan shown to administrators;
      any other exception is the busy answer with no debug output. */
  lemma AskQueryFails(user: User, rawQuestion: string, sessionId: Option<int>, lookup: int -> Option<Session>,
                      newId: int, aiPlan: Option<QueryPlan>, parsers: Parsers, run: BuiltQuery -> Call<QueryResult>,
                      p: QueryPlan, vp: ValidatedPlan, built: BuiltQuery, fault: Fault)
    requires HasText(rawQuestion) && SessionAccess(sessionId, lookup, user).Ok?
    requires PlanQuery(user, JavaTrim(rawQuestion), aiPlan, parsers) == Ok(Execute(p, vp, built))
    requires run(built) == Threw(fault)
    ensures var r := Ask(user, rawQuestion, sessionId, lookup, newId, Returned(aiPlan), parsers, run);
            r.Ok? && r.value.rows.None? && !r.value.needClarification
            && (fault.Unexpected? ==> r.value.answer == BUSY && r.value.debugSql.None? && r.value.debugPlan.None?)
            && (fault.Business? ==> r.value.answer == fault.message
                                    && (IsAdmin(user) ==> r.value.debugSql == Some(built.sql) && r.value.debugPlan == Some(p)))
  {
  }

  // ---------------------------------------------------------------------------
  // The forced scope reaches the statement
  // ---------------------------------------------------------------------------

  /** The appended scope filter passes validation unchanged. */
  lemma ScopeFilterChecks(userId: int)
    ensures CheckFilter(ScopeFilter(userId)) == Ok(ScopeFilter(userId))
  {
    ScopeFilterNames(userId);
    ScopeFilterValue(userId);
  }

  /** The scope filter names a known field and operator, both with text. */
  lemma ScopeFilterNames(userId: int)
    ensures var f := ScopeFilter(userId);
            HasText(f.field) && HasText(f.op) && FieldOf(f.field) == Some(AssigneeId) && FilterOpOf(f.op) == Some(Eq)
  {
    Unpadded(ASSIGNEE_ID);
    Unpadded("EQ");
    assert Upper("EQ") == "EQ";
  }

  /** The scope filter's operand is already in normal form. */
  lemma ScopeFilterValue(userId: int)
    ensures NormalizeFilterValue(ScopeFilter(userId), Eq) == Ok(ScopeFilter(userId))
  {
    RenderedUnpadded(userId);
  }

  /** The scope filter binds the user's id as a long. */
  lemma ScopeFilterBinds(userId: int, parsers: Parsers)
    requires LONG_MIN <= userId <= LONG_MAX
    ensures FilterCondition(ScopeFilter(userId), parsers).Ok?
    ensures FilterCondition(ScopeFilter(userId), parsers).value.Some?
    ensures FilterCondition(ScopeFilter(userId), parsers).value.value.1 == [LongParam(userId)]
  {
    var f := ScopeFilter(userId);
    Unpadded(ASSIGNEE_ID);
    Unpadded("EQ");
    assert Upper("EQ") == "EQ";
    assert !Skipped(f);
    assert ParseField(JavaTrim(f.field)) == Some(AssigneeId);
    CastIdRoundTrip(AssigneeId, userId, parsers);
  }

  /** The parameters of a filter list extended by one filter end with that
      filter's parameters. */
  lemma {:induction false} ConditionsSnoc(fs: seq<Filter>, f: Filter, parsers: Parsers)
    requires FilterConditions(fs + [f], parsers).Ok?
    ensures FilterConditions(fs, parsers).Ok? && FilterCondition(f, parsers).Ok?
    ensures FilterConditions(fs + [f], parsers).value.1
            == FilterConditions(fs, parsers).value.1 + HeadParams(FilterCondition(f, parsers).value)
    decreases |fs|
  {
    var all := fs + [f];
    if fs == [] {
      assert all == [f] && all[1..] == [];
      assert FilterConditions(all, parsers) == Combine(FilterCondition(f, parsers), Ok(([], [])));
    } else {
      assert all[0] == fs[0];
      assert all[1..] == fs[1..] + [f];
      var hd := FilterCondition(fs[0], parsers);
      var shorter := FilterConditions(fs[1..], parsers);
      var longer := FilterConditions(fs[1..] + [f], parsers);
      assert FilterConditions(all, parsers) == Combine(hd, longer);
      assert FilterConditions(fs, parsers) == Combine(hd, shorter);
      ConditionsSnoc(fs[1..], f, parsers);
      var tail := HeadParams(FilterCondition(f, parsers).value);
      assert longer.value.1 == shorter.value.1 + tail;
      assert FilterConditions(all, parsers).value.1 == HeadParams(hd.value) + longer.value.1;
      assert FilterConditions(fs, parsers).value.1 == HeadParams(hd.value) + shorter.value.1;
      assert hd.Ok?;
      ConcatAssoc(HeadParams(hd.value), shorter.value.1, tail);
    }
  }

  lemma ConcatAssoc<T>(a: seq<T>, b: seq<T>, c: seq<T>)
    ensures a + (b + c) == (a + b) + c
  {
  }

  /** For a user who is not an administrator, every statement the pipeline
      runs is scoped to that user: the validated plan names ASSIGNEE_ID only
      in its last filter, that filter is `ASSIGNEE_ID EQ <user id>`, and the
      last bound parameter is the user's id. */
  lemma NonAdminQueriesAreScoped(user: User, question: string, aiPlan: Option<QueryPlan>, parsers: Parsers,
                                 p: QueryPlan, vp: ValidatedPlan, q: BuiltQuery)
    requires !IsAdmin(user)
    requires PlanQuery(user, question, aiPlan, parsers) == Ok(Execute(p, vp, q))
    requires user.id.Some? ==> LONG_MIN <= user.id.value <= LONG_MAX
    ensures user.id.Some? && ScopedTo(vp.plan.filters, user.id.value)
    ensures |q.params| >= 1 && q.params[|q.params| - 1] == LongParam(user.id.value)
  {
    GuardScopes(user, question, aiPlan, p);
    ValidationKeepsScope(p, vp, user.id.value);
    BuiltParams(vp, parsers, q);
    ConditionsEndWithScope(vp.plan.filters, parsers, user.id.value);
  }

  /** The parameters of a compiled statement are those of its filters. */
  lemma BuiltParams(vp: ValidatedPlan, parsers: Parsers, q: BuiltQuery)
    requires Build(vp, parsers) == Ok(q)
    ensures FilterConditions(vp.plan.filters, parsers).Ok?
    ensures q.params == FilterConditions(vp.plan.filters, parsers).value.1
  {
  }

  /** A plan the guard lets through for a non-administrator is scoped. */
  lemma GuardScopes(user: User, question: string, aiPlan: Option<QueryPlan>, p: QueryPlan)
    requires !IsAdmin(user) && Guard(user, question, aiPlan) == Ok(GuardResult(true, p))
    ensures user.id.Some? && ScopedTo(p.filters, user.id.value)
  {
    assert p.filters == EnforceScope(aiPlan.value.filters, user.id.value);
  }

  /** The filters end with the user's scope and name ASSIGNEE_ID nowhere else. */
  predicate ScopedTo(fs: seq<Filter>, userId: int) {
    |fs| >= 1 && fs[|fs| - 1] == ScopeFilter(userId)
    && forall i :: 0 <= i < |fs| - 1 ==> !IsAssigneeFilter(fs[i])
  }

  lemma ValidationKeepsScope(p: QueryPlan, vp: ValidatedPlan, userId: int)
    requires ScopedTo(p.filters, userId)
    requires Validate(Some(p)) == Ok(vp) && !Clarifying(p)
    ensures ScopedTo(vp.plan.filters, userId)
  {
    assert ValidatedFrom(p, vp);
    var n := |p.filters|;
    assert CheckFilter(p.filters[n - 1]) == Ok(vp.plan.filters[n - 1]);
    CheckingKeepsScope(p.filters, vp.plan.filters, userId);
  }

  /** Checking filters one by one keeps a scoped list scoped: the fields stay
      where they were, and the scope filter checks to itself. */
  lemma CheckingKeepsScope(fs: seq<Filter>, qs: seq<Filter>, userId: int)
    requires ScopedTo(fs, userId) && SameFilterFields(fs, qs)
    requires CheckFilter(fs[|fs| - 1]) == Ok(qs[|fs| - 1])
    ensures ScopedTo(qs, userId)
  {
    ScopeCheckedIsScope(fs[|fs| - 1], qs[|fs| - 1], userId);
    ScopeKept(fs, qs, userId);
  }

  /** Filters with the same fields whose last one is the scope stay scoped. */
  lemma ScopeKept(fs: seq<Filter>, qs: seq<Filter>, userId: int)
    requires ScopedTo(fs, userId) && SameFilterFields(fs, qs) && qs[|fs| - 1] == ScopeFilter(userId)
    ensures ScopedTo(qs, userId)
  {
    forall i | 0 <= i < |fs| - 1 ensures !IsAssigneeFilter(qs[i]) {
      assert qs[i].field == fs[i].field;
    }
  }

  lemma ScopeCheckedIsScope(f: Filter, q: Filter, userId: int)
    requires f == ScopeFilter(userId) && CheckFilter(f) == Ok(q)
    ensures q == ScopeFilter(userId)
  {
    ScopeFilterChecks(userId);
  }


  /** The parameters of a scoped filter list end with the user's id. */
  lemma ConditionsEndWithScope(fs: seq<Filter>, parsers: Parsers, userId: int)
    requires ScopedTo(fs, userId) && LONG_MIN <= userId <= LONG_MAX
    requires FilterConditions(fs, parsers).Ok?
    ensures var ps := FilterConditions(fs, parsers).value.1; |ps| >= 1 && ps[|ps| - 1] == LongParam(userId)
  {
    var pre := fs[..|fs| - 1];
    assert fs == pre + [ScopeFilter(userId)];
    ConditionsSnoc(pre, ScopeFilter(userId), parsers);
    ScopeFilterParams(userId, parsers);
  }

  /** The parameters the scope filter contributes: the user's id alone. */
  lemma ScopeFilterParams(userId: int, parsers: Parsers)
    requires LONG_MIN <= userId <= LONG_MAX
    ensures FilterCondition(ScopeFilter(userId), parsers).Ok?
    ensures HeadParams(FilterCondition(ScopeFilter(userId), parsers).value) == [LongParam(userId)]
  {
    ScopeFilterBinds(userId, parsers);
  }
}
