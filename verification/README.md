# excalicode-ai core, modelled in Dafny

This project models the deterministic core of the excalicode-ai platform. The platform is a Spring Boot back end with a Vue client. It helps teams write requirements, run COSMIC functional-size analysis, manage tasks and query task data in natural language (ChatBI). Everything here is written as immutable datatypes and pure functions, plus a few loop methods. Spreadsheet rows are sequences of strings, and calls into the database, the AI model, the vector store, Redis and the browser are parameters of the functions that use them.

Modules, following the program's structure:

- `Results`, `Text`, `Decimals`, `Workbooks`, `JsValues`, `JsNumbers`: shared vocabulary.
  - Result and Option types.
  - Java `trim`/`hasText`, splitting and joining.
  - `BigDecimal` with HALF_UP rounding, `stripTrailingZeros` and `toPlainString`.
  - The outcome of opening an uploaded workbook.
  - JavaScript truthiness and `||`.
  - JavaScript `Number()` of a string.
- `ChatBiSchema`, `ChatBiPlan`, `ChatBiSql`, `ChatBiGuard`, `ChatBiService`: the ChatBI pipeline.
  - The field, aggregate and operator whitelists.
  - Plan validation and normalisation.
  - The assignee scope forced on non-administrators.
  - Compilation into parameterised SQL, and the answer text.
- `CosmicProcesses`, `CosmicImport`, `CosmicExcel`, `CosmicRoundTrip`, `CosmicTasks`: COSMIC analysis.
  - Sanitising processes and steps.
  - Importing a sheet, grouping rows into processes and skipping merged cells.
  - Laying out the export sheet with its merge regions, and reading an export back.
  - The status machine of asynchronous analysis tasks.
- `TaskManagement`: task publishing, assignment, status changes, workload parsing and the summaries.
- `Knowledge`, `KnowledgeEntries`, `KnowledgeImport`: the requirement knowledge base.
  - Chunking and chunk ids.
  - Folder import with path, folder-name and extension rules.
  - Tag handling, reranking and the prompt context.
  - The stored drafts and the spreadsheet import.
- `Vacations`: the attendance spreadsheet.
  - Column checks.
  - Remark parsing into vacation details.
  - Date and day formatting.
- `Prd`: the line classification of the Word requirement document.
- `AiProviders`: API-key masking.
- `HttpClient`, `CosmicStream`, `CosmicClient`, `FormChecks`: the browser client.
  - The axios response and error interceptors.
  - The server-sent-event accumulator of requirement enhancement.
  - The error-message normaliser and download names.
  - The form validators.

Each operation is paired with something independent of its body: an inverse (export then import, encode then split), a reference definition (grouping by first occurrence, the line-by-line document layout), an invariant it keeps (scoped plans stay scoped, counts add up), or idempotence.

## Model

| member | source | states |
|---|---|---|
| ChatBiSchema.ParseField | core/src/main/java/com/excalicode/platform/core/service/chatbi/TaskBiSchema.java:13-25 | a name is accepted exactly when it is one of the eleven whitelisted TASK field codes, and the accepted field renders back to that very name |
| ChatBiSchema.Expression | core/src/main/java/com/excalicode/platform/core/service/chatbi/TaskBiSchema.java:27-41 | a field's select expression reads the batch or user table exactly when the field is one of the two join-required fields |
| ChatBiSchema.ExpressionUnmarked | core/src/main/java/com/excalicode/platform/core/service/chatbi/TaskBiSchema.java:29-41 | no select expression contains a `?`, so expressions never add a placeholder that needs a parameter |
| ChatBiSchema.ParseAgg | core/src/main/java/com/excalicode/platform/core/service/chatbi/TaskBiSchema.java:43-44 | an aggregation is accepted exactly when it is one of COUNT, COUNT_DISTINCT, SUM, AVG, MIN, MAX |
| ChatBiSchema.ParseFilterOp | core/src/main/java/com/excalicode/platform/core/service/chatbi/TaskBiSchema.java:46-47 | an operator is accepted exactly when it is one of the eight allowed filter operators |
| ChatBiSchema.RequiresJoin | core/src/main/java/com/excalicode/platform/core/service/chatbi/TaskBiSchema.java:54-61 | the early-exit loop answers true exactly when some used field needs a join |
| ChatBiPlan.NormalizeLimit | core/src/main/java/com/excalicode/platform/core/service/chatbi/ChatBiPlanValidator.java:186-195 | the row limit always lies in 1..200; a limit in range is kept, a larger one becomes 200, a missing or non-positive one becomes 50 |
| ChatBiPlan.RequireText | core/src/main/java/com/excalicode/platform/core/service/chatbi/ChatBiPlanValidator.java:197-201 | a value passes exactly when it has non-white-space text |
| ChatBiPlan.ValidateField | core/src/main/java/com/excalicode/platform/core/service/chatbi/ChatBiPlanValidator.java:124-129 | a field passes exactly when its trimmed name is whitelisted, and the field found is the trimmed name |
| ChatBiPlan.CheckDimension | core/src/main/java/com/excalicode/platform/core/service/chatbi/ChatBiPlanValidator.java:53-60 | a dimension passes exactly when its field is non-blank and whitelisted; it keeps its field and always leaves with a non-blank alias |
| ChatBiPlan.CheckMeasure | core/src/main/java/com/excalicode/platform/core/service/chatbi/ChatBiPlanValidator.java:62-72 | a measure passes exactly when aggregation and field are present, allowed and compatible (only COUNT and COUNT_DISTINCT apply to non-numeric fields); it keeps both and gets a non-blank alias |
| Text.TrimmedTexts | core/src/main/java/com/excalicode/platform/core/service/chatbi/ChatBiPlanValidator.java:139-140 | IN values keep only those with text, each trimmed; the result is empty exactly when no value has text |
| Text.TrimmedTextsOne | core/src/main/java/com/excalicode/platform/core/service/chatbi/ChatBiPlanValidator.java:139-140 | one value gives its trimmed text when it has text and nothing otherwise |
| Text.TrimmedTextsAppend | core/src/main/java/com/excalicode/platform/core/service/chatbi/ChatBiPlanValidator.java:139-140 | the filter works value by value: the values of a concatenation are the values of each part, in order |
| Text.TrimmedTextsMember | core/src/main/java/com/excalicode/platform/core/service/chatbi/ChatBiPlanValidator.java:139-140 | a string is kept exactly when it is the trimmed form of some input value with text |
| ChatBiPlan.NormalizeFilterValue | core/src/main/java/com/excalicode/platform/core/service/chatbi/ChatBiPlanValidator.java:131-161 | a filter passes exactly when the operands its operator needs are present (values for IN, from and to for BETWEEN, value otherwise); the operator is stored upper-case and the operands trimmed |
| ChatBiPlan.NormalizeStable | core/src/main/java/com/excalicode/platform/core/service/chatbi/ChatBiPlanValidator.java:131-161 | normalising a normalised filter again changes nothing, when trimming leaves each operand with text |
| ChatBiPlan.CheckFilter | core/src/main/java/com/excalicode/platform/core/service/chatbi/ChatBiPlanValidator.java:74-81 | a filter passes exactly when field and operator are present and allowed and its operands are present; the result is normalised and keeps the field |
| ChatBiPlan.CheckFilterStable | core/src/main/java/com/excalicode/platform/core/service/chatbi/ChatBiPlanValidator.java:74-81 | a checked filter passes the check again unchanged, when trimming leaves each operand with text |
| ChatBiPlan.TrimmedAwayRefused | core/src/main/java/com/excalicode/platform/core/service/chatbi/ChatBiPlanValidator.java:131-161 | an IN filter whose values all lose their text to trimming passes once, and its checked form is refused |
| ChatBiPlan.ControlTrimmedAway | core/src/main/java/com/excalicode/platform/core/service/chatbi/ChatBiPlanValidator.java:139-140 | such values exist: a lone U+0001 has text for the text test and trims to the empty string |
| ChatBiPlan.CheckOrder | core/src/main/java/com/excalicode/platform/core/service/chatbi/ChatBiPlanValidator.java:83-92 | a sort key passes exactly when its field is allowed and its trimmed, upper-cased direction is ASC or DESC, which is the direction stored |
| ChatBiPlan.CheckOrderStable | core/src/main/java/com/excalicode/platform/core/service/chatbi/ChatBiPlanValidator.java:83-92 | a checked sort key passes the check again unchanged |
| ChatBiPlan.Validate | core/src/main/java/com/excalicode/platform/core/service/chatbi/ChatBiPlanValidator.java:27-95 | a plan is accepted exactly when it is present and acceptable; a clarifying plan comes back unchanged with no fields and the default limit; any other accepted plan holds, at each place, the check of the proposed dimension, measure, filter and sort key, with the clamped limit, and uses exactly the fields it names |
| ChatBiPlan.ValidateQuery | core/src/main/java/com/excalicode/platform/core/service/chatbi/ChatBiPlanValidator.java:48-94 | the element checks succeed exactly when every dimension, measure, filter and sort key passes, and then each element of the result is the check of the element at its place, with the clamped limit and used fields |
| ChatBiPlan.ElementsOkIff | core/src/main/java/com/excalicode/platform/core/service/chatbi/ChatBiPlanValidator.java:53-92 | the element rules hold exactly when each of the four element loops runs without an exception |
| ChatBiPlan.CheckedElements | core/src/main/java/com/excalicode/platform/core/service/chatbi/ChatBiPlanValidator.java:53-94 | a plan rebuilt from the checked elements is normalised, names the same fields, and holds the check of each filter |
| ChatBiPlan.CheckedDimensions | core/src/main/java/com/excalicode/platform/core/service/chatbi/ChatBiPlanValidator.java:53-60 | checked dimensions are normalised and keep their fields in order |
| ChatBiPlan.CheckedMeasures | core/src/main/java/com/excalicode/platform/core/service/chatbi/ChatBiPlanValidator.java:62-72 | checked measures are normalised and keep their fields in order |
| ChatBiPlan.CheckedFilters | core/src/main/java/com/excalicode/platform/core/service/chatbi/ChatBiPlanValidator.java:74-81 | checked filters are normalised, keep their fields, and each is the check of the filter at its place |
| ChatBiPlan.CheckedOrders | core/src/main/java/com/excalicode/platform/core/service/chatbi/ChatBiPlanValidator.java:83-92 | checked sort keys are normalised and keep their fields in order |
| ChatBiPlan.SameFieldsSameSet | core/src/main/java/com/excalicode/platform/core/service/chatbi/ChatBiPlanValidator.java:51-94 | two plans naming the same fields element by element use the same set of fields |
| ChatBiSql.SanitizeAlias | core/src/main/java/com/excalicode/platform/core/service/chatbi/TaskBiSqlBuilder.java:233 | the alias keeps its length, every character becomes a letter, digit, `_` or CJK ideograph, and characters already in that set are kept |
| ChatBiSql.SanitizeAliasFixed | core/src/main/java/com/excalicode/platform/core/service/chatbi/TaskBiSqlBuilder.java:233 | sanitising an alias made only of allowed characters leaves it unchanged |
| ChatBiSql.NormalizeAlias | core/src/main/java/com/excalicode/platform/core/service/chatbi/TaskBiSqlBuilder.java:230-234 | the display name has the length of the trimmed alias when the alias has text, else of the fallback, and holds only allowed characters |
| ChatBiSql.Expr | core/src/main/java/com/excalicode/platform/core/service/chatbi/TaskBiSqlBuilder.java:221-228 | a field yields an expression exactly when it is whitelisted, and the expression is the schema's select expression, free of placeholders |
| ChatBiSql.AggExpression | core/src/main/java/com/excalicode/platform/core/service/chatbi/TaskBiSqlBuilder.java:208-219 | an aggregate expression exists exactly when both aggregation and field are known, and it contains no placeholder |
| ChatBiSql.CastParam | core/src/main/java/com/excalicode/platform/core/service/chatbi/TaskBiSqlBuilder.java:167-206 | a blank raw value binds SQL NULL; for text, an id field is accepted exactly when the trimmed text is a 64-bit integer and an age exactly when it is a 32-bit one; a workload binds the trimmed text when it is a number and otherwise gives the number error; a time binds the trimmed text when it is a date-time, NULL when it trims to nothing, and otherwise the time error; any other field binds its trimmed text |
| ChatBiSql.CastIdRoundTrip | core/src/main/java/com/excalicode/platform/core/service/chatbi/TaskBiSqlBuilder.java:194-203 | the decimal text of any 64-bit id casts back to that id |
| ChatBiSql.TextCount | core/src/main/java/com/excalicode/platform/core/service/chatbi/TaskBiSqlBuilder.java:146-152 | counts the IN values with text; zero exactly when no value has text |
| ChatBiSql.CastValues | core/src/main/java/com/excalicode/platform/core/service/chatbi/TaskBiSqlBuilder.java:146-152 | values without text are skipped; the first value with text that fails to cast is reported with its own error; otherwise one parameter per value with text, in order, each that value's cast |
| ChatBiSql.Placeholders | core/src/main/java/com/excalicode/platform/core/service/chatbi/TaskBiSqlBuilder.java:145-156 | the placeholder list holds exactly n question marks |
| ChatBiSql.InCondition | core/src/main/java/com/excalicode/platform/core/service/chatbi/TaskBiSqlBuilder.java:140-157 | an IN condition has as many placeholders as parameters, one per value with text, and at least one |
| ChatBiSql.BetweenCondition | core/src/main/java/com/excalicode/platform/core/service/chatbi/TaskBiSqlBuilder.java:158-162 | a BETWEEN condition has exactly two placeholders and two parameters |
| ChatBiSql.ComparisonCondition | core/src/main/java/com/excalicode/platform/core/service/chatbi/TaskBiSqlBuilder.java:116-139 | a comparison condition has exactly one placeholder and one parameter |
| ChatBiSql.FilterCondition | core/src/main/java/com/excalicode/platform/core/service/chatbi/TaskBiSqlBuilder.java:103-165 | a filter with a blank field or operator is skipped and no other is; a rendered filter has as many placeholders as parameters, matching the operator's arity |
| ChatBiSql.OperatorCondition | core/src/main/java/com/excalicode/platform/core/service/chatbi/TaskBiSqlBuilder.java:115-164 | for every supported operator the condition's placeholders match its parameters |
| ChatBiSql.FilterConditions | core/src/main/java/com/excalicode/platform/core/service/chatbi/TaskBiSqlBuilder.java:68-70 | over all filters, the placeholders in the WHERE parts equal the parameters bound, which is the sum of the filters' arities |
| ChatBiSql.Combine | core/src/main/java/com/excalicode/platform/core/service/chatbi/TaskBiSqlBuilder.java:68-70 | appending one filter's output keeps the parameter list in filter order and adds its placeholders |
| ChatBiSql.CountJoin | core/src/main/java/com/excalicode/platform/core/service/chatbi/TaskBiSqlBuilder.java:73 | joining parts with a separator free of `?` adds no placeholder |
| ChatBiSql.AliasSelects | core/src/main/java/com/excalicode/platform/core/service/chatbi/TaskBiSqlBuilder.java:33-56 | the i-th select part is the i-th expression followed by " AS c" and i, and no part adds a placeholder |
| ChatBiSql.SelectClause | core/src/main/java/com/excalicode/platform/core/service/chatbi/TaskBiSqlBuilder.java:72-73 | the SELECT clause adds no placeholder of its own |
| ChatBiSql.JoinClause | core/src/main/java/com/excalicode/platform/core/service/chatbi/TaskBiSqlBuilder.java:75-78 | the joins are the user join followed by the batch join when a join is needed, and nothing otherwise |
| ChatBiSql.WhereClause | core/src/main/java/com/excalicode/platform/core/service/chatbi/TaskBiSqlBuilder.java:80-82 | the WHERE clause adds no placeholder of its own; it is always emitted because the soft-delete test of line 66 is always its first part |
| ChatBiSql.LimitClause | core/src/main/java/com/excalicode/platform/core/service/chatbi/TaskBiSqlBuilder.java:98 | the statement tail is "LIMIT " followed by the limit, with no placeholder |
| ChatBiSql.AssembleSql | core/src/main/java/com/excalicode/platform/core/service/chatbi/TaskBiSqlBuilder.java:72-98 | the statement starts with SELECT, ends with the LIMIT clause, contains both LEFT JOINs when a join is needed, and its placeholders are exactly those of its parts |
| ChatBiSql.AssembledText | core/src/main/java/com/excalicode/platform/core/service/chatbi/TaskBiSqlBuilder.java:72-98 | the statement is SELECT, the joins when needed, WHERE, GROUP BY and ORDER BY when non-empty, and LIMIT, in that order with those separators |
| ChatBiSql.DimensionColumn | core/src/main/java/com/excalicode/platform/core/service/chatbi/TaskBiSqlBuilder.java:33-44 | a dimension yields a column exactly when its field is known; the expression has no placeholder and the display name is the sanitised alias or field |
| ChatBiSql.MeasureColumn | core/src/main/java/com/excalicode/platform/core/service/chatbi/TaskBiSqlBuilder.java:46-57 | a measure yields a column exactly when aggregation and field are known; the display name is the sanitised alias or AGG_FIELD |
| ChatBiSql.OrderItem | core/src/main/java/com/excalicode/platform/core/service/chatbi/TaskBiSqlBuilder.java:89-93 | a sort key renders exactly when its field is known and adds no placeholder |
| ChatBiSql.SelectColumns | core/src/main/java/com/excalicode/platform/core/service/chatbi/TaskBiSqlBuilder.java:33-61 | a plan with no dimension and no measure is refused; otherwise one column per dimension and measure, each with a well-formed display name |
| ChatBiSql.SelectColumnsOrder | core/src/main/java/com/excalicode/platform/core/service/chatbi/TaskBiSqlBuilder.java:33-57 | the columns are the dimensions' in order followed by the measures', and the GROUP BY columns are exactly the dimension columns |
| ChatBiSql.SortKeys | core/src/main/java/com/excalicode/platform/core/service/chatbi/TaskBiSqlBuilder.java:88-93 | one ORDER BY part per sort key, none with a placeholder |
| ChatBiSql.Build | core/src/main/java/com/excalicode/platform/core/service/chatbi/TaskBiSqlBuilder.java:21-101 | a plan with nothing to select is refused; a built query has one display column per dimension and measure, starts with SELECT, ends with LIMIT n, joins the user and batch tables when a used field needs them, and binds exactly the parameters of its filters in filter order, one per placeholder |
| ChatBiSql.BuiltText | core/src/main/java/com/excalicode/platform/core/service/chatbi/TaskBiSqlBuilder.java:21-101 | the built SQL is the aliased select expressions, the joins when a used field needs them, the soft-delete test followed by the filter conditions, GROUP BY over the dimensions, ORDER BY over the sort keys, then LIMIT |
| ChatBiSql.Statement | core/src/main/java/com/excalicode/platform/core/service/chatbi/TaskBiSqlBuilder.java:72-98 | with placeholder-free select and sort parts, the placeholders of the statement are exactly those of the WHERE parts |
| ChatBiSql.ValidatedStatement | core/src/main/java/com/excalicode/platform/core/service/chatbi/TaskBiSqlBuilder.java:21-101 | for every plan the validator accepts, the built SQL has exactly as many `?` as bound parameters, and it joins both tables whenever the plan names a join-required field |
| ChatBiGuard.ScopeDecidedByFirstCandidate | core/src/main/java/com/excalicode/platform/core/service/chatbi/ChatBiPermissionGuard.java:86-106 | the scope check is decided by the first ASSIGNEE_ID/EQ filter alone: it holds exactly when that filter's trimmed value is the user's id in decimal |
| ChatBiGuard.Retained | core/src/main/java/com/excalicode/platform/core/service/chatbi/ChatBiPermissionGuard.java:114-123 | the retained filters are the original non-assignee filters: none filters on ASSIGNEE_ID, each comes from the input, and every input filter on another field is kept |
| ChatBiGuard.RetainedConcat | core/src/main/java/com/excalicode/platform/core/service/chatbi/ChatBiPermissionGuard.java:114-123 | the filter works filter by filter: the retained filters of a concatenation are those of each part, in their original order |
| ChatBiGuard.RetainedOne | core/src/main/java/com/excalicode/platform/core/service/chatbi/ChatBiPermissionGuard.java:114-123 | a single filter is dropped exactly when it is an assignee filter |
| ChatBiGuard.RetainedKeepsClean | core/src/main/java/com/excalicode/platform/core/service/chatbi/ChatBiPermissionGuard.java:114-123 | a filter list with no assignee filter is retained unchanged |
| ChatBiGuard.EnforceScope | core/src/main/java/com/excalicode/platform/core/service/chatbi/ChatBiPermissionGuard.java:108-132 | the scoped list is the retained filters followed by exactly one ASSIGNEE_ID = user filter, and no other entry filters on the assignee |
| ChatBiGuard.ScopeStable | core/src/main/java/com/excalicode/platform/core/service/chatbi/ChatBiPermissionGuard.java:86-132 | a scoped list passes the scope check, and scoping it again changes nothing |
| ChatBiGuard.Guard | core/src/main/java/com/excalicode/platform/core/service/chatbi/ChatBiPermissionGuard.java:17-47 | a missing plan is refused; an administrator's plan passes unchanged; a user without id is refused; a user's plan is executed exactly when it carries the user's own scope or does not look cross-person, and then it is scoped to the user; otherwise it becomes a clarifying plan of the same dataset with no measures or filters |
| ChatBiGuard.GuardIdempotent | core/src/main/java/com/excalicode/platform/core/service/chatbi/ChatBiPermissionGuard.java:17-47 | guarding an executable guarded plan again for the same user and question returns the same result |
| ChatBiService.NormalizeQuestion | core/src/main/java/com/excalicode/platform/core/service/ChatBiService.java:389-394 | a question is accepted exactly when it has text, and the accepted question is trimmed |
| ChatBiService.BuildSessionTitle | core/src/main/java/com/excalicode/platform/core/service/ChatBiService.java:396-405 | the title is "ChatBI" for a blank question, the trimmed question when it has at most 40 characters, and otherwise its first 40 characters followed by "…", so never longer than 41 |
| ChatBiService.CellTexts | core/src/main/java/com/excalicode/platform/core/service/ChatBiService.java:284-292 | one "column=value" text per cell of the row, labelled with the display column at that position |
| ChatBiService.BuildAnswerText | core/src/main/java/com/excalicode/platform/core/service/ChatBiService.java:272-297 | no rows, or one empty row, give "没有符合条件的数据"; one row gives "结果：" followed by its column=value pairs in column order joined by "，"; more rows give "已返回 N 行结果" |
| ChatBiService.OneRowListsCells | core/src/main/java/com/excalicode/platform/core/service/ChatBiService.java:284-293 | the one-row answer starts with its prefix, contains every cell text, and ends with "，" and the last cell after the earlier cells |
| ChatBiService.OneRowAnswer | core/src/main/java/com/excalicode/platform/core/service/ChatBiService.java:284-293 | the string builder loop produces exactly the one-row answer text |
| ChatBiService.AssertSessionReadable | core/src/main/java/com/excalicode/platform/core/service/ChatBiService.java:327-343 | a session is readable exactly when it exists, the user exists, and the user is an administrator or owns it; a missing session gives "会话不存在" |
| ChatBiService.AttachDebugIfAdmin | core/src/main/java/com/excalicode/platform/core/service/ChatBiService.java:364-376 | a non-administrator's response carries no SQL and no plan, an administrator's carries exactly the ones given, and nothing else in the response changes |
| ChatBiService.PlanQuery | core/src/main/java/com/excalicode/platform/core/service/ChatBiService.java:95-121 | a query is executed only when the guard allowed the plan, the plan is not a clarification, the validator accepted it and the builder built that query; a clarification always has text; a guard error is an error |
| ChatBiService.PlanQueryExecutes | core/src/main/java/com/excalicode/platform/core/service/ChatBiService.java:95-121 | conversely, a plan the guard allows, that asks nothing back, validates and compiles, is executed as that query |
| ChatBiService.PlanQueryClarifies | core/src/main/java/com/excalicode/platform/core/service/ChatBiService.java:100-115 | a plan the guard holds back or that asks back becomes its clarifying question, or the default question when it has none |
| ChatBiService.SessionAccess | core/src/main/java/com/excalicode/platform/core/service/ChatBiService.java:299-315 | no session id always passes; an unknown id gives "会话不存在"; a known session passes exactly when the user is an administrator or owns it |
| ChatBiService.Ask | core/src/main/java/com/excalicode/platform/core/service/ChatBiService.java:58-172 | an answer exists exactly when the question has text and the session check passes, else the question or session error; the answer carries the given or the new session id; a non-administrator never sees SQL or plan; a clarification has text and no rows; a failing language-model call gives no rows and no debug output, its business message as the answer or, for any other exception, "系统繁忙，请稍后重试"; rows appear only when a query was executed and returned them |
| ChatBiService.AskRuns | core/src/main/java/com/excalicode/platform/core/service/ChatBiService.java:117-141 | an executed query's rows are the answer's rows, and the answer text describes them |
| ChatBiService.AskReportsFailure | core/src/main/java/com/excalicode/platform/core/service/ChatBiService.java:142-157 | a failure after the session check becomes the answer text, with no rows and no clarification |
| ChatBiService.AskQueryFails | core/src/main/java/com/excalicode/platform/core/service/ChatBiService.java:123-171 | a statement that fails to run gives no rows: a business exception's message is the answer, with the statement and plan shown to administrators; any other exception gives "系统繁忙，请稍后重试" and no debug output |
| ChatBiService.ScopeFilterChecks | core/src/main/java/com/excalicode/platform/core/service/chatbi/ChatBiPlanValidator.java:74-81 | the scope filter the guard appends passes the validator unchanged |
| ChatBiService.ScopeFilterBinds | core/src/main/java/com/excalicode/platform/core/service/chatbi/TaskBiSqlBuilder.java:116-119 | the scope filter renders as one comparison binding the user's id as a 64-bit integer |
| ChatBiService.ConditionsSnoc | core/src/main/java/com/excalicode/platform/core/service/chatbi/TaskBiSqlBuilder.java:68-70 | the parameters of a filter list extended by one filter are those of the list followed by the new filter's |
| ChatBiService.NonAdminQueriesAreScoped | core/src/main/java/com/excalicode/platform/core/service/ChatBiService.java:95-123 | every query executed for a non-administrator keeps the scope filter to the user as its last filter, and its last bound parameter is the user's id |
| ChatBiService.BuiltParams | core/src/main/java/com/excalicode/platform/core/service/chatbi/TaskBiSqlBuilder.java:63-70 | the built query's parameters are exactly those produced by its filters in order |
| ChatBiService.GuardScopes | core/src/main/java/com/excalicode/platform/core/service/chatbi/ChatBiPermissionGuard.java:44-46 | a plan the guard lets a non-administrator execute ends with the scope filter to that user |
| ChatBiService.ValidationKeepsScope | core/src/main/java/com/excalicode/platform/core/service/chatbi/ChatBiPlanValidator.java:74-81 | validating a scoped plan keeps it scoped to the same user |
| ChatBiService.ConditionsEndWithScope | core/src/main/java/com/excalicode/platform/core/service/chatbi/TaskBiSqlBuilder.java:68-70 | a scoped filter list binds the user's id as its last parameter |
| CosmicProcesses.NormalizeMovementType | core/src/main/java/com/excalicode/platform/core/service/CosmicService.java:523-531 | a movement type is accepted exactly when its trimmed upper-case form is E, R, W or X; the result is that letter, equal to the input ignoring case, and a refusal names the process and step |
| CosmicProcesses.MovementTypeIdempotent | core/src/main/java/com/excalicode/platform/core/service/CosmicService.java:523-531 | normalising an accepted movement type again returns it unchanged |
| CosmicProcesses.SanitizeStep | core/src/main/java/com/excalicode/platform/core/service/CosmicService.java:496-521 | a step is accepted exactly when its description has text and its movement type is valid; a blank description gives the step error; an accepted step is clean, with trimmed texts and an upper-case type |
| CosmicProcesses.CleanStepFixed | core/src/main/java/com/excalicode/platform/core/service/CosmicService.java:496-521 | a clean step sanitises to itself |
| CosmicProcesses.SanitizeSteps | core/src/main/java/com/excalicode/platform/core/service/CosmicService.java:478-486 | the steps are accepted exactly when each is; then each result step is that step sanitised at its index, and all are clean |
| CosmicProcesses.CleanStepsFixed | core/src/main/java/com/excalicode/platform/core/service/CosmicService.java:478-486 | a list of clean steps sanitises to itself |
| CosmicProcesses.SanitizeProcess | core/src/main/java/com/excalicode/platform/core/service/CosmicService.java:460-492 | a blank trigger, then a blank name, then an empty step list each give their own error naming the process; an accepted process is trimmed and keeps its number of steps |
| CosmicProcesses.SanitizeProcesses | core/src/main/java/com/excalicode/platform/core/service/CosmicService.java:455-494 | an empty list is refused; a list is accepted exactly when every process is; then each result process is that process sanitised at its index |
| CosmicProcesses.FirstErrorWins | core/src/main/java/com/excalicode/platform/core/service/CosmicService.java:459-493 | a refused non-empty list reports the error of its first refused process, all earlier ones being acceptable |
| CosmicProcesses.CleanProcessesFixed | core/src/main/java/com/excalicode/platform/core/service/CosmicService.java:455-494 | a non-empty list of clean processes sanitises to itself |
| CosmicProcesses.SanitizeIdempotent | core/src/main/java/com/excalicode/platform/core/service/CosmicService.java:455-494 | sanitising a sanitised list returns it unchanged |
| CosmicProcesses.NormalizeMermaidDiagram | core/src/main/java/com/excalicode/platform/core/service/CosmicService.java:601-610 | a diagram is accepted exactly when it has text and its trimmed lower-case form contains "sequencediagram"; the result is the trimmed diagram |
| CosmicProcesses.MermaidIdempotent | core/src/main/java/com/excalicode/platform/core/service/CosmicService.java:601-610 | normalising an accepted diagram again returns it unchanged |
| CosmicImport.ReadSheet | core/src/main/java/com/excalicode/platform/core/service/CosmicService.java:341-361 | reading keeps one entry per sheet row and keeps which rows are absent |
| CosmicImport.NearestTextRow | core/src/main/java/com/excalicode/platform/core/service/CosmicService.java:347-356 | the carried trigger or process of a row comes from the nearest row at or above it with text in that column, none between having text |
| CosmicImport.CarriedIsNearest | core/src/main/java/com/excalicode/platform/core/service/CosmicService.java:338-356 | the carried value is that nearest row's cell, or "" when no data row above has text, and it has text exactly when such a row exists |
| CosmicImport.RowProblem | core/src/main/java/com/excalicode/platform/core/service/CosmicService.java:374-388 | a non-empty row passes exactly when carried trigger, carried process, description, movement type and data group all have text; the first missing one is reported with the one-based row number |
| CosmicImport.ExtractUpToSpec | core/src/main/java/com/excalicode/platform/core/service/CosmicService.java:335-412 | the rows up to n are extracted exactly when no row among them has a problem; the entries are then those of the non-empty rows in order; otherwise the error is the first problem row's |
| CosmicImport.ExtractFailureStays | core/src/main/java/com/excalicode/platform/core/service/CosmicService.java:341-388 | once a row fails, reading further rows returns the same error |
| CosmicImport.ExtractRow | core/src/main/java/com/excalicode/platform/core/service/CosmicService.java:341-412 | one loop step carries the trigger and process forward exactly as the nearest-text rule says and extends the extraction by that row |
| CosmicImport.ExtractUpTo | core/src/main/java/com/excalicode/platform/core/service/CosmicService.java:341-388 | an extraction up to row n has at most n entries, and a failure is the problem of some row before n |
| CosmicImport.ExtractEntries | core/src/main/java/com/excalicode/platform/core/service/CosmicService.java:335-412 | the row loop returns exactly the reference extraction of the whole sheet |
| CosmicImport.Keys | core/src/main/java/com/excalicode/platform/core/service/CosmicService.java:336 | the group keys are distinct and are exactly the (trigger, process) pairs of the entries |
| CosmicImport.FindKey | core/src/main/java/com/excalicode/platform/core/service/CosmicService.java:393-401 | the group found for a key is the first group with that key, or none |
| CosmicImport.Group | core/src/main/java/com/excalicode/platform/core/service/CosmicService.java:336-414 | grouping by the (trigger, process) pair gives no more processes than entries, and none exactly when there are no entries |
| CosmicImport.GroupByTextKey | core/src/main/java/com/excalicode/platform/core/service/CosmicService.java:392 | grouping by the joined text key, as written, gives no more processes than entries, and none exactly when there are no entries |
| CosmicImport.GroupByFirstOccurrence | core/src/main/java/com/excalicode/platform/core/service/CosmicService.java:336-414 | grouping yields one process per distinct (trigger, process) pair in first-occurrence order, holding that pair's steps in row order |
| CosmicImport.TextKeysCollide | core/src/main/java/com/excalicode/platform/core/service/CosmicService.java:392 | with the string key two different pairs, ("a‖b","c") and ("a","b‖c"), land in one process; keyed by the pair they stay apart |
| CosmicImport.ValidateHeader | core/src/main/java/com/excalicode/platform/core/service/CosmicService.java:316-333 | the header passes exactly when the six columns from 3 on read the expected names; otherwise the first mismatch is named |
| CosmicImport.OpenSheet | core/src/main/java/com/excalicode/platform/core/service/CosmicService.java:283-313 | a missing or empty upload gives "请上传Excel文件", a wrong file name "文件格式异常。", an unreadable workbook "Failed to parse Excel file: " with its message; a sheet is returned exactly when none of these happens, the sheet exists and it has a header row |
| CosmicImport.ImportCosmicProcesses | core/src/main/java/com/excalicode/platform/core/service/CosmicService.java:283-314 | the import fails with the first file, header or row error; otherwise an empty grouping is refused and the grouping is sanitised; an accepted import is non-empty and every process in it is clean; rows are grouped by the (trigger, process) pair, not by the joined text key of line 392 |
| CosmicImport.SkipDecidedByFirstRegion | core/src/main/java/com/excalicode/platform/core/service/CosmicService.java:266-275 | a cell is skipped exactly when the first merged region holding it does not start at it |
| CosmicImport.ShouldSkipMergedCell | core/src/main/java/com/excalicode/platform/core/service/CosmicService.java:266-275 | a skipped cell lies inside some merged region other than at its top-left corner |
| CosmicImport.LocateProcessColumn | core/src/main/java/com/excalicode/platform/core/service/CosmicService.java:215-223 | the column found is the first header cell whose trimmed text is "功能过程", or -1 exactly when there is none |
| CosmicImport.DescriptionRows | core/src/main/java/com/excalicode/platform/core/service/CosmicService.java:238-256 | the rows read are data rows that are not covered merged cells and have text in the column, listed in ascending order |
| CosmicImport.DescriptionRowsComplete | core/src/main/java/com/excalicode/platform/core/service/CosmicService.java:238-256 | every row that is not a covered merged cell and has text in the column is among the rows read |
| CosmicImport.ExtractDescriptions | core/src/main/java/com/excalicode/platform/core/service/CosmicService.java:238-256 | one trimmed, non-blank description per row read, in row order: the k-th is the cell of the k-th row read |
| CosmicImport.DescriptionsFromRows | core/src/main/java/com/excalicode/platform/core/service/CosmicService.java:238-256 | every description comes from a row read, and every row read contributes its description |
| CosmicImport.ImportFunctionalProcesses | core/src/main/java/com/excalicode/platform/core/service/CosmicService.java:180-213 | upload errors come first; no process column gives "Unable to locate functional process column" and no rows read give "Excel file does not contain valid functional processes"; otherwise the result is the descriptions of the located column from row 1 on |
| CosmicExcel.StepRow | core/src/main/java/com/excalicode/platform/core/service/CosmicExcelService.java:101-111 | each data row has one cell per report column |
| CosmicExcel.Slots | core/src/main/java/com/excalicode/platform/core/service/CosmicExcelService.java:91-121 | the rows of the report enumerate every step of every process, one slot per step, each naming a real step |
| CosmicExcel.SlotOfStep | core/src/main/java/com/excalicode/platform/core/service/CosmicExcelService.java:87-121 | step j of process i lands on data row (steps of the earlier processes) + j |
| CosmicExcel.SlotsContinue | core/src/main/java/com/excalicode/platform/core/service/CosmicExcelService.java:96-121 | a step that is not its process's first sits on the row right after its predecessor step |
| CosmicExcel.DataRows | core/src/main/java/com/excalicode/platform/core/service/CosmicExcelService.java:96-121 | there is one data row per step; the first three cells are empty and the CFP cell is always "1" |
| CosmicExcel.RowOfStep | core/src/main/java/com/excalicode/platform/core/service/CosmicExcelService.java:87-121 | the data row of step j of process i is that step's row |
| CosmicExcel.CloseRun | core/src/main/java/com/excalicode/platform/core/service/CosmicExcelService.java:226-247 | closing a run of equal values keeps the regions exactly the maximal runs seen so far |
| CosmicExcel.CloseRunMaximal | core/src/main/java/com/excalicode/platform/core/service/CosmicExcelService.java:226-247 | every region the tracker has closed lies in its column and spans a maximal run of two or more equal values |
| CosmicExcel.CloseRunOrdered | core/src/main/java/com/excalicode/platform/core/service/CosmicExcelService.java:226-247 | closed regions are disjoint and in row order |
| CosmicExcel.CloseRunCovers | core/src/main/java/com/excalicode/platform/core/service/CosmicExcelService.java:226-247 | any two adjacent equal rows before the closed run's end share a region |
| CosmicExcel.TrackRow | core/src/main/java/com/excalicode/platform/core/service/CosmicExcelService.java:113-118 | updating the tracker only on a process's first step keeps it tracking, as long as a value never changes in the middle of a process |
| CosmicExcel.TrackKeepsRuns | core/src/main/java/com/excalicode/platform/core/service/CosmicExcelService.java:88-122 | after any number of rows the tracker follows the current run and its regions are the maximal runs before it |
| CosmicExcel.TrackedRegions | core/src/main/java/com/excalicode/platform/core/service/CosmicExcelService.java:124-126 | after the final finish the regions of a column are exactly its maximal runs of two or more equal values, disjoint and in order, so no single-row region exists |
| CosmicExcel.ColumnValues | core/src/main/java/com/excalicode/platform/core/service/CosmicExcelService.java:105-106 | one value per row of the column |
| CosmicExcel.FirstSteps | core/src/main/java/com/excalicode/platform/core/service/CosmicExcelService.java:114 | one first-step flag per sheet row |
| CosmicExcel.LeadingRegions | core/src/main/java/com/excalicode/platform/core/service/CosmicExcelService.java:128-143 | the first three columns are merged over rows 1..total exactly when there is more than one data row |
| CosmicExcel.FillData | core/src/main/java/com/excalicode/platform/core/service/CosmicExcelService.java:85-144 | the header row comes first, then exactly the data rows of all steps, and the leading regions for the total row count |
| CosmicExcel.FirstStepsReportChanges | core/src/main/java/com/excalicode/platform/core/service/CosmicExcelService.java:91-118 | in the trigger and process columns a value only changes on a process's first step, so the tracker sees every change |
| CosmicExcel.MergedRegionsAreRuns | core/src/main/java/com/excalicode/platform/core/service/CosmicExcelService.java:88-126 | the regions written for the trigger and process columns are exactly the maximal runs of equal values there |
| CosmicExcel.GenerateExcelReport | core/src/main/java/com/excalicode/platform/core/service/CosmicExcelService.java:33-73 | an empty process list is refused, and only it; otherwise the report holds the header, one row per step and the leading regions |
| CosmicRoundTrip.FlatEntriesSnoc | core/src/main/java/com/excalicode/platform/core/service/CosmicService.java:341-412 | the entries read back from a report are those of the earlier processes followed by the last process's steps |
| CosmicRoundTrip.StepRowCells | core/src/main/java/com/excalicode/platform/core/service/CosmicExcelService.java:101-111 | a data row holds the process's trigger and name and the step's four texts in their columns |
| CosmicRoundTrip.StepRowRead | core/src/main/java/com/excalicode/platform/core/service/CosmicService.java:347-361 | reading a data row whose texts are already trimmed gives back the written process and step texts |
| CosmicRoundTrip.HeaderRead | core/src/main/java/com/excalicode/platform/core/service/CosmicService.java:316-333 | the header the report writes passes the import's header check |
| CosmicRoundTrip.DataRowEntry | core/src/main/java/com/excalicode/platform/core/service/CosmicService.java:363-411 | a ready data row is neither skipped nor refused and yields its slot's entry |
| CosmicRoundTrip.SlotRowsListed | core/src/main/java/com/excalicode/platform/core/service/CosmicService.java:341-412 | when a table holds the slots row by row, every data row is read without error into the matching entry |
| CosmicRoundTrip.ReadBack | core/src/main/java/com/excalicode/platform/core/service/CosmicService.java:335-412 | a table that holds the slots row by row extracts to exactly the entries of those slots |
| CosmicRoundTrip.ReportHoldsSlots | core/src/main/java/com/excalicode/platform/core/service/CosmicExcelService.java:85-122 | the report of exportable processes, read back, holds each step's slot on its row |
| CosmicRoundTrip.GroupConcat | core/src/main/java/com/excalicode/platform/core/service/CosmicService.java:393-411 | grouping a concatenation groups the second part onto the groups of the first |
| CosmicRoundTrip.GroupBlock | core/src/main/java/com/excalicode/platform/core/service/CosmicService.java:393-411 | a new process's steps, grouped onto groups that lack its key, add one group holding exactly those steps |
| CosmicRoundTrip.GroupWritten | core/src/main/java/com/excalicode/platform/core/service/CosmicService.java:336-414 | regrouping the flattened steps of processes with distinct keys and non-empty steps gives the processes back |
| CosmicRoundTrip.ReportReadBack | core/src/main/java/com/excalicode/platform/core/service/CosmicService.java:335-412 | extracting the written report of exportable processes yields their steps in order |
| CosmicRoundTrip.ExportThenImport | core/src/main/java/com/excalicode/platform/core/service/CosmicService.java:283-314 | exporting clean processes with distinct (trigger, process) keys and importing the report gives the same processes: the header passes, every row reads, grouping restores them and sanitising keeps them |
| CosmicTasks.ResolveStatus | core/src/main/java/com/excalicode/platform/core/service/CosmicAnalysisTaskService.java:222-229 | a stored status resolves to the status whose name it spells ignoring case; a missing or unknown status resolves to PENDING |
| CosmicTasks.ResolveStoredName | core/src/main/java/com/excalicode/platform/core/service/CosmicAnalysisTaskService.java:222-229 | any spelling of a status name, ignoring case, resolves to that status |
| CosmicTasks.TrimToLength | core/src/main/java/com/excalicode/platform/core/service/CosmicAnalysisTaskService.java:180-186 | a message without text becomes null; otherwise the result is a prefix of the trimmed message, at most the cap long, and the whole trimmed message when it fits |
| CosmicTasks.TrimToLengthFits | core/src/main/java/com/excalicode/platform/core/service/CosmicAnalysisTaskService.java:180-186 | a trimmed message within the cap is kept as it is |
| CosmicTasks.SanitizeDescription | core/src/main/java/com/excalicode/platform/core/service/CosmicAnalysisTaskService.java:264-269 | a description is accepted exactly when present with text, and is trimmed; a refusal names its one-based position |
| CosmicTasks.SanitizeFunctionalProcesses | core/src/main/java/com/excalicode/platform/core/service/CosmicAnalysisTaskService.java:258-272 | an empty list is refused; a list is accepted exactly when every description has text; the result keeps the length and trims each description |
| CosmicTasks.FirstBlankDescription | core/src/main/java/com/excalicode/platform/core/service/CosmicAnalysisTaskService.java:263-268 | a refused list names its first blank description, all earlier ones having text |
| CosmicTasks.SanitizeDescriptionsIdempotent | core/src/main/java/com/excalicode/platform/core/service/CosmicAnalysisTaskService.java:258-272 | sanitising sanitised descriptions returns them unchanged |
| CosmicTasks.SubmitTask | core/src/main/java/com/excalicode/platform/core/service/CosmicAnalysisTaskService.java:59-77 | without a user the submission is refused; it succeeds exactly when the descriptions sanitise, and the new task belongs to the user, is PENDING, not deleted, without error and holds the sanitised request |
| CosmicTasks.ProcessTask | core/src/main/java/com/excalicode/platform/core/service/CosmicAnalysisTaskService.java:121-149 | a missing, deleted or already succeeded task is left alone; any other gets RUNNING then one final update: the parse failure message, else the analysis failure message, each cut to the column length, else success with the analysis result |
| CosmicTasks.Apply | core/src/main/java/com/excalicode/platform/core/service/CosmicAnalysisTaskService.java:151-178 | an update sets the status it names and keeps owner, request and delete flag; RUNNING clears the error, success stores the payload and clears the error, failure stores its message and keeps the payload |
| CosmicTasks.ParseFailureExplained | core/src/main/java/com/excalicode/platform/core/service/CosmicAnalysisTaskService.java:121-178 | a task whose input cannot be parsed ends with an error message, never longer than the column allows |
| CosmicTasks.ProcessingEnds | core/src/main/java/com/excalicode/platform/core/service/CosmicAnalysisTaskService.java:121-178 | processing a task moves it to RUNNING and then to SUCCEEDED or FAILED, never both, SUCCEEDED exactly when parsing and analysis returned; a succeeded task holds the analysis as response and no error message |
| CosmicTasks.ResolveName | core/src/main/java/com/excalicode/platform/core/service/CosmicAnalysisTaskService.java:222-229 | every status name resolves to its status |
| CosmicTasks.SucceededStays | core/src/main/java/com/excalicode/platform/core/service/CosmicAnalysisTaskService.java:126-129 | a task that has succeeded is not processed again |
| CosmicTasks.ApplyAsWritten | core/src/main/java/com/excalicode/platform/core/service/CosmicAnalysisTaskService.java:151-178 | as written an update sets the same status and response but keeps the old error message where the update holds null |
| CosmicTasks.ApplyAsWrittenAgrees | core/src/main/java/com/excalicode/platform/core/service/CosmicAnalysisTaskService.java:151-178 | on a task with no error message the as-written update equals the corrected one |
| CosmicTasks.RetriedTaskKeepsFailureMessage | core/src/main/java/com/excalicode/platform/core/service/CosmicAnalysisTaskService.java:160-169 | a failed task retried successfully ends SUCCEEDED yet still carries its old error message as written, and none when corrected |
| CosmicTasks.BuildResponse | core/src/main/java/com/excalicode/platform/core/service/CosmicAnalysisTaskService.java:188-220 | the response shows the resolved status with its label and the stored error; the process count appears exactly for a succeeded task whose result parses to at least one process, and the processes only when asked for |
| CosmicTasks.UnfinishedHasNoCount | core/src/main/java/com/excalicode/platform/core/service/CosmicAnalysisTaskService.java:206-217 | a task that has not succeeded never reports a process count |
| TaskManagement.UserRoleIgnoresCase | core/src/main/java/com/excalicode/platform/core/service/TaskManagementService.java:151 | a role counts as USER exactly when it equals "USER" ignoring case |
| TaskManagement.ParseWorkloadAsWritten | core/src/main/java/com/excalicode/platform/core/service/TaskManagementService.java:366-379 | a workload is accepted exactly when it has text and its trimmed text is a positive decimal, tested before rounding; the value stored is that decimal at two places |
| TaskManagement.TinyWorkloadBecomesZero | core/src/main/java/com/excalicode/platform/core/service/TaskManagementService.java:371-375 | the text "0.004" passes the positivity test and is stored as 0.00 |
| TaskManagement.ParseWorkload | core/src/main/java/com/excalicode/platform/core/service/TaskManagementService.java:366-379 | a workload is accepted exactly when it has text, parses as a decimal and is still positive at two places; the result is that two-place value and is positive |
| TaskManagement.CorrectedWorkloadNarrower | core/src/main/java/com/excalicode/platform/core/service/TaskManagementService.java:366-379 | every workload the corrected parser accepts is read the same way by the code as written |
| TaskManagement.ScaledSign | core/src/main/java/com/excalicode/platform/core/service/TaskManagementService.java:372-375 | a value that is not positive stays not positive when rounded to two places |
| TaskManagement.LastColumnOf | core/src/main/java/com/excalicode/platform/core/service/TaskManagementService.java:332-345 | the column found for a header is the last header cell naming it, or none when no cell does |
| TaskManagement.ResolveColumnIndex | core/src/main/java/com/excalicode/platform/core/service/TaskManagementService.java:330-350 | the header resolves exactly when all three required names appear, taking the last cell for each; otherwise the fixed header error |
| TaskManagement.ReadDraft | core/src/main/java/com/excalicode/platform/core/service/TaskManagementService.java:83-109 | a row blank in all three columns is passed over, and only such a row; otherwise it is accepted exactly when title and description have text and the workload parses to a value positive after rounding to two places, giving the one-based row number and trimmed texts |
| TaskManagement.HeldRows | core/src/main/java/com/excalicode/platform/core/service/TaskManagementService.java:82-110 | the rows holding a value are data rows below the bound whose read gave a value, in ascending order |
| TaskManagement.HeldRowsComplete | core/src/main/java/com/excalicode/platform/core/service/TaskManagementService.java:82-110 | every present data row whose read gives a value is among the rows holding one |
| TaskManagement.ReadRows | core/src/main/java/com/excalicode/platform/core/service/TaskManagementService.java:82-110 | reading succeeds exactly when every present data row reads without error; then the k-th value is the value of the k-th row holding one; otherwise the error is that of the first failing row |
| TaskManagement.DraftRead | core/src/main/java/com/excalicode/platform/core/service/TaskManagementService.java:82-110 | a draft read from sheet row i carries row number i + 1 and a positive workload |
| TaskManagement.ReadDrafts | core/src/main/java/com/excalicode/platform/core/service/TaskManagementService.java:82-110 | the drafts come in increasing row order, each from a data row and with a workload positive at two places; the k-th carries the one-based number of the k-th row holding a draft |
| TaskManagement.ParseTaskTemplate | core/src/main/java/com/excalicode/platform/core/service/TaskManagementService.java:60-124 | a missing or empty upload gives "请上传 Excel 模板", a name that is not .xlsx or .xls its format error, an unreadable workbook "读取 Excel 文件失败: " and an unparsable one "解析 Excel 失败: " followed by the exception message, a missing header row "Excel 缺少表头行"; an accepted template came from an opened Excel upload with a resolvable header and is the non-empty draft list read from its rows |
| TaskManagement.TinyWorkloadPublishedAsZero | core/src/main/java/com/excalicode/platform/core/service/TaskManagementService.java:154-177 | an item with workload 0.004 and a USER assignee passes the publishing checks and is stored as 0.00 |
| TaskManagement.ItemError | core/src/main/java/com/excalicode/platform/core/service/TaskManagementService.java:143-158 | an item passes exactly when it names an existing USER-role assignee and its workload is positive at two places |
| TaskManagement.ItemErrorAsWritten | core/src/main/java/com/excalicode/platform/core/service/TaskManagementService.java:143-158 | as written an item passes exactly when it names an existing USER-role assignee and its unrounded workload is positive |
| TaskManagement.ItemErrorsNameRow | core/src/main/java/com/excalicode/platform/core/service/TaskManagementService.java:143-158 | every item error, as written and corrected, names the item's row number |
| TaskManagement.ItemCheckNarrower | core/src/main/java/com/excalicode/platform/core/service/TaskManagementService.java:143-158 | every item the corrected check accepts is accepted by the code as written |
| TaskManagement.FirstItemError | core/src/main/java/com/excalicode/platform/core/service/TaskManagementService.java:143-158 | no error exactly when every item passes; otherwise the error of the first failing item |
| TaskManagement.PublishTaskBatch | core/src/main/java/com/excalicode/platform/core/service/TaskManagementService.java:128-189 | publishing succeeds exactly when there are tasks, a batch title with text and every item passes the check with the workload rounded to two places; the batch gets the trimmed title, the trimmed description or none when it is blank, and the creator; each task keeps its assignee, has trimmed title and description, the creator, starts NOT_STARTED and has a positive two-place workload |
| TaskManagement.UpdateTaskAssignee | core/src/main/java/com/excalicode/platform/core/service/TaskManagementService.java:271-291 | reassignment succeeds exactly when the task exists and the new assignee is a USER-role user; the task then belongs to that assignee and is NOT_STARTED again |
| TaskManagement.UpdateTaskStatus | core/src/main/java/com/excalicode/platform/core/service/TaskManagementService.java:295-313 | a status update succeeds exactly when the task exists, the operator is its assignee or the override is given, and the status is one of the two task statuses; only the status changes |
| TaskManagement.StatusFromValue | core/src/main/java/com/excalicode/platform/core/model/task/TaskStatus.java:15-22 | a value names a status exactly when it equals that status's name ignoring case |
| TaskManagement.MapTaskResponse | core/src/main/java/com/excalicode/platform/core/service/TaskManagementService.java:490-514 | a task maps to a response exactly when its status has text and names a task status; the response carries that status and its label |
| TaskManagement.UpdatedTaskResponds | core/src/main/java/com/excalicode/platform/core/service/TaskManagementService.java:307-312 | a task after a successful status update always maps to a response showing the new status |
| TaskManagement.CountCompleted | core/src/main/java/com/excalicode/platform/core/service/TaskManagementService.java:438-442 | no more tasks are completed than exist |
| TaskManagement.CountCompletedPositions | core/src/main/java/com/excalicode/platform/core/service/TaskManagementService.java:438-442 | the completed count is exactly the number of positions holding a completed task |
| TaskManagement.BuildSummary | core/src/main/java/com/excalicode/platform/core/service/TaskManagementService.java:427-445 | the total is the number of tasks, the completed count is the number of completed tasks, and the total workload has two places |
| TaskManagement.AssignedTo | core/src/main/java/com/excalicode/platform/core/service/TaskManagementService.java:452-453 | the assignee's tasks are among the batch's tasks and are all assigned to them |
| TaskManagement.AssignedCounts | core/src/main/java/com/excalicode/platform/core/service/TaskManagementService.java:452-454 | the assignee's task list has one entry per position assigned to them, and its completed count is the number of those positions whose task is completed |
| TaskManagement.BuildUserSummary | core/src/main/java/com/excalicode/platform/core/service/TaskManagementService.java:447-463 | an assignee's summary counts exactly the positions assigned to them and the completed ones among them, with a two-place workload that is zero when none is assigned and whose exact value UserSummaryTotalExact gives |
| TaskManagement.UserSummaryWithin | core/src/main/java/com/excalicode/platform/core/service/TaskManagementService.java:447-463 | an assignee's summary never counts more tasks or completed tasks than the whole batch's |
| TaskManagement.SummaryTotalExact | core/src/main/java/com/excalicode/platform/core/service/TaskManagementService.java:516-523 | when stored workloads have two places, the total workload equals the exact sum of the present workloads |
| TaskManagement.UserSummaryTotalExact | core/src/main/java/com/excalicode/platform/core/service/TaskManagementService.java:516-523 | when stored workloads have two places, an assignee's total workload equals the exact sum of the present workloads of the tasks assigned to them |
| Decimals.Pow10Add | core/src/main/java/com/excalicode/platform/core/service/TaskManagementService.java:375 | powers of ten multiply by adding exponents |
| Decimals.RoundHalfUp | core/src/main/java/com/excalicode/platform/core/service/TaskManagementService.java:375 | the rounded quotient is within half a unit of the exact one, and an exact half rounds away from zero |
| Decimals.RoundHalfUpUnique | core/src/main/java/com/excalicode/platform/core/service/TaskManagementService.java:375 | HALF_UP rounding is the only integer meeting those bounds |
| Decimals.RoundExact | core/src/main/java/com/excalicode/platform/core/service/TaskManagementService.java:375 | an exact multiple rounds to its quotient |
| Decimals.SetScale | core/src/main/java/com/excalicode/platform/core/service/TaskManagementService.java:375 | the result has the requested scale; raising the scale keeps the value and lowering it rounds HALF_UP |
| Decimals.SetScaleExact | core/src/main/java/com/excalicode/platform/core/service/TaskManagementService.java:375 | lowering the scale of a value with enough trailing zeros keeps the value |
| Decimals.DivideBy | core/src/main/java/com/excalicode/platform/core/service/VacationService.java:461-463 | division at a given scale rounds the exact quotient HALF_UP at that scale |
| Decimals.Add | core/src/main/java/com/excalicode/platform/core/service/TaskManagementService.java:516-521 | a sum has the larger scale of its terms and adds their values exactly |
| Decimals.StripTrailingZeros | core/src/main/java/com/excalicode/platform/core/service/VacationService.java:464 | stripping keeps the value, leaves no trailing zero in the unscaled part, and gives zero as plain 0 |
| Decimals.StripIdempotent | core/src/main/java/com/excalicode/platform/core/service/VacationService.java:464 | stripping twice is stripping once |
| Decimals.ToPlainString | core/src/main/java/com/excalicode/platform/core/service/VacationService.java:464 | the plain text of a decimal is never empty |
| Decimals.ParsePlain | core/src/main/java/com/excalicode/platform/core/service/TaskManagementService.java:359 | reading back the plain text of a decimal with non-negative scale gives the same decimal |
| Decimals.ParseDecimal | core/src/main/java/com/excalicode/platform/core/service/TaskManagementService.java:359 | an empty text does not parse, and a text of ASCII digits parses as that whole number at scale 0 |
| Vacations.HeaderColumn | core/src/main/java/com/excalicode/platform/core/service/VacationService.java:136-141 | the column of a required header is the last header cell whose trimmed text is its Chinese name, or none when no cell is |
| Vacations.ParseHeader | core/src/main/java/com/excalicode/platform/core/service/VacationService.java:129-144 | each of the four columns is located at the last header cell whose trimmed text is its name, or not at all when none is |
| Vacations.ParseRow | core/src/main/java/com/excalicode/platform/core/service/VacationService.java:166-182 | each field of a record is the cell in its located column, or "" when the column is missing or the row is shorter |
| Vacations.MissingColumns | core/src/main/java/com/excalicode/platform/core/service/VacationService.java:146-160 | the missing list names the Chinese header of every required column not found and nothing else; it is empty exactly when all are found |
| Vacations.ValidateRequiredColumns | core/src/main/java/com/excalicode/platform/core/service/VacationService.java:146-164 | the header passes exactly when all four columns are found; otherwise the message lists every missing Chinese column name |
| Vacations.RemarkedRows | core/src/main/java/com/excalicode/platform/core/service/VacationService.java:102-113 | the rows kept are present data rows with a non-blank remark, in ascending order |
| Vacations.RemarkedRowsComplete | core/src/main/java/com/excalicode/platform/core/service/VacationService.java:102-113 | every present data row with a non-blank remark is among the rows kept |
| Vacations.RemarkedRecords | core/src/main/java/com/excalicode/platform/core/service/VacationService.java:102-113 | one record per kept row, in row order, each the parse of its row and with a non-blank remark |
| Vacations.RemarkedRecordsComplete | core/src/main/java/com/excalicode/platform/core/service/VacationService.java:102-113 | every present data row with a non-blank remark contributes its record |
| Vacations.PhysicalRows | core/src/main/java/com/excalicode/platform/core/service/VacationService.java:87 | the physical row count never exceeds the sheet's row count |
| Vacations.ParseValidVacationRecords | core/src/main/java/com/excalicode/platform/core/service/VacationService.java:74-127 | a missing or empty upload, a file name not ending in .xlsx or .xls, an unreadable workbook, a malformed workbook and a sheet without data rows each give their own message, the workbook ones carrying the exception text; otherwise records come from a header naming all four columns and are exactly the remarked records of the sheet |
| Vacations.PadTwo | core/src/main/java/com/excalicode/platform/core/service/VacationService.java:477-478 | padding keeps the text as a suffix and gives at least two characters |
| Vacations.FormatDate | core/src/main/java/com/excalicode/platform/core/service/VacationService.java:471-486 | a date without a slash, or with other than three slash-separated parts, is unchanged |
| Vacations.FormatSlashedDate | core/src/main/java/com/excalicode/platform/core/service/VacationService.java:474-479 | "y/m/d" becomes "y-mm-dd" with one-digit month and day zero-padded |
| Vacations.NormalizeQuantity | core/src/main/java/com/excalicode/platform/core/service/VacationService.java:453-454 | the normalised quantity holds only digits and dots and is never longer than the input |
| Vacations.NormalizeDigits | core/src/main/java/com/excalicode/platform/core/service/VacationService.java:453-454 | a quantity of plain digits is kept as it is |
| Vacations.DaysValue | core/src/main/java/com/excalicode/platform/core/service/VacationService.java:459-463 | a value exists exactly when the normalised quantity parses; for hours it is divided by 8 at scale 4 |
| Vacations.FormatVacationDays | core/src/main/java/com/excalicode/platform/core/service/VacationService.java:448-469 | an empty quantity gives ""; an unparsable one is returned unchanged; otherwise the result is the plain text of the stripped value |
| Vacations.WholeHoursAreEighths | core/src/main/java/com/excalicode/platform/core/service/VacationService.java:460-464 | n hours become n/8 days, stripped of trailing zeros |
| Vacations.WholeDaysKept | core/src/main/java/com/excalicode/platform/core/service/VacationService.java:460-464 | n days, when the unit is not hours, stay n |
| Vacations.ShouldUseFixedOneDay | core/src/main/java/com/excalicode/platform/core/service/VacationService.java:488-508 | only a type with text can force one day, and 迟到, 迟到早退 and 未刷卡 by themselves always do |
| Vacations.FixedInPair | core/src/main/java/com/excalicode/platform/core/service/VacationService.java:493-507 | a type of two words joined by "、" forces one day exactly when one of the words is a fixed type |
| Vacations.ParseVacationRecord | core/src/main/java/com/excalicode/platform/core/service/VacationService.java:402-446 | a record yields an item only when it has at least four whitespace-separated parts, and its type is the second part |
| Vacations.SingleDayRecord | core/src/main/java/com/excalicode/platform/core/service/VacationService.java:422-440 | a record without "-" in its date gives start = end = the formatted date, its type and its formatted days |
| Vacations.DateRangeRecord | core/src/main/java/com/excalicode/platform/core/service/VacationService.java:422-440 | a record dated "from-to" gives the formatted from as start and the formatted to as end |
| Vacations.PieceItems | core/src/main/java/com/excalicode/platform/core/service/VacationService.java:381-390 | a remark piece yields at most one item |
| Vacations.ItemsOf | core/src/main/java/com/excalicode/platform/core/service/VacationService.java:381-390 | the items never outnumber the pieces |
| Vacations.ParseVacationDetails | core/src/main/java/com/excalicode/platform/core/service/VacationService.java:370-400 | a blank remark gives no items, and never more items than ';'/'；' pieces |
| Vacations.RemarkOfRecords | core/src/main/java/com/excalicode/platform/core/service/VacationService.java:379-391 | a remark of well-formed records joined by ';' yields one item per record, in order, each that record's parse |
| Vacations.JoinedPiecesSplit | core/src/main/java/com/excalicode/platform/core/service/VacationService.java:379 | splitting records joined by ';' gives the records back |
| Vacations.ConvertToDetailRequests | core/src/main/java/com/excalicode/platform/core/service/VacationService.java:336-368 | a blank corrected remark gives no details; otherwise one detail per parsed item, each carrying the person's id card, name and department |
| Vacations.DetailOfItem | core/src/main/java/com/excalicode/platform/core/service/VacationService.java:344-364 | each detail copies its item's dates and type, and its days are "1" for a fixed type and the item's days otherwise |
| Vacations.BuildDetailsForRecord | core/src/main/java/com/excalicode/platform/core/service/VacationService.java:298-312 | a record with a blank remark gives no details, and every detail belongs to the record's person |
| Vacations.CorrectionFallback | core/src/main/java/com/excalicode/platform/core/service/VacationService.java:314-330 | when the correction fails, the original remark is parsed instead |
| Vacations.DetailsFromRecords | core/src/main/java/com/excalicode/platform/core/service/VacationService.java:272-296 | every detail comes from one of the input records and carries that person's id card and name |
| Vacations.BuildVacationDetails | core/src/main/java/com/excalicode/platform/core/service/VacationService.java:272-296 | records all with blank remarks give no details, and a single record gives exactly that record's details |
| Vacations.DetailsFlatten | core/src/main/java/com/excalicode/platform/core/service/VacationService.java:272-296 | the details of a list of records are each record's details, joined in record order |
| Vacations.DetailsConcat | core/src/main/java/com/excalicode/platform/core/service/VacationService.java:272-296 | the details of two runs of records are the details of the first followed by those of the second |
| Vacations.DetailRow | core/src/main/java/com/excalicode/platform/core/service/VacationService.java:240-259 | each detail row has one cell per output column |
| Vacations.VacationTable | core/src/main/java/com/excalicode/platform/core/service/VacationService.java:233-259 | the table is the header followed by one row per detail |
| Vacations.TableReadBack | core/src/main/java/com/excalicode/platform/core/service/VacationService.java:240-259 | the row of detail i is numbered i+1 and holds that detail's fields |
| Vacations.ProcessVacationExcel | core/src/main/java/com/excalicode/platform/core/service/VacationService.java:60-72 | a table is produced only when there are remarked records and they yield details, and it is the table of those details |
| Knowledge.ChunkSize | core/src/main/java/com/excalicode/platform/core/service/RequirementKnowledgeService.java:290 | the chunk size is the configured size raised to at least 200 |
| Knowledge.JavaClamp | core/src/main/java/com/excalicode/platform/core/service/RequirementKnowledgeService.java:291 | Math.clamp(value, min, max) fails exactly when min > max and otherwise lands inside [min, max], leaving in-range values alone |
| Knowledge.OverlapAsWritten | core/src/main/java/com/excalicode/platform/core/service/RequirementKnowledgeService.java:291 | as written (clamp arguments swapped) the overlap computation throws exactly when the configured overlap exceeds chunkSize - 1 |
| Knowledge.OverlapAsWrittenThrows | core/src/main/java/com/excalicode/platform/core/service/RequirementKnowledgeService.java:291 | with the default chunk size 100 (raised to 200) and a configured overlap of 200 the source throws |
| Knowledge.Overlap | core/src/main/java/com/excalicode/platform/core/service/RequirementKnowledgeService.java:291 | the evidently intended overlap: the configured overlap clamped into [0, chunkSize - 1] |
| Knowledge.OverlapAgreesBelowChunkSize | core/src/main/java/com/excalicode/platform/core/service/RequirementKnowledgeService.java:291 | whenever the source does not throw, its overlap equals the intended clamped overlap |
| Knowledge.CutEnd | core/src/main/java/com/excalicode/platform/core/service/RequirementKnowledgeService.java:296-302 | a chunk ends after at most chunkSize characters, and an early end sits on a newline past the middle of the window |
| Knowledge.StepAsWritten | core/src/main/java/com/excalicode/platform/core/service/RequirementKnowledgeService.java:307-313 | as written the next start is undefined only after the last window and otherwise lies at most one past the cut |
| Knowledge.StepAsWrittenAdvances | core/src/main/java/com/excalicode/platform/core/service/RequirementKnowledgeService.java:307-313 | with 1 <= overlap <= chunkSize/2 the source's next start advances, stays before the cut and equals the corrected next start |
| Knowledge.StallAsWritten | core/src/main/java/com/excalicode/platform/core/service/RequirementKnowledgeService.java:296-313 | with chunk size 200, overlap 199 and a newline at 150, the next start is 0 again, so the loop never advances |
| Knowledge.DropAsWritten | core/src/main/java/com/excalicode/platform/core/service/RequirementKnowledgeService.java:307-313 | with overlap 0 and a hard cut at 200, the next window starts at 201 and character 200 is in no chunk |
| Knowledge.NextStart | core/src/main/java/com/excalicode/platform/core/service/RequirementKnowledgeService.java:310-313 | the corrected next start always advances, never passes the cut and keeps the requested overlap when it can |
| Knowledge.ChainedCons | core/src/main/java/com/excalicode/platform/core/service/RequirementKnowledgeService.java:292-315 | a window followed by an overlapping chain of windows is again a chain covering the text |
| Knowledge.Windows | core/src/main/java/com/excalicode/platform/core/service/RequirementKnowledgeService.java:292-315 | the window walk is non-empty exactly for a non-empty rest, and each window is at most chunkSize long and overlaps its successor |
| Knowledge.TilesCover | core/src/main/java/com/excalicode/platform/core/service/RequirementKnowledgeService.java:292-315 | every position of a tiled range falls into some window |
| Knowledge.NormalizeContent | core/src/main/java/com/excalicode/platform/core/service/RequirementKnowledgeService.java:289 | the normalised content holds no carriage return |
| Knowledge.ChunksOf | core/src/main/java/com/excalicode/platform/core/service/RequirementKnowledgeService.java:303-306 | walking the windows from a given one, every kept chunk has text, is already trimmed and is at most chunkSize long, and there are no more chunks than windows left |
| Knowledge.WindowTexts | core/src/main/java/com/excalicode/platform/core/service/RequirementKnowledgeService.java:303-304 | one trimmed window text per window, in window order |
| Knowledge.TextPositions | core/src/main/java/com/excalicode/platform/core/service/RequirementKnowledgeService.java:305-306 | the positions of the window texts that have text, strictly increasing |
| Knowledge.TextPositionsComplete | core/src/main/java/com/excalicode/platform/core/service/RequirementKnowledgeService.java:305-306 | every window text with text has its position listed |
| Knowledge.ChunksAreWindowTexts | core/src/main/java/com/excalicode/platform/core/service/RequirementKnowledgeService.java:303-306 | the chunks are exactly the window texts that have text, in window order |
| Knowledge.SplitIntoChunks | core/src/main/java/com/excalicode/platform/core/service/RequirementKnowledgeService.java:285-316 | blank content gives no chunks; every chunk has text, is trimmed and fits the chunk size (which chunks these are is stated by SplitChunksAreWindowTexts); the walk uses the corrected next start |
| Knowledge.SplitChunksAreWindowTexts | core/src/main/java/com/excalicode/platform/core/service/RequirementKnowledgeService.java:285-316 | the chunks of content with text are exactly the trimmed window texts with text, in order, over the corrected window walk |
| Knowledge.VisibleCharacterKept | core/src/main/java/com/excalicode/platform/core/service/RequirementKnowledgeService.java:285-316 | a character that is neither trimmed away nor whitespace lands in some chunk, so such content never gives an empty split |
| Knowledge.TextWithoutChunks | core/src/main/java/com/excalicode/platform/core/service/RequirementKnowledgeService.java:285-316 | content can pass the has-text check and still give no chunk: its only visible character, U+0001, is a control character that trim removes at a window edge |
| Knowledge.ChunkWindowsCover | core/src/main/java/com/excalicode/platform/core/service/RequirementKnowledgeService.java:285-316 | every character of the normalised content lies in some chunk window |
| Knowledge.ChunkId | core/src/main/java/com/excalicode/platform/core/service/RequirementKnowledgeService.java:195 | a chunk id begins with the document id followed by "::" |
| Knowledge.ChunkIdsDistinct | core/src/main/java/com/excalicode/platform/core/service/RequirementKnowledgeService.java:195 | two chunks of one document have the same id only if they have the same index |
| Knowledge.BuildDocuments | core/src/main/java/com/excalicode/platform/core/service/RequirementKnowledgeService.java:182-200 | one vector document per chunk, carrying the chunk text, its index and the document id, with pairwise distinct ids |
| Knowledge.UpsertDocument | core/src/main/java/com/excalicode/platform/core/service/RequirementKnowledgeService.java:49-69 | disabled RAG stores nothing; blank content gives "知识内容不能为空" and content with no chunks "无法从知识内容中提取有效片段"; otherwise one document per chunk of the corrected split, built from the normalised document |
| Knowledge.Slashed | core/src/main/java/com/excalicode/platform/core/service/RequirementKnowledgeService.java:229 | backslashes become slashes and nothing else changes |
| Knowledge.LastSegment | core/src/main/java/com/excalicode/platform/core/service/RequirementKnowledgeService.java:230-232 | the part after the last slash is a slash-free suffix of the path |
| Knowledge.NormalizeFolderName | core/src/main/java/com/excalicode/platform/core/service/RequirementKnowledgeService.java:225-237 | the folder name always has text, fits the length cap, holds no slash, and a blank name becomes "folder-upload" |
| Knowledge.NormalizeFolderNameKeepsSegment | core/src/main/java/com/excalicode/platform/core/service/RequirementKnowledgeService.java:225-237 | a trimmed, short, slash-free name is kept as it is |
| Knowledge.NormalizeFolderNameLastSegment | core/src/main/java/com/excalicode/platform/core/service/RequirementKnowledgeService.java:225-237 | a folder path yields its last segment |
| Knowledge.NormalizeTrimmedName | core/src/main/java/com/excalicode/platform/core/service/RequirementKnowledgeService.java:225-237 | a trimmed name whose last segment has text yields that segment |
| Knowledge.StripLeadingSlashes | core/src/main/java/com/excalicode/platform/core/service/RequirementKnowledgeService.java:245-247 | the result is a suffix of the input that does not start with a slash |
| Knowledge.CleanedPath | core/src/main/java/com/excalicode/platform/core/service/RequirementKnowledgeService.java:244-247 | a cleaned path does not start with a slash and holds no backslash |
| Knowledge.SanitizeRelativePath | core/src/main/java/com/excalicode/platform/core/service/RequirementKnowledgeService.java:239-252 | blank inputs give ""; a path escaping upwards falls back to the file name; any other result is relative, slash-normalised and does not start with ".." |
| Knowledge.FileNameOf | core/src/main/java/com/excalicode/platform/core/service/RequirementKnowledgeService.java:255-263 | the file name is a suffix of the path |
| Knowledge.ExtensionOf | core/src/main/java/com/excalicode/platform/core/service/RequirementKnowledgeService.java:264-268 | the extension holds no dot |
| Knowledge.ResolveExtension | core/src/main/java/com/excalicode/platform/core/service/RequirementKnowledgeService.java:254-269 | the resolved extension holds no dot and is empty when neither path nor name has text |
| Knowledge.ExtensionOfName | core/src/main/java/com/excalicode/platform/core/service/RequirementKnowledgeService.java:264-268 | the extension of stem.ext is ext in lower case |
| Knowledge.ResolveExtensionOfName | core/src/main/java/com/excalicode/platform/core/service/RequirementKnowledgeService.java:254-269 | a path ending in stem.ext resolves to ext in lower case |
| Knowledge.ResolveExtensionWithoutDot | core/src/main/java/com/excalicode/platform/core/service/RequirementKnowledgeService.java:254-269 | a path without a dot has no extension |
| Knowledge.DocumentFromFolderFile | core/src/main/java/com/excalicode/platform/core/service/RequirementKnowledgeService.java:202-223 | the document is titled by its path, its id digests folder and path, and its one to three tags are the default folder tag, the folder name and the extension |
| Knowledge.FileOutcome | core/src/main/java/com/excalicode/platform/core/service/RequirementKnowledgeService.java:89-155 | a file is ingested only when present and eligible, then with a document id and no reason; a skipped file carries a reason; a missing file is reported as "(unknown)"; ingestion stores the chunks of the corrected split |
| Knowledge.CountEligible | core/src/main/java/com/excalicode/platform/core/service/RequirementKnowledgeService.java:134 | no more files are eligible than there are files |
| Knowledge.CountIngested | core/src/main/java/com/excalicode/platform/core/service/RequirementKnowledgeService.java:134-154 | no more files are ingested than there are results |
| Knowledge.FileOutcomes | core/src/main/java/com/excalicode/platform/core/service/RequirementKnowledgeService.java:89-155 | one result per file, in order, each decided on its own |
| Knowledge.IngestedWithinEligible | core/src/main/java/com/excalicode/platform/core/service/RequirementKnowledgeService.java:134-157 | no more files are ingested than are eligible |
| Knowledge.ImportFolder | core/src/main/java/com/excalicode/platform/core/service/RequirementKnowledgeService.java:72-174 | disabled RAG and an empty folder are errors; otherwise the report counts every file, ingested within eligible within total, and skipped is total minus ingested; each file is split with the corrected next start |
| Knowledge.PresentElements | core/src/main/java/com/excalicode/platform/core/service/RequirementKnowledgeService.java:424-429 | the null-free list keeps exactly the present elements |
| Knowledge.ReadTags | core/src/main/java/com/excalicode/platform/core/service/RequirementKnowledgeService.java:422-443 | a list yields its present elements, a comma text yields trimmed comma-free tags, and anything else yields no tags |
| Knowledge.ReadTagList | core/src/main/java/com/excalicode/platform/core/service/RequirementKnowledgeService.java:422-430 | a list of present tags reads back unchanged |
| Knowledge.ReadTagsOfJoin | core/src/main/java/com/excalicode/platform/core/service/RequirementKnowledgeService.java:431-440 | clean tags joined with commas read back unchanged |
| Knowledge.TopK | core/src/main/java/com/excalicode/platform/core/service/RequirementKnowledgeService.java:367-368 | a positive request is capped at the maximum, otherwise the configured count is used; the result is at least 1 |
| Knowledge.JavaClampReal | core/src/main/java/com/excalicode/platform/core/service/RequirementKnowledgeService.java:369-372 | Math.clamp on doubles fails exactly when min > max and otherwise lands inside [min, max] |
| Knowledge.ThresholdAsWritten | core/src/main/java/com/excalicode/platform/core/service/RequirementKnowledgeService.java:369-372 | as written the threshold computation throws exactly when the score exceeds 1.0 |
| Knowledge.ThresholdAsWrittenThrows | core/src/main/java/com/excalicode/platform/core/service/RequirementKnowledgeService.java:369-372 | a requested score of 1.5 makes the source throw |
| Knowledge.Threshold | core/src/main/java/com/excalicode/platform/core/service/RequirementKnowledgeService.java:369-372 | the evidently intended threshold: the score clamped into [0, 1] |
| Knowledge.ThresholdAgreesUpToOne | core/src/main/java/com/excalicode/platform/core/service/RequirementKnowledgeService.java:369-372 | whenever the source does not throw, its threshold equals the intended clamped one |
| Knowledge.Ranked | core/src/main/java/com/excalicode/platform/core/service/RequirementKnowledgeService.java:463-477 | the reranked indices are in range, and an index is among them exactly when some rerank result names it |
| Knowledge.UnrankedSpec | core/src/main/java/com/excalicode/platform/core/service/RequirementKnowledgeService.java:478-484 | the remaining indices are the in-range indices the reranker did not name, in ascending order |
| Knowledge.RerankOrder | core/src/main/java/com/excalicode/platform/core/service/RequirementKnowledgeService.java:463-484 | the rerank order only names existing matches |
| Knowledge.LastScore | core/src/main/java/com/excalicode/platform/core/service/RequirementKnowledgeService.java:463-477 | a match has a rerank score exactly when some result names it |
| Knowledge.Scored | core/src/main/java/com/excalicode/platform/core/service/RequirementKnowledgeService.java:466-469 | a reranked match carries its rerank score and is otherwise unchanged |
| Knowledge.RerankIfNeeded | core/src/main/java/com/excalicode/platform/core/service/RequirementKnowledgeService.java:446-488 | no matches, rerank off or no rerank results leave the matches as they are; otherwise the matches follow the rerank order with scores attached |
| Knowledge.RankedAll | core/src/main/java/com/excalicode/platform/core/service/RequirementKnowledgeService.java:463-477 | when every result is in range, the reranked indices are the results' indices in order |
| Knowledge.LastScoreOfDistinct | core/src/main/java/com/excalicode/platform/core/service/RequirementKnowledgeService.java:463-477 | with distinct indices, each named match gets its own result's score |
| Knowledge.RerankOrderPermutes | core/src/main/java/com/excalicode/platform/core/service/RequirementKnowledgeService.java:463-484 | with distinct in-range results, the order is a permutation: reranked first, then the rest ascending |
| Knowledge.RerankPermutes | core/src/main/java/com/excalicode/platform/core/service/RequirementKnowledgeService.java:446-488 | reranking is a permutation of the matches: reranked ones first with their scores, the others after in original order |
| Knowledge.ContextLimit | core/src/main/java/com/excalicode/platform/core/service/RequirementKnowledgeService.java:498 | the context budget is at least the minimum and at least the configured size |
| Knowledge.ContextTitles | core/src/main/java/com/excalicode/platform/core/service/RequirementKnowledgeService.java:500-507 | there is one heading per match |
| Knowledge.ContextTitlesFrom | core/src/main/java/com/excalicode/platform/core/service/RequirementKnowledgeService.java:500-507 | a heading gets "#chunkIndex" exactly when an earlier match has the same heading |
| Knowledge.RepeatedTitlesMarked | core/src/main/java/com/excalicode/platform/core/service/RequirementKnowledgeService.java:500-507 | a heading gets "#chunkIndex" exactly when an earlier match has the same heading |
| Knowledge.Concat | core/src/main/java/com/excalicode/platform/core/service/RequirementKnowledgeService.java:510-517 | concatenating no blocks gives "" |
| Knowledge.Assemble | core/src/main/java/com/excalicode/platform/core/service/RequirementKnowledgeService.java:510-517 | the context is a prefix of all the blocks that fits the budget, and is all of them when they fit |
| Knowledge.ContextBlocks | core/src/main/java/com/excalicode/platform/core/service/RequirementKnowledgeService.java:499-509 | one block per match |
| Knowledge.BuildContext | core/src/main/java/com/excalicode/platform/core/service/RequirementKnowledgeService.java:491-520 | no matches give ""; the context never exceeds the budget |
| Knowledge.ContextKeepsBlocks | core/src/main/java/com/excalicode/platform/core/service/RequirementKnowledgeService.java:491-520 | the context is the trimmed prefix of the blocks in order, and all of them when they fit |
| KnowledgeEntries.TrimmedTextsShape | core/src/main/java/com/excalicode/platform/core/service/entity/impl/RequirementKnowledgeEntryServiceImpl.java:127-132 | the kept tags are trimmed, and comma-free inputs give comma-free tags |
| KnowledgeEntries.TrimmedTextsOfClean | core/src/main/java/com/excalicode/platform/core/service/entity/impl/RequirementKnowledgeEntryServiceImpl.java:127-132 | tags that are already trimmed and have text are kept unchanged |
| KnowledgeEntries.EncodeTags | core/src/main/java/com/excalicode/platform/core/service/entity/impl/RequirementKnowledgeEntryServiceImpl.java:123-134 | the tag column is null exactly when no tag has text |
| KnowledgeEntries.SplitTags | core/src/main/java/com/excalicode/platform/core/api/rag/RequirementKnowledgeEntryResponse.java:40-52 | the tags read from a column are trimmed and comma-free, and a blank column gives none |
| KnowledgeEntries.CleanTagsRoundTrip | core/src/main/java/com/excalicode/platform/core/api/rag/RequirementKnowledgeEntryResponse.java:40-52 | clean tags encoded into the column are read back unchanged |
| Text.JavaTrim | core/src/main/java/com/excalicode/platform/core/api/rag/RequirementKnowledgeEntryResponse.java:48 | trimming never lengthens a text, and empties it exactly when every character is at most U+0020 |
| Text.JavaTrimIdempotent | core/src/main/java/com/excalicode/platform/core/api/rag/RequirementKnowledgeEntryResponse.java:48 | trimming twice is trimming once |
| Text.TrimKeepsText | core/src/main/java/com/excalicode/platform/core/api/rag/RequirementKnowledgeEntryResponse.java:47-48 | a text whose trimmed form has text has text itself |
| Text.TrimmedHasText | core/src/main/java/com/excalicode/platform/core/api/rag/RequirementKnowledgeEntryResponse.java:47-48 | when every trimmed character is whitespace, a text with text keeps text after trimming |
| Text.JavaSplit | core/src/main/java/com/excalicode/platform/core/api/rag/RequirementKnowledgeEntryResponse.java:44 | a text without a delimiter splits into itself, and no part holds a delimiter |
| Text.ParseBoundedInt | core/src/main/java/com/excalicode/platform/core/service/chatbi/TaskBiSqlBuilder.java:180 | a parsed integer lies inside the type's bounds |
| Text.ParseRendered | core/src/main/java/com/excalicode/platform/core/service/chatbi/TaskBiSqlBuilder.java:199 | the decimal text of any in-range integer parses back to it |
| KnowledgeEntries.TagsRoundTrip | core/src/main/java/com/excalicode/platform/core/api/rag/RequirementKnowledgeEntryResponse.java:40-52 | any comma-free tags read back as their trimmed, non-blank versions |
| KnowledgeEntries.Normalized | core/src/main/java/com/excalicode/platform/core/model/rag/RequirementKnowledgeDocument.java:20-25 | a document keeps its id when it has text, and otherwise takes a fresh one |
| KnowledgeEntries.GetByDocumentId | core/src/main/java/com/excalicode/platform/core/service/entity/impl/RequirementKnowledgeEntryServiceImpl.java:26-32 | an entry is found exactly when the id has text and its trimmed form is a key, and then it is that row |
| KnowledgeEntries.DraftEntry | core/src/main/java/com/excalicode/platform/core/service/entity/impl/RequirementKnowledgeEntryServiceImpl.java:42-68 | a draft needs an id, a title and content, checked in that order with their messages, and a successful write |
| KnowledgeEntries.SaveDraft | core/src/main/java/com/excalicode/platform/core/service/entity/impl/RequirementKnowledgeEntryServiceImpl.java:41-71 | saving fails exactly when the draft does; otherwise the row becomes an unvectorised draft whose every column, null ones included, is the draft's, no other row changes, and the saved row is returned |
| KnowledgeEntries.UpdateDraft | core/src/main/java/com/excalicode/platform/core/service/entity/impl/RequirementKnowledgeEntryServiceImpl.java:73-102 | updating needs an existing entry, a title and content; it replaces them and the tags, resets the vector flag and timestamp to null, and leaves other rows alone |
| KnowledgeEntries.UpdateVectorState | core/src/main/java/com/excalicode/platform/core/service/entity/impl/RequirementKnowledgeEntryServiceImpl.java:104-113 | a missing entry is reported and nothing changes; otherwise the flag follows the vectorised state, the timestamp is set when vectorised and cleared when not, and other rows are untouched |
| KnowledgeEntries.RemoveByDocumentId | core/src/main/java/com/excalicode/platform/core/service/entity/impl/RequirementKnowledgeEntryServiceImpl.java:115-121 | a row is removed exactly when it exists under the trimmed id, and nothing else changes |
| KnowledgeEntries.SavedTagsReadBack | core/src/main/java/com/excalicode/platform/core/service/entity/impl/RequirementKnowledgeEntryServiceImpl.java:59 | a saved draft's tags read back as its trimmed, non-blank tags |
| KnowledgeEntries.WriteSkippingNulls | core/src/main/java/com/excalicode/platform/core/service/entity/impl/RequirementKnowledgeEntryServiceImpl.java:65 | as written the save inserts a new row whole but, over an existing row, keeps its tags and vector timestamp wherever the new row holds null; other rows are unchanged |
| KnowledgeEntries.SaveDraftAsWritten | core/src/main/java/com/excalicode/platform/core/service/entity/impl/RequirementKnowledgeEntryServiceImpl.java:42-71 | as written saving fails exactly when the corrected save does, and agrees with it for a new document |
| KnowledgeEntries.UpdateDraftAsWritten | core/src/main/java/com/excalicode/platform/core/service/entity/impl/RequirementKnowledgeEntryServiceImpl.java:74-102 | as written an update succeeds exactly when the corrected one does, resets the flag, but keeps the old timestamp, and the old tags when the new ones are blank |
| KnowledgeEntries.UpdateVectorStateAsWritten | core/src/main/java/com/excalicode/platform/core/service/entity/impl/RequirementKnowledgeEntryServiceImpl.java:104-113 | as written the update reports the same outcome, and agrees with the corrected one when marking a row vectorised |
| KnowledgeEntries.ResavedDraftKeepsStaleColumns | core/src/main/java/com/excalicode/platform/core/service/entity/impl/RequirementKnowledgeEntryServiceImpl.java:59-65 | re-saving a vectorised entry with no tags keeps its old tags and timestamp, so the row is inconsistent and its tags read back wrong |
| KnowledgeEntries.ClearedFlagKeepsTimestamp | core/src/main/java/com/excalicode/platform/core/service/entity/impl/RequirementKnowledgeEntryServiceImpl.java:104-113 | clearing the vectorised flag as written keeps the old timestamp, leaving the row inconsistent |
| KnowledgeImport.Separated | core/src/main/java/com/excalicode/platform/core/service/RequirementKnowledgeImportService.java:161-166 | every tag separator (line break, full-width comma or semicolon, semicolon) becomes a comma, carriage returns vanish, and nothing else changes |
| KnowledgeImport.SeparatedJoin | core/src/main/java/com/excalicode/platform/core/service/RequirementKnowledgeImportService.java:161-166 | tags joined by any one separator read as the same tags joined by commas |
| KnowledgeImport.TrimAll | core/src/main/java/com/excalicode/platform/core/service/RequirementKnowledgeImportService.java:35 | each piece is trimmed the way the tag splitter trims |
| KnowledgeImport.TrimmedNonEmpty | core/src/main/java/com/excalicode/platform/core/service/RequirementKnowledgeImportService.java:35 | the splitter keeps exactly the non-empty trimmed pieces, each trimmed and non-empty |
| KnowledgeImport.TrimmedNonEmptyConcat | core/src/main/java/com/excalicode/platform/core/service/RequirementKnowledgeImportService.java:35 | trimming and dropping empty pieces works piece by piece, keeping the order |
| KnowledgeImport.SeparatedOne | core/src/main/java/com/excalicode/platform/core/service/RequirementKnowledgeImportService.java:161-166 | a carriage return vanishes, a full-width comma, semicolon or newline becomes a comma, and any other character is kept |
| KnowledgeImport.SeparatedDropsReturn | core/src/main/java/com/excalicode/platform/core/service/RequirementKnowledgeImportService.java:161-166 | a carriage return anywhere in the cell makes no difference to the normalised text |
| KnowledgeImport.TrimmedNonEmptyOfClean | core/src/main/java/com/excalicode/platform/core/service/RequirementKnowledgeImportService.java:35 | pieces that are already non-empty and trimmed are all kept as they are |
| KnowledgeImport.Dedupe | core/src/main/java/com/excalicode/platform/core/service/RequirementKnowledgeImportService.java:168-172 | the tag list holds each tag once, exactly the input's tags, in the order of first occurrence |
| KnowledgeImport.DedupeDistinct | core/src/main/java/com/excalicode/platform/core/service/RequirementKnowledgeImportService.java:168-172 | a list without repeats is kept unchanged |
| KnowledgeImport.TagsOf | core/src/main/java/com/excalicode/platform/core/service/RequirementKnowledgeImportService.java:161-172 | the tags are distinct, non-empty, trimmed and separator-free; a string is a tag exactly when it is a non-empty trimmed piece of the cell; tags appear in the order of their first occurrence |
| KnowledgeImport.ParseTags | core/src/main/java/com/excalicode/platform/core/service/RequirementKnowledgeImportService.java:157-173 | a blank cell has no tags; otherwise the tags are distinct, non-empty, trimmed and separator-free, and a string is a tag exactly when it is a non-empty trimmed piece of the cell |
| KnowledgeImport.ParseTagsRepeats | core/src/main/java/com/excalicode/platform/core/service/RequirementKnowledgeImportService.java:157-173 | clean tags written into one cell with repeats read back once each, at the place of their first occurrence |
| KnowledgeImport.TagsOfJoin | core/src/main/java/com/excalicode/platform/core/service/RequirementKnowledgeImportService.java:157-173 | distinct clean tags written with any one separator parse back unchanged |
| KnowledgeImport.ParseTagsRoundTrip | core/src/main/java/com/excalicode/platform/core/service/RequirementKnowledgeImportService.java:157-173 | distinct clean tags written into a cell with any one separator parse back unchanged |
| KnowledgeImport.ScanLimit | core/src/main/java/com/excalicode/platform/core/service/RequirementKnowledgeImportService.java:198-199 | the header scan looks at no more than 50 cells of the first row |
| KnowledgeImport.FindHeader | core/src/main/java/com/excalicode/platform/core/service/RequirementKnowledgeImportService.java:200-224 | the column found is the first scanned cell that names the column, or none when no scanned cell does |
| KnowledgeImport.ResolveColumnIndex | core/src/main/java/com/excalicode/platform/core/service/RequirementKnowledgeImportService.java:182-237 | without a header the columns are 0, 1 and 2; with one they lie within the scanned cells |
| KnowledgeImport.HeaderColumns | core/src/main/java/com/excalicode/platform/core/service/RequirementKnowledgeImportService.java:206-223 | with a header, title and content are the first cells naming them |
| KnowledgeImport.NoHeader | core/src/main/java/com/excalicode/platform/core/service/RequirementKnowledgeImportService.java:226-236 | the first row is no header exactly when no scanned cell names the title or none names the content |
| KnowledgeImport.TagsColumnChosen | core/src/main/java/com/excalicode/platform/core/service/RequirementKnowledgeImportService.java:212-233 | the tags column is the first cell naming tags, else the cell after the title, or the title itself when content follows the title |
| KnowledgeImport.TemplateHeader | core/src/main/java/com/excalicode/platform/core/service/RequirementKnowledgeImportService.java:182-237 | the template header 标题, 标签, 正文 resolves to columns 0, 1 and 2 |
| KnowledgeImport.TagsFallBackOnTitle | core/src/main/java/com/excalicode/platform/core/service/RequirementKnowledgeImportService.java:226-233 | with only title and content headers, content right after the title, the tags are read from the title column |
| KnowledgeImport.RowVerdict | core/src/main/java/com/excalicode/platform/core/service/RequirementKnowledgeImportService.java:80-127 | a missing or all-blank row is skipped; a row without title or without content fails with its message; otherwise the trimmed draft is saved or fails with the save's message |
| KnowledgeImport.RowImported | core/src/main/java/com/excalicode/platform/core/service/RequirementKnowledgeImportService.java:100-119 | a row whose trimmed title and content have text is imported given a usable id and a successful write |
| KnowledgeImport.Verdicts | core/src/main/java/com/excalicode/platform/core/service/RequirementKnowledgeImportService.java:79-128 | each row's verdict depends on that row alone |
| KnowledgeImport.Count | core/src/main/java/com/excalicode/platform/core/service/RequirementKnowledgeImportService.java:73-128 | total rows are successes plus failures, total plus skipped is the number of rows, and at most 20 errors are kept, each naming a row of the range by its 1-based number |
| KnowledgeImport.Store | core/src/main/java/com/excalicode/platform/core/service/RequirementKnowledgeImportService.java:111-119 | storing the imported rows keeps the table consistent and removes no entry |
| KnowledgeImport.Failures | core/src/main/java/com/excalicode/platform/core/service/RequirementKnowledgeImportService.java:100-127 | there is at most one failure per row |
| KnowledgeImport.ErrorsAreFirstFailures | core/src/main/java/com/excalicode/platform/core/service/RequirementKnowledgeImportService.java:148-155 | the failed count is the number of failures, and the error list is the first 20 of them |
| KnowledgeImport.ImportedRowsStored | core/src/main/java/com/excalicode/platform/core/service/RequirementKnowledgeImportService.java:111-119 | an imported row not overwritten later is stored as an unvectorised draft with its title, content and tags |
| KnowledgeImport.ImportSheet | core/src/main/java/com/excalicode/platform/core/service/RequirementKnowledgeImportService.java:70-139 | the report's counts add up over the data rows after the header, and the table stays consistent |
| KnowledgeImport.ImportExcel | core/src/main/java/com/excalicode/platform/core/service/RequirementKnowledgeImportService.java:43-146 | no file, a non-Excel name, an unreadable workbook, a missing sheet, too many rows and a missing first row each give their message; otherwise the sheet is imported, and a sheet with only blank rows is refused |
| KnowledgeImport.BlankRowsSkipped | core/src/main/java/com/excalicode/platform/core/service/RequirementKnowledgeImportService.java:90-95 | rows that are all skipped give a report of skipped rows only |
| KnowledgeImport.BlankRowSkipped | core/src/main/java/com/excalicode/platform/core/service/RequirementKnowledgeImportService.java:81-95 | a missing or all-blank row is skipped whichever columns are chosen |
| KnowledgeImport.BlankSheet | core/src/main/java/com/excalicode/platform/core/service/RequirementKnowledgeImportService.java:79-128 | a sheet whose data rows are all blank reports them all as skipped |
| KnowledgeImport.AllBlankRefused | core/src/main/java/com/excalicode/platform/core/service/RequirementKnowledgeImportService.java:130-132 | an upload whose data rows are all blank is refused with "Excel 未包含有效数据" |
| Prd.NumberedIsLanguage | core/src/main/java/com/excalicode/platform/core/service/CosmicPrdService.java:41 | the digit-run check accepts exactly the lines of the form digits, enumeration comma, then any text without a line terminator |
| Prd.ParenthesizedIsLanguage | core/src/main/java/com/excalicode/platform/core/service/CosmicPrdService.java:42 | the check accepts exactly the lines of the form "(", digits, ")", then any text without a line terminator |
| Prd.RulesExclusive | core/src/main/java/com/excalicode/platform/core/service/CosmicPrdService.java:36-43 | no line matches two list rules, and a section header matches none |
| Prd.DetermineStyle | core/src/main/java/com/excalicode/platform/core/service/CosmicPrdService.java:85-99 | a line takes the title style exactly when it is the first line with text |
| Prd.StyleByLanguage | core/src/main/java/com/excalicode/platform/core/service/CosmicPrdService.java:85-99 | other lines are section headers exactly when listed, and take the first, second or third list level exactly when their pattern matches, otherwise the normal style |
| Prd.TrimLines | core/src/main/java/com/excalicode/platform/core/service/CosmicPrdService.java:57-62 | one trimmed text per line |
| Prd.FirstText | core/src/main/java/com/excalicode/platform/core/service/CosmicPrdService.java:54-69 | the first line with text is found, and every line before it is blank |
| Prd.GenerateWordDocument | core/src/main/java/com/excalicode/platform/core/service/CosmicPrdService.java:45-70 | blank content is refused with "文档内容不能为空"; otherwise the document is laid out line by line |
| Prd.LayParagraphs | core/src/main/java/com/excalicode/platform/core/service/CosmicPrdService.java:54-70 | the paragraph loop with its first-line flag yields exactly the line-by-line layout |
| Prd.BlankLineKeepsTitle | core/src/main/java/com/excalicode/platform/core/service/CosmicPrdService.java:57-60 | a leading blank line becomes an empty paragraph and leaves the title to the lines after it |
| Prd.TextLineTakesTitle | core/src/main/java/com/excalicode/platform/core/service/CosmicPrdService.java:62-69 | a leading line with text becomes the title and no later line does |
| Prd.SplitCovers | core/src/main/java/com/excalicode/platform/core/service/CosmicPrdService.java:53 | every character that is not a line break lands in some line of the split |
| Prd.TextHasTextLine | core/src/main/java/com/excalicode/platform/core/service/CosmicPrdService.java:46-56 | content with text has a line with text |
| Prd.ExactlyOneTitle | core/src/main/java/com/excalicode/platform/core/service/CosmicPrdService.java:45-70 | an accepted document has exactly one title, at its first line with text |
| AiProviders.MaskApiKey | core/src/main/java/com/excalicode/platform/core/service/entity/impl/AiProviderServiceImpl.java:42-55 | a provider without key is unchanged; otherwise the key is cleared, a short key masks to "***", a long key keeps its first and last four characters, and nothing else changes |
| AiProviders.MaskHidesMiddle | core/src/main/java/com/excalicode/platform/core/service/entity/impl/AiProviderServiceImpl.java:42-55 | two keys with the same first and last four characters (or both short) give the same masked provider |
| AiProviders.MaskIdempotent | core/src/main/java/com/excalicode/platform/core/service/entity/impl/AiProviderServiceImpl.java:42-55 | masking twice is masking once |
| AiProviders.ListProvidersWithModels | core/src/main/java/com/excalicode/platform/core/service/entity/impl/AiProviderServiceImpl.java:23-32 | one provider per stored provider, each with its own models and its key masked away |
| FormChecks.ValidateRequirement | frontend/src/utils/index.js:36-55 | a description is valid exactly when its trimmed length is between 10 and 5000, otherwise with the message of the bound it breaks |
| FormChecks.RequirementTrimInvariant | frontend/src/utils/index.js:36-55 | validating the trimmed description gives the same verdict |
| FormChecks.ValidateRequirementName | frontend/src/utils/index.js:62-89 | a name is valid exactly when its trimmed length is between 2 and 100, with messages for empty, short and long names |
| FormChecks.EnsureRequirementName | frontend/src/api/cosmic.js:476-485 | a name is kept, trimmed, exactly when it passes the name rules, otherwise the rule's message is the error |
| FormChecks.EnsureNameIdempotent | frontend/src/api/cosmic.js:476-485 | a kept name is kept again unchanged |
| FormChecks.ValidateExpectedProcessCount | frontend/src/utils/index.js:96-118 | an empty field is valid without value; otherwise valid exactly when Number() gives a positive integer, which becomes the value |
| FormChecks.TypedCountAccepted | frontend/src/utils/index.js:96-118 | a count typed as digits, with white space around it, is accepted with its value |
| FormChecks.NumberCountAccepted | frontend/src/utils/index.js:96-118 | a positive integer number is accepted and a non-positive one refused |
| FormChecks.ZeroFractionAccepted | frontend/src/utils/index.js:96-118 | digits followed by a point and zeros are accepted as the whole number |
| FormChecks.ExponentAccepted | frontend/src/utils/index.js:96-118 | a count written as n"e"x is accepted as n times ten to the x |
| FormChecks.HexAccepted | frontend/src/utils/index.js:96-118 | a positive hexadecimal literal "0x..." is accepted with its value |
| FormChecks.FractionRefused | frontend/src/utils/index.js:96-118 | a count with a non-zero tenths digit is refused |
| FormChecks.BlankCountAccepted | frontend/src/utils/index.js:96-118 | white space alone is an empty field: valid, without value |
| JsNumbers.DecimalDigitsIn | frontend/src/utils/index.js:108 | a text reads as a decimal digit value exactly when all its characters are digits |
| JsNumbers.DigitsInAppend | frontend/src/utils/index.js:108 | the digit value of a concatenation shifts the first part by the length of the second |
| JsNumbers.DigitsNumber | frontend/src/utils/index.js:108 | Number() of a decimal numeral is that number |
| JsNumbers.FractionNumber | frontend/src/utils/index.js:108 | Number() of n"."f is the digits of n and f scaled down by the length of f |
| JsNumbers.ExponentNumber | frontend/src/utils/index.js:108 | Number() of n"e"x is n times ten to the x |
| JsNumbers.StringToNumber | frontend/src/utils/index.js:108 | Number() of the empty string is 0; the result is infinite exactly for "Infinity" with an optional sign, and negative exactly for the minus sign |
| JsNumbers.HexNumber | frontend/src/utils/index.js:108 | Number() of "0x" followed by hexadecimal digits is their value |
| JsValues.Or | frontend/src/api/request.js:66-69 | a || b is truthy exactly when one of them is, and is one of them |
| JsValues.FirstTruthy | frontend/src/api/request.js:66 | a chain of || over keys is truthy exactly when some key's value is, and then it is the first truthy one |
| JsValues.ToJsString | frontend/src/api/cosmic.js:515 | String() of a JavaScript string is that string |
| HttpClient.HandleResponseSuccess | frontend/src/api/request.js:88-95 | a response is delivered whole exactly when a blob was asked for or its content type names a binary or Office document, and otherwise only its data |
| HttpClient.StatusMessage | frontend/src/api/request.js:69 | the fallback message starts with "请求失败（" and names the status |
| HttpClient.SpreadsheetDeliveredWhole | frontend/src/api/request.js:25-32 | an Office Open XML response is delivered whole |
| HttpClient.JsonDeliveredAsData | frontend/src/api/request.js:25-32 | a JSON response that did not ask for a blob is delivered as its data |
| HttpClient.NormalizeBlobPayload | frontend/src/api/request.js:37-49 | a blob holding JSON gives the parsed value, other non-empty text gives an object whose detail is the text, and an empty or unreadable blob gives null |
| HttpClient.ResolveProblemDetail | frontend/src/api/request.js:54-59 | a body that is not a blob is taken as it is |
| HttpClient.Coalesce | frontend/src/api/request.js:73 | a ?? b is a unless a is null or undefined |
| HttpClient.AttachProblemDetail | frontend/src/api/request.js:64-86 | an object problem sets the message to detail, message, title, status text or status line and attaches the problem with its status; a non-blank string becomes the trimmed message; otherwise the error keeps a truthy message or gets the status line; nothing else changes and the message is always truthy |
| HttpClient.HandleResponseError | frontend/src/api/request.js:97-135 | a timeout and a missing response get their messages; a 401 clears the session and goes to the login page unless the request opted out or the page is the login page; any other failure with a response is rejected with the problem read from its body attached to the error, keeping the session |
| HttpClient.ResponseFailureKeepsError | frontend/src/api/request.js:97-135 | any failure other than a timeout, a missing response or a 401 keeps the session and rejects the error it received, changed only in its message and attached problem, with a message that has text |
| HttpClient.SkippedRedirectUntouched | frontend/src/api/request.js:114-117 | a 401 on a request that opted out of the redirect is rejected with the very error that arrived |
| HttpClient.ExpiredLoginRedirects | frontend/src/api/request.js:119-128 | an expired login clears the session and navigates exactly when not already on the login page |
| HttpClient.TimeoutBeforeResponse | frontend/src/api/request.js:98-101 | a timeout is reported as such even when the server answered |
| HttpClient.DetailNamesError | frontend/src/api/request.js:64-79 | a problem-detail body names the error by its detail and keeps the response status when the body has none |
| HttpClient.BlobTextNamesError | frontend/src/api/request.js:37-49 | a blob error body that is not JSON names the error by its text |
| CosmicStream.LinePiece | frontend/src/api/cosmic.js:104-124 | a line contributes at most one non-empty piece |
| CosmicStream.SpacedDataLine | frontend/src/api/cosmic.js:107-118 | "data: " followed by a payload contributes the payload |
| CosmicStream.UnspacedDataLine | frontend/src/api/cosmic.js:107-118 | "data:" followed directly by a payload contributes the payload |
| CosmicStream.MarkerLinesSkipped | frontend/src/api/cosmic.js:112-114 | the done marker and empty data lines contribute nothing |
| CosmicStream.PlainLineVerbatim | frontend/src/api/cosmic.js:119-124 | a line that is no data line contributes itself when it has text and nothing otherwise |
| CosmicStream.LinePieces | frontend/src/api/cosmic.js:104-125 | no more pieces than lines |
| CosmicStream.PiecesNonEmpty | frontend/src/api/cosmic.js:104-125 | every piece is non-empty |
| CosmicStream.LinePiecesAppend | frontend/src/api/cosmic.js:104-125 | the pieces of two runs of lines are the pieces of each, in order |
| CosmicStream.StreamPiecesAppend | frontend/src/api/cosmic.js:97-126 | the pieces of two runs of chunks are the pieces of each, in order |
| CosmicStream.DoneDoesNotEnd | frontend/src/api/cosmic.js:112-114 | the done marker is skipped and the lines after it still count |
| CosmicStream.ChunkOfLines | frontend/src/api/cosmic.js:101-104 | a chunk holding whole lines gives the pieces of those lines |
| CosmicStream.FrameInOneChunk | frontend/src/api/cosmic.js:101-118 | a data frame inside one chunk gives its payload |
| CosmicStream.FrameCutAcrossChunks | frontend/src/api/cosmic.js:101-124 | a data frame whose prefix is split between two chunks is taken as two plain pieces, prefix included |
| CosmicStream.TwoPlainChunks | frontend/src/api/cosmic.js:101-124 | two plain chunks without line breaks give themselves |
| CosmicStream.SingleLineChunk | frontend/src/api/cosmic.js:101-124 | a chunk without line break gives the piece of its one line |
| CosmicStream.Calls | frontend/src/api/cosmic.js:115-123 | one callback per piece |
| CosmicStream.CallsAppend | frontend/src/api/cosmic.js:115-123 | the callbacks of two runs of pieces are those of the first then those of the second with the text so far |
| CosmicStream.CallsGrow | frontend/src/api/cosmic.js:115-123 | each callback gets its piece and the full text up to and including it |
| CosmicStream.TextOnlyGrows | frontend/src/api/cosmic.js:115-123 | the full text of each callback extends the previous one by exactly its piece |
| CosmicStream.ReadLine | frontend/src/api/cosmic.js:105-124 | reading one line yields exactly its piece |
| CosmicStream.ReadChunk | frontend/src/api/cosmic.js:101-125 | reading a chunk appends the pieces of its lines to the text and their callbacks to the calls |
| CosmicStream.AccumulateStream | frontend/src/api/cosmic.js:95-128 | the loop's full text is the concatenated pieces of all chunks plus the final flush, and the callbacks are those of the pieces |
| CosmicStream.StreamPiecesSnoc | frontend/src/api/cosmic.js:97-126 | the pieces of a stream grow chunk by chunk by the pieces of the chunk's lines |
| CosmicStream.ParseStreamError | frontend/src/api/cosmic.js:379-409 | an unreadable body gives the bare fallback and an empty body the fallback with the status |
| CosmicStream.StreamErrorDetail | frontend/src/api/cosmic.js:388-397 | a JSON error body is reported by its detail |
| CosmicStream.StreamErrorText | frontend/src/api/cosmic.js:388-405 | text that is not JSON is reported trimmed, JSON that is not an object by the fallback with the status |
| CosmicStream.EnhanceRequirement | frontend/src/api/cosmic.js:25-134 | a payload complaint is the error; a cancelled fetch, a thrown fetch, a failed status and a missing body each give their own message; otherwise the result is the trimmed streamed text, or the description when that is blank |
| CosmicStream.CancelledCall | frontend/src/api/cosmic.js:77-80 | a cancelled call is reported as cancelled |
| CosmicStream.SilentStreamKeepsDescription | frontend/src/api/cosmic.js:128-133 | a stream with nothing visible gives back the original description |
| CosmicClient.HandleApiError | frontend/src/api/cosmic.js:490-535 | an attached problem decides first by its detail, then its title; an error without response keeps its own message; a blob body gives the file-stream message; an object body gives its detail, message or title and a non-blank text body its trimmed text |
| CosmicClient.ReadDetailFields | frontend/src/api/cosmic.js:513 | reading detail, then message, then title of a body is the || chain over those fields |
| CosmicClient.ProblemDetailFirst | frontend/src/api/cosmic.js:491-498 | with an attached problem, the response and the error's own message do not matter |
| CosmicClient.StatusFallbackUnreachable | frontend/src/api/cosmic.js:523-534 | when the body explains nothing, the message is the status table's or names the status; the generic fallback after them is never used |
| CosmicClient.InterceptedDetailShown | frontend/src/api/cosmic.js:490-498 | a problem-detail body, once attached by the response interceptor, is shown as the scene followed by its detail |
| CosmicClient.ExpiredLoginShown | frontend/src/api/cosmic.js:500-503 | an expired login reaches the caller as the interceptor's message in every scene |
| CosmicClient.NetworkFailureShown | frontend/src/api/cosmic.js:500-503 | a request without answer is shown with the network message |
| CosmicClient.LineRun | frontend/src/api/cosmic.js:339-344 | the run of characters a regular-expression dot matches is a prefix ended by a line terminator or the end |
| CosmicClient.StarMatchFrom | frontend/src/api/cosmic.js:339 | a match of the filename* form is non-empty, free of line terminators and follows the marker in the header |
| CosmicClient.QuotedCapture | frontend/src/api/cosmic.js:344 | the plain filename form captures something exactly when text follows it |
| CosmicClient.NameMatchFrom | frontend/src/api/cosmic.js:344 | a match of the plain filename form is non-empty and free of line terminators |
| CosmicClient.ExtractFilename | frontend/src/api/cosmic.js:333-354 | a missing or empty header gives no name |
| CosmicClient.DocumentFileName | frontend/src/api/cosmic.js:319-320 | without a name from the header the document is saved as 需求文档.docx |
| CosmicClient.StarMatchSkips | frontend/src/api/cosmic.js:339 | positions where the marker does not start are passed over |
| CosmicClient.StarMatchAt | frontend/src/api/cosmic.js:339 | the filename* form captures everything after the marker to the end of the line |
| CosmicClient.AttachmentNameRead | frontend/src/api/cosmic.js:333-342 | "attachment; filename*=UTF-8''" followed by an encoded name yields its decoding |
| CosmicClient.PlainNameRead | frontend/src/api/cosmic.js:344-347 | a quoted plain name is captured without its quotes, and an unquoted one whole |
| CosmicClient.LoneQuoteCaptured | frontend/src/api/cosmic.js:344 | a lone quote after "filename=" is captured as the name itself |

## Left out

- Apache POI: reading and writing workbooks and Word files, styles, fonts, column widths. Sheets are sequences of rows of cell texts, a Word document is its sequence of styled paragraphs, and a merge region is a row interval.
- Persistence and external services: the database, the AI model, the vector store, Redis and the reranker. Each appears as a parameter (a table, an answer, a result list, a success flag) or is left out.
- ChatBiService listMySessions and getSessionDetail: paging over stored sessions, pure persistence.
- ChatBiService persistMessage, touchSession and the log lines: the stored chat history is persistence. The model returns the answer only, so the exception message the source stores with a failed answer is not kept; `Fault.Unexpected` carries it without using it.
- RequirementKnowledgeService search and toMatch: the vector-store query and the casting of its metadata. The top-k and threshold rules are modelled.
- Concurrency: the asynchronous dispatch of analysis tasks and vacation processing. Their outcomes are modelled as the states they write.
- String lengths count Unicode scalar values, not UTF-16 code units. The two agree for every character the source's texts use (Chinese and ASCII, all in the Basic Multilingual Plane).
- Case mapping (`toLowerCase`, `toUpperCase`, `equalsIgnoreCase`) covers ASCII letters only.
- Floating point: the similarity threshold is a real number, not an IEEE double. Numeric spreadsheet cells arrive as the text a formatter produced.
- JsNumbers: `Number()` yields the exact decimal value. Rounding to a double is not modelled, so a digit string beyond 2^53 is read exactly.
- JsValues: JSON numbers are integers. Fractional numbers and NaN do not occur in the bodies the client inspects.
- Vacations.MissingColumns: the required-column map of the source has no defined iteration order. The model lists missing columns in declaration order.
- Browser effects are returned as flags rather than performed: the ElMessage toast, the localStorage removals and the router push.
- `TextDecoder`, `JSON.parse`, `decodeURIComponent` and `fetch` are parameters. Decoded chunks arrive as strings, and `JSON.parse` is given as an optional parsed value.
- Forwarding an abort signal to the request controller and triggering a download (`downloadBlob`) are browser plumbing.
- ChatBiPlanValidator.parseDateTimeLoose: date parsing through java.time. Date filter values are kept as validated text.
- ChatBiSqlSafetyGuard: a second check through JSqlParser. The model proves directly that the built SQL uses only whitelisted expressions.
- `StringUtils.cleanPath`, UUIDs and MD5 digests are function parameters.
- Secondary helpers:
  - `normalizeBaseURL` and `formatValue`.
  - The batch vectorisation service.
  - The legacy duplicates (ExcelService, PrdService, service/impl/AiProviderServiceImpl).
  - JWT, security filters, controllers and the UI.
- CosmicImport.ExtractEntries: the loop method's ensures states equality with the reference walk ExtractUpTo. The properties of that walk are stated by ExtractUpToSpec rather than repeated on the method.
- CosmicClient.ExtractFilename: the function's own ensures covers only the missing header. What the two header forms yield is stated by AttachmentNameRead, PlainNameRead and LoneQuoteCaptured.
- CosmicStream.ParseStreamError: the function's own ensures covers the unreadable and empty bodies. The JSON and text cases are stated by StreamErrorDetail and StreamErrorText.
- CosmicTasks.Apply: models the intended writes, where a running or successful update clears the error message. The source's `updateById` skips the null fields of the update object, so the old message stays. CosmicTasks.ApplyAsWritten models that write (see Findings).
- CosmicTasks.ProcessingEnds: "a succeeded task holds no error message" holds for the intended writes only. A failed task retried successfully keeps its old message as written (CosmicTasks.RetriedTaskKeepsFailureMessage).
- KnowledgeEntries.SaveDraft: models the intended write, where null tags and a null vector timestamp clear the stored columns. The source's `saveOrUpdate` skips null fields, so re-saving an existing document keeps them. KnowledgeEntries.SaveDraftAsWritten models that and agrees with SaveDraft for a new document (see Findings).
- KnowledgeEntries.UpdateDraft: models the intended write. As written, blank tags keep the stored tags and the stored vector timestamp stays (KnowledgeEntries.UpdateDraftAsWritten).
- KnowledgeEntries.UpdateVectorState: models the intended write. As written, clearing the flag keeps the old timestamp (KnowledgeEntries.UpdateVectorStateAsWritten, KnowledgeEntries.ClearedFlagKeepsTimestamp).
- KnowledgeEntries.SavedTagsReadBack: holds for the intended write only. As written, a re-saved entry with no tags reads back its old tags (KnowledgeEntries.ResavedDraftKeepsStaleColumns).
- KnowledgeImport.Store: writes through KnowledgeEntries.SaveDraft, the intended write. The import's documents carry no id and get a fresh random one, so each save is an insert, where the as-written and intended writes agree. The model takes the ids as a parameter and does not require them to be fresh.
- KnowledgeImport.ImportedRowsStored: rests on KnowledgeEntries.SaveDraft, the intended write, as KnowledgeImport.Store does.
- KnowledgeImport.ImportSheet: rests on KnowledgeEntries.SaveDraft, the intended write, as KnowledgeImport.Store does.
- CosmicImport.ImportCosmicProcesses: groups rows by the (trigger, process) pair, the corrected rule. The source's joined text key can merge two pairs (CosmicImport.GroupByTextKey, see Findings).
- TaskManagement.ReadDraft: reads the workload with the corrected check, positive after rounding to two places. As written, a workload such as 0.004 passes and is stored as 0.00 (TaskManagement.ParseWorkloadAsWritten, see Findings).
- TaskManagement.ReadDrafts: uses the corrected workload check, as TaskManagement.ReadDraft does.
- TaskManagement.ParseTaskTemplate: uses the corrected workload check, as TaskManagement.ReadDraft does. The workbook is given as read, unreadable or malformed. The "Excel 缺少有效的工作表" branch has no counterpart: `getSheetAt(0)` throws for a workbook without sheets, so that workbook is a malformed one and is reported as "解析 Excel 失败: …". Exceptions raised while the rows are read are not modelled.
- TaskManagement.PublishTaskBatch: checks items with the corrected TaskManagement.ItemError, positive after rounding to two places. As written, TaskManagement.ItemErrorAsWritten lets a workload of 0.004 through.
- Knowledge.UpsertDocument: chunks with the corrected next start. As written, the chunk walk can stall (Knowledge.StallAsWritten) or drop a character (Knowledge.DropAsWritten).
- Knowledge.FileOutcome: ingests through the corrected chunk walk, as Knowledge.UpsertDocument does.
- Knowledge.ImportFolder: ingests through the corrected chunk walk, as Knowledge.UpsertDocument does.
- CosmicStream.EnhanceRequirement: the stream body is the complete list of chunks the reader delivered. A `reader.read()` that rejects part-way propagates as it is and is not represented.
- FormChecks.ExponentAccepted: `Number()` is exact in the model. A count such as "1e309" overflows a double to Infinity and is refused by the source, while the lemma accepts it.
- FormChecks.FractionRefused: `Number()` is exact in the model. When n is at least 2^52, "n.d" rounds to an integer double and the source accepts it, while the lemma refuses it.
- Text.ParseBoundedInt: reads ASCII digits only. `Integer.parseInt` and `Long.parseLong` also accept other Unicode decimal digits, such as "１２".
- ChatBiSql.CastParam: ASCII digits only, through Text.ParseBoundedInt.
- Decimals.ParseDecimal: ASCII digits only. `new BigDecimal` also accepts other Unicode decimal digits.
- CosmicImport.OpenSheet: a workbook that POI cannot open is given as the text of the exception's message. Which files POI refuses, and the "null" Java prints for a missing message, are not modelled.
- Vacations.ParseValidVacationRecords: the workbook is given as read, unreadable or malformed. `XSSFWorkbook` cannot open an .xls file, and that failure is one of the malformed outcomes.

## Findings

| source | as written | input that shows it | evidently intended | confidence | as-written member | corrected member |
|---|---|---|---|---|---|---|
| core/src/main/java/com/excalicode/platform/core/service/RequirementKnowledgeService.java:291 | `Math.clamp(0, overlap, chunkSize - 1)` passes the value 0 as the value and the overlap as the lower bound | chunk size 100 (raised to 200) with overlap 200 throws IllegalArgumentException | the overlap clamped into [0, chunkSize - 1] | not executed | Knowledge.OverlapAsWritten, Knowledge.OverlapAsWrittenThrows | Knowledge.Overlap, Knowledge.OverlapAgreesBelowChunkSize |
| core/src/main/java/com/excalicode/platform/core/service/RequirementKnowledgeService.java:296-313 | the next start is `max(0, end - overlap)`, which can fall back to or before the current start after an early newline cut | chunk size 200, overlap 199, a newline at 150 and none in 151-200: the next start is 0 again and the loop never ends | every step advances while keeping the overlap when it can | not executed | Knowledge.StepAsWritten, Knowledge.StallAsWritten | Knowledge.NextStart, Knowledge.Windows, Knowledge.SplitIntoChunks |
| core/src/main/java/com/excalicode/platform/core/service/RequirementKnowledgeService.java:310-313 | with overlap 0 the next start becomes `end + 1` | chunk size 200, overlap 0, no newline in the first 201 characters: character 200 is in no chunk | consecutive chunks meet, so every character is in some chunk | not executed | Knowledge.StepAsWritten, Knowledge.DropAsWritten | Knowledge.NextStart, Knowledge.ChunkWindowsCover |
| core/src/main/java/com/excalicode/platform/core/service/CosmicService.java:392 | rows are grouped by the text `trigger + "||" + process` | trigger "a\|\|b" with process "c", and trigger "a" with process "b\|\|c": both rows land in one process | grouping by the (trigger, process) pair | not executed | CosmicImport.GroupByTextKey, CosmicImport.TextKeysCollide | CosmicImport.Group, CosmicImport.GroupByFirstOccurrence |
| core/src/main/java/com/excalicode/platform/core/service/TaskManagementService.java:372-375 | the workload is checked for `> 0` before it is rounded to two places | "0.004" passes the check and is stored as 0.00 | the stored two-place workload is positive | not executed | TaskManagement.ParseWorkloadAsWritten, TaskManagement.TinyWorkloadBecomesZero | TaskManagement.ParseWorkload, TaskManagement.CorrectedWorkloadNarrower |
| core/src/main/java/com/excalicode/platform/core/service/TaskManagementService.java:154-157 | a publish item's workload is checked for `> 0` and only later rounded to two places (line 177) | an item with workload 0.004 is accepted and published as 0.00 | the published two-place workload is positive | not executed | TaskManagement.ItemErrorAsWritten, TaskManagement.TinyWorkloadPublishedAsZero | TaskManagement.ItemError, TaskManagement.ItemCheckNarrower |
| core/src/main/java/com/excalicode/platform/core/service/RequirementKnowledgeService.java:369-372 | `Math.clamp(0.0d, minScore, 1.0d)` passes 0.0 as the value and the score as the lower bound | a requested score of 1.5 throws IllegalArgumentException (lower bound above upper bound) | the score clamped into [0, 1] | not executed | Knowledge.ThresholdAsWritten, Knowledge.ThresholdAsWrittenThrows | Knowledge.Threshold, Knowledge.ThresholdAgreesUpToOne |
| core/src/main/java/com/excalicode/platform/core/service/CosmicAnalysisTaskService.java:151-178 | running and success updates set the error message to null, and `updateById` skips null fields | a FAILED task with message "boom" retried successfully ends SUCCEEDED and still carries "boom" | running and success clear the error message | not executed | CosmicTasks.ApplyAsWritten, CosmicTasks.RetriedTaskKeepsFailureMessage | CosmicTasks.Apply, CosmicTasks.ProcessingEnds |
| core/src/main/java/com/excalicode/platform/core/service/entity/impl/RequirementKnowledgeEntryServiceImpl.java:55-65 | saveDraft sets null tags and a null vector timestamp, and `saveOrUpdate` skips null fields | re-saving a vectorised entry with tags "a" and no new tags keeps tags "a" and the old timestamp next to flag 0 | the saved row carries the draft's columns, nulls included | not executed | KnowledgeEntries.SaveDraftAsWritten, KnowledgeEntries.ResavedDraftKeepsStaleColumns | KnowledgeEntries.SaveDraft, KnowledgeEntries.SavedTagsReadBack |
| core/src/main/java/com/excalicode/platform/core/service/entity/impl/RequirementKnowledgeEntryServiceImpl.java:104-113 | clearing the vectorised flag sets the timestamp to null, and `updateById` skips it | a vectorised entry with timestamp 5, marked not vectorised, keeps timestamp 5 | the timestamp is cleared with the flag | not executed | KnowledgeEntries.UpdateVectorStateAsWritten, KnowledgeEntries.ClearedFlagKeepsTimestamp | KnowledgeEntries.UpdateVectorState, KnowledgeEntries.UpdateDraft |
