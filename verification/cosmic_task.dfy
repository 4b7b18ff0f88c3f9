/** The asynchronous COSMIC analysis task: submitting a list of functional
    process descriptions, the status machine a worker drives a task through,
    and the response built from a stored task. Storage, the clock, JSON and
    the analysis itself are parameters. */
module CosmicTasks {

  import opened Results
  import opened Text
  import opened CosmicProcesses

  // ---------------------------------------------------------------------------
  // Status
  // ---------------------------------------------------------------------------

  datatype TaskStatus = Pending | Running | Succeeded | Failed

  /** The enum constant name, as stored. */
  function StatusName(s: TaskStatus): string {
    match s
    case Pending => "PENDING"
    case Running => "RUNNING"
    case Succeeded => "SUCCEEDED"
    case Failed => "FAILED"
  }

  function StatusLabel(s: TaskStatus): string {
    match s
    case Pending => "待处理"
    case Running => "生成中"
    case Succeeded => "已完成"
    case Failed => "失败"
  }

  /** The constant names are upper case already. */
  lemma NameIsUpper(s: TaskStatus)
    ensures Upper(StatusName(s)) == StatusName(s)
  {
    var n := StatusName(s);
    assert forall k :: 0 <= k < |n| ==> UpperChar(n[k]) == n[k];
  }

  /** The stored status, matched case-insensitively against the constant
      names; a missing or unknown value is read as pending. */
  function ResolveStatus(stored: Option<string>): (r: TaskStatus)
    ensures forall s: TaskStatus :: stored.Some? && Upper(stored.value) == StatusName(s) ==> r == s
    ensures (stored.None? || forall s: TaskStatus :: Upper(stored.value) != StatusName(s)) ==> r == Pending
  {
    if stored.None? then Pending
    else
      var key := Upper(stored.value);
      if key == StatusName(Pending) then Pending
      else if key == StatusName(Running) then Running
      else if key == StatusName(Succeeded) then Succeeded
      else if key == StatusName(Failed) then Failed
      else Pending
  }

  /** Storing a status by name and reading it back gives the status, in any
      letter case. */
  lemma ResolveStoredName(s: TaskStatus, stored: string)
    requires EqualsIgnoreCase(StatusName(s), stored)
    ensures ResolveStatus(Some(stored)) == s
  {
    NameIsUpper(s);
  }

  // ---------------------------------------------------------------------------
  // Failure messages
  // ---------------------------------------------------------------------------

  const MAX_ERROR_LENGTH: nat := 4000

  /** A message without text is dropped; otherwise it is trimmed and cut to
      `maxLength` characters. */
  function TrimToLength(message: Option<string>, maxLength: nat): (r: Option<string>)
    ensures r.Some? <==> message.Some? && HasText(message.value)
    ensures r.Some? ==> |r.value| <= maxLength && StartsWith(JavaTrim(message.value), r.value)
    ensures r.Some? && |JavaTrim(message.value)| <= maxLength ==> r.value == JavaTrim(message.value)
    ensures r.Some? && |JavaTrim(message.value)| > maxLength ==> |r.value| == maxLength
  {
    if message.None? || !HasText(message.value) then None
    else
      var trimmed := JavaTrim(message.value);
      if |trimmed| <= maxLength then Some(trimmed) else Some(trimmed[..maxLength])
  }

  /** Cutting a message that already fits changes nothing. */
  lemma TrimToLengthFits(message: string, maxLength: nat)
    requires HasText(message) && JavaTrim(message) == message && |message| <= maxLength
    ensures TrimToLength(Some(message), maxLength) == Some(message)
  {
  }

  // ---------------------------------------------------------------------------
  // Submitting
  // ---------------------------------------------------------------------------

  const EMPTY_FUNCTIONAL_PROCESSES := "功能过程列表不能为空"

  function BlankDescriptionMessage(index: nat): string {
    "第 " + Ordinal(index) + " 个功能过程描述为空"
  }

  /** One submitted description: a missing process or description counts as
      empty and is refused; any other is trimmed. */
  function SanitizeDescription(description: Option<string>, index: nat): (r: Result<string>)
    ensures r.Ok? <==> description.Some? && HasText(description.value)
    ensures r.Ok? ==> r.value == JavaTrim(description.value)
    ensures r.Err? ==> r.error == BlankDescriptionMessage(index)
  {
    if description.None? || !HasText(description.value) then Err(BlankDescriptionMessage(index))
    else Ok(JavaTrim(description.value))
  }

  /** The submitted descriptions: the list must not be empty, every
      description must have text, and each is trimmed in place. */
  function SanitizeFunctionalProcesses(descriptions: seq<Option<string>>): (r: Result<seq<string>>)
    ensures descriptions == [] ==> r == Err(EMPTY_FUNCTIONAL_PROCESSES)
    ensures r.Ok? <==> descriptions != [] && forall i :: 0 <= i < |descriptions| ==>
                         descriptions[i].Some? && HasText(descriptions[i].value)
    ensures r.Ok? ==> |r.value| == |descriptions|
                      && forall i :: 0 <= i < |descriptions| ==> r.value[i] == JavaTrim(descriptions[i].value)
  {
    if descriptions == [] then Err(EMPTY_FUNCTIONAL_PROCESSES)
    else
      var r := MapIndexed(descriptions, SanitizeDescription, 0);
      if r.Ok? then
        assert forall i :: 0 <= i < |descriptions| ==> SanitizeDescription(descriptions[i], i).Ok?;
        r
      else r
  }

  /** A refused list names its first description without text. */
  lemma FirstBlankDescription(descriptions: seq<Option<string>>)
    requires descriptions != [] && SanitizeFunctionalProcesses(descriptions).Err?
    ensures exists i :: 0 <= i < |descriptions|
                        && SanitizeFunctionalProcesses(descriptions).error == BlankDescriptionMessage(i)
                        && !(descriptions[i].Some? && HasText(descriptions[i].value))
                        && forall k :: 0 <= k < i ==> descriptions[k].Some? && HasText(descriptions[k].value)
  {
    MapIndexedFirstFailure(descriptions, SanitizeDescription, 0);
  }

  /** No character `trim` removes without being white space. */
  predicate PlainText(s: string) {
    forall k :: 0 <= k < |s| ==> (IsTrimmable(s[k]) ==> IsJavaWhitespace(s[k]))
  }

  /** Sanitising again changes nothing, for descriptions free of the control
      characters that `trim` removes but `hasText` counts as text. */
  lemma SanitizeDescriptionsIdempotent(descriptions: seq<Option<string>>)
    requires SanitizeFunctionalProcesses(descriptions).Ok?
    requires forall i :: 0 <= i < |descriptions| ==> descriptions[i].Some? && PlainText(descriptions[i].value)
    ensures var once := SanitizeFunctionalProcesses(descriptions).value;
            SanitizeFunctionalProcesses(seq(|once|, i requires 0 <= i < |once| => Some(once[i]))) == Ok(once)
  {
    var once := SanitizeFunctionalProcesses(descriptions).value;
    var again := seq(|once|, i requires 0 <= i < |once| => Some(once[i]));
    forall i | 0 <= i < |once|
      ensures HasText(once[i]) && JavaTrim(once[i]) == once[i]
    {
      TrimmedHasText(descriptions[i].value);
      JavaTrimIdempotent(descriptions[i].value);
    }
    var r := SanitizeFunctionalProcesses(again);
    assert r.Ok?;
    assert r.value == once;
  }

  /** A stored task. The request and result payloads are the JSON the row
      keeps; `deleted` is the logical-delete flag. */
  datatype Task = Task(userId: int, status: Option<string>, requestPayload: string,
                       responsePayload: Option<string>, errorMessage: Option<string>, deleted: int)

  const NO_USER := "未检测到登录用户，无法提交任务"

  /** A new task for a signed-in user: pending, holding the sanitised
      request serialised by `serialize`. */
  function SubmitTask(user: Option<int>, descriptions: Option<seq<Option<string>>>,
                      serialize: seq<string> -> string): (r: Result<Task>)
    ensures user.None? ==> r == Err(NO_USER)
    ensures user.Some? && descriptions.None? ==> r == Err(EMPTY_FUNCTIONAL_PROCESSES)
    ensures r.Ok? <==> user.Some? && descriptions.Some? && SanitizeFunctionalProcesses(descriptions.value).Ok?
    ensures r.Ok? ==> r.value.userId == user.value && r.value.deleted == 0 && r.value.errorMessage.None?
                      && ResolveStatus(r.value.status) == Pending
                      && r.value.requestPayload == serialize(SanitizeFunctionalProcesses(descriptions.value).value)
  {
    if user.None? then Err(NO_USER)
    else if descriptions.None? then Err(EMPTY_FUNCTIONAL_PROCESSES)
    else
      var sanitized :- SanitizeFunctionalProcesses(descriptions.value);
      Ok(Task(user.value, Some(StatusName(Pending)), serialize(sanitized), None, None, 0))
  }

  // ---------------------------------------------------------------------------
  // Processing
  // ---------------------------------------------------------------------------

  /** What a call into other code did: returned a value, or threw an
      exception whose message may be missing. */
  datatype Outcome<T> = Returned(value: T) | Threw(message: Option<string>)

  /** The updates a worker writes to a task's row. */
  datatype Update =
    | MarkRunning
    | SaveSuccess(payload: string)
    | SaveFailure(message: Option<string>)

  /** Java's string concatenation prints a missing message as "null". */
  function MessageText(message: Option<string>): string {
    if message.None? then "null" else message.value
  }

  const PARSE_FAILURE := "任务入参解析失败: "

  /** The updates processing a task writes. A missing or deleted task, and a
      task already succeeded, are left alone. Otherwise it is marked
      running, then its request is parsed (`parsed`) and analysed, the
      result serialised (`analysed`, which carries the serialised result or
      the exception either step threw), and exactly one of success or
      failure is saved. */
  function ProcessTask(task: Option<Task>, parsed: Outcome<seq<string>>, analysed: Outcome<string>): (r: seq<Update>)
    ensures r == [] <==> task.None? || task.value.deleted == 1 || ResolveStatus(task.value.status) == Succeeded
    ensures r != [] ==> |r| == 2 && r[0] == MarkRunning && !r[1].MarkRunning?
    ensures r != [] ==> (r[1].SaveSuccess? <==> parsed.Returned? && analysed.Returned?)
    ensures r != [] && parsed.Threw? ==>
              r[1] == SaveFailure(TrimToLength(Some(PARSE_FAILURE + MessageText(parsed.message)), MAX_ERROR_LENGTH))
    ensures r != [] && parsed.Returned? && analysed.Threw? ==>
              r[1] == SaveFailure(TrimToLength(analysed.message, MAX_ERROR_LENGTH))
    ensures r != [] && parsed.Returned? && analysed.Returned? ==> r[1] == SaveSuccess(analysed.value)
  {
    if task.None? || task.value.deleted == 1 then []
    else if ResolveStatus(task.value.status) == Succeeded then []
    else if parsed.Threw? then
      [MarkRunning, SaveFailure(TrimToLength(Some(PARSE_FAILURE + MessageText(parsed.message)), MAX_ERROR_LENGTH))]
    else if analysed.Threw? then
      [MarkRunning, SaveFailure(TrimToLength(analysed.message, MAX_ERROR_LENGTH))]
    else
      [MarkRunning, SaveSuccess(analysed.value)]
  }

  /** Writing one update to a task's row. */
  function Apply(task: Task, u: Update): (r: Task)
    ensures r.userId == task.userId && r.requestPayload == task.requestPayload && r.deleted == task.deleted
    ensures r.status == Some(StatusName(match u
                                        case MarkRunning => Running
                                        case SaveSuccess(_) => Succeeded
                                        case SaveFailure(_) => Failed))
    ensures u.MarkRunning? ==> r.errorMessage.None? && r.responsePayload == task.responsePayload
    ensures u.SaveSuccess? ==> r.errorMessage.None? && r.responsePayload == Some(u.payload)
    ensures u.SaveFailure? ==> r.errorMessage == u.message && r.responsePayload == task.responsePayload
  {
    match u
    case MarkRunning => task.(status := Some(StatusName(Running)), errorMessage := None)
    case SaveSuccess(payload) => task.(status := Some(StatusName(Succeeded)), responsePayload := Some(payload), errorMessage := None)
    case SaveFailure(message) => task.(status := Some(StatusName(Failed)), errorMessage := message)
  }

  function ApplyAll(task: Task, us: seq<Update>): Task
    decreases |us|
  {
    if us == [] then task else ApplyAll(Apply(task, us[0]), us[1..])
  }

  /** After processing a live task that had not succeeded, it has passed
      through running and rests in exactly one of succeeded or failed;
      failure messages fit in the error column. */
  lemma ProcessingEnds(task: Task, parsed: Outcome<seq<string>>, analysed: Outcome<string>)
    requires task.deleted != 1 && ResolveStatus(task.status) != Succeeded
    ensures var us := ProcessTask(Some(task), parsed, analysed);
            var mid := Apply(task, us[0]);
            var done := ApplyAll(task, us);
            ResolveStatus(mid.status) == Running
            && (ResolveStatus(done.status) == Succeeded <==> parsed.Returned? && analysed.Returned?)
            && (ResolveStatus(done.status) == Failed <==> !(parsed.Returned? && analysed.Returned?))
            && (done.errorMessage.Some? ==> |done.errorMessage.value| <= MAX_ERROR_LENGTH)
            && (ResolveStatus(done.status) == Succeeded ==> done.responsePayload == Some(analysed.value) && done.errorMessage.None?)
  {
    var us := ProcessTask(Some(task), parsed, analysed);
    ApplyTwo(task, us);
    ResolveName(Running);
    ResolveName(Succeeded);
    ResolveName(Failed);
  }

  lemma ApplyTwo(task: Task, us: seq<Update>)
    requires |us| == 2
    ensures ApplyAll(task, us) == Apply(Apply(task, us[0]), us[1])
  {
    var t1 := Apply(task, us[0]);
    assert ApplyAll(task, us) == ApplyAll(t1, us[1..]);
    assert us[1..][0] == us[1] && us[1..][1..] == [];
    assert ApplyAll(t1, us[1..]) == ApplyAll(Apply(t1, us[1]), []);
  }

  /** A status stored by name reads back as itself. */
  lemma ResolveName(s: TaskStatus)
    ensures ResolveStatus(Some(StatusName(s))) == s
  {
    NameIsUpper(s);
  }

  /** A request that cannot be parsed always leaves a message: the prefix
      has text, so the saved failure is never empty. */
  lemma ParseFailureExplained(task: Task, message: Option<string>, analysed: Outcome<string>)
    requires task.deleted != 1 && ResolveStatus(task.status) != Succeeded
    ensures var done := ApplyAll(task, ProcessTask(Some(task), Threw(message), analysed));
            done.errorMessage.Some? && |done.errorMessage.value| <= MAX_ERROR_LENGTH
  {
    var text := PARSE_FAILURE + MessageText(message);
    assert text[0] == PARSE_FAILURE[0];
    assert HasText(text) by { assert !IsJavaWhitespace(text[0]); }
    ApplyTwo(task, ProcessTask(Some(task), Threw(message), analysed));
  }

  /** Once a task has succeeded, processing it again writes nothing. */
  lemma SucceededStays(task: Task, parsed: Outcome<seq<string>>, analysed: Outcome<string>,
                       parsed2: Outcome<seq<string>>, analysed2: Outcome<string>)
    requires task.deleted != 1 && ResolveStatus(task.status) != Succeeded
    requires parsed.Returned? && analysed.Returned?
    ensures ProcessTask(Some(ApplyAll(task, ProcessTask(Some(task), parsed, analysed))), parsed2, analysed2) == []
  {
    ProcessingEnds(task, parsed, analysed);
  }

  /** Writing one update as the row update does it: the update object's
      null fields are skipped, so clearing the error message on running or
      success writes nothing, and a failure without a message keeps the old
      one. */
  function ApplyAsWritten(task: Task, u: Update): (r: Task)
    ensures r.userId == task.userId && r.requestPayload == task.requestPayload && r.deleted == task.deleted
    ensures r.status == Apply(task, u).status && r.responsePayload == Apply(task, u).responsePayload
    ensures r.errorMessage == (if Apply(task, u).errorMessage.Some? then Apply(task, u).errorMessage
                               else task.errorMessage)
  {
    match u
    case MarkRunning => task.(status := Some(StatusName(Running)))
    case SaveSuccess(payload) => task.(status := Some(StatusName(Succeeded)), responsePayload := Some(payload))
    case SaveFailure(message) =>
      task.(status := Some(StatusName(Failed)), errorMessage := if message.Some? then message else task.errorMessage)
  }

  function ApplyAllAsWritten(task: Task, us: seq<Update>): Task
    decreases |us|
  {
    if us == [] then task else ApplyAllAsWritten(ApplyAsWritten(task, us[0]), us[1..])
  }

  /** The null-skipping write agrees with the intended one on a row that
      holds no error message. */
  lemma ApplyAsWrittenAgrees(task: Task, u: Update)
    requires task.errorMessage.None?
    ensures ApplyAsWritten(task, u) == Apply(task, u)
  {
  }

  /** A task that failed once and then succeeds on a retry keeps its old
      failure message under the null-skipping write, while the intended
      writes clear it. */
  lemma RetriedTaskKeepsFailureMessage()
    ensures var task := Task(1, Some("FAILED"), "[\"a\"]", None, Some("boom"), 0);
            var us := ProcessTask(Some(task), Returned(["a"]), Returned("[]"));
            var done := ApplyAllAsWritten(task, us);
            && ResolveStatus(done.status) == Succeeded
            && done.errorMessage == Some("boom")
            && ApplyAll(task, us).errorMessage.None?
  {
    var task := Task(1, Some("FAILED"), "[\"a\"]", None, Some("boom"), 0);
    ResolveName(Failed);
    ResolveName(Succeeded);
    var us := ProcessTask(Some(task), Returned(["a"]), Returned("[]"));
    assert us == [MarkRunning, SaveSuccess("[]")];
    ApplyTwo(task, us);
    ApplyTwoAsWritten(task, us);
  }

  lemma ApplyTwoAsWritten(task: Task, us: seq<Update>)
    requires |us| == 2
    ensures ApplyAllAsWritten(task, us) == ApplyAsWritten(ApplyAsWritten(task, us[0]), us[1])
  {
    var t1 := ApplyAsWritten(task, us[0]);
    assert ApplyAllAsWritten(task, us) == ApplyAllAsWritten(t1, us[1..]);
    assert us[1..][0] == us[1] && us[1..][1..] == [];
    assert ApplyAllAsWritten(t1, us[1..]) == ApplyAllAsWritten(ApplyAsWritten(t1, us[1]), []);
  }

  // ---------------------------------------------------------------------------
  // Responses
  // ---------------------------------------------------------------------------

  datatype TaskResponse = TaskResponse(
    status: TaskStatus, statusLabel: string, errorMessage: Option<string>,
    functionalProcesses: Option<seq<string>>, processCount: Option<nat>, processes: Option<seq<Process>>)

  /** The response for a stored task. `parseRequest` and `parseResult` stand
      for reading the JSON payloads, `None` when that fails; a payload
      without text is not parsed. The process count, and the processes when
      asked for, appear only for a succeeded task whose result holds at
      least one process. */
  function BuildResponse(task: Task, includeResultPayload: bool,
                         parseRequest: string -> Option<seq<string>>,
                         parseResult: string -> Option<seq<Process>>): (r: TaskResponse)
    ensures r.status == ResolveStatus(task.status) && r.statusLabel == StatusLabel(r.status)
    ensures r.errorMessage == task.errorMessage
    ensures r.functionalProcesses == (if HasText(task.requestPayload) then parseRequest(task.requestPayload) else None)
    ensures r.processCount.Some? <==> r.status == Succeeded && task.responsePayload.Some?
                                      && HasText(task.responsePayload.value)
                                      && parseResult(task.responsePayload.value).Some?
                                      && parseResult(task.responsePayload.value).value != []
    ensures r.processCount.Some? ==> r.processCount.value == |parseResult(task.responsePayload.value).value|
    ensures r.processes.Some? <==> r.processCount.Some? && includeResultPayload
    ensures r.processes.Some? ==> |r.processes.value| == r.processCount.value
  {
    var status := ResolveStatus(task.status);
    var request := if HasText(task.requestPayload) then parseRequest(task.requestPayload) else None;
    var parsed :=
      if status == Succeeded && task.responsePayload.Some? && HasText(task.responsePayload.value)
      then parseResult(task.responsePayload.value) else None;
    if parsed.Some? && parsed.value != [] then
      TaskResponse(status, StatusLabel(status), task.errorMessage, request, Some(|parsed.value|),
                   if includeResultPayload then Some(parsed.value) else None)
    else
      TaskResponse(status, StatusLabel(status), task.errorMessage, request, None, None)
  }

  /** A task that has not succeeded reports no process count, whatever its
      payloads hold. */
  lemma UnfinishedHasNoCount(task: Task, withResult: bool, parseRequest: string -> Option<seq<string>>,
                             parseResult: string -> Option<seq<Process>>)
    requires ResolveStatus(task.status) != Succeeded
    ensures BuildResponse(task, withResult, parseRequest, parseResult).processCount.None?
  {
  }
}
