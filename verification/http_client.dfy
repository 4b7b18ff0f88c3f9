/** The browser client's HTTP layer: which responses are passed on whole as
    binary downloads, and how a failed request becomes the error the rest of
    the client sees — a timeout, a network failure, an expired login, or a
    problem-detail body whose most specific text becomes the message. The
    storage clearing and navigation done for an expired login are returned as
    values; the toast shown at the same time is not modelled. */
module HttpClient {

  import opened Results
  import opened Text
  import opened JsValues

  /** The per-request options the interceptors read. */
  datatype RequestConfig = RequestConfig(responseType: string, skipAuthRedirect: bool)

  /** A response body: a `Blob`, known by the text it reads to (`None` when
      reading fails) and by what `JSON.parse` makes of that text (`None`
      when it throws), or an already decoded value. */
  datatype Body =
    | BlobBody(text: Option<string>, parsed: Option<Json>)
    | DataBody(data: Json)

  datatype HttpResponse = HttpResponse(
    status: int,
    statusText: string,
    contentType: Option<string>,
    config: RequestConfig,
    data: Body)

  /** The `problemDetail` the client attaches to an error. */
  datatype ProblemDetail = ProblemDetail(title: Json, detail: Json, status: Json, traceId: Json, timestamp: Json)

  /** An axios error as far as the client inspects or changes it. */
  datatype ClientError = ClientError(
    code: Json,
    message: Json,
    config: Option<RequestConfig>,
    response: Option<HttpResponse>,
    problemDetail: Option<ProblemDetail>)

  const OCTET_STREAM: string := "application/octet-stream"
  const OPEN_XML: string := "application/vnd.openxmlformats"
  const TIMEOUT_MESSAGE: string := "请求超时，请稍后再试"
  const NETWORK_MESSAGE: string := "网络异常，请检查连接"
  const UNAUTHORIZED_MESSAGE: string := "未授权，请重新登录"
  const LOGIN_PATH: string := "/login"

  /** The session entries removed when a login expires. */
  const SESSION_KEYS: seq<string> := ["token", "username", "role"]

  /** `请求失败（status）`, the message of last resort. */
  function StatusMessage(status: int): (r: string)
    ensures StartsWith(r, "请求失败（") && Contains(r, IntToString(status))
  {
    Mentions("请求失败（", IntToString(status), "）");
    "请求失败（" + IntToString(status) + "）"
  }

  // ---------------------------------------------------------------------------
  // Successful responses
  // ---------------------------------------------------------------------------

  /** A response is kept whole exactly when a blob was asked for or its
      content type names a binary or Office document. */
  predicate IsBinaryResponse(r: HttpResponse) {
    var contentType := r.contentType.GetOr("");
    r.config.responseType == "blob" || Contains(contentType, OCTET_STREAM) || Contains(contentType, OPEN_XML)
  }

  /** What a successful request resolves to. */
  datatype Delivered = Whole(response: HttpResponse) | DataOnly(data: Body)

  /** A binary response is delivered whole so that its headers stay readable;
      any other response is reduced to its body. */
  function HandleResponseSuccess(r: HttpResponse): (d: Delivered)
    ensures d.Whole? <==> IsBinaryResponse(r)
    ensures d.Whole? ==> d.response == r
    ensures d.DataOnly? ==> d.data == r.data
  {
    if IsBinaryResponse(r) then Whole(r) else DataOnly(r.data)
  }

  /** A spreadsheet download is delivered whole whatever its options say. */
  lemma SpreadsheetDeliveredWhole(r: HttpResponse, subtype: string)
    requires r.contentType == Some(OPEN_XML + subtype)
    ensures HandleResponseSuccess(r) == Whole(r)
  {
    assert OccursAt(OPEN_XML + subtype, OPEN_XML, 0);
  }

  /** A JSON response without blob options is reduced to its body. */
  lemma JsonDeliveredAsData(r: HttpResponse)
    requires r.contentType == Some("application/json") && r.config.responseType != "blob"
    ensures HandleResponseSuccess(r) == DataOnly(r.data)
  {
    JsonNotBinary();
  }

  lemma JsonNotBinary()
    ensures !Contains("application/json", OCTET_STREAM) && !Contains("application/json", OPEN_XML)
  {
  }

  // ---------------------------------------------------------------------------
  // Error bodies
  // ---------------------------------------------------------------------------

  /** A `Blob` body read as JSON; text that is not JSON becomes `{detail}`,
      and an empty or unreadable blob becomes `null`. */
  function NormalizeBlobPayload(text: Option<string>, parsed: Option<Json>): (r: Json)
    ensures text.Some? && parsed.Some? ==> r == parsed.value
    ensures text.None? ==> r == JNull
    ensures text.Some? && parsed.None? && text.value != "" ==> Get(r, "detail") == JString(text.value)
    ensures text == Some("") && parsed.None? ==> r == JNull
  {
    match text
    case None => JNull
    case Some(t) =>
      match parsed
      case Some(v) => v
      case None => if t != "" then JObject(map["detail" := JString(t)]) else JNull
  }

  /** The problem carried by an error body: a blob is read first, any other
      body is taken as it is. */
  function ResolveProblemDetail(body: Body): (r: Json)
    ensures body.DataBody? ==> r == body.data
  {
    match body
    case BlobBody(text, parsed) => NormalizeBlobPayload(text, parsed)
    case DataBody(data) => data
  }

  /** `a ?? b`: the left operand unless it is `null` or `undefined`. */
  function Coalesce(a: Json, b: Json): (r: Json)
    ensures r == a || r == b
    ensures !a.JNull? && !a.JUndefined? ==> r == a
  {
    if a.JNull? || a.JUndefined? then b else a
  }

  /** The error after the problem of its response has been attached: an
      object problem gives `detail || message || title` as the message,
      then `title` or the status text, then the status line, and becomes the
      error's `problemDetail`; a non-blank string becomes the trimmed
      message; otherwise the error keeps a truthy message of its own or gets
      the status line. */
  function AttachProblemDetail(e: ClientError, problem: Json, r: HttpResponse): (out: ClientError)
    ensures out.(message := e.message, problemDetail := e.problemDetail) == e
    ensures Truthy(problem) && IsObject(problem) ==>
              var detail := FirstTruthy(problem, ["detail", "message", "title"]);
              var title := Or(Get(problem, "title"), JString(r.statusText));
              out.message == Or(Or(detail, title), JString(StatusMessage(r.status)))
              && out.problemDetail == Some(ProblemDetail(title, detail, Coalesce(Get(problem, "status"), JNumber(r.status)),
                                                         Get(problem, "traceId"), Get(problem, "timestamp")))
    ensures problem.JString? && JsTrim(problem.s) != "" ==> out == e.(message := JString(JsTrim(problem.s)))
    ensures !(Truthy(problem) && IsObject(problem)) && !(problem.JString? && JsTrim(problem.s) != "") ==>
              out == e.(message := Or(e.message, JString(StatusMessage(r.status))))
    ensures Truthy(out.message)
  {
    if Truthy(problem) && IsObject(problem) then
      var detail := FirstTruthy(problem, ["detail", "message", "title"]);
      var title := Or(Get(problem, "title"), JString(r.statusText));
      e.(message := Or(Or(detail, title), JString(StatusMessage(r.status))),
         problemDetail := Some(ProblemDetail(title, detail, Coalesce(Get(problem, "status"), JNumber(r.status)),
                                             Get(problem, "traceId"), Get(problem, "timestamp"))))
    else if problem.JString? && JsTrim(problem.s) != "" then
      e.(message := JString(JsTrim(problem.s)))
    else
      e.(message := Or(e.message, JString(StatusMessage(r.status))))
  }

  // ---------------------------------------------------------------------------
  // Failed requests
  // ---------------------------------------------------------------------------

  /** How a failed request is rejected: the error passed on, whether the
      stored session was cleared, and where the client navigated. */
  datatype Rejection = Rejection(error: ClientError, clearsSession: bool, navigateTo: Option<string>)

  /** `error.code === 'ECONNABORTED' || error.message.includes('timeout')`. */
  predicate IsTimeout(e: ClientError) {
    e.code == JString("ECONNABORTED") || (e.message.JString? && Contains(e.message.s, "timeout"))
  }

  /** The options of the failed request: the error's own, else the response's. */
  function ConfigOf(e: ClientError, r: HttpResponse): RequestConfig {
    if e.config.Some? then e.config.value else r.config
  }

  /** The error interceptor. A timeout is recognised first, then a request
      that got no response; a 401 either passes the error through untouched
      (when the request asked not to be redirected) or ends the session;
      any other failure carries the problem of its body. */
  function HandleResponseError(e: ClientError, currentPath: string): (out: Rejection)
    ensures IsTimeout(e) ==> out == Rejection(e.(message := JString(TIMEOUT_MESSAGE)), false, None)
    ensures !IsTimeout(e) && e.response.None? ==>
              out == Rejection(e.(message := Or(e.message, JString(NETWORK_MESSAGE))), false, None)
    ensures out.clearsSession <==> !IsTimeout(e) && e.response.Some? && e.response.value.status == 401
                                   && !ConfigOf(e, e.response.value).skipAuthRedirect
    ensures out.navigateTo.Some? ==> out.clearsSession && out.navigateTo.value == LOGIN_PATH && currentPath != LOGIN_PATH
    ensures out.clearsSession ==> out.error.message == JString(UNAUTHORIZED_MESSAGE) && out.error.response.None?
    ensures !IsTimeout(e) && e.response.Some? && e.response.value.status != 401 ==>
              out == Rejection(AttachProblemDetail(e, ResolveProblemDetail(e.response.value.data), e.response.value),
                               false, None)
    ensures out.error == e || Truthy(out.error.message)
  {
    if IsTimeout(e) then
      Rejection(e.(message := JString(TIMEOUT_MESSAGE)), false, None)
    else
      match e.response
      case None => Rejection(e.(message := Or(e.message, JString(NETWORK_MESSAGE))), false, None)
      case Some(r) =>
        if r.status == 401 then
          if ConfigOf(e, r).skipAuthRedirect then Rejection(e, false, None)
          else
            Rejection(ClientError(JUndefined, JString(UNAUTHORIZED_MESSAGE), None, None, None), true,
                      if currentPath != LOGIN_PATH then Some(LOGIN_PATH) else None)
        else
          Rejection(AttachProblemDetail(e, ResolveProblemDetail(r.data), r), false, None)
  }

  /** A 401 on a request that opted out of the redirect is rejected with the
      very error that arrived. */
  lemma SkippedRedirectUntouched(e: ClientError, currentPath: string)
    requires !IsTimeout(e) && e.response.Some? && e.response.value.status == 401
    requires ConfigOf(e, e.response.value).skipAuthRedirect
    ensures HandleResponseError(e, currentPath) == Rejection(e, false, None)
  {
  }

  /** Any other failure with a response keeps the session and rejects the
      error it received, changed only in its message and attached problem;
      the message always has text. */
  lemma ResponseFailureKeepsError(e: ClientError, currentPath: string)
    requires !IsTimeout(e) && e.response.Some? && e.response.value.status != 401
    ensures var out := HandleResponseError(e, currentPath);
            && !out.clearsSession && out.navigateTo.None? && Truthy(out.error.message)
            && out.error.(message := e.message, problemDetail := e.problemDetail) == e
  {
  }

  /** An expired login navigates to the login page from anywhere else, and
      stays put on the login page itself. */
  lemma ExpiredLoginRedirects(e: ClientError, currentPath: string)
    requires !IsTimeout(e) && e.response.Some? && e.response.value.status == 401
    requires !ConfigOf(e, e.response.value).skipAuthRedirect
    ensures HandleResponseError(e, currentPath).clearsSession
    ensures HandleResponseError(e, currentPath).navigateTo.Some? <==> currentPath != LOGIN_PATH
  {
  }

  /** A timeout is reported as such even when the server did answer. */
  lemma TimeoutBeforeResponse(e: ClientError, r: HttpResponse, currentPath: string)
    requires e.code == JString("ECONNABORTED")
    ensures HandleResponseError(e.(response := Some(r)), currentPath).error.message == JString(TIMEOUT_MESSAGE)
    ensures !HandleResponseError(e.(response := Some(r)), currentPath).clearsSession
  {
  }

  /** A problem-detail body names the error by its `detail`, and the
      attached problem keeps the status of the body, or the response's
      when the body has none. */
  lemma DetailNamesError(e: ClientError, r: HttpResponse, detail: string, title: Json, currentPath: string)
    requires !IsTimeout(e) && e.response == Some(r) && r.status != 401
    requires detail != ""
    requires r.data == DataBody(JObject(map["detail" := JString(detail), "title" := title]))
    ensures var out := HandleResponseError(e, currentPath).error;
            out.message == JString(detail)
            && out.problemDetail.Some? && out.problemDetail.value.status == JNumber(r.status)
  {
    var problem := JObject(map["detail" := JString(detail), "title" := title]);
    assert Get(problem, "detail") == JString(detail);
    assert Get(problem, "status") == JUndefined;
  }

  /** A blob error body that is not JSON still names the error by its text. */
  lemma BlobTextNamesError(e: ClientError, r: HttpResponse, text: string, currentPath: string)
    requires !IsTimeout(e) && e.response == Some(r) && r.status != 401
    requires text != "" && r.data == BlobBody(Some(text), None)
    ensures HandleResponseError(e, currentPath).error.message == JString(text)
  {
    var problem := NormalizeBlobPayload(Some(text), None);
    assert Get(problem, "detail") == JString(text);
  }
}
