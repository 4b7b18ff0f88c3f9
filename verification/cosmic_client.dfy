/** The COSMIC service wrapper of the browser client: turning a failed call
    into the message shown to the user, and reading the name of a downloaded
    document from its `Content-Disposition` header. `decodeURIComponent` is
    passed in as a function that fails where the original throws. */
module CosmicClient {

  import opened Results
  import opened Text
  import opened JsValues
  import opened HttpClient
  import CosmicStream

  const BLOB_ERROR_SUFFIX: string := "失败，服务返回了文件流错误信息"
  const DEFAULT_DOCUMENT_NAME: string := "需求文档.docx"

  // ---------------------------------------------------------------------------
  // Error messages
  // ---------------------------------------------------------------------------

  /** The fixed message for the statuses the client knows. */
  function StatusMapEntry(scene: string, status: int): Option<string> {
    if status == 400 then Some(scene + "请求参数异常")
    else if status == 401 then Some("请重新登录后再试")
    else if status == 403 then Some("暂无权限执行该操作")
    else if status == 404 then Some("未找到相关资源")
    else if status == 429 then Some("请求过于频繁，请稍后再试")
    else if status == 500 then Some(scene + "失败，服务器开小差了")
    else None
  }

  /** `scene失败（status）`. */
  function SceneStatus(scene: string, status: int): string {
    scene + "失败（" + IntToString(status) + "）"
  }

  /** `scene失败：detail`. */
  function SceneDetail(scene: string, detail: Json): string {
    scene + "失败：" + ToJsString(detail)
  }

  /** The message for a failed call in the given scene. An attached problem
      detail decides first; an error without a response keeps its own
      message; then a blob body, the `detail`/`message`/`title` of an object
      body, a non-blank text body, the status table and the bare status, in
      that order. */
  function HandleApiError(e: ClientError, scene: string): (r: string)
    ensures e.problemDetail.Some? ==> StartsWith(r, scene + "失败")
    ensures e.problemDetail.None? && e.response.None? ==>
              r == ToJsString(Or(e.message, JString(CosmicStream.ERROR_FALLBACK)))
    ensures e.problemDetail.None? && e.response.Some? && e.response.value.data.BlobBody? ==>
              r == scene + BLOB_ERROR_SUFFIX
    ensures e.problemDetail.Some? ==>
              var problem := e.problemDetail.value;
              && (Truthy(problem.detail) ==> r == SceneDetail(scene, problem.detail))
              && (!Truthy(problem.detail) && Truthy(problem.title) ==> r == SceneDetail(scene, problem.title))
              && (!Truthy(problem.detail) && !Truthy(problem.title) ==> r == scene + "失败")
    ensures e.problemDetail.None? && e.response.Some? && e.response.value.data.DataBody? ==>
              var payload := e.response.value.data.data;
              && (payload.JObject? && Truthy(Get(payload, "detail")) ==> r == SceneDetail(scene, Get(payload, "detail")))
              && (payload.JObject? && !Truthy(Get(payload, "detail")) && Truthy(Get(payload, "message")) ==>
                    r == SceneDetail(scene, Get(payload, "message")))
              && ((payload.JObject? && !Truthy(Get(payload, "detail")) && !Truthy(Get(payload, "message"))
                   && Truthy(Get(payload, "title"))) ==> r == SceneDetail(scene, Get(payload, "title")))
              && (payload.JString? && JsTrim(payload.s) != "" ==> r == scene + "失败：" + JsTrim(payload.s))
    ensures e.problemDetail.None? && e.response.Some? && e.response.value.data.DataBody? ==>
              var payload := e.response.value.data.data;
              var status := e.response.value.status;
              (!payload.JObject? || (!Truthy(Get(payload, "detail")) && !Truthy(Get(payload, "message"))
                                     && !Truthy(Get(payload, "title"))))
              && !(payload.JString? && JsTrim(payload.s) != "") ==>
                r == (if StatusMapEntry(scene, status).Some? then StatusMapEntry(scene, status).value
                      else SceneStatus(scene, status))
  {
    match e.problemDetail
    case Some(problem) =>
      var detail := Or(problem.detail, problem.title);
      if Truthy(detail) then SceneDetail(scene, detail) else scene + "失败"
    case None =>
      match e.response
      case None => ToJsString(Or(e.message, JString(CosmicStream.ERROR_FALLBACK)))
      case Some(response) =>
        match response.data
        case BlobBody(_, _) => scene + BLOB_ERROR_SUFFIX
        case DataBody(payload) =>
          ReadDetailFields(payload);
          var detail := if Truthy(payload) && IsObject(payload) then FirstTruthy(payload, ["detail", "message", "title"]) else JUndefined;
          if Truthy(detail) then SceneDetail(scene, detail)
          else if payload.JString? && JsTrim(payload.s) != "" then scene + "失败：" + JsTrim(payload.s)
          else
            StatusFallback(scene, response.status);
            var mapped := match StatusMapEntry(scene, response.status) case Some(m) => JString(m) case None => JUndefined;
            ToJsString(Or(Or(mapped, JString(SceneStatus(scene, response.status))), JString(CosmicStream.ERROR_FALLBACK)))
  }

  /** `STATUS_MESSAGE_MAP[status] || scene失败（status）`: the status table
      decides when it knows the status, the bare status otherwise. */
  lemma StatusFallback(scene: string, status: int)
    ensures var mapped := match StatusMapEntry(scene, status) case Some(m) => JString(m) case None => JUndefined;
            ToJsString(Or(Or(mapped, JString(SceneStatus(scene, status))), JString(CosmicStream.ERROR_FALLBACK)))
            == if StatusMapEntry(scene, status).Some? then StatusMapEntry(scene, status).value else SceneStatus(scene, status)
  {
  }

  /** `payload.detail || payload.message || payload.title`. */
  lemma ReadDetailFields(payload: Json)
    ensures FirstTruthy(payload, ["detail", "message", "title"])
            == Or(Get(payload, "detail"), Or(Get(payload, "message"), Get(payload, "title")))
  {
    assert ["detail", "message", "title"][1..] == ["message", "title"];
    assert ["message", "title"][1..] == ["title"];
    assert FirstTruthy(payload, ["title"]) == Get(payload, "title");
    assert FirstTruthy(payload, ["message", "title"]) == Or(Get(payload, "message"), Get(payload, "title"));
  }

  /** An attached problem detail decides the message whatever the response
      and the error's own message say. */
  lemma ProblemDetailFirst(e: ClientError, scene: string, response: Option<HttpResponse>, message: Json)
    requires e.problemDetail.Some?
    ensures HandleApiError(e.(response := response, message := message), scene) == HandleApiError(e, scene)
  {
  }

  /** When nothing in the body explains the failure, the message comes from
      the status table or names the status; the generic fallback that
      follows them in the source can never be reached. */
  lemma StatusFallbackUnreachable(e: ClientError, scene: string, payload: Json)
    requires e.problemDetail.None? && e.response.Some? && e.response.value.data == DataBody(payload)
    requires !(Truthy(payload) && IsObject(payload)) || !Truthy(FirstTruthy(payload, ["detail", "message", "title"]))
    requires !(payload.JString? && JsTrim(payload.s) != "")
    ensures HandleApiError(e, scene) == StatusMapEntry(scene, e.response.value.status).GetOr(SceneStatus(scene, e.response.value.status))
  {
  }

  /** A problem-detail error body, after the response interceptor has
      attached it, is shown as the scene followed by its `detail`. */
  lemma InterceptedDetailShown(e: ClientError, r: HttpResponse, detail: string, scene: string, currentPath: string)
    requires !IsTimeout(e) && e.response == Some(r) && r.status != 401
    requires detail != ""
    requires r.data == DataBody(JObject(map["detail" := JString(detail)]))
    ensures HandleApiError(HandleResponseError(e, currentPath).error, scene) == scene + "失败：" + detail
  {
    var problem := JObject(map["detail" := JString(detail)]);
    assert Get(problem, "detail") == JString(detail);
    var attached := AttachProblemDetail(e, problem, r);
    assert attached.problemDetail.value.detail == JString(detail);
  }

  /** An expired login reaches the caller as the interceptor's own message,
      whatever the scene. */
  lemma ExpiredLoginShown(e: ClientError, scene: string, currentPath: string)
    requires !IsTimeout(e) && e.response.Some? && e.response.value.status == 401
    requires !ConfigOf(e, e.response.value).skipAuthRedirect
    ensures HandleApiError(HandleResponseError(e, currentPath).error, scene) == UNAUTHORIZED_MESSAGE
  {
  }

  /** A request that got no answer is shown with the network message unless
      it already carried one of its own. */
  lemma NetworkFailureShown(e: ClientError, scene: string, currentPath: string)
    requires !IsTimeout(e) && e.response.None? && e.problemDetail.None? && !Truthy(e.message)
    ensures HandleApiError(HandleResponseError(e, currentPath).error, scene) == NETWORK_MESSAGE
  {
  }

  // ---------------------------------------------------------------------------
  // Download names
  // ---------------------------------------------------------------------------

  /** The characters a regular-expression `.` does not match. */
  predicate IsLineTerminator(c: char) {
    c == '\n' || c == '\r' || c == '\U{2028}' || c == '\U{2029}'
  }

  predicate NoLineTerminator(s: string) {
    forall k :: 0 <= k < |s| ==> !IsLineTerminator(s[k])
  }

  const STAR_MARKER: string := "filename*=UTF-8''"
  const NAME_MARKER: string := "filename="

  /** What `.+` matches greedily at the start of `s`: the characters up to
      the first line terminator. */
  function LineRun(s: string): (r: string)
    ensures |r| <= |s| && r == s[..|r|]
    ensures NoLineTerminator(r)
    ensures |r| < |s| ==> IsLineTerminator(s[|r|])
  {
    if s == [] || IsLineTerminator(s[0]) then []
    else
      var rest := LineRun(s[1..]);
      assert forall k :: 1 <= k < |rest| + 1 ==> ([s[0]] + rest)[k] == rest[k - 1];
      [s[0]] + rest
  }

  /** `/filename\*=UTF-8''(.+)/` searched from `i`: the first marker followed
      by at least one matchable character, and the run after it. */
  function StarMatchFrom(d: string, i: nat): (r: Option<string>)
    requires i <= |d|
    ensures r.Some? ==> r.value != "" && NoLineTerminator(r.value) && Contains(d, STAR_MARKER + r.value)
    decreases |d| - i
  {
    if i + |STAR_MARKER| > |d| then None
    else if OccursAt(d, STAR_MARKER, i) && LineRun(d[i + |STAR_MARKER|..]) != "" then
      var run := LineRun(d[i + |STAR_MARKER|..]);
      assert d[i..i + |STAR_MARKER| + |run|] == STAR_MARKER + run;
      assert OccursAt(d, STAR_MARKER + run, i);
      Some(run)
    else StarMatchFrom(d, i + 1)
  }

  /** What `(.+?)"?$` captures from `rest`: everything but a closing quote,
      which is left out only when something remains before it. */
  function LazyCapture(rest: string): Option<string> {
    if |rest| >= 2 && rest[|rest| - 1] == '"' then Some(rest[..|rest| - 1])
    else if |rest| >= 1 then Some(rest)
    else None
  }

  /** What `"?(.+?)"?$` captures from the text after the marker: an opening
      quote is skipped when that still leaves something to capture. */
  function QuotedCapture(after: string): (r: Option<string>)
    ensures r.Some? <==> after != ""
  {
    if |after| >= 2 && after[0] == '"' then LazyCapture(after[1..]) else LazyCapture(after)
  }

  /** `/filename="?(.+?)"?$/` searched from `i`: the first marker whose rest of
      the header has no line terminator and something to capture. */
  function NameMatchFrom(d: string, i: nat): (r: Option<string>)
    requires i <= |d|
    ensures r.Some? ==> r.value != "" && NoLineTerminator(r.value)
    decreases |d| - i
  {
    if i + |NAME_MARKER| > |d| then None
    else
      var after := d[i + |NAME_MARKER|..];
      if OccursAt(d, NAME_MARKER, i) && NoLineTerminator(after) && after != "" then
        var capture := QuotedCapture(after).value;
        assert forall k :: 0 <= k < |capture| ==> capture[k] in after;
        Some(capture)
      else NameMatchFrom(d, i + 1)
  }

  /** The file name announced by a response: the `filename*` form first,
      then the plain `filename` form, each percent-decoded; nothing when the
      header is missing or empty, or when decoding fails. */
  function ExtractFilename(disposition: Option<string>, decode: string -> Option<string>): (r: Option<string>)
    ensures disposition.None? || disposition == Some("") ==> r.None?
  {
    match disposition
    case None => None
    case Some(d) =>
      if d == "" then None
      else
        match StarMatchFrom(d, 0)
        case Some(encoded) => decode(encoded)
        case None =>
          match NameMatchFrom(d, 0)
          case Some(encoded) => decode(encoded)
          case None => None
  }

  /** The name a downloaded document is saved under. */
  function DocumentFileName(disposition: Option<string>, decode: string -> Option<string>): (r: string)
    ensures ExtractFilename(disposition, decode).None? ==> r == DEFAULT_DOCUMENT_NAME
  {
    match ExtractFilename(disposition, decode)
    case Some(name) => if name != "" then name else DEFAULT_DOCUMENT_NAME
    case None => DEFAULT_DOCUMENT_NAME
  }

  /** Positions where the marker does not start are passed over. */
  lemma {:induction false} StarMatchSkips(d: string, i: nat, j: nat)
    requires i <= j <= |d|
    requires forall k :: i <= k < j ==> !OccursAt(d, STAR_MARKER, k)
    ensures StarMatchFrom(d, i) == StarMatchFrom(d, j)
    decreases j - i
  {
    if i < j {
      StarMatchSkips(d, i + 1, j);
    }
  }

  /** A marker at `i` followed by a name that runs to the end of the header
      is matched there. */
  lemma StarMatchAt(d: string, i: nat, name: string)
    requires name != "" && NoLineTerminator(name)
    requires i + |STAR_MARKER| <= |d| && d == d[..i + |STAR_MARKER|] + name
    requires OccursAt(d, STAR_MARKER, i)
    ensures StarMatchFrom(d, i) == Some(name)
  {
    assert d[i + |STAR_MARKER|..] == name;
    LineRunWhole(name);
  }

  lemma {:induction false} LineRunWhole(s: string)
    requires NoLineTerminator(s)
    ensures LineRun(s) == s
  {
    if s != [] {
      LineRunWhole(s[1..]);
      assert [s[0]] + s[1..] == s;
    }
  }

  /** The header the server sends for a document is read back as the
      decoding of the name it carries. */
  lemma AttachmentNameRead(encoded: string, decode: string -> Option<string>)
    requires encoded != "" && NoLineTerminator(encoded)
    ensures ExtractFilename(Some("attachment; " + STAR_MARKER + encoded), decode) == decode(encoded)
  {
    var prefix := "attachment; ";
    var d := prefix + STAR_MARKER + encoded;
    forall k | 0 <= k < |prefix|
      ensures !OccursAt(d, STAR_MARKER, k)
    {
      assert d[k] == prefix[k] && prefix[k] != STAR_MARKER[0];
      assert k + |STAR_MARKER| <= |d| ==> d[k..k + |STAR_MARKER|][0] == d[k];
    }
    StarMatchSkips(d, 0, |prefix|);
    assert d[|prefix|..|prefix| + |STAR_MARKER|] == STAR_MARKER;
    assert d[..|prefix| + |STAR_MARKER|] + encoded == d;
    StarMatchAt(d, |prefix|, encoded);
  }

  /** A quoted plain name loses its quotes; an unquoted one is taken as it is. */
  lemma PlainNameRead(name: string)
    requires name != "" && NoLineTerminator(name)
    ensures QuotedCapture("\"" + name + "\"") == Some(name)
    ensures name[0] != '"' && name[|name| - 1] != '"' ==> QuotedCapture(name) == Some(name)
  {
    assert ("\"" + name + "\"")[1..] == name + "\"";
    assert (name + "\"")[..|name|] == name;
  }

  /** A lone quote after the marker is itself the captured name. */
  lemma LoneQuoteCaptured()
    ensures QuotedCapture("\"") == Some("\"")
  {
  }
}
