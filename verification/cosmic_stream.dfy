/** Requirement enhancement in the browser client: the request is checked,
    posted, and the answer read as a stream of decoded chunks. Every chunk is
    cut into lines on its own; a `data:` line contributes its payload, any
    other non-blank line contributes itself, and the pieces are appended to
    the text shown while it grows. The network call, the byte decoder and the
    abort signal are folded into the `Fetched` value the call produces. */
module CosmicStream {

  import opened Results
  import opened Text
  import opened JsValues
  import opened FormChecks

  const DATA_PREFIX: string := "data:"
  const DONE_MARKER: string := "[DONE]"

  const ENHANCE_FAILED: string := "需求扩写失败，请稍后重试"
  const ERROR_FALLBACK: string := "服务调用失败，请稍后再试"
  const EMPTY_REQUIREMENT: string := "请先输入需求描述"
  const STREAM_CANCELLED: string := "流式请求已取消"
  const STREAM_UNSUPPORTED: string := "当前浏览器不支持流式响应，请更换或升级浏览器"

  // ---------------------------------------------------------------------------
  // Lines and pieces
  // ---------------------------------------------------------------------------

  predicate IsLineFeed(c: char) {
    c == '\n'
  }

  /** The lines of one decoded chunk, empty ones included. */
  function ChunkLines(chunk: string): seq<string> {
    SplitAll(chunk, IsLineFeed)
  }

  /** What a `data:` line carries: the rest of the line without one leading
      space. */
  function DataPayload(line: string): string
    requires StartsWith(line, DATA_PREFIX)
  {
    var data := line[|DATA_PREFIX|..];
    if |data| > 0 && data[0] == ' ' then data[1..] else data
  }

  /** The piece a line appends to the text, if any. An empty payload and the
      `[DONE]` marker are skipped; a blank line is skipped. */
  function LinePiece(line: string): (r: Option<string>)
    ensures r.Some? ==> r.value != ""
  {
    if line == "" then None
    else if StartsWith(line, DATA_PREFIX) then
      var data := DataPayload(line);
      if data == "" || data == DONE_MARKER then None else Some(data)
    else if JsTrim(line) != "" then Some(line)
    else None
  }

  /** `data: ` followed by a payload yields the payload, with exactly one
      space removed: any further spaces belong to the payload. */
  lemma SpacedDataLine(payload: string)
    requires payload != "" && payload != DONE_MARKER
    ensures LinePiece(DATA_PREFIX + " " + payload) == Some(payload)
  {
    var line := DATA_PREFIX + " " + payload;
    assert StartsWith(line, DATA_PREFIX);
    assert line[|DATA_PREFIX|..] == " " + payload;
  }

  /** Without the space the payload follows the prefix directly. */
  lemma UnspacedDataLine(payload: string)
    requires payload != "" && payload[0] != ' ' && payload != DONE_MARKER
    ensures LinePiece(DATA_PREFIX + payload) == Some(payload)
  {
    var line := DATA_PREFIX + payload;
    assert StartsWith(line, DATA_PREFIX);
    assert line[|DATA_PREFIX|..] == payload;
  }

  /** The `[DONE]` marker and an empty payload add nothing, spaced or not. */
  lemma MarkerLinesSkipped()
    ensures LinePiece(DATA_PREFIX + " " + DONE_MARKER) == None
    ensures LinePiece(DATA_PREFIX + DONE_MARKER) == None
    ensures LinePiece(DATA_PREFIX) == None
    ensures LinePiece(DATA_PREFIX + " ") == None
  {
    assert (DATA_PREFIX + " " + DONE_MARKER)[|DATA_PREFIX|..] == " " + DONE_MARKER;
    assert (DATA_PREFIX + DONE_MARKER)[|DATA_PREFIX|..] == DONE_MARKER;
    assert (DATA_PREFIX + " ")[|DATA_PREFIX|..] == " ";
  }

  /** Any other line with visible text is appended verbatim, surrounding
      white space included; a blank line adds nothing. */
  lemma PlainLineVerbatim(line: string)
    requires !StartsWith(line, DATA_PREFIX)
    ensures JsTrim(line) != "" ==> LinePiece(line) == Some(line)
    ensures JsTrim(line) == "" ==> LinePiece(line) == None
  {
  }

  /** The pieces of a run of lines, in order. */
  function LinePieces(lines: seq<string>): (r: seq<string>)
    ensures |r| <= |lines|
  {
    if lines == [] then []
    else
      Piece(lines[0]) + LinePieces(lines[1..])
  }

  /** The pieces of a stream: each chunk's lines are read on their own. */
  function StreamPieces(chunks: seq<string>): seq<string> {
    if chunks == [] then [] else LinePieces(ChunkLines(chunks[0])) + StreamPieces(chunks[1..])
  }

  /** The text the pieces add up to. */
  function Concat(xs: seq<string>): string {
    if xs == [] then "" else xs[0] + Concat(xs[1..])
  }

  /** No piece is empty: every line that contributes, contributes text. */
  lemma {:induction false} PiecesNonEmpty(lines: seq<string>)
    ensures forall k :: 0 <= k < |LinePieces(lines)| ==> LinePieces(lines)[k] != ""
  {
    if lines != [] {
      PiecesNonEmpty(lines[1..]);
      assert LinePieces(lines) == Piece(lines[0]) + LinePieces(lines[1..]);
    }
  }

  lemma {:induction false} LinePiecesAppend(a: seq<string>, b: seq<string>)
    ensures LinePieces(a + b) == LinePieces(a) + LinePieces(b)
  {
    if a != [] {
      assert (a + b)[1..] == a[1..] + b;
      LinePiecesAppend(a[1..], b);
    } else {
      assert a + b == b;
    }
  }

  /** Chunks do not interact: the pieces of two runs of chunks are the pieces
      of each run, one after the other. */
  lemma {:induction false} StreamPiecesAppend(a: seq<string>, b: seq<string>)
    ensures StreamPieces(a + b) == StreamPieces(a) + StreamPieces(b)
  {
    if a != [] {
      assert (a + b)[1..] == a[1..] + b;
      StreamPiecesAppend(a[1..], b);
    } else {
      assert a + b == b;
    }
  }

  lemma {:induction false} ConcatAppend(a: seq<string>, b: seq<string>)
    ensures Concat(a + b) == Concat(a) + Concat(b)
  {
    if a != [] {
      assert (a + b)[1..] == a[1..] + b;
      ConcatAppend(a[1..], b);
    } else {
      assert a + b == b;
    }
  }

  /** `[DONE]` is not an end marker: the lines after it still count. */
  lemma DoneDoesNotEnd(before: seq<string>, after: seq<string>)
    ensures LinePieces(before + [DATA_PREFIX + " " + DONE_MARKER] + after) == LinePieces(before) + LinePieces(after)
  {
    MarkerLinesSkipped();
    LinePiecesAppend(before + [DATA_PREFIX + " " + DONE_MARKER], after);
    LinePiecesAppend(before, [DATA_PREFIX + " " + DONE_MARKER]);
  }

  /** A chunk made of complete lines is read line by line. */
  lemma ChunkOfLines(lines: seq<string>)
    requires lines != []
    requires forall i :: 0 <= i < |lines| ==> forall k :: 0 <= k < |lines[i]| ==> lines[i][k] != '\n'
    ensures StreamPieces([Join("\n", lines)]) == LinePieces(lines)
  {
    SplitJoin(lines, '\n', IsLineFeed);
    assert StreamPieces([Join("\n", lines)]) == LinePieces(ChunkLines(Join("\n", lines))) + StreamPieces([]);
  }

  /** A whole `data:` frame in one chunk gives its payload. */
  lemma FrameInOneChunk(payload: string)
    requires payload != "" && payload != DONE_MARKER
    requires forall k :: 0 <= k < |payload| ==> !IsLineFeed(payload[k])
    ensures StreamPieces([DATA_PREFIX + " " + payload]) == [payload]
  {
    NoLineFeedJoined(DATA_PREFIX + " ", payload);
    SingleLineChunk(DATA_PREFIX + " " + payload);
    SpacedDataLine(payload);
  }

  /** Lines are not carried over between chunks: a frame that the network
      cuts in two is read as two plain lines, so the `data:` prefix ends up
      in the text, where the same frame in one chunk gives only its payload. */
  lemma FrameCutAcrossChunks(payload: string)
    requires forall k :: 0 <= k < |payload| ==> !IsLineFeed(payload[k])
    ensures StreamPieces(["dat", "a: " + payload]) == ["dat", "a: " + payload]
  {
    var tail := "a: " + payload;
    assert Piece("dat") == ["dat"] by {
      PlainPiece("dat");
    }
    assert Piece(tail) == [tail] by {
      assert tail[0] == 'a';
      PlainPiece(tail);
    }
    assert forall k :: 0 <= k < |tail| ==> !IsLineFeed(tail[k]) by {
      NoLineFeedJoined("a: ", payload);
    }
    TwoPlainChunks("dat", tail);
  }

  lemma TwoPlainChunks(a: string, b: string)
    requires Piece(a) == [a] && Piece(b) == [b]
    requires forall k :: 0 <= k < |a| ==> !IsLineFeed(a[k])
    requires forall k :: 0 <= k < |b| ==> !IsLineFeed(b[k])
    ensures StreamPieces([a, b]) == [a, b]
  {
    SingleLineChunk(a);
    SingleLineChunk(b);
    StreamPiecesAppend([a], [b]);
    assert [a, b] == [a] + [b];
  }

  lemma NoLineFeedJoined(a: string, b: string)
    requires forall k :: 0 <= k < |a| ==> !IsLineFeed(a[k])
    requires forall k :: 0 <= k < |b| ==> !IsLineFeed(b[k])
    ensures forall k :: 0 <= k < |a + b| ==> !IsLineFeed((a + b)[k])
  {
    forall k | 0 <= k < |a + b| ensures !IsLineFeed((a + b)[k]) {
      if k >= |a| { assert (a + b)[k] == b[k - |a|]; }
    }
  }

  /** A line that starts with visible text other than the prefix is one piece. */
  lemma PlainPiece(line: string)
    requires line != [] && !IsJsWhitespace(line[0]) && !StartsWith(line, DATA_PREFIX)
    ensures Piece(line) == [line]
  {
    assert JsTrim(line) != [];
  }

  /** A chunk without a line feed is a single line. */
  lemma SingleLineChunk(line: string)
    requires forall k :: 0 <= k < |line| ==> !IsLineFeed(line[k])
    ensures StreamPieces([line]) == Piece(line)
  {
    SplitNoDelim(line, IsLineFeed);
    assert StreamPieces([line]) == LinePieces([line]) + StreamPieces([]);
    assert LinePieces([line]) == Piece(line) + LinePieces([]);
  }

  // ---------------------------------------------------------------------------
  // Accumulation
  // ---------------------------------------------------------------------------

  /** One call of the `onChunk` callback: the piece and the text so far. */
  datatype ChunkCall = ChunkCall(piece: string, fullText: string)

  /** The callback calls for `pieces` appended after the text `before`. */
  function Calls(pieces: seq<string>, before: string): (r: seq<ChunkCall>)
    ensures |r| == |pieces|
  {
    if pieces == [] then []
    else [ChunkCall(pieces[0], before + pieces[0])] + Calls(pieces[1..], before + pieces[0])
  }

  lemma {:induction false} CallsAppend(a: seq<string>, b: seq<string>, before: string)
    ensures Calls(a + b, before) == Calls(a, before) + Calls(b, before + Concat(a))
  {
    if a != [] {
      assert (a + b)[1..] == a[1..] + b;
      CallsAppend(a[1..], b, before + a[0]);
      assert before + a[0] + Concat(a[1..]) == before + Concat(a);
    } else {
      assert a + b == b;
      assert before + Concat(a) == before;
    }
  }

  /** The callback fires once per piece, in order, and each call sees the
      text of the previous call extended by exactly its own piece. */
  lemma {:induction false} CallsGrow(pieces: seq<string>, before: string)
    ensures forall k :: 0 <= k < |pieces| ==> Calls(pieces, before)[k].piece == pieces[k]
    ensures forall k :: 0 <= k < |pieces| ==>
              Calls(pieces, before)[k].fullText == before + Concat(pieces[..k + 1])
  {
    if pieces != [] {
      CallsGrow(pieces[1..], before + pieces[0]);
      var r := Calls(pieces, before);
      forall k | 0 <= k < |pieces|
        ensures r[k].piece == pieces[k] && r[k].fullText == before + Concat(pieces[..k + 1])
      {
        if k > 0 {
          assert r[k] == Calls(pieces[1..], before + pieces[0])[k - 1];
          assert pieces[1..][..k] == pieces[1..k + 1];
          assert pieces[..k + 1] == [pieces[0]] + pieces[1..k + 1];
        } else {
          assert pieces[..1] == [pieces[0]];
        }
      }
    }
  }

  /** The shown text only grows: every call's text extends the previous one. */
  lemma TextOnlyGrows(pieces: seq<string>, k: nat)
    requires 0 < k < |pieces|
    ensures Calls(pieces, "")[k].fullText == Calls(pieces, "")[k - 1].fullText + pieces[k]
  {
    ConcatSnoc(pieces, k);
    CallsGrow(pieces, "");
  }

  lemma ConcatSnoc(xs: seq<string>, k: nat)
    requires k < |xs|
    ensures Concat(xs[..k + 1]) == Concat(xs[..k]) + xs[k]
  {
    assert xs[..k + 1] == xs[..k] + [xs[k]];
    ConcatAppend(xs[..k], [xs[k]]);
    assert Concat([xs[k]]) == xs[k] + Concat([]);
  }

  /** The pieces a single line contributes: none or one. */
  function Piece(line: string): (r: seq<string>)
    ensures |r| <= 1
  {
    match LinePiece(line) case Some(p) => [p] case None => []
  }

  lemma {:induction false} LinePiecesSnoc(lines: seq<string>, j: nat)
    requires j < |lines|
    ensures LinePieces(lines[..j + 1]) == LinePieces(lines[..j]) + Piece(lines[j])
  {
    assert lines[..j + 1] == lines[..j] + [lines[j]];
    LinePiecesAppend(lines[..j], [lines[j]]);
    assert LinePieces([lines[j]]) == Piece(lines[j]) + LinePieces([]);
  }

  /** Appending at most one piece to text and calls that agree with the
      pieces read so far keeps them in agreement. */
  lemma {:induction false} AppendStep(done: seq<string>, here: seq<string>, before: string)
    requires |here| <= 1
    ensures before + Concat(done + here) == before + Concat(done) + Concat(here)
    ensures Calls(done + here, before) == Calls(done, before) + Calls(here, before + Concat(done))
    ensures |here| == 1 ==> Concat(here) == here[0]
    ensures |here| == 1 ==> Calls(here, before + Concat(done)) == [ChunkCall(here[0], before + Concat(done) + here[0])]
  {
    ConcatAppend(done, here);
    CallsAppend(done, here, before);
    if |here| == 1 {
      assert Concat(here) == here[0] + Concat([]);
      assert here[1..] == [];
    }
  }

  /** Text and calls that agree with the first `j` lines agree with the
      first `j + 1` once the piece of line `j`, if any, is appended. */
  lemma ReadStep(lines: seq<string>, j: nat, before: string, callsBefore: seq<ChunkCall>, fullText: string, calls: seq<ChunkCall>)
    requires j < |lines|
    requires fullText == before + Concat(LinePieces(lines[..j]))
    requires calls == callsBefore + Calls(LinePieces(lines[..j]), before)
    ensures LinePiece(lines[j]).Some? ==>
              var text := fullText + LinePiece(lines[j]).value;
              text == before + Concat(LinePieces(lines[..j + 1]))
              && calls + [ChunkCall(LinePiece(lines[j]).value, text)] == callsBefore + Calls(LinePieces(lines[..j + 1]), before)
    ensures LinePiece(lines[j]).None? ==>
              fullText == before + Concat(LinePieces(lines[..j + 1]))
              && calls == callsBefore + Calls(LinePieces(lines[..j + 1]), before)
  {
    LinePiecesSnoc(lines, j);
    AppendStep(LinePieces(lines[..j]), Piece(lines[j]), before);
  }

  /** One line of the reading loop, branch by branch as the client does it. */
  method ReadLine(line: string) returns (piece: Option<string>)
    ensures piece == LinePiece(line)
  {
    piece := None;
    if line == "" {
    } else if StartsWith(line, DATA_PREFIX) {
      var data := line[|DATA_PREFIX|..];
      if |data| > 0 && data[0] == ' ' {
        data := data[1..];
      }
      if data != "" && data != DONE_MARKER {
        piece := Some(data);
      }
    } else if JsTrim(line) != "" {
      piece := Some(line);
    }
  }

  /** One chunk: its lines are handled in order, each piece appended to the
      text and announced with the text so far. */
  method ReadChunk(chunk: string, before: string, callsBefore: seq<ChunkCall>) returns (fullText: string, calls: seq<ChunkCall>)
    ensures fullText == before + Concat(LinePieces(ChunkLines(chunk)))
    ensures calls == callsBefore + Calls(LinePieces(ChunkLines(chunk)), before)
  {
    var lines := ChunkLines(chunk);
    fullText := before;
    calls := callsBefore;
    var j := 0;
    while j < |lines|
      invariant 0 <= j <= |lines|
      invariant fullText == before + Concat(LinePieces(lines[..j]))
      invariant calls == callsBefore + Calls(LinePieces(lines[..j]), before)
    {
      var piece := ReadLine(lines[j]);
      ReadStep(lines, j, before, callsBefore, fullText, calls);
      if piece.Some? {
        fullText := fullText + piece.value;
        calls := calls + [ChunkCall(piece.value, fullText)];
      }
      j := j + 1;
    }
    assert lines[..j] == lines;
  }

  /** The reading loop over all chunks; the decoder's final flush is
      appended as it is, without being parsed. Returns the text and the
      callback calls. */
  method AccumulateStream(chunks: seq<string>, flush: string) returns (fullText: string, calls: seq<ChunkCall>)
    ensures fullText == Concat(StreamPieces(chunks)) + flush
    ensures calls == Calls(StreamPieces(chunks), "")
  {
    fullText := "";
    calls := [];
    var i := 0;
    while i < |chunks|
      invariant 0 <= i <= |chunks|
      invariant fullText == Concat(StreamPieces(chunks[..i]))
      invariant calls == Calls(StreamPieces(chunks[..i]), "")
    {
      StreamPiecesSnoc(chunks, i);
      ConcatAppend(StreamPieces(chunks[..i]), LinePieces(ChunkLines(chunks[i])));
      CallsAppend(StreamPieces(chunks[..i]), LinePieces(ChunkLines(chunks[i])), "");
      assert "" + fullText == fullText;
      fullText, calls := ReadChunk(chunks[i], fullText, calls);
      i := i + 1;
    }
    assert chunks[..i] == chunks;
    fullText := fullText + flush;
  }

  lemma {:induction false} StreamPiecesSnoc(chunks: seq<string>, i: nat)
    requires i < |chunks|
    ensures StreamPieces(chunks[..i + 1]) == StreamPieces(chunks[..i]) + LinePieces(ChunkLines(chunks[i]))
  {
    assert chunks[..i + 1] == chunks[..i] + [chunks[i]];
    StreamPiecesAppend(chunks[..i], [chunks[i]]);
    assert StreamPieces([chunks[i]]) == LinePieces(ChunkLines(chunks[i])) + StreamPieces([]);
  }

  // ---------------------------------------------------------------------------
  // Error text of a failed stream request
  // ---------------------------------------------------------------------------

  /** The body of a failed response: unreadable, or its text with what
      `JSON.parse` makes of it (`None` when it throws). */
  datatype ErrorText = Unreadable | ErrorText(text: string, parsed: Option<Json>)

  /** `ENHANCE_FAILED || ERROR_FALLBACK`. */
  const STREAM_FALLBACK: string := if ENHANCE_FAILED != "" then ENHANCE_FAILED else ERROR_FALLBACK

  function FallbackWithStatus(status: int): string {
    STREAM_FALLBACK + "（" + IntToString(status) + "）"
  }

  /** The message of a failed stream request: an unreadable body gives the
      bare fallback; an empty one the fallback with the status; a JSON
      object its `detail`, `message` or `title`; any other JSON value the
      fallback with the status; text that is not JSON its trimmed self. */
  function ParseStreamError(status: int, body: ErrorText): (r: string)
    ensures body.Unreadable? ==> r == STREAM_FALLBACK
    ensures body == ErrorText("", None) ==> r == FallbackWithStatus(status)
  {
    match body
    case Unreadable => STREAM_FALLBACK
    case ErrorText(text, parsed) =>
      if text == "" then FallbackWithStatus(status)
      else
        match parsed
        case Some(payload) =>
          if Truthy(payload) && IsObject(payload) then
            ToJsString(Or(FirstTruthy(payload, ["detail", "message", "title"]), JString(FallbackWithStatus(status))))
          else FallbackWithStatus(status)
        case None =>
          var trimmed := JsTrim(text);
          if trimmed != "" then trimmed else FallbackWithStatus(status)
  }

  /** A problem-detail body is reported by its `detail`. */
  lemma StreamErrorDetail(status: int, text: string, detail: string, rest: map<string, Json>)
    requires text != "" && detail != ""
    ensures ParseStreamError(status, ErrorText(text, Some(JObject(rest["detail" := JString(detail)])))) == detail
  {
    assert Get(JObject(rest["detail" := JString(detail)]), "detail") == JString(detail);
  }

  /** Text that is not JSON is reported trimmed; text that is JSON but not
      an object is not reported at all. */
  lemma StreamErrorText(status: int, text: string, scalar: Json)
    requires JsTrim(text) != "" && !IsObject(scalar)
    ensures ParseStreamError(status, ErrorText(text, None)) == JsTrim(text)
    ensures ParseStreamError(status, ErrorText(text, Some(scalar))) == FallbackWithStatus(status)
  {
  }

  // ---------------------------------------------------------------------------
  // The enhancement call
  // ---------------------------------------------------------------------------

  /** The decoded body of the stream and the decoder's final flush. */
  datatype StreamBody = StreamBody(chunks: seq<string>, flush: string)

  datatype StreamResponse = StreamResponse(ok: bool, status: int, errorText: ErrorText, body: Option<StreamBody>)

  /** How `fetch` ended: thrown with an error's `name` and `message`, or answered. */
  datatype Fetched = FetchThrew(name: Json, message: Json) | Responded(response: StreamResponse)

  /** The JSON body posted; the count is sent only when one was given. */
  datatype EnhanceRequest = EnhanceRequest(originalRequirement: string, expectedProcessCount: Option<int>)

  /** The text the stream produced, trimmed; the original description when
      the stream produced nothing visible. */
  function EnhancedText(fullText: string, description: string): string {
    if JsTrim(fullText) != "" then JsTrim(fullText) else description
  }

  /** The first complaint about the payload, if any: a missing description,
      then the description rules, then the expected count. */
  function EnhancePayloadError(description: string, count: CountInput): Option<string> {
    if description == "" then Some(EMPTY_REQUIREMENT)
    else
      var check := ValidateRequirement(description);
      if !check.valid then Some(check.message)
      else
        var countCheck := ValidateExpectedProcessCount(count);
        if !countCheck.valid then
          Some(if countCheck.message != "" then countCheck.message else EXPECTED_PROCESS_COUNT_INVALID)
        else None
  }

  /** The enhancement: payload checks, the request, then the outcome of the
      call. A cancelled call, a failed response and a response without a
      readable stream are three different errors. */
  function EnhanceRequirement(description: string, count: CountInput, fetch: EnhanceRequest -> Fetched): (r: Result<string>)
    ensures EnhancePayloadError(description, count).Some? ==> r == Err(EnhancePayloadError(description, count).value)
    ensures r.Ok? ==> ValidateRequirement(description).valid && JsTrim(r.value) != ""
    ensures EnhancePayloadError(description, count).None? ==>
              var answer := fetch(EnhanceRequest(description, ValidateExpectedProcessCount(count).value));
              && (answer.FetchThrew? && answer.name == JString("AbortError") ==> r == Err(STREAM_CANCELLED))
              && (answer.FetchThrew? && answer.name != JString("AbortError") ==>
                    r == Err(ToJsString(Or(answer.message, JString(ENHANCE_FAILED)))))
              && (answer.Responded? && !answer.response.ok ==>
                    r == Err(ParseStreamError(answer.response.status, answer.response.errorText)))
              && (answer.Responded? && answer.response.ok && answer.response.body.None? ==>
                    r == Err(STREAM_UNSUPPORTED))
              && (answer.Responded? && answer.response.ok && answer.response.body.Some? ==>
                    var text := Concat(StreamPieces(answer.response.body.value.chunks)) + answer.response.body.value.flush;
                    r == Ok(if JsTrim(text) != "" then JsTrim(text) else description))
  {
    match EnhancePayloadError(description, count)
    case Some(message) => Err(message)
    case None =>
      var request := EnhanceRequest(description, ValidateExpectedProcessCount(count).value);
      match fetch(request)
      case FetchThrew(name, message) =>
        if name == JString("AbortError") then Err(STREAM_CANCELLED)
        else Err(ToJsString(Or(message, JString(ENHANCE_FAILED))))
      case Responded(response) =>
        if !response.ok then Err(ParseStreamError(response.status, response.errorText))
        else if response.body.None? then Err(STREAM_UNSUPPORTED)
        else
          var text := Concat(StreamPieces(response.body.value.chunks)) + response.body.value.flush;
          StripIdempotent(text, IsJsWhitespace);
          Ok(EnhancedText(text, description))
  }

  /** A valid payload is posted with the description and the validated count,
      and a cancelled call is reported as cancelled. */
  lemma CancelledCall(description: string, count: CountInput, fetch: EnhanceRequest -> Fetched, message: Json)
    requires EnhancePayloadError(description, count).None?
    requires fetch(EnhanceRequest(description, ValidateExpectedProcessCount(count).value)) == FetchThrew(JString("AbortError"), message)
    ensures EnhanceRequirement(description, count, fetch) == Err(STREAM_CANCELLED)
  {
  }

  /** A stream that yields only markers and blank lines leaves the
      description as it was. */
  lemma SilentStreamKeepsDescription(description: string, count: CountInput, fetch: EnhanceRequest -> Fetched, chunks: seq<string>)
    requires EnhancePayloadError(description, count).None?
    requires fetch(EnhanceRequest(description, ValidateExpectedProcessCount(count).value)) == Responded(StreamResponse(true, 200, Unreadable, Some(StreamBody(chunks, ""))))
    requires StreamPieces(chunks) == []
    ensures EnhanceRequirement(description, count, fetch) == Ok(description)
  {
    assert JsTrim("") == "";
  }
}
