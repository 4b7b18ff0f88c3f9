/** The requirement knowledge base: splitting documents into overlapping
    chunks for the vector store, importing an uploaded folder of text files,
    reading tags back from chunk metadata, re-ranking search hits and
    assembling the prompt context.

    The vector store, the key-value cache, the rerank model and the digest
    function are outside the model: their answers are parameters. */
module Knowledge {

  import opened Results
  import opened Text
  import opened KnowledgeEntries

  // ---------------------------------------------------------------------------
  // Chunk size and overlap
  // ---------------------------------------------------------------------------

  const MIN_CHUNK_SIZE: int := 200

  /** `Math.max(200, chunkSize)`. */
  function ChunkSize(configured: int): (r: int)
    ensures r >= MIN_CHUNK_SIZE && r >= configured
    ensures r == MIN_CHUNK_SIZE || r == configured
  {
    if configured > MIN_CHUNK_SIZE then configured else MIN_CHUNK_SIZE
  }

  /** Java 21 `Math.clamp(long value, int min, int max)`: an
      `IllegalArgumentException` when `min > max`, otherwise `value` forced
      into `[min, max]`. */
  function JavaClamp(value: int, min: int, max: int): (r: Result<int>)
    ensures r.Err? <==> min > max
    ensures r.Ok? ==> min <= r.value <= max
    ensures r.Ok? && min <= value <= max ==> r.value == value
  {
    if min > max then Err(IntToString(min) + " > " + IntToString(max))
    else if value < min then Ok(min)
    else if value > max then Ok(max)
    else Ok(value)
  }

  /** The overlap as the service computes it, `Math.clamp(0, overlap, chunkSize - 1)`:
      the configured overlap is passed as the lower bound and 0 as the value. */
  function OverlapAsWritten(chunkSize: int, configured: int): (r: Result<int>)
    requires chunkSize >= 1
    ensures r.Err? <==> configured > chunkSize - 1
    ensures r.Ok? ==> 0 <= r.value < chunkSize
  {
    JavaClamp(0, configured, chunkSize - 1)
  }

  /** With the default minimum chunk size, an overlap of 200 makes chunking throw. */
  lemma OverlapAsWrittenThrows()
    ensures OverlapAsWritten(ChunkSize(100), 200) == Err("200 > 199")
  {
    assert IntToString(200) == "200" by {
      assert NatToString(200) == NatToString(20) + "0";
      assert NatToString(20) == NatToString(2) + "0";
    }
    assert IntToString(199) == "199" by {
      assert NatToString(199) == NatToString(19) + "9";
      assert NatToString(19) == NatToString(1) + "9";
    }
  }

  /** The overlap forced into `[0, chunkSize - 1]`, which the clamp is evidently meant to compute. */
  function Overlap(chunkSize: int, configured: int): (r: int)
    requires chunkSize >= 1
    ensures 0 <= r < chunkSize
    ensures 0 <= configured < chunkSize ==> r == configured
    ensures configured < 0 ==> r == 0
    ensures configured >= chunkSize ==> r == chunkSize - 1
  {
    if configured < 0 then 0 else if configured > chunkSize - 1 then chunkSize - 1 else configured
  }

  /** Below the chunk size the two computations agree. */
  lemma OverlapAgreesBelowChunkSize(chunkSize: int, configured: int)
    requires chunkSize >= 1 && configured < chunkSize
    ensures OverlapAsWritten(chunkSize, configured) == Ok(Overlap(chunkSize, configured))
  {
  }

  // ---------------------------------------------------------------------------
  // Windows
  // ---------------------------------------------------------------------------

  /** The half-open range `[lo, hi)` of the normalised text one chunk is cut from. */
  datatype Window = Window(lo: nat, hi: nat)

  /** End of the window starting at `start`: at most `chunkSize` characters,
      pulled back to the last line break at or before the hard limit when
      that break lies past the middle of the window. */
  function CutEnd(s: string, start: nat, chunkSize: int): (r: nat)
    requires start < |s| && chunkSize >= 2
    ensures start < r <= |s| && r <= start + chunkSize
    ensures r < |s| && r < start + chunkSize ==> s[r] == '\n' && r > start + chunkSize / 2
  {
    var end := if |s| < start + chunkSize then |s| else start + chunkSize;
    if end < |s| then
      var newline := LastIndexOf(s, '\n', end);
      if newline > start + chunkSize / 2 then newline else end
    else end
  }

  /** One turn of the loop as written: `None` when the window reaches the
      end of the text, otherwise the next start,
      `max(0, end - overlap)`, bumped to `end + 1` when it equals `end`. */
  function StepAsWritten(s: string, start: nat, chunkSize: int, overlap: int): (r: Option<int>)
    requires start < |s| && chunkSize >= 2 && overlap >= 0
    ensures r.None? <==> CutEnd(s, start, chunkSize) == |s|
    ensures r.Some? ==> 0 <= r.value <= CutEnd(s, start, chunkSize) + 1
  {
    var end := CutEnd(s, start, chunkSize);
    if end >= |s| then None
    else
      var next := if end - overlap > 0 then end - overlap else 0;
      Some(if next == end then end + 1 else next)
  }

  /** An overlap the clamp accepts, and a line break just past the middle of
      the first window: the loop as written comes back to start 0 and never
      ends. */
  lemma StallAsWritten(s: string)
    requires |s| > 200 && s[150] == '\n'
    requires forall k :: 150 < k <= 200 ==> s[k] != '\n'
    ensures OverlapAsWritten(200, 199) == Ok(199)
    ensures CutEnd(s, 0, 200) == 150
    ensures StepAsWritten(s, 0, 200, 199) == Some(0)
  {
    var newline := LastIndexOf(s, '\n', 200);
    assert newline == 150;
  }

  /** With no overlap and no line break to cut at, the next window starts
      one past the end of the current one: the character at index 200 is in
      no chunk. */
  lemma DropAsWritten(s: string)
    requires |s| > 201
    requires forall k :: 0 <= k <= 200 ==> s[k] != '\n'
    ensures OverlapAsWritten(200, 0) == Ok(0)
    ensures CutEnd(s, 0, 200) == 200
    ensures StepAsWritten(s, 0, 200, 0) == Some(201)
  {
    var newline := LastIndexOf(s, '\n', 200);
    assert newline == -1;
  }

  /** With an overlap of at least one and at most half the chunk size, the
      loop as written moves forward and keeps the windows overlapping: the
      next start lies strictly between the current start and the window end,
      exactly where the corrected loop puts it. */
  lemma StepAsWrittenAdvances(s: string, start: nat, chunkSize: int, overlap: int)
    requires start < |s| && chunkSize >= 2 && 1 <= overlap <= chunkSize / 2
    requires StepAsWritten(s, start, chunkSize, overlap).Some?
    ensures start < StepAsWritten(s, start, chunkSize, overlap).value < CutEnd(s, start, chunkSize)
    ensures StepAsWritten(s, start, chunkSize, overlap).value == NextStart(start, CutEnd(s, start, chunkSize), overlap)
  {
    var end := CutEnd(s, start, chunkSize);
    assert end == start + chunkSize || end > start + chunkSize / 2;
  }

  /** The next start as evidently intended: `overlap` characters back from
      the end of the window, but always past the current start and never past
      the end. */
  function NextStart(start: nat, end: nat, overlap: int): (r: nat)
    requires start < end && overlap >= 0
    ensures start < r <= end
    ensures r >= end - overlap
    ensures end - overlap > start ==> r == end - overlap
  {
    if end - overlap > start then end - overlap else end
  }

  /** Windows from `start` to `n`, each at most `chunkSize` long, each
      starting strictly after the previous one and overlapping it by at
      most `overlap`. */
  predicate Chained(r: seq<Window>, start: nat, n: nat, chunkSize: int, overlap: int) {
    && (forall i :: 0 <= i < |r| ==> start <= r[i].lo < r[i].hi <= n && r[i].hi - r[i].lo <= chunkSize)
    && (r != [] ==> r[0].lo == start && r[|r| - 1].hi == n)
    && (forall i :: 0 <= i < |r| - 1 ==> r[i].lo < r[i + 1].lo <= r[i].hi)
    && (forall i :: 0 <= i < |r| - 1 ==> r[i + 1].lo >= r[i].hi - overlap)
  }

  /** A window followed by a chain starting inside it is a chain. */
  lemma ChainedCons(w: Window, rest: seq<Window>, n: nat, chunkSize: int, overlap: int)
    requires w.lo < w.hi <= n && w.hi - w.lo <= chunkSize && rest != []
    requires Chained(rest, rest[0].lo, n, chunkSize, overlap)
    requires w.lo < rest[0].lo <= w.hi && rest[0].lo >= w.hi - overlap
    ensures Chained([w] + rest, w.lo, n, chunkSize, overlap)
  {
    var r := [w] + rest;
    forall i | 0 <= i < |r|
      ensures w.lo <= r[i].lo < r[i].hi <= n && r[i].hi - r[i].lo <= chunkSize
    {
      if i > 0 {
        var j := i - 1;
        assert r[i] == rest[j];
        assert rest[0].lo <= rest[j].lo < rest[j].hi <= n && rest[j].hi - rest[j].lo <= chunkSize;
      } else {
        assert r[0] == w;
      }
    }
    forall i | 0 <= i < |r| - 1
      ensures r[i].lo < r[i + 1].lo <= r[i].hi && r[i + 1].lo >= r[i].hi - overlap
    {
      assert r[i + 1] == rest[i];
      if i > 0 {
        assert r[i] == rest[i - 1];
      }
    }
    assert r[|r| - 1] == rest[|rest| - 1];
  }

  /** The windows from `start` to the end of the text cut at the chunk size
      and overlapping by at most `overlap`. */
  function Windows(s: string, start: nat, chunkSize: int, overlap: int): (r: seq<Window>)
    requires start <= |s| && chunkSize >= 2 && overlap >= 0
    ensures r != [] <==> start < |s|
    ensures Chained(r, start, |s|, chunkSize, overlap)
    decreases |s| - start
  {
    if start == |s| then []
    else
      var end := CutEnd(s, start, chunkSize);
      if end == |s| then [Window(start, end)]
      else
        var rest := Windows(s, NextStart(start, end, overlap), chunkSize, overlap);
        ChainedCons(Window(start, end), rest, |s|, chunkSize, overlap);
        [Window(start, end)] + rest
  }

  /** Contiguous windows from `from` to `to` leave no gap. */
  predicate Tiles(ws: seq<Window>, from: nat, to: nat) {
    && ws != []
    && ws[0].lo == from
    && ws[|ws| - 1].hi == to
    && (forall i :: 0 <= i < |ws| ==> ws[i].lo < ws[i].hi)
    && (forall i :: 0 <= i < |ws| - 1 ==> ws[i + 1].lo <= ws[i].hi)
  }

  /** Every position covered by a tiling lies in one of its windows. */
  lemma {:induction false} TilesCover(ws: seq<Window>, from: nat, to: nat, k: nat) returns (i: nat)
    requires Tiles(ws, from, to) && from <= k < to
    ensures i < |ws| && ws[i].lo <= k < ws[i].hi
    decreases |ws|
  {
    if k < ws[0].hi {
      i := 0;
    } else {
      assert |ws| > 1;
      assert Tiles(ws[1..], ws[1].lo, to);
      var j := TilesCover(ws[1..], ws[1].lo, to, k);
      i := j + 1;
    }
  }

  // ---------------------------------------------------------------------------
  // Chunks
  // ---------------------------------------------------------------------------

  predicate NotCarriageReturn(c: char) {
    c != '\r'
  }

  /** `content.replace("\r", "").trim()`. */
  function NormalizeContent(content: string): (r: string)
    ensures '\r' !in r
  {
    var kept := Keep(content, NotCarriageReturn);
    TrimWithin(kept);
    JavaTrim(kept)
  }

  /** Every window lies inside `s` and spans at most `chunkSize` characters. */
  predicate WindowsFit(s: string, ws: seq<Window>, chunkSize: int) {
    forall i :: 0 <= i < |ws| ==> ws[i].lo <= ws[i].hi <= |s| && ws[i].hi - ws[i].lo <= chunkSize
  }

  /** The trimmed windows from `from` on that have text, in order. */
  function ChunksOf(s: string, ws: seq<Window>, chunkSize: int, from: nat): (r: seq<string>)
    requires from <= |ws|
    requires WindowsFit(s, ws, chunkSize)
    ensures |r| <= |ws| - from
    ensures forall i :: 0 <= i < |r| ==> HasText(r[i]) && JavaTrim(r[i]) == r[i] && |r[i]| <= chunkSize
    decreases |ws| - from
  {
    if from == |ws| then []
    else
      var chunk := JavaTrim(s[ws[from].lo..ws[from].hi]);
      var rest := ChunksOf(s, ws, chunkSize, from + 1);
      if HasText(chunk) then
        JavaTrimIdempotent(s[ws[from].lo..ws[from].hi]);
        var r := [chunk] + rest;
        forall i | 0 <= i < |r|
          ensures HasText(r[i]) && JavaTrim(r[i]) == r[i] && |r[i]| <= chunkSize
        {
          if i > 0 {
            assert r[i] == rest[i - 1];
          }
        }
        r
      else rest
  }

  /** `splitIntoChunks`, with the overlap clamped into range and the next
      window always starting inside the current one. */
  function SplitIntoChunks(content: string, chunkSizeSetting: int, overlapSetting: int): (r: seq<string>)
    ensures !HasText(content) ==> r == []
    ensures forall i :: 0 <= i < |r| ==>
      HasText(r[i]) && JavaTrim(r[i]) == r[i] && |r[i]| <= ChunkSize(chunkSizeSetting)
  {
    if !HasText(content) then []
    else
      var s := NormalizeContent(content);
      var chunkSize := ChunkSize(chunkSizeSetting);
      ChunksOf(s, Windows(s, 0, chunkSize, Overlap(chunkSize, overlapSetting)), chunkSize, 0)
  }

  /** Nothing of the normalised text is skipped: every character lies in a window. */
  lemma ChunkWindowsCover(content: string, chunkSizeSetting: int, overlapSetting: int, k: nat)
      returns (i: nat)
    requires k < |NormalizeContent(content)|
    ensures var s := NormalizeContent(content);
      var chunkSize := ChunkSize(chunkSizeSetting);
      var ws := Windows(s, 0, chunkSize, Overlap(chunkSize, overlapSetting));
      i < |ws| && ws[i].lo <= k < ws[i].hi
  {
    var s := NormalizeContent(content);
    var chunkSize := ChunkSize(chunkSizeSetting);
    var ws := Windows(s, 0, chunkSize, Overlap(chunkSize, overlapSetting));
    i := TilesCover(ws, 0, |s|, k);
  }

  /** The trimmed text of one window. */
  function WindowText(s: string, w: Window): string
    requires w.lo <= w.hi <= |s|
  {
    JavaTrim(s[w.lo..w.hi])
  }

  predicate WindowsWithin(s: string, ws: seq<Window>) {
    forall i :: 0 <= i < |ws| ==> ws[i].lo <= ws[i].hi <= |s|
  }

  /** The trimmed text of every window, in order. */
  function WindowTexts(s: string, ws: seq<Window>): (r: seq<string>)
    requires WindowsWithin(s, ws)
    ensures |r| == |ws| && forall i :: 0 <= i < |ws| ==> r[i] == WindowText(s, ws[i])
  {
    seq(|ws|, i requires 0 <= i < |ws| => WindowText(s, ws[i]))
  }

  /** Positions, in increasing order, of the texts from `from` on that have text. */
  function TextPositions(ts: seq<string>, from: nat): (r: seq<nat>)
    requires from <= |ts|
    ensures forall i :: 0 <= i < |r| ==> from <= r[i] < |ts| && HasText(ts[r[i]])
    ensures forall i, j :: 0 <= i < j < |r| ==> r[i] < r[j]
    decreases |ts| - from
  {
    if from == |ts| then []
    else
      var rest := TextPositions(ts, from + 1);
      if HasText(ts[from]) then
        TextPositionsCons(from, rest);
        [from] + rest
      else rest
  }

  /** Every text from `from` on that has text is listed. */
  lemma {:induction false} TextPositionsComplete(ts: seq<string>, from: nat, j: nat)
    requires from <= j < |ts| && HasText(ts[j])
    ensures j in TextPositions(ts, from)
    decreases j - from
  {
    if from < j {
      TextPositionsComplete(ts, from + 1, j);
    }
  }

  /** The i-th of `cs` is the text of `ts` at the i-th of `ps`. */
  predicate Picks(cs: seq<string>, ps: seq<nat>, ts: seq<string>) {
    |cs| == |ps| && forall i :: 0 <= i < |ps| ==> ps[i] < |ts| && cs[i] == ts[ps[i]]
  }

  /** Keeping or dropping one more text preserves `Picks`. */
  lemma PickedCons(keep: bool, t: string, rest: seq<string>, from: nat, tw: seq<nat>, ts: seq<string>,
                   cs: seq<string>, ps: seq<nat>)
    requires Picks(rest, tw, ts)
    requires from < |ts| && (keep ==> t == ts[from])
    requires cs == (if keep then [t] + rest else rest) && ps == (if keep then [from] + tw else tw)
    ensures Picks(cs, ps, ts)
  {
    if keep {
      assert forall i :: 1 <= i < |ps| ==> cs[i] == rest[i - 1] && ps[i] == tw[i - 1];
    }
  }

  lemma TextPositionsCons(from: nat, rest: seq<nat>)
    requires forall i :: 0 <= i < |rest| ==> from < rest[i]
    requires forall i, j :: 0 <= i < j < |rest| ==> rest[i] < rest[j]
    ensures forall i, j :: 0 <= i < j < |[from] + rest| ==> ([from] + rest)[i] < ([from] + rest)[j]
  {
    var r := [from] + rest;
    assert forall i :: 1 <= i < |r| ==> r[i] == rest[i - 1];
  }

  /** The chunks of the windows from `from` on are the trimmed window texts
      that have text, in window order. */
  predicate ChunksPicked(s: string, ws: seq<Window>, chunkSize: int, from: nat)
    requires from <= |ws|
    requires WindowsFit(s, ws, chunkSize)
  {
    var ts := WindowTexts(s, ws);
    Picks(ChunksOf(s, ws, chunkSize, from), TextPositions(ts, from), ts)
  }

  lemma {:induction false} ChunksAreWindowTexts(s: string, ws: seq<Window>, chunkSize: int, from: nat)
    requires from <= |ws|
    requires WindowsFit(s, ws, chunkSize)
    ensures ChunksPicked(s, ws, chunkSize, from)
    decreases |ws| - from
  {
    if from < |ws| {
      ChunksAreWindowTexts(s, ws, chunkSize, from + 1);
    }
    ChunksPickStep(s, ws, chunkSize, from);
  }

  /** One window more keeps the chunks in step with the listed positions;
      past the last window both are empty. */
  lemma ChunksPickStep(s: string, ws: seq<Window>, chunkSize: int, from: nat)
    requires from <= |ws|
    requires WindowsFit(s, ws, chunkSize)
    requires from < |ws| ==> ChunksPicked(s, ws, chunkSize, from + 1)
    ensures ChunksPicked(s, ws, chunkSize, from)
  {
    if from == |ws| {
      return;
    }
    var ts := WindowTexts(s, ws);
    var t := ts[from];
    ChunksOfStep(s, ws, chunkSize, from);
    TextPositionsStep(ts, from);
    PickedCons(HasText(t), t, ChunksOf(s, ws, chunkSize, from + 1), from, TextPositions(ts, from + 1), ts,
               ChunksOf(s, ws, chunkSize, from), TextPositions(ts, from));
  }

  lemma ChunksOfStep(s: string, ws: seq<Window>, chunkSize: int, from: nat)
    requires from < |ws|
    requires WindowsFit(s, ws, chunkSize)
    ensures var t := WindowTexts(s, ws)[from];
            var rest := ChunksOf(s, ws, chunkSize, from + 1);
            ChunksOf(s, ws, chunkSize, from) == if HasText(t) then [t] + rest else rest
  {
  }

  lemma TextPositionsStep(ts: seq<string>, from: nat)
    requires from < |ts|
    ensures var tw := TextPositions(ts, from + 1);
            TextPositions(ts, from) == if HasText(ts[from]) then [from] + tw else tw
  {
  }

  /** For text that has text, the chunks are the trimmed texts of the
      windows the loop cuts, in order, leaving out exactly the blank ones. */
  lemma SplitChunksAreWindowTexts(content: string, chunkSizeSetting: int, overlapSetting: int)
    requires HasText(content)
    ensures var s := NormalizeContent(content);
            var chunkSize := ChunkSize(chunkSizeSetting);
            var ws := Windows(s, 0, chunkSize, Overlap(chunkSize, overlapSetting));
            var r := SplitIntoChunks(content, chunkSizeSetting, overlapSetting);
            var ts := WindowTexts(s, ws);
            |r| == |TextPositions(ts, 0)|
            && forall i :: 0 <= i < |r| ==> r[i] == WindowText(s, ws[TextPositions(ts, 0)[i]])
  {
    var s := NormalizeContent(content);
    var chunkSize := ChunkSize(chunkSizeSetting);
    var ws := Windows(s, 0, chunkSize, Overlap(chunkSize, overlapSetting));
    ChunksAreWindowTexts(s, ws, chunkSize, 0);
  }

  /** A character that is neither trimmed nor white space is never lost: it
      lies in some chunk. In particular such text yields at least one chunk. */
  lemma VisibleCharacterKept(content: string, chunkSizeSetting: int, overlapSetting: int, k: nat)
    requires k < |NormalizeContent(content)|
    requires !IsTrimmable(NormalizeContent(content)[k]) && !IsJavaWhitespace(NormalizeContent(content)[k])
    ensures var r := SplitIntoChunks(content, chunkSizeSetting, overlapSetting);
            r != [] && exists i :: 0 <= i < |r| && NormalizeContent(content)[k] in r[i]
  {
    var s := NormalizeContent(content);
    var chunkSize := ChunkSize(chunkSizeSetting);
    var ws := Windows(s, 0, chunkSize, Overlap(chunkSize, overlapSetting));
    NormalizedCharFromContent(content, k);
    var w := ChunkWindowsCover(content, chunkSizeSetting, overlapSetting, k);
    VisibleInWindowText(s, ws[w], k);
    var ts := WindowTexts(s, ws);
    var tw := TextPositions(ts, 0);
    TextPositionsComplete(ts, 0, w);
    var i :| 0 <= i < |tw| && tw[i] == w;
    SplitChunksAreWindowTexts(content, chunkSizeSetting, overlapSetting);
  }

  /** Content can have text and still give no chunk: U+0001 is text for
      `hasText` but `trim` removes it, so at the edge of a window it is
      lost, and the rest here is ideographic space. This holds of the
      source's walk as well, which cuts the same two windows here. */
  lemma TextWithoutChunks()
    ensures HasText(NormalizeContent(SpacedControl())) && SplitIntoChunks(SpacedControl(), 200, 0) == []
  {
    SpacedControlNormal();
    SpacedControlWindows();
    SpacedControlChunks();
    assert ChunkSize(200) == 200 && Overlap(200, 0) == 0;
  }

  /** The loop as written gives no chunk for the same content either: its
      only window is the first one, whose trimmed text is blank, and the
      next start is past the end. */
  lemma TextWithoutChunksAsWritten()
    ensures OverlapAsWritten(200, 0) == Ok(0)
    ensures CutEnd(SpacedControl(), 0, 200) == 200
    ensures !HasText(WindowText(SpacedControl(), Window(0, 200)))
    ensures StepAsWritten(SpacedControl(), 0, 200, 0) == Some(|SpacedControl()|)
  {
    var c := SpacedControl();
    assert LastIndexOf(c, '\n', 200) == -1;
    SpacedControlTexts();
  }

  /** 199 ideographic spaces, U+0001 and one more ideographic space. */
  function SpacedControl(): (c: string)
    ensures |c| == 201 && c[199] == '\U{0001}' && c[200] == '\U{3000}'
    ensures forall k :: 0 <= k < 199 ==> c[k] == '\U{3000}'
  {
    seq(199, _ => '\U{3000}') + ['\U{0001}', '\U{3000}']
  }

  lemma SpacedControlNormal()
    ensures NormalizeContent(SpacedControl()) == SpacedControl() && HasText(SpacedControl())
  {
    SpacedControlKept();
    SpacedControlTrimmed();
    SpacedControlHasText();
  }

  lemma SpacedControlHasText()
    ensures HasText(SpacedControl())
  {
    var c := SpacedControl();
    assert !IsJavaWhitespace(c[199]);
  }

  lemma SpacedControlKept()
    ensures Keep(SpacedControl(), NotCarriageReturn) == SpacedControl()
  {
    KeepAll(SpacedControl(), NotCarriageReturn);
  }

  lemma SpacedControlTrimmed()
    ensures JavaTrim(SpacedControl()) == SpacedControl()
  {
    var c := SpacedControl();
    assert FirstKept(c, IsTrimmable, 0) == 0;
    assert EndKept(c, IsTrimmable, 0, |c|) == |c|;
  }

  lemma SpacedControlWindows()
    ensures Windows(SpacedControl(), 0, 200, 0) == [Window(0, 200), Window(200, 201)]
  {
    var c := SpacedControl();
    assert LastIndexOf(c, '\n', 200) == -1;
    assert CutEnd(c, 0, 200) == 200;
    assert CutEnd(c, 200, 200) == 201;
  }

  lemma SpacedControlTexts()
    ensures !HasText(WindowText(SpacedControl(), Window(0, 200)))
    ensures !HasText(WindowText(SpacedControl(), Window(200, 201)))
  {
    var c := SpacedControl();
    TrailingInvisibleDropped(c[0..200]);
    OnlySpaceNoText(c[200..201]);
  }

  lemma SpacedControlChunks()
    ensures ChunksOf(SpacedControl(), [Window(0, 200), Window(200, 201)], 200, 0) == []
  {
    var c := SpacedControl();
    var ws := [Window(0, 200), Window(200, 201)];
    SpacedControlTexts();
    assert ChunksOf(c, ws, 200, 2) == [];
    assert ChunksOf(c, ws, 200, 1) == ChunksOf(c, ws, 200, 2);
  }

  /** A window of white space ending in a trimmable character has no text
      once trimmed. */
  lemma TrailingInvisibleDropped(w: string)
    requires w != [] && IsTrimmable(w[|w| - 1])
    requires forall k :: 0 <= k < |w| - 1 ==> IsJavaWhitespace(w[k])
    ensures !HasText(JavaTrim(w))
  {
    var r := JavaTrim(w);
    var lo := FirstKept(w, IsTrimmable, 0);
  }

  /** White space has no text after trimming. */
  lemma OnlySpaceNoText(w: string)
    requires forall k :: 0 <= k < |w| ==> IsJavaWhitespace(w[k])
    ensures !HasText(JavaTrim(w))
  {
    TrimWithin(w);
  }


  /** A character of the normalised text that is not white space shows that
      the content has text. */
  lemma NormalizedCharFromContent(content: string, k: nat)
    requires k < |NormalizeContent(content)| && !IsJavaWhitespace(NormalizeContent(content)[k])
    ensures HasText(content)
  {
    var s := NormalizeContent(content);
    var kept := Keep(content, NotCarriageReturn);
    TrimWithin(kept);
    assert s[k] in kept;
    var j :| 0 <= j < |content| && content[j] == s[k];
  }

  /** A window holding a character that is neither trimmed nor white space
      keeps it in its trimmed text, which therefore has text. */
  lemma VisibleInWindowText(s: string, w: Window, k: nat)
    requires w.lo <= k < w.hi <= |s| && !IsTrimmable(s[k]) && !IsJavaWhitespace(s[k])
    ensures s[k] in WindowText(s, w) && HasText(WindowText(s, w))
  {
    var slice := s[w.lo..w.hi];
    assert slice[k - w.lo] == s[k];
    StripKeeps(slice, IsTrimmable, k - w.lo);
    var t := WindowText(s, w);
    var m :| 0 <= m < |t| && t[m] == s[k];
  }

  // ---------------------------------------------------------------------------
  // Chunk documents
  // ---------------------------------------------------------------------------

  /** Metadata stored with every chunk; the title only when it has text and
      the tags only when there are some. */
  datatype ChunkMetadata = ChunkMetadata(documentId: string, title: Option<string>, tags: Option<seq<string>>, chunkIndex: nat)

  datatype ChunkDocument = ChunkDocument(id: string, text: string, metadata: ChunkMetadata)

  /** Vector-store id of the `index`-th chunk of a document. */
  function ChunkId(documentId: string, index: nat): (r: string)
    ensures |r| > |documentId| + 2 && r[..|documentId| + 2] == documentId + "::"
  {
    documentId + "::" + NatToString(index)
  }

  /** Different chunks of one document get different ids. */
  lemma ChunkIdsDistinct(documentId: string, i: nat, j: nat)
    requires ChunkId(documentId, i) == ChunkId(documentId, j)
    ensures i == j
  {
    var p := |documentId| + 2;
    assert ChunkId(documentId, i)[p..] == NatToString(i);
    assert ChunkId(documentId, j)[p..] == NatToString(j);
    DigitsValueOfNat(i);
    DigitsValueOfNat(j);
  }

  /** `buildDocuments`: one vector-store document per chunk, numbered from 0. */
  function BuildDocuments(doc: KnowledgeDocument, chunks: seq<string>): (r: seq<ChunkDocument>)
    ensures |r| == |chunks|
    ensures forall i :: 0 <= i < |r| ==>
      && r[i].text == chunks[i]
      && r[i].metadata.chunkIndex == i
      && r[i].metadata.documentId == doc.documentId
      && StartsWith(r[i].id, doc.documentId + "::")
    ensures forall i, j :: 0 <= i < j < |r| ==> r[i].id != r[j].id
  {
    var title := if HasText(doc.title) then Some(doc.title) else None;
    var tags := if doc.tags == [] then None else Some(doc.tags);
    var r := seq(|chunks|, i requires 0 <= i < |chunks| =>
      ChunkDocument(ChunkId(doc.documentId, i), chunks[i], ChunkMetadata(doc.documentId, title, tags, i)));
    forall i, j | 0 <= i < j < |r|
      ensures r[i].id != r[j].id
    {
      if r[i].id == r[j].id {
        ChunkIdsDistinct(doc.documentId, i, j);
      }
    }
    r
  }

  /** `upsertDocument`: nothing is written while the feature is off;
      otherwise the normalised document must have content that yields at
      least one chunk. The chunk documents returned are what the vector store
      receives. */
  function UpsertDocument(enabled: bool, doc: KnowledgeDocument, freshId: string,
                          chunkSizeSetting: int, overlapSetting: int): (r: Result<seq<ChunkDocument>>)
    ensures !enabled ==> r == Ok([])
    ensures enabled ==>
      (r.Ok? <==> HasText(doc.content) && SplitIntoChunks(doc.content, chunkSizeSetting, overlapSetting) != [])
    ensures enabled && !HasText(doc.content) ==> r == Err("知识内容不能为空")
    ensures enabled && r.Ok? ==>
      && |r.value| == |SplitIntoChunks(doc.content, chunkSizeSetting, overlapSetting)|
      && (forall i :: 0 <= i < |r.value| ==> r.value[i].metadata.documentId == Normalized(doc, freshId).documentId)
    ensures enabled && HasText(doc.content) && SplitIntoChunks(doc.content, chunkSizeSetting, overlapSetting) == []
            ==> r == Err("无法从知识内容中提取有效片段")
    ensures enabled && r.Ok? ==>
      r.value == BuildDocuments(Normalized(doc, freshId), SplitIntoChunks(doc.content, chunkSizeSetting, overlapSetting))
  {
    if !enabled then Ok([])
    else
      var n := Normalized(doc, freshId);
      if !HasText(n.content) then Err("知识内容不能为空")
      else
        var chunks := SplitIntoChunks(n.content, chunkSizeSetting, overlapSetting);
        if chunks == [] then Err("无法从知识内容中提取有效片段")
        else Ok(BuildDocuments(n, chunks))
  }

  // ---------------------------------------------------------------------------
  // Folder names, paths and extensions
  // ---------------------------------------------------------------------------

  const DEFAULT_FOLDER_NAME: string := "folder-upload"
  const MAX_FOLDER_NAME: nat := 64

  lemma DefaultFolderNameHasText()
    ensures HasText(DEFAULT_FOLDER_NAME) && '/' !in DEFAULT_FOLDER_NAME && '\\' !in DEFAULT_FOLDER_NAME
  {
    assert !IsJavaWhitespace(DEFAULT_FOLDER_NAME[0]);
  }

  /** Back slashes read as slashes. */
  function Slashed(s: string): (r: string)
    ensures |r| == |s| && '\\' !in r
    ensures '\\' !in s ==> r == s
  {
    var r := ReplaceChar(s, '\\', '/');
    assert '\\' !in s ==> r == s;
    r
  }

  /** The part after the last slash; the whole string when there is none. */
  function LastSegment(t: string): (r: string)
    ensures '/' !in r && |r| <= |t| && r == t[|t| - |r|..]
    ensures '/' !in t ==> r == t
  {
    if '/' in t then t[LastIndexOf(t, '/', |t|) + 1..] else t
  }

  /** `normalizeFolderName`: the trimmed name with back slashes read as
      slashes, reduced to its last segment and to 64 characters; the default
      name when nothing with text is left. */
  function NormalizeFolderName(name: string): (r: string)
    ensures HasText(r) && |r| <= MAX_FOLDER_NAME
    ensures '/' !in r && '\\' !in r
    ensures !HasText(name) ==> r == DEFAULT_FOLDER_NAME
  {
    DefaultFolderNameHasText();
    if !HasText(name) then DEFAULT_FOLDER_NAME
    else
      var t := Slashed(JavaTrim(name));
      var segment := LastSegment(t);
      assert '\\' !in segment by {
        assert forall k :: 0 <= k < |segment| ==> segment[k] == t[|t| - |segment| + k];
      }
      var cut := if |segment| > MAX_FOLDER_NAME then segment[..MAX_FOLDER_NAME] else segment;
      assert forall k :: 0 <= k < |cut| ==> cut[k] == segment[k];
      if HasText(cut) then cut else DEFAULT_FOLDER_NAME
  }

  /** A name that is already a short trimmed segment is kept as it is. */
  lemma NormalizeFolderNameKeepsSegment(name: string)
    requires HasText(name) && JavaTrim(name) == name && |name| <= MAX_FOLDER_NAME
    requires '/' !in name && '\\' !in name
    ensures NormalizeFolderName(name) == name
  {
  }

  /** A string with visible characters at both ends is its own trim. */
  lemma Untrimmed(s: string)
    requires s != [] && !IsTrimmable(s[0]) && !IsTrimmable(s[|s| - 1])
    ensures JavaTrim(s) == s
  {
    assert FirstKept(s, IsTrimmable, 0) == 0;
    assert EndKept(s, IsTrimmable, 0, |s|) == |s|;
  }

  /** The last character of a trimmed string with text is not trimmable. */
  lemma TrimmedEnd(s: string)
    requires HasText(s) && JavaTrim(s) == s
    ensures s != [] && !IsTrimmable(s[|s| - 1])
  {
    var k :| 0 <= k < |s| && !IsJavaWhitespace(s[k]);
    assert JavaTrim(s) != [];
  }

  /** The segment after the last separator of a slashed path. */
  lemma LastSegmentOf(dir: string, leaf: string)
    requires '/' !in leaf && '\\' !in leaf
    ensures LastSegment(Slashed(dir + "/" + leaf)) == leaf
  {
    var s := dir + "/" + leaf;
    var t := Slashed(s);
    assert t[|dir|] == '/';
    assert forall j :: |dir| < j < |t| ==> t[j] == leaf[j - |dir| - 1];
    LastIndexAt(t, '/', |dir|);
    assert t[|dir| + 1..] == leaf;
  }

  /** A path keeps only the segment after its last separator. */
  lemma NormalizeFolderNameLastSegment(dir: string, leaf: string)
    requires dir != [] ==> !IsTrimmable(dir[0])
    requires HasText(leaf) && JavaTrim(leaf) == leaf && |leaf| <= MAX_FOLDER_NAME
    requires '/' !in leaf && '\\' !in leaf
    ensures NormalizeFolderName(dir + "/" + leaf) == leaf
  {
    FolderPathTrimmed(dir, leaf);
    LastSegmentOf(dir, leaf);
    NormalizeTrimmedName(dir + "/" + leaf, leaf);
  }

  /** A path ending in a trimmed leaf, with no space in front, is trimmed and has text. */
  lemma FolderPathTrimmed(dir: string, leaf: string)
    requires dir != [] ==> !IsTrimmable(dir[0])
    requires HasText(leaf) && JavaTrim(leaf) == leaf
    ensures JavaTrim(dir + "/" + leaf) == dir + "/" + leaf && HasText(dir + "/" + leaf)
  {
    var s := dir + "/" + leaf;
    assert s == (dir + "/") + leaf;
    TrimmedEnd(leaf);
    assert s[|s| - 1] == leaf[|leaf| - 1];
    Untrimmed(s);
    assert HasText(s) by {
      var k :| 0 <= k < |leaf| && !IsJavaWhitespace(leaf[k]);
      assert s[|dir| + 1 + k] == leaf[k];
    }
  }

  /** A trimmed name whose last segment is short and has text normalizes to it. */
  lemma NormalizeTrimmedName(name: string, leaf: string)
    requires HasText(name) && JavaTrim(name) == name
    requires LastSegment(Slashed(name)) == leaf && HasText(leaf) && |leaf| <= MAX_FOLDER_NAME
    ensures NormalizeFolderName(name) == leaf
  {
  }

  /** Drops every leading slash. */
  function StripLeadingSlashes(s: string): (r: string)
    ensures r == [] || r[0] != '/'
    ensures |r| <= |s| && r == s[|s| - |r|..]
  {
    if s != [] && s[0] == '/' then StripLeadingSlashes(s[1..]) else s
  }

  /** The path `cleanPath` makes of the candidate, with back slashes as
      slashes and no leading slash. */
  function CleanedPath(candidate: string, cleanPath: string -> string): (r: string)
    ensures (r == [] || r[0] != '/') && '\\' !in r
  {
    var slashed := ReplaceChar(cleanPath(candidate), '\\', '/');
    var r := StripLeadingSlashes(slashed);
    assert forall k :: 0 <= k < |r| ==> r[k] == slashed[|slashed| - |r| + k];
    r
  }

  /** `sanitizeRelativePath`: the relative path, or the file name when the
      path has no text, cleaned by `cleanPath`; a result that climbs out with
      ".." is replaced by the file name itself. */
  function SanitizeRelativePath(rawPath: string, fallback: string, cleanPath: string -> string): (r: string)
    ensures !HasText(rawPath) && !HasText(fallback) ==> r == ""
    ensures var candidate := if HasText(rawPath) then rawPath else fallback;
      HasText(candidate) && StartsWith(CleanedPath(candidate, cleanPath), "..") ==>
        r == (if HasText(fallback) then fallback else "")
    ensures r == "" || r == fallback || (r[0] != '/' && !StartsWith(r, "..") && '\\' !in r)
  {
    var candidate := if HasText(rawPath) then rawPath else fallback;
    if !HasText(candidate) then ""
    else
      var cleaned := CleanedPath(candidate, cleanPath);
      if StartsWith(cleaned, "..") then (if HasText(fallback) then fallback else "")
      else cleaned
  }

  /** The last path segment, except that a path ending in a slash is kept whole. */
  function FileNameOf(target: string): (r: string)
    ensures |r| <= |target| && r == target[|target| - |r|..]
  {
    var slash := LastIndexOf(target, '/', |target|);
    if slash >= 0 && slash < |target| - 1 then target[slash + 1..] else target
  }

  /** The lower-cased text after the last dot; empty when there is no dot or the dot ends the name. */
  function ExtensionOf(fileName: string): (r: string)
    ensures '.' !in r
  {
    var dot := LastIndexOf(fileName, '.', |fileName|);
    if dot < 0 || dot == |fileName| - 1 then ""
    else
      var ext := fileName[dot + 1..];
      assert forall k :: 0 <= k < |ext| ==> ext[k] == fileName[dot + 1 + k];
      Lower(ext)
  }

  /** `resolveExtension`: the extension of the last path segment (of the
      file name when the path has no text). */
  function ResolveExtension(path: string, fallbackName: string): (r: string)
    ensures '.' !in r
    ensures !HasText(path) && !HasText(fallbackName) ==> r == ""
  {
    var target := if HasText(path) then path else fallbackName;
    if !HasText(target) then "" else ExtensionOf(FileNameOf(target))
  }

  /** The text after the last dot of a name whose extension holds no dot. */
  lemma ExtensionOfName(stem: string, ext: string)
    requires '.' !in ext && ext != []
    ensures ExtensionOf(stem + "." + ext) == Lower(ext)
  {
    var name := stem + "." + ext;
    assert forall j :: |stem| < j < |name| ==> name[j] == ext[j - |stem| - 1];
    LastIndexAt(name, '.', |stem|);
    assert name[|stem| + 1..] == ext;
  }

  /** The segment after the last slash of a path whose last segment is not empty. */
  lemma FileNameOfPath(dir: string, name: string)
    requires '/' !in name && name != []
    ensures FileNameOf(dir + "/" + name) == name
  {
    var target := dir + "/" + name;
    assert target[|dir|] == '/';
    assert forall j :: |dir| < j < |target| ==> target[j] == name[j - |dir| - 1];
    LastIndexAt(target, '/', |dir|);
    assert target[|dir| + 1..] == name;
  }

  /** A path ending in `/stem.ext` has extension `ext`, lower-cased. */
  lemma ResolveExtensionOfName(dir: string, stem: string, ext: string, fallbackName: string)
    requires '/' !in stem && '/' !in ext && '.' !in ext && HasText(ext)
    ensures ResolveExtension(dir + "/" + stem + "." + ext, fallbackName) == Lower(ext)
  {
    var name := stem + "." + ext;
    var target := dir + "/" + stem + "." + ext;
    assert target == dir + "/" + name;
    var k :| 0 <= k < |ext| && !IsJavaWhitespace(ext[k]);
    assert HasText(target) by {
      assert target[|target| - |ext| + k] == ext[k];
    }
    assert '/' !in name;
    FileNameOfPath(dir, name);
    ExtensionOfName(stem, ext);
  }

  /** A name without a dot has no extension. */
  lemma ResolveExtensionWithoutDot(path: string, fallbackName: string)
    requires HasText(path) && '.' !in path
    ensures ResolveExtension(path, fallbackName) == ""
  {
    var fileName := FileNameOf(path);
    assert forall k :: 0 <= k < |fileName| ==> fileName[k] == path[|path| - |fileName| + k];
    assert '.' !in fileName;
  }

  const SUPPORTED_FOLDER_EXTENSIONS: set<string> := {"md", "markdown", "txt", "json"}

  /** `isSupportedFolderExtension`: an extension with text whose lower-case
      form is one of the four text formats. */
  predicate IsSupportedFolderExtension(ext: string) {
    HasText(ext) && Lower(ext) in SUPPORTED_FOLDER_EXTENSIONS
  }

  /** `buildDocumentFromFolderFile`: the id digests folder and path, the
      title is the path, and the tags are the default folder tag, the folder
      name when it differs from the default, and the extension. */
  function DocumentFromFolderFile(folderName: string, path: string, ext: string, content: string,
                                  digest: string -> string): (r: KnowledgeDocument)
    ensures r.title == path && r.content == content
    ensures r.documentId == digest((if HasText(folderName) then folderName else DEFAULT_FOLDER_NAME) + "::" + path)
    ensures 1 <= |r.tags| <= 3 && r.tags[0] == DEFAULT_FOLDER_NAME
    ensures HasText(folderName) ==> folderName in r.tags
    ensures HasText(ext) ==> ext in r.tags
    ensures forall i :: 0 <= i < |r.tags| ==> r.tags[i] in {DEFAULT_FOLDER_NAME, folderName, ext}
  {
    var safeFolderName := if HasText(folderName) then folderName else DEFAULT_FOLDER_NAME;
    var tags := [DEFAULT_FOLDER_NAME]
      + (if HasText(folderName) && folderName != DEFAULT_FOLDER_NAME then [folderName] else [])
      + (if HasText(ext) then [ext] else []);
    KnowledgeDocument(digest(safeFolderName + "::" + path), path, content, tags)
  }

  // ---------------------------------------------------------------------------
  // Folder import
  // ---------------------------------------------------------------------------

  /** An uploaded file; a null field is the empty string. */
  datatype FolderFile = FolderFile(relativePath: string, fileName: string, content: string)

  datatype FileImportResult = FileImportResult(path: string, documentId: Option<string>, ingested: bool, reason: Option<string>)

  datatype FolderImport = FolderImport(
    folderName: string,
    totalFiles: nat,
    eligibleFiles: nat,
    ingestedFiles: nat,
    skippedFiles: int,
    fileResults: seq<FileImportResult>)

  /** What the import depends on outside the model: Spring's `cleanPath`,
      the MD5 digest, the chunking settings, the random id of a document
      without one, and the failure message (if any) of the vector store or
      cache for a document id. */
  datatype ImportEnv = ImportEnv(
    cleanPath: string -> string,
    digest: string -> string,
    chunkSize: int,
    chunkOverlap: int,
    freshId: string,
    storeFailure: string -> Option<string>)

  /** A file the loop counts as eligible: a usable path, a supported
      extension and content with text. */
  predicate Eligible(f: FolderFile, env: ImportEnv) {
    var path := SanitizeRelativePath(f.relativePath, f.fileName, env.cleanPath);
    && HasText(path)
    && IsSupportedFolderExtension(ResolveExtension(path, f.fileName))
    && HasText(f.content)
  }

  /** The result the loop records for one uploaded file. */
  function FileOutcome(folderName: string, file: Option<FolderFile>, env: ImportEnv): (r: FileImportResult)
    ensures r.ingested ==> file.Some? && Eligible(file.value, env) && r.documentId.Some? && r.reason.None?
    ensures !r.ingested ==> r.reason.Some? && r.documentId.None?
    ensures file.None? ==> r == FileImportResult("(unknown)", None, false, Some("空文件，已跳过"))
  {
    if file.None? then FileImportResult("(unknown)", None, false, Some("空文件，已跳过"))
    else
      var f := file.value;
      var path := SanitizeRelativePath(f.relativePath, f.fileName, env.cleanPath);
      if !HasText(path) then FileImportResult(f.fileName, None, false, Some("无法识别文件路径"))
      else
        var ext := ResolveExtension(path, f.fileName);
        if !IsSupportedFolderExtension(ext) then FileImportResult(path, None, false, Some("仅支持 .md/.txt/.json 文件"))
        else if !HasText(f.content) then FileImportResult(path, None, false, Some("文件内容为空"))
        else
          var doc := DocumentFromFolderFile(folderName, path, ext, f.content, env.digest);
          match UpsertDocument(true, doc, env.freshId, env.chunkSize, env.chunkOverlap)
          case Err(msg) => FileImportResult(path, None, false, Some(msg))
          case Ok(_) =>
            match env.storeFailure(doc.documentId)
            case Some(msg) => FileImportResult(path, None, false, Some(msg))
            case None => FileImportResult(path, Some(doc.documentId), true, None)
  }

  /** Number of files counted as eligible. */
  function CountEligible(files: seq<Option<FolderFile>>, env: ImportEnv): (r: nat)
    ensures r <= |files|
  {
    if files == [] then 0
    else (if files[0].Some? && Eligible(files[0].value, env) then 1 else 0) + CountEligible(files[1..], env)
  }

  /** Number of results marked as ingested. */
  function CountIngested(results: seq<FileImportResult>): (r: nat)
    ensures r <= |results|
  {
    if results == [] then 0
    else (if results[0].ingested then 1 else 0) + CountIngested(results[1..])
  }

  /** The per-file results, one for each upload and in upload order. */
  function FileOutcomes(folderName: string, files: seq<Option<FolderFile>>, env: ImportEnv): (r: seq<FileImportResult>)
    ensures |r| == |files|
    ensures forall i :: 0 <= i < |files| ==> r[i] == FileOutcome(folderName, files[i], env)
  {
    if files == [] then []
    else [FileOutcome(folderName, files[0], env)] + FileOutcomes(folderName, files[1..], env)
  }

  /** Only eligible files are ingested. */
  lemma {:induction false} IngestedWithinEligible(folderName: string, files: seq<Option<FolderFile>>, env: ImportEnv)
    ensures CountIngested(FileOutcomes(folderName, files, env)) <= CountEligible(files, env)
    decreases |files|
  {
    if files != [] {
      IngestedWithinEligible(folderName, files[1..], env);
      var r := FileOutcomes(folderName, files, env);
      assert r[1..] == FileOutcomes(folderName, files[1..], env);
    }
  }

  /** `importFolder`: every uploaded file gets exactly one result; the
      summary counts eligible and ingested files, and every result that was
      not ingested is a skipped file. */
  function ImportFolder(enabled: bool, folderName: string, files: seq<Option<FolderFile>>, env: ImportEnv)
      : (r: Result<FolderImport>)
    ensures !enabled ==> r == Err("RAG 功能已关闭，无法执行批量导入")
    ensures enabled && files == [] ==> r == Err("文件夹为空，未发现可处理的文本文件")
    ensures r.Ok? <==> enabled && files != []
    ensures r.Ok? ==>
      && r.value.folderName == NormalizeFolderName(folderName)
      && r.value.totalFiles == |files| == |r.value.fileResults|
      && r.value.ingestedFiles <= r.value.eligibleFiles <= r.value.totalFiles
      && r.value.skippedFiles == r.value.totalFiles - r.value.ingestedFiles
      && r.value.eligibleFiles == CountEligible(files, env)
      && r.value.ingestedFiles == CountIngested(r.value.fileResults)
      && (forall i :: 0 <= i < |files| ==>
            r.value.fileResults[i] == FileOutcome(NormalizeFolderName(folderName), files[i], env))
  {
    if !enabled then Err("RAG 功能已关闭，无法执行批量导入")
    else if files == [] then Err("文件夹为空，未发现可处理的文本文件")
    else
      var name := NormalizeFolderName(folderName);
      var results := FileOutcomes(name, files, env);
      var ingested := CountIngested(results);
      IngestedWithinEligible(name, files, env);
      Ok(FolderImport(name, |files|, CountEligible(files, env), ingested, |results| - ingested, results))
  }

  // ---------------------------------------------------------------------------
  // Tags in chunk metadata
  // ---------------------------------------------------------------------------

  /** The tags entry of chunk metadata: a list (whose elements may be null),
      a comma-separated string, or anything else. */
  datatype TagsValue = TagList(elements: seq<Option<string>>) | TagText(text: string) | OtherValue

  /** The present elements of a list, in order. */
  function PresentElements(xs: seq<Option<string>>): (r: seq<string>)
    ensures |r| <= |xs|
    ensures forall i :: 0 <= i < |xs| && xs[i].Some? ==> xs[i].value in r
    ensures forall i :: 0 <= i < |r| ==> Some(r[i]) in xs
  {
    if xs == [] then []
    else (if xs[0].Some? then [xs[0].value] else []) + PresentElements(xs[1..])
  }

  /** `readTags`: the non-null list elements, or the trimmed comma-separated
      pieces of a string that have text; nothing for any other value. */
  function ReadTags(raw: TagsValue): (r: seq<string>)
    ensures raw.OtherValue? ==> r == []
    ensures raw.TagList? ==> |r| <= |raw.elements| && forall i :: 0 <= i < |r| ==> Some(r[i]) in raw.elements
    ensures raw.TagText? ==> forall i :: 0 <= i < |r| ==> JavaTrim(r[i]) == r[i] && ',' !in r[i]
  {
    match raw
    case TagList(elements) => PresentElements(elements)
    case TagText(text) =>
      var pieces := JavaSplit(text, IsComma);
      assert CommaFree(pieces) by {
        forall i | 0 <= i < |pieces|
          ensures ',' !in pieces[i]
        {
          assert forall k :: 0 <= k < |pieces[i]| ==> !IsComma(pieces[i][k]);
        }
      }
      TrimmedTextsShape(pieces);
      TrimmedTexts(pieces)
    case OtherValue => []
  }

  /** A list of tags reads back as itself. */
  lemma {:induction false} ReadTagList(tags: seq<string>)
    ensures ReadTags(TagList(seq(|tags|, i requires 0 <= i < |tags| => Some(tags[i])))) == tags
    decreases |tags|
  {
    var xs := seq(|tags|, i requires 0 <= i < |tags| => Some(tags[i]));
    if tags != [] {
      ReadTagList(tags[1..]);
      assert xs[1..] == seq(|tags[1..]|, i requires 0 <= i < |tags[1..]| => Some(tags[1..][i]));
      assert [tags[0]] + tags[1..] == tags;
    }
  }

  /** Clean tags joined with commas read back as themselves, as from the
      entry table's tag column. */
  lemma ReadTagsOfJoin(tags: seq<string>)
    requires forall i :: 0 <= i < |tags| ==> CleanTag(tags[i])
    ensures ReadTags(TagText(Join(",", tags))) == tags
  {
    CleanTagsRoundTrip(tags);
    TrimmedTextsOfClean(tags);
    if tags != [] {
      JoinHasText(tags);
    } else {
      assert JavaSplit("", IsComma) == [""];
      assert !HasText("");
    }
  }

  // ---------------------------------------------------------------------------
  // Search settings
  // ---------------------------------------------------------------------------

  const MAX_TOP_K: int := 20

  /** Number of hits requested: a positive request capped at 20, otherwise
      the configured value raised to at least 1. */
  function TopK(requested: Option<int>, configured: int): (r: int)
    ensures r >= 1
    ensures requested.Some? && requested.value > 0 ==>
      r <= MAX_TOP_K && r <= requested.value && (requested.value <= MAX_TOP_K ==> r == requested.value)
    ensures (requested.None? || requested.value <= 0) ==> r >= configured && (configured >= 1 ==> r == configured)
  {
    if requested.Some? && requested.value > 0 then
      (if requested.value < MAX_TOP_K then requested.value else MAX_TOP_K)
    else if configured > 1 then configured else 1
  }

  /** Java 21 `Math.clamp(double value, double min, double max)` on finite values. */
  function JavaClampReal(value: real, min: real, max: real): (r: Result<real>)
    ensures r.Err? <==> min > max
    ensures r.Ok? ==> min <= r.value <= max
    ensures r.Ok? && min <= value <= max ==> r.value == value
  {
    if min > max then Err("min > max")
    else if value < min then Ok(min)
    else if value > max then Ok(max)
    else Ok(value)
  }

  /** The similarity threshold as the service computes it,
      `Math.clamp(0.0, minScore, 1.0)`: the requested (or configured) score is
      the lower bound and 0 the value. */
  function ThresholdAsWritten(requested: Option<real>, configured: real): (r: Result<real>)
    ensures var score := requested.GetOr(configured);
      && (r.Err? <==> score > 1.0)
      && (r.Ok? ==> 0.0 <= r.value <= 1.0)
  {
    JavaClampReal(0.0, requested.GetOr(configured), 1.0)
  }

  /** A minimum score above 1 makes the search throw. */
  lemma ThresholdAsWrittenThrows()
    ensures ThresholdAsWritten(Some(1.5), 0.5).Err?
  {
  }

  /** The score forced into `[0, 1]`. */
  function Threshold(requested: Option<real>, configured: real): (r: real)
    ensures 0.0 <= r <= 1.0
    ensures var score := requested.GetOr(configured);
      && (0.0 <= score <= 1.0 ==> r == score)
      && (score < 0.0 ==> r == 0.0)
      && (score > 1.0 ==> r == 1.0)
  {
    var score := requested.GetOr(configured);
    if score < 0.0 then 0.0 else if score > 1.0 then 1.0 else score
  }

  /** Up to 1 the two computations agree. */
  lemma ThresholdAgreesUpToOne(requested: Option<real>, configured: real)
    requires requested.GetOr(configured) <= 1.0
    ensures ThresholdAsWritten(requested, configured) == Ok(Threshold(requested, configured))
  {
  }

  // ---------------------------------------------------------------------------
  // Re-ranking
  // ---------------------------------------------------------------------------

  datatype Match = Match(
    documentId: string,
    title: string,
    chunkContent: string,
    tags: seq<string>,
    chunkIndex: int,
    similarityScore: Option<real>,
    rerankScore: Option<real>)

  /** One answer of the rerank model: a position in the hit list and its score. */
  datatype RerankResult = RerankResult(index: int, score: real)

  /** Positions below `n` named by the results, in rerank order. */
  function Ranked(n: nat, results: seq<RerankResult>): (r: seq<nat>)
    ensures |r| <= |results|
    ensures forall k :: 0 <= k < |r| ==> r[k] < n
    ensures forall i :: 0 <= i < n ==> (i in r <==> exists j :: 0 <= j < |results| && results[j].index == i)
  {
    if results == [] then []
    else
      var rest := Ranked(n, results[1..]);
      assert forall j :: 1 <= j < |results| ==> results[j] == results[1..][j - 1];
      (if 0 <= results[0].index < n then [results[0].index as nat] else []) + rest
  }

  /** Positions from `from` below `n` that are not ranked, in increasing order. */
  function Unranked(n: nat, ranked: seq<nat>, from: nat): seq<nat>
    requires from <= n
    decreases n - from
  {
    if from == n then []
    else if from in ranked then Unranked(n, ranked, from + 1)
    else [from] + Unranked(n, ranked, from + 1)
  }

  /** The unranked positions are exactly the positions from `from` below `n`
      missing from the ranking, listed once each in increasing order. */
  lemma {:induction false} UnrankedSpec(n: nat, ranked: seq<nat>, from: nat)
    requires from <= n
    ensures var r := Unranked(n, ranked, from);
      && (forall k :: 0 <= k < |r| ==> from <= r[k] < n && r[k] !in ranked)
      && (forall i :: from <= i < n && i !in ranked ==> i in r)
      && (forall a, b :: 0 <= a < b < |r| ==> r[a] < r[b])
    decreases n - from
  {
    if from < n {
      UnrankedSpec(n, ranked, from + 1);
      if from !in ranked {
        var rest := Unranked(n, ranked, from + 1);
        var r := [from] + rest;
        assert forall k :: 1 <= k < |r| ==> r[k] == rest[k - 1];
      }
    }
  }

  /** The order of the output: the ranked positions, then, when they do not
      already fill the list, the unranked positions in their original order. */
  function RerankOrder(n: nat, results: seq<RerankResult>): (r: seq<nat>)
    ensures forall k :: 0 <= k < |r| ==> r[k] < n
  {
    var ranked := Ranked(n, results);
    UnrankedSpec(n, ranked, 0);
    if |ranked| < n then ranked + Unranked(n, ranked, 0) else ranked
  }

  /** The score of the last result naming position `i`: the map of reranked
      hits keeps the last write. */
  function LastScore(results: seq<RerankResult>, i: nat): (r: Option<real>)
    ensures r.Some? <==> exists j :: 0 <= j < |results| && results[j].index == i
    decreases |results|
  {
    if results == [] then None
    else if results[|results| - 1].index == i then Some(results[|results| - 1].score)
    else
      var r := LastScore(results[..|results| - 1], i);
      assert forall j :: 0 <= j < |results| - 1 ==> results[j] == results[..|results| - 1][j];
      r
  }

  /** The hit at position `i`, carrying its rerank score when it was ranked. */
  function Scored(matches: seq<Match>, results: seq<RerankResult>, i: nat): (r: Match)
    requires i < |matches|
    ensures LastScore(results, i).None? ==> r == matches[i]
    ensures LastScore(results, i).Some? ==> r == matches[i].(rerankScore := LastScore(results, i))
  {
    var score := LastScore(results, i);
    if score.Some? then matches[i].(rerankScore := score) else matches[i]
  }

  /** `rerankIfNeeded`, given what the rerank model answered. */
  function RerankIfNeeded(matches: seq<Match>, rerankEnabled: bool, results: seq<RerankResult>): (r: seq<Match>)
    ensures matches == [] ==> r == []
    ensures matches != [] && (!rerankEnabled || results == []) ==> r == matches
    ensures matches != [] && rerankEnabled && results != [] ==>
      |r| == |RerankOrder(|matches|, results)|
      && forall k :: 0 <= k < |r| ==> r[k] == Scored(matches, results, RerankOrder(|matches|, results)[k])
  {
    if matches == [] then []
    else if !rerankEnabled || results == [] then matches
    else
      var order := RerankOrder(|matches|, results);
      seq(|order|, k requires 0 <= k < |order| => Scored(matches, results, order[k]))
  }

  /** Rerank answers that name distinct positions of the hit list. */
  predicate DistinctInRange(n: nat, results: seq<RerankResult>) {
    && (forall j :: 0 <= j < |results| ==> 0 <= results[j].index < n)
    && (forall a, b :: 0 <= a < b < |results| ==> results[a].index != results[b].index)
  }

  /** With in-range answers the ranked positions are the answers' indices. */
  lemma {:induction false} RankedAll(n: nat, results: seq<RerankResult>)
    requires forall j :: 0 <= j < |results| ==> 0 <= results[j].index < n
    ensures |Ranked(n, results)| == |results|
    ensures forall k :: 0 <= k < |results| ==> Ranked(n, results)[k] == results[k].index
    decreases |results|
  {
    if results != [] {
      RankedAll(n, results[1..]);
    }
  }

  /** With distinct answers each ranked position keeps the score of its one answer. */
  lemma {:induction false} LastScoreOfDistinct(results: seq<RerankResult>, k: nat)
    requires k < |results|
    requires forall a, b :: 0 <= a < b < |results| ==> results[a].index != results[b].index
    requires results[k].index >= 0
    ensures LastScore(results, results[k].index as nat) == Some(results[k].score)
    decreases |results|
  {
    if k < |results| - 1 {
      var front := results[..|results| - 1];
      assert front[k] == results[k];
      LastScoreOfDistinct(front, k);
    }
  }

  /** Closes the gap left by a value `v` absent from `xs`: larger values move down by one. */
  function Squeeze(xs: seq<nat>, v: nat): (r: seq<nat>)
    requires v !in xs
    ensures |r| == |xs|
    ensures forall k :: 0 <= k < |xs| ==> r[k] == (if xs[k] > v then xs[k] - 1 else xs[k])
    ensures Distinct(xs) ==> Distinct(r)
  {
    seq(|xs|, k requires 0 <= k < |xs| => if xs[k] > v then xs[k] - 1 else xs[k])
  }

  /** Distinct positions below `n` are at most `n`. */
  lemma {:induction false} Pigeonhole(xs: seq<nat>, n: nat)
    requires Distinct(xs) && forall k :: 0 <= k < |xs| ==> xs[k] < n
    ensures |xs| <= n
    decreases |xs|
  {
    if xs != [] {
      var rest := xs[1..];
      assert xs[0] !in rest;
      var ys := Squeeze(rest, xs[0]);
      assert forall k :: 0 <= k < |rest| ==> rest[k] == xs[k + 1];
      Pigeonhole(ys, n - 1);
    }
  }

  /** `n` distinct positions below `n` name every position. */
  lemma Onto(xs: seq<nat>, n: nat, i: nat)
    requires Distinct(xs) && forall k :: 0 <= k < |xs| ==> xs[k] < n
    requires |xs| >= n && i < n
    ensures i in xs
  {
    if i !in xs {
      Pigeonhole(Squeeze(xs, i), n - 1);
    }
  }

  /** A list naming every position below `n` has at least `n` entries. */
  lemma Covers(xs: seq<nat>, n: nat)
    requires forall i :: 0 <= i < n ==> i in xs
    ensures |xs| >= n
  {
    var positions := seq(n, i requires 0 <= i < n => IndexOf(xs, i));
    forall k | 0 <= k < n
      ensures positions[k] < |xs|
    {
    }
    Pigeonhole(positions, |xs|);
  }

  function IndexOf(xs: seq<nat>, v: nat): (r: nat)
    requires v in xs
    ensures r < |xs| && xs[r] == v
  {
    if xs[0] == v then 0 else 1 + IndexOf(xs[1..], v)
  }

  /** With distinct in-range answers the output order is a permutation of
      the positions: the answers' positions in rerank order, then the rest
      in increasing order. */
  lemma RerankOrderPermutes(n: nat, results: seq<RerankResult>)
    requires DistinctInRange(n, results)
    ensures var order := RerankOrder(n, results);
      && |order| == n
      && |results| <= n
      && Distinct(order)
      && (forall i :: 0 <= i < n ==> i in order)
      && (forall k :: 0 <= k < |results| ==> order[k] == results[k].index)
      && (forall a, b :: |results| <= a < b < n ==> order[a] < order[b])
  {
    var ranked := Ranked(n, results);
    RankedAll(n, results);
    assert Distinct(ranked);
    Pigeonhole(ranked, n);
    var order := RerankOrder(n, results);
    if |ranked| < n {
      var rest := Unranked(n, ranked, 0);
      UnrankedSpec(n, ranked, 0);
      assert order == ranked + rest;
      forall a, b | 0 <= a < b < |order|
        ensures order[a] != order[b]
      {
        if b >= |ranked| && a < |ranked| {
          assert order[b] in rest && order[b] !in ranked;
        }
      }
      forall i | 0 <= i < n
        ensures i in order
      {
        if i !in ranked {
          assert i in rest;
        }
      }
      Covers(order, n);
      Pigeonhole(order, n);
    } else {
      forall i | 0 <= i < n
        ensures i in order
      {
        Onto(ranked, n, i);
      }
    }
  }

  /** With distinct in-range answers re-ranking loses and duplicates
      nothing: the ranked hits come first, in rerank order and carrying their
      scores, followed by the other hits unchanged and in their original order. */
  lemma RerankPermutes(matches: seq<Match>, results: seq<RerankResult>)
    requires matches != [] && results != [] && DistinctInRange(|matches|, results)
    ensures var r := RerankIfNeeded(matches, true, results);
      var order := RerankOrder(|matches|, results);
      && |r| == |matches| == |order|
      && |results| <= |matches|
      && (forall i :: 0 <= i < |matches| ==> i in order)
      && (forall k :: 0 <= k < |results| ==>
            r[k] == matches[results[k].index].(rerankScore := Some(results[k].score)))
      && (forall k :: |results| <= k < |r| ==> r[k] == matches[order[k]])
      && (forall a, b :: |results| <= a < b < |r| ==> order[a] < order[b])
  {
    var n := |matches|;
    var order := RerankOrder(n, results);
    RerankOrderPermutes(n, results);
    var r := RerankIfNeeded(matches, true, results);
    forall k | 0 <= k < |results|
      ensures r[k] == matches[results[k].index].(rerankScore := Some(results[k].score))
    {
      LastScoreOfDistinct(results, k);
    }
    forall k | |results| <= k < |r|
      ensures r[k] == matches[order[k]]
    {
      var i := order[k];
      forall j | 0 <= j < |results|
        ensures results[j].index != i
      {
        assert order[j] == results[j].index && j != k;
      }
    }
  }

  // ---------------------------------------------------------------------------
  // Prompt context
  // ---------------------------------------------------------------------------

  const MIN_CONTEXT_CHARS: int := 500

  /** `Math.max(500, contextMaxChars)`. */
  function ContextLimit(configured: int): (r: nat)
    ensures r >= MIN_CONTEXT_CHARS && r >= configured
  {
    if configured > MIN_CONTEXT_CHARS then configured else MIN_CONTEXT_CHARS
  }

  /** The heading of a hit: its title when it has text, else "知识片段 n" with n counted from 1. */
  function BaseTitle(m: Match, i: nat): string {
    if HasText(m.title) then m.title else "知识片段 " + NatToString(i + 1)
  }

  /** Headings from position `from` on, given the set of headings already
      used: a repeated heading gets "#chunkIndex" appended. */
  function ContextTitles(matches: seq<Match>, from: nat, used: set<string>): (r: seq<string>)
    requires from <= |matches|
    ensures |r| == |matches| - from
    decreases |matches| - from
  {
    if from == |matches| then []
    else
      var base := BaseTitle(matches[from], from);
      [if base in used then base + "#" + IntToString(matches[from].chunkIndex) else base]
        + ContextTitles(matches, from + 1, used + {base})
  }

  /** A heading already taken by an earlier hit. */
  predicate TakenBefore(matches: seq<Match>, i: nat)
    requires i < |matches|
  {
    exists j :: 0 <= j < i && BaseTitle(matches[j], j) == BaseTitle(matches[i], i)
  }

  lemma {:induction false} ContextTitlesFrom(matches: seq<Match>, from: nat, used: set<string>, k: nat)
    requires from <= k < |matches|
    requires forall t :: t in used <==> exists j :: 0 <= j < from && BaseTitle(matches[j], j) == t
    ensures ContextTitles(matches, from, used)[k - from] ==
      (if TakenBefore(matches, k) then BaseTitle(matches[k], k) + "#" + IntToString(matches[k].chunkIndex)
       else BaseTitle(matches[k], k))
    decreases k - from
  {
    var base := BaseTitle(matches[from], from);
    if k == from {
      assert base in used <==> TakenBefore(matches, k);
    } else {
      var used' := used + {base};
      forall t
        ensures t in used' <==> exists j :: 0 <= j < from + 1 && BaseTitle(matches[j], j) == t
      {
        if t in used' && t !in used {
          assert BaseTitle(matches[from], from) == t;
        }
      }
      ContextTitlesFrom(matches, from + 1, used', k);
      assert ContextTitles(matches, from, used)[k - from] == ContextTitles(matches, from + 1, used')[k - (from + 1)];
    }
  }

  /** A heading is marked with its chunk index exactly when an earlier hit has the same heading. */
  lemma RepeatedTitlesMarked(matches: seq<Match>, k: nat)
    requires k < |matches|
    ensures ContextTitles(matches, 0, {})[k] ==
      (if TakenBefore(matches, k) then BaseTitle(matches[k], k) + "#" + IntToString(matches[k].chunkIndex)
       else BaseTitle(matches[k], k))
  {
    ContextTitlesFrom(matches, 0, {}, k);
  }

  /** One block of the context: the heading in corner brackets, a line
      separator, the trimmed chunk and a blank line. */
  function Block(title: string, lineSeparator: string, content: string): string {
    "【" + title + "】" + lineSeparator + JavaTrim(content) + "\n\n"
  }

  function Concat(xs: seq<string>): (r: string)
    ensures xs == [] ==> r == ""
  {
    if xs == [] then "" else xs[0] + Concat(xs[1..])
  }

  /** Appends whole blocks while they fit; the first block that does not fit
      is cut to the room left, and nothing follows it. */
  function Assemble(blocks: seq<string>, acc: string, maxChars: nat): (r: string)
    ensures |acc| <= maxChars ==> |r| <= maxChars
    ensures |acc| <= |r| && r[..|acc|] == acc
    ensures |r| <= |acc + Concat(blocks)| && r == (acc + Concat(blocks))[..|r|]
    ensures |acc + Concat(blocks)| <= maxChars ==> r == acc + Concat(blocks)
    decreases |blocks|
  {
    if blocks == [] then acc
    else
      var block := blocks[0];
      assert acc + Concat(blocks) == (acc + block) + Concat(blocks[1..]);
      if |acc| + |block| > maxChars then
        var remain := maxChars - |acc|;
        if remain > 0 then
          var cut := acc + block[..if remain < |block| then remain else |block|];
          assert cut == (acc + Concat(blocks))[..|cut|];
          cut
        else acc
      else
        Assemble(blocks[1..], acc + block, maxChars)
  }

  /** The blocks of all hits, headings de-duplicated. */
  function ContextBlocks(matches: seq<Match>, lineSeparator: string): (r: seq<string>)
    ensures |r| == |matches|
  {
    var titles := ContextTitles(matches, 0, {});
    seq(|matches|, i requires 0 <= i < |matches| => Block(titles[i], lineSeparator, matches[i].chunkContent))
  }

  /** `buildContext` on the hits a search returned: the blocks, cut at the
      character limit, then trimmed. */
  function BuildContext(matches: seq<Match>, contextMaxChars: int, lineSeparator: string): (r: string)
    ensures matches == [] ==> r == ""
    ensures |r| <= ContextLimit(contextMaxChars)
  {
    if matches == [] then ""
    else JavaTrim(Assemble(ContextBlocks(matches, lineSeparator), "", ContextLimit(contextMaxChars)))
  }

  /** Context is the trimmed blocks themselves, cut at the limit: when all
      blocks fit nothing is lost. */
  lemma ContextKeepsBlocks(matches: seq<Match>, contextMaxChars: int, lineSeparator: string)
    requires matches != []
    ensures var all := Concat(ContextBlocks(matches, lineSeparator));
      var kept := Assemble(ContextBlocks(matches, lineSeparator), "", ContextLimit(contextMaxChars));
      && kept == all[..|kept|]
      && BuildContext(matches, contextMaxChars, lineSeparator) == JavaTrim(kept)
      && (|all| <= ContextLimit(contextMaxChars) ==> BuildContext(matches, contextMaxChars, lineSeparator) == JavaTrim(all))
  {
    var blocks := ContextBlocks(matches, lineSeparator);
    assert "" + Concat(blocks) == Concat(blocks);
  }
}
