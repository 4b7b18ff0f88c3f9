/** Excel import of the requirement knowledge base. The first row may be a
    header naming the title, tags and content columns; every later row
    becomes an unvectorised draft entry, is skipped as blank, or is reported
    as a numbered error, and the tag cell is split on whichever separators
    people type.

    A sheet is the list of its rows up to the last one, a missing row being
    `None`; a row is the list of its cells' formatted values up to the last
    cell, a missing cell being "". Reading the workbook, the random id that
    every new document receives and the persistence layer's answer are
    parameters. */
module KnowledgeImport {

  import opened Results
  import opened Text
  import opened KnowledgeEntries

  /** Most rows a sheet may have, counting the header. */
  const MAX_ROWS: nat := 2000
  /** Most row errors a report lists. */
  const MAX_ERRORS: nat := 20
  /** Only the first cells of the header row are searched. */
  const HEADER_SCAN_LIMIT: nat := 50

  function Min(a: nat, b: nat): nat {
    if a <= b then a else b
  }

  /** The first `k` elements, or all of them when there are fewer. */
  function Take<T>(xs: seq<T>, k: nat): (r: seq<T>)
    ensures |r| == Min(|xs|, k) && r == xs[..|r|]
  {
    if |xs| <= k then xs else xs[..k]
  }

  // ---------------------------------------------------------------------------
  // Tags
  // ---------------------------------------------------------------------------

  /** The separators of the tag cell: comma, line feed, the full-width comma
      and semicolon, and the ASCII semicolon. */
  predicate IsTagSeparator(c: char) {
    c == ',' || c == '\n' || c == '\U{FF0C}' || c == '\U{FF1B}' || c == ';'
  }

  /** A character that may appear inside a parsed tag. */
  predicate IsTagChar(c: char) {
    c != '\r' && !IsTagSeparator(c)
  }

  /** A character of the separated text: no carriage return, and the comma
      is the only separator left. */
  predicate IsSeparatedChar(c: char) {
    c != '\r' && (IsTagSeparator(c) ==> c == ',')
  }

  /** The chain of `replace` calls in `parseTags`: carriage returns vanish and
      every other separator becomes a comma. */
  function Separated(s: string): (r: string)
    ensures |r| <= |s|
    ensures AllChars(r, IsSeparatedChar)
  {
    if s == [] then []
    else (if s[0] == '\r' then [] else [if IsTagSeparator(s[0]) then ',' else s[0]]) + Separated(s[1..])
  }

  /** One character: a carriage return vanishes, any other separator
      becomes a comma, and everything else is kept. */
  lemma SeparatedOne(c: char)
    ensures Separated([c]) == if c == '\r' then [] else if IsTagSeparator(c) then [','] else [c]
  {
    assert [c][1..] == [];
  }

  /** Separating works character by character. */
  lemma {:induction false} SeparatedConcat(a: string, b: string)
    ensures Separated(a + b) == Separated(a) + Separated(b)
    decreases |a|
  {
    if a != [] {
      SeparatedConcat(a[1..], b);
      assert (a + b)[0] == a[0] && (a + b)[1..] == a[1..] + b;
      var h := if a[0] == '\r' then [] else [if IsTagSeparator(a[0]) then ',' else a[0]];
      assert Separated(a + b) == h + Separated(a[1..] + b);
      assert Separated(a) == h + Separated(a[1..]);
      assert h + (Separated(a[1..]) + Separated(b)) == (h + Separated(a[1..])) + Separated(b);
    } else {
      assert a + b == b;
    }
  }

  /** A carriage return anywhere in the cell leaves no trace. */
  lemma SeparatedDropsReturn(a: string, b: string)
    ensures Separated(a + ['\r'] + b) == Separated(a + b)
  {
    SeparatedConcat(a + ['\r'], b);
    SeparatedConcat(a, ['\r']);
    SeparatedOne('\r');
    SeparatedConcat(a, b);
    assert Separated(a) + [] == Separated(a);
  }

  /** Text without separators and carriage returns is left alone. */
  lemma {:induction false} SeparatedPlain(s: string)
    requires AllChars(s, IsTagChar)
    ensures Separated(s) == s
    decreases |s|
  {
    if s != [] {
      SeparatedPlain(s[1..]);
      assert [s[0]] + s[1..] == s;
    }
  }

  /** Tags joined by any separator read as tags joined by commas. */
  lemma {:induction false} SeparatedJoin(tags: seq<string>, sep: char)
    requires IsTagSeparator(sep)
    requires forall i :: 0 <= i < |tags| ==> AllChars(tags[i], IsTagChar)
    ensures Separated(Join([sep], tags)) == Join([','], tags)
    decreases |tags|
  {
    if |tags| == 1 {
      SeparatedPlain(tags[0]);
    } else if |tags| > 1 {
      SeparatedJoin(tags[1..], sep);
      SeparatedConcat(tags[0] + [sep], Join([sep], tags[1..]));
      SeparatedConcat(tags[0], [sep]);
      SeparatedPlain(tags[0]);
      assert Separated([sep]) == [','];
    }
  }

  /** Guava's `trimResults()`: every piece trimmed. */
  function TrimAll(pieces: seq<string>): (r: seq<string>)
    ensures |r| == |pieces| && forall i :: 0 <= i < |r| ==> r[i] == GuavaTrim(pieces[i])
  {
    seq(|pieces|, i requires 0 <= i < |pieces| => GuavaTrim(pieces[i]))
  }

  /** The trimmed pieces are their own trim and keep only characters of the pieces. */
  lemma TrimAllClean(pieces: seq<string>)
    ensures forall i :: 0 <= i < |pieces| ==> GuavaTrim(TrimAll(pieces)[i]) == TrimAll(pieces)[i]
    ensures (forall j :: 0 <= j < |pieces| ==> AllChars(pieces[j], IsTagChar)) ==>
              forall i :: 0 <= i < |pieces| ==> AllChars(TrimAll(pieces)[i], IsTagChar)
  {
    forall i | 0 <= i < |pieces|
      ensures GuavaTrim(TrimAll(pieces)[i]) == TrimAll(pieces)[i]
      ensures AllChars(pieces[i], IsTagChar) ==> AllChars(TrimAll(pieces)[i], IsTagChar)
    {
      StripIdempotent(pieces[i], IsGuavaWhitespace);
      StripKeepsAll(pieces[i], IsGuavaWhitespace, IsTagChar);
    }
  }

  /** Guava's `trimResults().omitEmptyStrings()` over the split pieces. */
  function TrimmedNonEmpty(pieces: seq<string>): (r: seq<string>)
    ensures |r| <= |pieces|
    ensures forall i :: 0 <= i < |r| ==> r[i] != [] && GuavaTrim(r[i]) == r[i]
    ensures (forall j :: 0 <= j < |pieces| ==> AllChars(pieces[j], IsTagChar)) ==>
              forall i :: 0 <= i < |r| ==> AllChars(r[i], IsTagChar)
    ensures forall x :: x in r <==> x != [] && x in TrimAll(pieces)
  {
    var trimmed := TrimAll(pieces);
    TrimAllClean(pieces);
    NonEmpty(trimmed)
  }

  /** Trimming and dropping empty pieces keeps the pieces' order. */
  lemma TrimmedNonEmptyConcat(a: seq<string>, b: seq<string>)
    ensures TrimmedNonEmpty(a + b) == TrimmedNonEmpty(a) + TrimmedNonEmpty(b)
  {
    TrimAllConcat(a, b);
    NonEmptyConcat(TrimAll(a), TrimAll(b));
  }

  lemma TrimAllConcat(a: seq<string>, b: seq<string>)
    ensures TrimAll(a + b) == TrimAll(a) + TrimAll(b)
  {
    var l, r := TrimAll(a + b), TrimAll(a) + TrimAll(b);
    assert |l| == |r|;
    forall i | 0 <= i < |l| ensures l[i] == r[i] {
      if i < |a| {
        assert (a + b)[i] == a[i];
      } else {
        assert (a + b)[i] == b[i - |a|];
      }
    }
  }

  /** Pieces that are already trimmed and not empty pass unchanged. */
  lemma TrimmedNonEmptyOfClean(pieces: seq<string>)
    requires forall j :: 0 <= j < |pieces| ==> pieces[j] != [] && GuavaTrim(pieces[j]) == pieces[j]
    ensures TrimmedNonEmpty(pieces) == pieces
  {
    assert TrimAll(pieces) == pieces;
    NonEmptyAll(pieces);
  }

  /** Position of the first occurrence. */
  function FirstIndex(xs: seq<string>, x: string): (r: nat)
    requires x in xs
    ensures r < |xs| && xs[r] == x
    ensures forall k :: 0 <= k < r ==> xs[k] != x
  {
    if xs[0] == x then 0 else 1 + FirstIndex(xs[1..], x)
  }

  /** A prefix holding an element finds it at the same place. */
  lemma FirstIndexPrefix(xs: seq<string>, n: nat, x: string)
    requires n <= |xs| && x in xs[..n]
    ensures FirstIndex(xs[..n], x) == FirstIndex(xs, x)
  {
    var i := FirstIndex(xs[..n], x);
    assert forall k :: 0 <= k <= i ==> xs[..n][k] == xs[k];
  }

  /** Insertion into a `LinkedHashSet`: each string once, at the place of its
      first occurrence. */
  function Dedupe(xs: seq<string>): (r: seq<string>)
    ensures |r| <= |xs| && Distinct(r)
    ensures forall x :: x in r <==> x in xs
    ensures forall i, j :: 0 <= i < j < |r| ==> FirstIndex(xs, r[i]) < FirstIndex(xs, r[j])
    decreases |xs|
  {
    if xs == [] then []
    else
      var n := |xs| - 1;
      var d := Dedupe(xs[..n]);
      forall y | y in d
        ensures FirstIndex(xs[..n], y) == FirstIndex(xs, y)
      {
        FirstIndexPrefix(xs, n, y);
      }
      assert xs == xs[..n] + [xs[n]];
      if xs[n] in d then d
      else
        var r := d + [xs[n]];
        assert FirstIndex(xs, xs[n]) == n;
        assert forall i :: 0 <= i < |d| ==> r[i] == d[i] && d[i] in xs[..n];
        r
  }

  /** Distinct strings keep their order. */
  lemma {:induction false} DedupeDistinct(xs: seq<string>)
    requires Distinct(xs)
    ensures Dedupe(xs) == xs
    decreases |xs|
  {
    if xs != [] {
      var n := |xs| - 1;
      assert Distinct(xs[..n]);
      DedupeDistinct(xs[..n]);
      assert xs[n] !in xs[..n];
      assert xs[..n] + [xs[n]] == xs;
    }
  }

  /** The pieces of a cell between separators, untrimmed. */
  function TagPieces(raw: string): seq<string> {
    SplitAll(Separated(raw), IsComma)
  }

  /** The tags of a cell with text: the pieces between separators, trimmed,
      without empty ones and without repeats, each at the place of its first
      occurrence. */
  function TagsOf(raw: string): (r: seq<string>)
    ensures Distinct(r)
    ensures forall i :: 0 <= i < |r| ==> r[i] != [] && GuavaTrim(r[i]) == r[i] && AllChars(r[i], IsTagChar)
    ensures forall x :: x in r <==> x != [] && x in TrimAll(TagPieces(raw))
    ensures forall i, j :: 0 <= i < j < |r| ==>
              FirstIndex(TrimmedNonEmpty(TagPieces(raw)), r[i]) < FirstIndex(TrimmedNonEmpty(TagPieces(raw)), r[j])
  {
    var s := Separated(raw);
    var pieces := SplitAll(s, IsComma);
    SplitAllKeeps(s, IsComma, IsSeparatedChar);
    assert forall j :: 0 <= j < |pieces| ==> AllChars(pieces[j], IsTagChar);
    var trimmed := TrimmedNonEmpty(pieces);
    var r := Dedupe(trimmed);
    assert forall i :: 0 <= i < |r| ==> r[i] in trimmed;
    r
  }

  /** `parseTags`: a blank cell has no tags. */
  function ParseTags(raw: string): (r: seq<string>)
    ensures !HasText(raw) ==> r == []
    ensures Distinct(r)
    ensures forall i :: 0 <= i < |r| ==> r[i] != [] && GuavaTrim(r[i]) == r[i] && AllChars(r[i], IsTagChar)
    ensures HasText(raw) ==> forall x :: x in r <==> x != [] && x in TrimAll(TagPieces(raw))
    ensures HasText(raw) ==> r == TagsOf(raw)
  {
    if !HasText(raw) then [] else TagsOf(raw)
  }

  /** A tag as a cell can carry it: visible text, trimmed, without separators. */
  predicate CellTag(t: string) {
    HasText(t) && GuavaTrim(t) == t && AllChars(t, IsTagChar)
  }

  /** A joined list whose first element has text has text. */
  lemma JoinedHasText(tags: seq<string>, sep: char)
    requires tags != [] && HasText(tags[0])
    ensures HasText(Join([sep], tags))
  {
    if |tags| > 1 {
      HasTextPrefix(tags[0], [sep] + Join([sep], tags[1..]));
      assert Join([sep], tags) == tags[0] + ([sep] + Join([sep], tags[1..]));
    }
  }

  /** Splitting separated joined tags gives the tags. */
  lemma JoinedPieces(tags: seq<string>, sep: char)
    requires tags != [] && IsTagSeparator(sep)
    requires forall i :: 0 <= i < |tags| ==> AllChars(tags[i], IsTagChar)
    ensures SplitAll(Separated(Join([sep], tags)), IsComma) == tags
  {
    SeparatedJoin(tags, sep);
    assert forall i :: 0 <= i < |tags| ==> forall k :: 0 <= k < |tags[i]| ==> !IsComma(tags[i][k]);
    SplitJoin(tags, ',', IsComma);
  }

  /** Distinct clean tags joined by a separator come back out of the split. */
  lemma TagsOfJoin(tags: seq<string>, sep: char)
    requires tags != [] && IsTagSeparator(sep) && Distinct(tags)
    requires forall i :: 0 <= i < |tags| ==> tags[i] != [] && GuavaTrim(tags[i]) == tags[i] && AllChars(tags[i], IsTagChar)
    ensures TagsOf(Join([sep], tags)) == tags
  {
    JoinedPieces(tags, sep);
    TrimmedNonEmptyOfClean(tags);
    DedupeDistinct(tags);
  }

  /** Distinct tags written into one cell with any separator read back
      as the same list. */
  lemma ParseTagsRoundTrip(tags: seq<string>, sep: char)
    requires IsTagSeparator(sep) && Distinct(tags)
    requires forall i :: 0 <= i < |tags| ==> CellTag(tags[i])
    ensures ParseTags(Join([sep], tags)) == tags
  {
    if tags != [] {
      JoinedHasText(tags, sep);
      TagsOfJoin(tags, sep);
    }
  }

  /** Clean tags written into one cell with repeats read back once each, at
      the place of their first occurrence. */
  lemma ParseTagsRepeats(tags: seq<string>, sep: char)
    requires IsTagSeparator(sep)
    requires forall i :: 0 <= i < |tags| ==> CellTag(tags[i])
    ensures ParseTags(Join([sep], tags)) == Dedupe(tags)
  {
    if tags != [] {
      JoinedHasText(tags, sep);
      JoinedPieces(tags, sep);
      TrimmedNonEmptyOfClean(tags);
    }
  }

  // ---------------------------------------------------------------------------
  // Header row
  // ---------------------------------------------------------------------------

  datatype Column = TitleColumn | TagsColumn | ContentColumn

  /** Whether a normalised header names the column: the Chinese header, or a
      text containing the English or Chinese word. */
  predicate Names(column: Column, header: string) {
    match column
    case TitleColumn => header == "标题" || Contains(header, "title") || Contains(header, "标题")
    case TagsColumn => header == "标签" || Contains(header, "tags") || Contains(header, "标签")
    case ContentColumn => header == "正文" || Contains(header, "content") || Contains(header, "正文")
  }

  /** Cell `i` of the header row has text that, trimmed and lower-cased, names the column. */
  predicate Heads(cells: seq<string>, i: nat, column: Column)
    requires i < |cells|
  {
    HasText(cells[i]) && Names(column, Lower(JavaTrim(cells[i])))
  }

  /** The number of header cells searched: `getLastCellNum` is the cell
      count, -1 for a row without cells, capped at 50. */
  function ScanLimit(cells: seq<string>): (r: nat)
    ensures r <= |cells| && r <= HEADER_SCAN_LIMIT
    ensures r == |cells| || r == HEADER_SCAN_LIMIT
  {
    Min(|cells|, HEADER_SCAN_LIMIT)
  }

  /** The first searched cell at or after `i` that names the column, or -1. */
  function FindHeader(cells: seq<string>, column: Column, i: nat): (r: int)
    requires i <= ScanLimit(cells)
    ensures -1 <= r < ScanLimit(cells)
    ensures r >= 0 ==> i <= r && Heads(cells, r, column)
    ensures forall j :: i <= j < ScanLimit(cells) && (r < 0 || j < r) ==> !Heads(cells, j, column)
    decreases ScanLimit(cells) - i
  {
    if i == ScanLimit(cells) then -1
    else if Heads(cells, i, column) then i
    else FindHeader(cells, column, i + 1)
  }

  /** Where the three fields of a row are read, and whether row 0 is a header. */
  datatype ColumnIndex = ColumnIndex(hasHeader: bool, titleCol: nat, tagsCol: nat, contentCol: nat)

  /** `resolveColumnIndex`: a header needs a title and a content column;
      without a tags header, tags are read from the column after the title,
      or the one before the content when that is the content column. A first
      row that is no header is data in the columns 0, 1 and 2. */
  function ResolveColumnIndex(cells: seq<string>): (r: ColumnIndex)
    ensures !r.hasHeader ==> r == ColumnIndex(false, 0, 1, 2)
    ensures r.hasHeader ==> r.titleCol < ScanLimit(cells) && r.contentCol < ScanLimit(cells)
  {
    var title := FindHeader(cells, TitleColumn, 0);
    var tags := FindHeader(cells, TagsColumn, 0);
    var content := FindHeader(cells, ContentColumn, 0);
    if title >= 0 && content >= 0 then
      if tags >= 0 then ColumnIndex(true, title, tags, content)
      else
        var candidate := if title + 1 == content then content - 1 else title + 1;
        ColumnIndex(true, title, if candidate > 0 then candidate else 0, content)
    else ColumnIndex(false, 0, 1, 2)
  }

  /** A recognised header's title and content columns are the first cells
      naming them. */
  lemma HeaderColumns(cells: seq<string>)
    ensures var r := ResolveColumnIndex(cells);
      r.hasHeader ==>
      && Heads(cells, r.titleCol, TitleColumn)
      && (forall j :: 0 <= j < r.titleCol ==> !Heads(cells, j, TitleColumn))
      && Heads(cells, r.contentCol, ContentColumn)
      && (forall j :: 0 <= j < r.contentCol ==> !Heads(cells, j, ContentColumn))
  {
    var title := FindHeader(cells, TitleColumn, 0);
    var content := FindHeader(cells, ContentColumn, 0);
    var r := ResolveColumnIndex(cells);
    if r.hasHeader {
      assert r.titleCol == title && r.contentCol == content;
    }
  }

  /** Without a title cell or without a content cell the first row is data. */
  lemma NoHeader(cells: seq<string>)
    ensures var r := ResolveColumnIndex(cells);
      !r.hasHeader <==>
      ((forall j :: 0 <= j < ScanLimit(cells) ==> !Heads(cells, j, TitleColumn))
       || (forall j :: 0 <= j < ScanLimit(cells) ==> !Heads(cells, j, ContentColumn)))
  {
    var title := FindHeader(cells, TitleColumn, 0);
    var content := FindHeader(cells, ContentColumn, 0);
    if title >= 0 && content >= 0 {
      assert Heads(cells, title, TitleColumn) && Heads(cells, content, ContentColumn);
    }
  }

  /** The tags column is the first cell naming it; without one it is the
      column after the title, or the title column itself when the content
      follows the title, and never the content column. */
  lemma TagsColumnChosen(cells: seq<string>)
    ensures var r := ResolveColumnIndex(cells);
      r.hasHeader ==>
      if exists j :: 0 <= j < ScanLimit(cells) && Heads(cells, j, TagsColumn) then
        && Heads(cells, r.tagsCol, TagsColumn)
        && (forall j :: 0 <= j < r.tagsCol ==> !Heads(cells, j, TagsColumn))
      else
        && r.tagsCol != r.contentCol
        && r.tagsCol == (if r.titleCol + 1 == r.contentCol then r.titleCol else r.titleCol + 1)
  {
    var tags := FindHeader(cells, TagsColumn, 0);
    var r := ResolveColumnIndex(cells);
    if r.hasHeader {
      if tags >= 0 {
        assert r.tagsCol == tags;
      } else {
        assert forall j :: 0 <= j < ScanLimit(cells) ==> !Heads(cells, j, TagsColumn);
      }
    }
  }

  /** A text no longer than `sub` and different from it does not contain it. */
  lemma ShortNotContains(s: string, sub: string)
    requires |s| <= |sub| && s != sub
    ensures !Contains(s, sub)
  {
    forall i | 0 <= i <= |s| - |sub|
      ensures !OccursAt(s, sub, i)
    {
      assert s[i..i + |sub|] == s;
    }
  }

  /** A two-character header outside ASCII and white space is its own normal form. */
  lemma WideHeader(x: string)
    requires |x| == 2 && x[0] > '\U{3000}' && x[1] > '\U{3000}'
    ensures HasText(x) && Lower(JavaTrim(x)) == x
  {
    Unpadded(x);
  }

  /** The Chinese header row of the import template is recognised. */
  lemma TemplateHeader()
    ensures ResolveColumnIndex(["标题", "标签", "正文"]) == ColumnIndex(true, 0, 1, 2)
  {
    var cells := ["标题", "标签", "正文"];
    WideHeader(cells[0]);
    WideHeader(cells[1]);
    WideHeader(cells[2]);
    ShortNotContains(cells[0], "标签");
    ShortNotContains(cells[0], "正文");
    ShortNotContains(cells[1], "正文");
    assert ScanLimit(cells) == 3;
    assert Heads(cells, 0, TitleColumn);
    assert !Heads(cells, 0, TagsColumn) && Heads(cells, 1, TagsColumn);
    assert !Heads(cells, 0, ContentColumn) && !Heads(cells, 1, ContentColumn) && Heads(cells, 2, ContentColumn);
    assert FindHeader(cells, TitleColumn, 0) == 0;
    assert FindHeader(cells, TagsColumn, 1) == 1;
    assert FindHeader(cells, TagsColumn, 0) == 1;
    assert FindHeader(cells, ContentColumn, 2) == 2;
    assert FindHeader(cells, ContentColumn, 1) == 2;
    assert FindHeader(cells, ContentColumn, 0) == 2;
  }

  /** With the content right after the title and no tags header, the tags
      are read from the title column itself. */
  lemma TagsFallBackOnTitle(cells: seq<string>)
    requires |cells| == 2 && Heads(cells, 0, TitleColumn) && Heads(cells, 1, ContentColumn)
    requires !Heads(cells, 0, ContentColumn) && !Heads(cells, 0, TagsColumn) && !Heads(cells, 1, TagsColumn)
    ensures var r := ResolveColumnIndex(cells);
      r.hasHeader && r.titleCol == 0 && r.contentCol == 1 && r.tagsCol == 0
  {
    assert FindHeader(cells, TagsColumn, 0) == -1;
  }

  // ---------------------------------------------------------------------------
  // Rows
  // ---------------------------------------------------------------------------

  type Row = seq<string>
  type Sheet = seq<Option<Row>>

  /** `getCellString`: the formatted value, "" for a missing cell. */
  function Cell(row: Row, col: nat): string {
    if col < |row| then row[col] else ""
  }

  /** What becomes of one row; an imported row carries the id it is stored under. */
  datatype RowOutcome = Skipped | Imported(doc: KnowledgeDocument, id: string) | Failed(message: string)

  /** One turn of the row loop: missing and blank rows are skipped; a row
      without title or content fails with its own message; otherwise the
      trimmed fields and the parsed tags go to `saveDraft`, whose message a
      failure carries. */
  function RowVerdict(cols: ColumnIndex, row: Option<Row>, freshId: string, accepted: bool): (r: RowOutcome)
    ensures r.Skipped? <==> (row.None? ||
      (!HasText(Cell(row.value, cols.titleCol)) && !HasText(Cell(row.value, cols.tagsCol))
       && !HasText(Cell(row.value, cols.contentCol))))
    ensures !r.Skipped? && !HasText(Cell(row.value, cols.titleCol)) ==> r == Failed("标题不能为空")
    ensures (!r.Skipped? && HasText(Cell(row.value, cols.titleCol)) && !HasText(Cell(row.value, cols.contentCol)))
      ==> r == Failed("正文不能为空")
    ensures r.Imported? ==>
      && r.doc == KnowledgeDocument("", JavaTrim(Cell(row.value, cols.titleCol)),
                                    JavaTrim(Cell(row.value, cols.contentCol)), ParseTags(Cell(row.value, cols.tagsCol)))
      && r.id == freshId && accepted
      && DraftEntry(r.doc, r.id, true).Ok?
  {
    if row.None? then Skipped
    else
      var title := Cell(row.value, cols.titleCol);
      var tags := Cell(row.value, cols.tagsCol);
      var content := Cell(row.value, cols.contentCol);
      if !HasText(title) && !HasText(tags) && !HasText(content) then Skipped
      else if !HasText(title) then Failed("标题不能为空")
      else if !HasText(content) then Failed("正文不能为空")
      else
        var doc := KnowledgeDocument("", JavaTrim(title), JavaTrim(content), ParseTags(tags));
        match DraftEntry(doc, freshId, accepted)
        case Ok(_) => Imported(doc, freshId)
        case Err(m) => Failed(m)
  }

  /** A row whose title and content keep text after trimming is stored when
      it receives a usable id and the write succeeds. */
  lemma RowImported(cols: ColumnIndex, row: Row, freshId: string)
    requires HasText(JavaTrim(Cell(row, cols.titleCol))) && HasText(JavaTrim(Cell(row, cols.contentCol)))
    requires HasText(freshId)
    ensures RowVerdict(cols, Some(row), freshId, true).Imported?
  {
    TrimKeepsText(Cell(row, cols.titleCol));
    TrimKeepsText(Cell(row, cols.contentCol));
  }

  /** The verdict of every row from `start` on. A verdict depends on its row
      alone, never on the rows before it. */
  function Verdicts(sheet: Sheet, cols: ColumnIndex, start: nat, ids: nat -> string, accepted: nat -> bool)
    : (r: seq<RowOutcome>)
    requires start <= |sheet|
    ensures |r| == |sheet| - start
    ensures forall k :: 0 <= k < |r| ==> r[k] == RowVerdict(cols, sheet[start + k], ids(start + k), accepted(start + k))
  {
    seq(|sheet| - start, k requires 0 <= k < |sheet| - start =>
      RowVerdict(cols, sheet[start + k], ids(start + k), accepted(start + k)))
  }

  /** A numbered row error; rows count from 1 as Excel shows them. */
  datatype ImportError = ImportError(rowIndex: nat, message: string)

  /** The counters and errors returned to the caller. */
  datatype Report = Report(totalRows: nat, successCount: nat, failedCount: nat, skippedCount: nat,
                           errors: seq<ImportError>)

  datatype Progress = Progress(report: Report, table: Table)

  /** `addError`: at most `MAX_ERRORS` errors are kept. */
  function AddError(errors: seq<ImportError>, rowIndex: nat, message: string): seq<ImportError> {
    if |errors| >= MAX_ERRORS then errors else errors + [ImportError(rowIndex, message)]
  }

  /** Verdicts a write can carry out: every imported document is new and
      passes validation. */
  predicate Writable(vs: seq<RowOutcome>) {
    forall k :: 0 <= k < |vs| && vs[k].Imported? ==>
      vs[k].doc.documentId == "" && DraftEntry(vs[k].doc, vs[k].id, true).Ok?
  }

  /** The verdicts of a sheet can be carried out. */
  lemma VerdictsWritable(sheet: Sheet, cols: ColumnIndex, start: nat, ids: nat -> string, accepted: nat -> bool)
    requires start <= |sheet|
    ensures Writable(Verdicts(sheet, cols, start, ids, accepted))
  {
    var vs := Verdicts(sheet, cols, start, ids, accepted);
    forall k | 0 <= k < |vs| && vs[k].Imported?
      ensures vs[k].doc.documentId == "" && DraftEntry(vs[k].doc, vs[k].id, true).Ok?
    {
      assert vs[k] == RowVerdict(cols, sheet[start + k], ids(start + k), accepted(start + k));
    }
  }

  /** The counters and errors of the loop over the rows with verdicts `vs`,
      the first of which is row `first` (counted from 0). A validated
      document is always written, so an imported row counts as a success. */
  function Count(vs: seq<RowOutcome>, first: nat): (r: Report)
    ensures r.totalRows == r.successCount + r.failedCount
    ensures r.totalRows + r.skippedCount == |vs|
    ensures |r.errors| == Min(r.failedCount, MAX_ERRORS)
    ensures forall i :: 0 <= i < |r.errors| ==> first < r.errors[i].rowIndex <= first + |vs|
    decreases |vs|
  {
    if vs == [] then Report(0, 0, 0, 0, [])
    else
      var n := |vs| - 1;
      var c := Count(vs[..n], first);
      match vs[n]
      case Skipped => c.(skippedCount := c.skippedCount + 1)
      case Failed(m) =>
        c.(totalRows := c.totalRows + 1, failedCount := c.failedCount + 1,
           errors := AddError(c.errors, first + n + 1, m))
      case Imported(_, _) => c.(totalRows := c.totalRows + 1, successCount := c.successCount + 1)
  }

  /** The table after the loop: every imported document written in turn. */
  function Store(vs: seq<RowOutcome>, t: Table): (r: Table)
    requires Writable(vs)
    ensures TableConsistent(t) ==> TableConsistent(r)
    ensures t.Keys <= r.Keys
    decreases |vs|
  {
    if vs == [] then t
    else
      var n := |vs| - 1;
      assert Writable(vs[..n]);
      var p := Store(vs[..n], t);
      if vs[n].Imported? then SaveDraft(p, vs[n].doc, vs[n].id, true).value.table else p
  }

  /** Every failing row, numbered as Excel shows it, in order: the reference
      the error list is a prefix of. */
  function Failures(vs: seq<RowOutcome>, first: nat): (r: seq<ImportError>)
    ensures |r| <= |vs|
    decreases |vs|
  {
    if vs == [] then []
    else
      var n := |vs| - 1;
      var prev := Failures(vs[..n], first);
      if vs[n].Failed? then prev + [ImportError(first + n + 1, vs[n].message)] else prev
  }

  /** The report counts every failing row and lists the first twenty of them. */
  lemma {:induction false} ErrorsAreFirstFailures(vs: seq<RowOutcome>, first: nat)
    ensures var report := Count(vs, first);
      var failures := Failures(vs, first);
      report.failedCount == |failures| && report.errors == Take(failures, MAX_ERRORS)
    decreases |vs|
  {
    if vs != [] {
      ErrorsAreFirstFailures(vs[..|vs| - 1], first);
    }
  }

  /** Writing a validated new document puts its draft row under its id. */
  lemma StoreOne(t: Table, doc: KnowledgeDocument, id: string)
    requires doc.documentId == "" && DraftEntry(doc, id, true).Ok?
    ensures SaveDraft(t, doc, id, true).Ok?
    ensures SaveDraft(t, doc, id, true).value.table
      == t[id := Entry(id, doc.title, doc.content, EncodeTags(doc.tags), 0, None)]
  {
    assert Normalized(doc, id).documentId == id;
  }

  /** Every imported row is stored under its id, with its document's fields,
      unless a later imported row reuses the id. */
  lemma {:induction false} ImportedRowsStored(vs: seq<RowOutcome>, t: Table, k: nat)
    requires Writable(vs) && k < |vs| && vs[k].Imported?
    requires forall j :: k < j < |vs| && vs[j].Imported? ==> vs[j].id != vs[k].id
    ensures var table := Store(vs, t);
      var v := vs[k];
      v.id in table && table[v.id] == Entry(v.id, v.doc.title, v.doc.content, EncodeTags(v.doc.tags), 0, None)
    decreases |vs|
  {
    var n := |vs| - 1;
    assert Writable(vs[..n]);
    var p := Store(vs[..n], t);
    if vs[n].Imported? {
      StoreOne(p, vs[n].doc, vs[n].id);
    }
    if k < n {
      ImportedRowsStored(vs[..n], t, k);
    }
  }

  // ---------------------------------------------------------------------------
  // Upload
  // ---------------------------------------------------------------------------

  /** An uploaded file: whether it is missing or empty, its name, and the
      first sheet of the workbook read from it (`Err` when reading fails,
      `None` when there is no sheet). */
  datatype Upload = Upload(empty: bool, filename: Option<string>, workbook: Result<Option<Sheet>>)

  predicate IsExcelName(filename: Option<string>) {
    filename.Some? && (EndsWith(filename.value, ".xlsx") || EndsWith(filename.value, ".xls"))
  }

  /** Row index where data begins. */
  function DataStart(cols: ColumnIndex): nat {
    if cols.hasHeader then 1 else 0
  }

  /** The rows of a sheet after its first: a header row is skipped, a first
      row that is no header is data. */
  function ImportSheet(sheet: Sheet, t: Table, ids: nat -> string, accepted: nat -> bool): (r: Progress)
    requires 0 < |sheet| && sheet[0].Some?
    ensures var report := r.report;
      && report.totalRows == report.successCount + report.failedCount
      && report.totalRows + report.skippedCount == |sheet| - DataStart(ResolveColumnIndex(sheet[0].value))
      && |report.errors| == Min(report.failedCount, MAX_ERRORS)
    ensures TableConsistent(t) ==> TableConsistent(r.table)
  {
    var cols := ResolveColumnIndex(sheet[0].value);
    VerdictsWritable(sheet, cols, DataStart(cols), ids, accepted);
    var vs := Verdicts(sheet, cols, DataStart(cols), ids, accepted);
    Progress(Count(vs, DataStart(cols)), Store(vs, t))
  }

  /** `importExcel`: the rows of the first sheet after the header are
      imported; `ids(i)` and `accepted(i)` are the new id and the write's
      outcome for row `i`. */
  function ImportExcel(file: Upload, t: Table, ids: nat -> string, accepted: nat -> bool): (r: Result<Progress>)
    ensures file.empty ==> r == Err("请上传 Excel 文件")
    ensures !file.empty && !IsExcelName(file.filename) ==> r == Err("仅支持 .xlsx 或 .xls 格式的 Excel 文件")
    ensures !file.empty && IsExcelName(file.filename) && file.workbook.Err? ==>
      r == Err("解析 Excel 失败: " + file.workbook.error)
    ensures !file.empty && IsExcelName(file.filename) && file.workbook == Ok(None) ==>
      r == Err("Excel 缺少有效的工作表")
    ensures !file.empty && IsExcelName(file.filename) && file.workbook.Ok? && file.workbook.value.Some? ==>
      var sheet := file.workbook.value.value;
      && (|sheet| > MAX_ROWS ==> r == Err("Excel 行数过多，最多支持 2000 行"))
      && (|sheet| <= MAX_ROWS && (sheet == [] || sheet[0].None?) ==> r == Err("Excel 缺少有效数据"))
    ensures r.Ok? ==>
      && !file.empty && IsExcelName(file.filename) && file.workbook.Ok? && file.workbook.value.Some?
      && var sheet := file.workbook.value.value;
      && 0 < |sheet| <= MAX_ROWS && sheet[0].Some?
      && r.value == ImportSheet(sheet, t, ids, accepted)
      && (r.value.report.totalRows > 0 || r.value.report.skippedCount == 0)
  {
    if file.empty then Err("请上传 Excel 文件")
    else if !IsExcelName(file.filename) then Err("仅支持 .xlsx 或 .xls 格式的 Excel 文件")
    else if file.workbook.Err? then Err("解析 Excel 失败: " + file.workbook.error)
    else if file.workbook.value.None? then Err("Excel 缺少有效的工作表")
    else
      var sheet := file.workbook.value.value;
      if |sheet| > MAX_ROWS then Err("Excel 行数过多，最多支持 2000 行")
      else if sheet == [] || sheet[0].None? then Err("Excel 缺少有效数据")
      else
        var p := ImportSheet(sheet, t, ids, accepted);
        if p.report.totalRows == 0 && p.report.skippedCount > 0 then Err("Excel 未包含有效数据")
        else Ok(p)
  }

  /** Rows that are all skipped count as skipped and nothing else. */
  lemma {:induction false} BlankRowsSkipped(vs: seq<RowOutcome>, first: nat)
    requires forall k :: 0 <= k < |vs| ==> vs[k].Skipped?
    ensures Count(vs, first) == Report(0, 0, 0, |vs|, [])
    decreases |vs|
  {
    if vs != [] {
      BlankRowsSkipped(vs[..|vs| - 1], first);
    }
  }

  /** A missing row, or one whose every cell is blank. */
  predicate BlankRow(row: Option<Row>) {
    row.None? || forall k :: 0 <= k < |row.value| ==> !HasText(row.value[k])
  }

  /** A blank row is skipped, wherever its columns are. */
  lemma BlankRowSkipped(cols: ColumnIndex, row: Option<Row>, freshId: string, accepted: bool)
    requires BlankRow(row)
    ensures RowVerdict(cols, row, freshId, accepted).Skipped?
  {
    if row.Some? {
      assert !HasText(Cell(row.value, cols.titleCol)) && !HasText(Cell(row.value, cols.tagsCol))
        && !HasText(Cell(row.value, cols.contentCol));
    }
  }

  /** A sheet whose data rows are all blank reports them all as skipped. */
  lemma BlankSheet(sheet: Sheet, t: Table, ids: nat -> string, accepted: nat -> bool)
    requires 0 < |sheet| && sheet[0].Some?
    requires forall i :: DataStart(ResolveColumnIndex(sheet[0].value)) <= i < |sheet| ==> BlankRow(sheet[i])
    ensures ImportSheet(sheet, t, ids, accepted).report
      == Report(0, 0, 0, |sheet| - DataStart(ResolveColumnIndex(sheet[0].value)), [])
  {
    var cols := ResolveColumnIndex(sheet[0].value);
    var start := DataStart(cols);
    var vs := Verdicts(sheet, cols, start, ids, accepted);
    forall k | 0 <= k < |vs|
      ensures vs[k].Skipped?
    {
      BlankRowSkipped(cols, sheet[start + k], ids(start + k), accepted(start + k));
    }
    BlankRowsSkipped(vs, start);
  }

  /** An upload whose data rows are all blank fails with the no-data message. */
  lemma AllBlankRefused(file: Upload, sheet: Sheet, t: Table, ids: nat -> string, accepted: nat -> bool)
    requires !file.empty && IsExcelName(file.filename) && file.workbook == Ok(Some(sheet))
    requires 0 < |sheet| <= MAX_ROWS && sheet[0].Some?
    requires DataStart(ResolveColumnIndex(sheet[0].value)) < |sheet|
    requires forall i :: DataStart(ResolveColumnIndex(sheet[0].value)) <= i < |sheet| ==> BlankRow(sheet[i])
    ensures ImportExcel(file, t, ids, accepted) == Err("Excel 未包含有效数据")
  {
    BlankSheet(sheet, t, ids, accepted);
  }
}
