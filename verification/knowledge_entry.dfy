/** Storage layer of the requirement knowledge base: draft entries keyed by
    document id, the comma-joined tag column, and the vectorised flag that
    every draft edit clears.

    The table is a map from primary key to row. Whether the persistence
    layer reports success, the clock and the random identifier of a new
    document are parameters. */
module KnowledgeEntries {

  import opened Results
  import opened Text

  // ---------------------------------------------------------------------------
  // Tag column
  // ---------------------------------------------------------------------------

  predicate IsComma(c: char) {
    c == ','
  }

  predicate CommaFree(xs: seq<string>) {
    forall i :: 0 <= i < |xs| ==> ',' !in xs[i]
  }

  /** A tag as the column stores it: visible text, already trimmed, free of commas. */
  predicate CleanTag(t: string) {
    HasText(t) && JavaTrim(t) == t && ',' !in t
  }

  /** Strings that are already clean tags pass the filter unchanged. */
  lemma TrimmedTextsOfClean(xs: seq<string>)
    requires forall i :: 0 <= i < |xs| ==> CleanTag(xs[i])
    ensures TrimmedTexts(xs) == xs
  {
    TrimmedTextsFixed(xs);
  }

  /** The filter yields clean tags when the input holds no commas and no
      string whose text consists only of trimmable control characters. */
  lemma {:induction false} TrimmedTextsClean(xs: seq<string>)
    requires CommaFree(xs)
    requires forall i :: 0 <= i < |xs| ==> HasText(xs[i]) ==> HasText(JavaTrim(xs[i]))
    ensures forall i :: 0 <= i < |TrimmedTexts(xs)| ==> CleanTag(TrimmedTexts(xs)[i])
    decreases |xs|
  {
    TrimmedTextsShape(xs);
    TrimmedTextsHaveText(xs);
  }

  /** The filter's strings are trimmed, and it adds no commas. */
  lemma TrimmedTextsShape(xs: seq<string>)
    ensures forall i :: 0 <= i < |TrimmedTexts(xs)| ==> JavaTrim(TrimmedTexts(xs)[i]) == TrimmedTexts(xs)[i]
    ensures CommaFree(xs) ==> CommaFree(TrimmedTexts(xs))
  {
    TrimmedTextsTrimmed(xs);
    if CommaFree(xs) {
      TrimmedTextsCommaFree(xs);
    }
  }

  lemma {:induction false} TrimmedTextsCommaFree(xs: seq<string>)
    requires CommaFree(xs)
    ensures CommaFree(TrimmedTexts(xs))
    decreases |xs|
  {
    if xs != [] {
      assert forall i :: 1 <= i < |xs| ==> xs[i] == xs[1..][i - 1];
      TrimmedTextsCommaFree(xs[1..]);
      var rest := TrimmedTexts(xs[1..]);
      if HasText(xs[0]) {
        TrimWithin(xs[0]);
        var r := [JavaTrim(xs[0])] + rest;
        assert forall i :: 1 <= i < |r| ==> r[i] == rest[i - 1];
      }
    }
  }

  /** `encodeTags`: the trimmed tags that have text joined by commas, or a
      null column when there are none. */
  function EncodeTags(tags: seq<string>): (r: Option<string>)
    ensures r.None? <==> forall i :: 0 <= i < |tags| ==> !HasText(tags[i])
  {
    var kept := TrimmedTexts(tags);
    if kept == [] then None else Some(Join(",", kept))
  }

  /** `splitTags`: the comma-separated pieces of the column that have text,
      trimmed. A null column reads as the empty string. */
  function SplitTags(column: string): (r: seq<string>)
    ensures forall i :: 0 <= i < |r| ==> JavaTrim(r[i]) == r[i] && ',' !in r[i]
    ensures !HasText(column) ==> r == []
  {
    if !HasText(column) then []
    else
      var pieces := JavaSplit(column, IsComma);
      assert CommaFree(pieces) by {
        forall i | 0 <= i < |pieces|
          ensures ',' !in pieces[i]
        {
          assert forall k :: 0 <= k < |pieces[i]| ==> !IsComma(pieces[i][k]);
        }
      }
      TrimmedTextsShape(pieces);
      TrimmedTexts(pieces)
  }

  /** A join whose first piece has text has text. */
  lemma JoinHasText(xs: seq<string>)
    requires xs != [] && HasText(xs[0])
    ensures HasText(Join(",", xs))
  {
    if |xs| > 1 {
      HasTextPrefix(xs[0], "," + Join(",", xs[1..]));
      assert Join(",", xs) == xs[0] + ("," + Join(",", xs[1..]));
    }
  }

  /** Clean tags survive the column: encoding then reading gives them back. */
  lemma CleanTagsRoundTrip(tags: seq<string>)
    requires forall i :: 0 <= i < |tags| ==> CleanTag(tags[i])
    ensures SplitTags(EncodeTags(tags).GetOr("")) == tags
  {
    TrimmedTextsOfClean(tags);
    if |tags| == 1 {
      assert !HasDelim(tags[0], IsComma);
      assert TrimmedTexts([tags[0]]) == [tags[0]];
    } else if |tags| >= 2 {
      JoinHasText(tags);
      assert forall i :: 0 <= i < |tags| ==> forall k :: 0 <= k < |tags[i]| ==> !IsComma(tags[i][k]);
      JavaSplitJoin(tags, ',', IsComma);
    }
  }

  /** For comma-free tags, reading the column back yields the trimmed tags
      that have text, as the entry response shows them. */
  lemma TagsRoundTrip(tags: seq<string>)
    requires CommaFree(tags)
    requires forall i :: 0 <= i < |tags| ==> HasText(tags[i]) ==> HasText(JavaTrim(tags[i]))
    ensures SplitTags(EncodeTags(tags).GetOr("")) == TrimmedTexts(tags)
  {
    var kept := TrimmedTexts(tags);
    TrimmedTextsClean(tags);
    TrimmedTextsOfClean(kept);
    CleanTagsRoundTrip(kept);
  }

  // ---------------------------------------------------------------------------
  // Documents and entries
  // ---------------------------------------------------------------------------

  /** A knowledge document as the services hand it over; a null field is the
      empty string and null tags the empty list. */
  datatype KnowledgeDocument = KnowledgeDocument(documentId: string, title: string, content: string, tags: seq<string>)

  /** `normalized()`: a document without an id receives a fresh random one. */
  function Normalized(doc: KnowledgeDocument, freshId: string): (r: KnowledgeDocument)
    ensures HasText(doc.documentId) ==> r == doc
    ensures !HasText(doc.documentId) ==> r == doc.(documentId := freshId)
  {
    if HasText(doc.documentId) then doc else doc.(documentId := freshId)
  }

  /** A row of the entry table. `vectorized` is 1 once the document has been
      written to the vector store and 0 for a draft. */
  datatype Entry = Entry(
    documentId: string,
    title: string,
    content: string,
    tags: Option<string>,
    vectorized: int,
    vectorUpdatedTime: Option<int>)

  type Table = map<string, Entry>

  /** The flag and its timestamp agree. */
  predicate VectorConsistent(e: Entry) {
    (e.vectorized == 1 && e.vectorUpdatedTime.Some?) || (e.vectorized == 0 && e.vectorUpdatedTime.None?)
  }

  /** Every row sits under its own id and has a consistent flag. */
  predicate TableConsistent(t: Table) {
    forall k :: k in t ==> t[k].documentId == k && VectorConsistent(t[k])
  }

  /** `getByDocumentId`: a blank id finds nothing; otherwise the row under the trimmed id. */
  function GetByDocumentId(t: Table, documentId: string): (r: Option<Entry>)
    ensures r.Some? <==> HasText(documentId) && JavaTrim(documentId) in t
    ensures r.Some? ==> r.value == t[JavaTrim(documentId)]
  {
    if !HasText(documentId) then None
    else if JavaTrim(documentId) in t then Some(t[JavaTrim(documentId)])
    else None
  }

  /** The table after a write, and the row read back by id. */
  datatype Saved = Saved(table: Table, entry: Option<Entry>)

  /** The validation half of `saveDraft`: the draft row a document becomes,
      or the message of the first check it fails. It does not depend on the
      table. */
  function DraftEntry(doc: KnowledgeDocument, freshId: string, accepted: bool): (r: Result<Entry>)
    ensures var n := Normalized(doc, freshId);
      && (r.Ok? <==> HasText(n.documentId) && HasText(doc.title) && HasText(doc.content) && accepted)
      && (!HasText(n.documentId) ==> r == Err("documentId 不能为空"))
      && (HasText(n.documentId) && !HasText(doc.title) ==> r == Err("标题不能为空"))
      && (HasText(n.documentId) && HasText(doc.title) && !HasText(doc.content) ==> r == Err("知识内容不能为空"))
      && (HasText(n.documentId) && HasText(doc.title) && HasText(doc.content) && !accepted ==> r == Err("保存知识条目失败"))
    ensures r.Ok? ==> r.value == Entry(Normalized(doc, freshId).documentId, doc.title, doc.content, EncodeTags(doc.tags), 0, None)
  {
    var n := Normalized(doc, freshId);
    if !HasText(n.documentId) then Err("documentId 不能为空")
    else if !HasText(n.title) then Err("标题不能为空")
    else if !HasText(n.content) then Err("知识内容不能为空")
    else if !accepted then Err("保存知识条目失败")
    else Ok(Entry(n.documentId, n.title, n.content, EncodeTags(n.tags), 0, None))
  }

  /** `saveDraft`: validates the normalised document, then inserts or
      replaces its row as an unvectorised draft. `accepted` is the
      persistence layer's success flag. */
  function SaveDraft(t: Table, doc: KnowledgeDocument, freshId: string, accepted: bool): (r: Result<Saved>)
    ensures r.Err? <==> DraftEntry(doc, freshId, accepted).Err?
    ensures r.Err? ==> r.error == DraftEntry(doc, freshId, accepted).error
    ensures r.Ok? ==>
      var id := Normalized(doc, freshId).documentId;
      && id in r.value.table
      && r.value.table[id] == Entry(id, doc.title, doc.content, EncodeTags(doc.tags), 0, None)
      && r.value.table.Keys == t.Keys + {id}
      && (forall k :: k in t && k != id ==> r.value.table[k] == t[k])
      && (JavaTrim(id) == id ==> r.value.entry == Some(r.value.table[id]))
    ensures r.Ok? && TableConsistent(t) ==> TableConsistent(r.value.table)
  {
    var e :- DraftEntry(doc, freshId, accepted);
    var t' := t[e.documentId := e];
    Ok(Saved(t', GetByDocumentId(t', e.documentId)))
  }

  /** `updateDraft`: replaces title, content and tags of an existing row and
      turns it back into an unvectorised draft. */
  function UpdateDraft(t: Table, documentId: string, title: string, content: string, tags: seq<string>,
                       accepted: bool): (r: Result<Saved>)
    ensures r.Ok? <==> GetByDocumentId(t, documentId).Some? && HasText(title) && HasText(content) && accepted
    ensures !HasText(documentId) ==> r == Err("documentId 不能为空")
    ensures HasText(documentId) && GetByDocumentId(t, documentId).None? ==> r == Err("知识条目不存在: " + documentId)
    ensures r.Ok? ==>
      var id := GetByDocumentId(t, documentId).value.documentId;
      id in r.value.table &&
      var e := r.value.table[id];
      && e.title == title && e.content == content && e.tags == EncodeTags(tags)
      && e.vectorized == 0 && e.vectorUpdatedTime.None?
      && r.value.table.Keys == t.Keys + {id}
      && (forall k :: k in t && k != id ==> r.value.table[k] == t[k])
    ensures r.Ok? && TableConsistent(t) ==> TableConsistent(r.value.table)
  {
    if !HasText(documentId) then Err("documentId 不能为空")
    else
      var existing := GetByDocumentId(t, documentId);
      if existing.None? then Err("知识条目不存在: " + documentId)
      else if !HasText(title) then Err("标题不能为空")
      else if !HasText(content) then Err("知识内容不能为空")
      else
        var e := existing.value.(title := title, content := content, tags := EncodeTags(tags),
                                 vectorized := 0, vectorUpdatedTime := None);
        if !accepted then Err("更新知识条目失败: " + documentId)
        else
          var t' := t[e.documentId := e];
          Ok(Saved(t', GetByDocumentId(t', documentId)))
  }

  /** Whether the flag was written, and the table afterwards. */
  datatype VectorUpdate = VectorUpdate(updated: bool, table: Table)

  /** `updateVectorState`: sets the flag and stamps `now` when vectorised,
      clears both otherwise; a missing entry is reported and left alone. */
  function UpdateVectorState(t: Table, documentId: string, vectorized: bool, now: int, accepted: bool): (r: VectorUpdate)
    ensures GetByDocumentId(t, documentId).None? ==> r == VectorUpdate(false, t)
    ensures r.updated <==> GetByDocumentId(t, documentId).Some? && accepted
    ensures !r.updated ==> r.table == t
    ensures r.updated ==>
      var id := GetByDocumentId(t, documentId).value.documentId;
      && id in r.table
      && r.table[id].vectorized == (if vectorized then 1 else 0)
      && r.table[id].vectorUpdatedTime == (if vectorized then Some(now) else None)
      && (forall k :: k in t && k != id ==> k in r.table && r.table[k] == t[k])
    ensures TableConsistent(t) ==> TableConsistent(r.table)
  {
    var existing := GetByDocumentId(t, documentId);
    if existing.None? then VectorUpdate(false, t)
    else
      var e := existing.value.(vectorized := if vectorized then 1 else 0,
                               vectorUpdatedTime := if vectorized then Some(now) else None);
      if accepted then VectorUpdate(true, t[e.documentId := e]) else VectorUpdate(false, t)
  }

  /** `removeByDocumentId`: deletes the row under the trimmed id; a blank id
      or a missing row removes nothing. */
  function RemoveByDocumentId(t: Table, documentId: string): (r: VectorUpdate)
    ensures r.updated <==> GetByDocumentId(t, documentId).Some?
    ensures r.updated ==> r.table == t - {JavaTrim(documentId)}
    ensures !r.updated ==> r.table == t
    ensures TableConsistent(t) ==> TableConsistent(r.table)
  {
    if !HasText(documentId) then VectorUpdate(false, t)
    else if JavaTrim(documentId) in t then VectorUpdate(true, t - {JavaTrim(documentId)})
    else VectorUpdate(false, t)
  }

  // ---------------------------------------------------------------------------
  // Writes as the persistence layer performs them
  // ---------------------------------------------------------------------------

  /** The row a write of `e` leaves behind when the table's update skips
      null fields: inserting a new row stores `e` as it is, but updating an
      existing row keeps its tags and vector timestamp wherever `e` holds
      null. */
  function WriteSkippingNulls(t: Table, e: Entry): (r: Table)
    ensures r.Keys == t.Keys + {e.documentId}
    ensures forall k :: k in t && k != e.documentId ==> r[k] == t[k]
    ensures e.documentId !in t ==> r[e.documentId] == e
    ensures e.documentId in t ==>
      var stored := t[e.documentId];
      r[e.documentId] == e.(tags := if e.tags.Some? then e.tags else stored.tags,
                            vectorUpdatedTime := if e.vectorUpdatedTime.Some? then e.vectorUpdatedTime
                                                 else stored.vectorUpdatedTime)
  {
    if e.documentId !in t then t[e.documentId := e]
    else
      var stored := t[e.documentId];
      t[e.documentId := e.(tags := if e.tags.Some? then e.tags else stored.tags,
                           vectorUpdatedTime := if e.vectorUpdatedTime.Some? then e.vectorUpdatedTime
                                                else stored.vectorUpdatedTime)]
  }

  /** `saveDraft` with the null-skipping write: the same checks as
      `SaveDraft`, and the same row unless the document replaces an
      existing one. */
  function SaveDraftAsWritten(t: Table, doc: KnowledgeDocument, freshId: string, accepted: bool): (r: Result<Saved>)
    ensures r.Err? <==> SaveDraft(t, doc, freshId, accepted).Err?
    ensures r.Err? ==> r == SaveDraft(t, doc, freshId, accepted)
    ensures r.Ok? && Normalized(doc, freshId).documentId !in t ==> r == SaveDraft(t, doc, freshId, accepted)
  {
    var e :- DraftEntry(doc, freshId, accepted);
    var t' := WriteSkippingNulls(t, e);
    Ok(Saved(t', GetByDocumentId(t', e.documentId)))
  }

  /** `updateDraft` with the null-skipping write: the same checks as
      `UpdateDraft`, but the row keeps its vector timestamp, and keeps its
      old tags when none of the new ones has text. */
  function UpdateDraftAsWritten(t: Table, documentId: string, title: string, content: string, tags: seq<string>,
                                accepted: bool): (r: Result<Saved>)
    ensures r.Ok? <==> UpdateDraft(t, documentId, title, content, tags, accepted).Ok?
    ensures r.Err? ==> r == UpdateDraft(t, documentId, title, content, tags, accepted)
    ensures r.Ok? && TableConsistent(t) ==>
      var id := JavaTrim(documentId);
      && id in r.value.table
      && r.value.table[id].vectorized == 0
      && r.value.table[id].vectorUpdatedTime == t[id].vectorUpdatedTime
      && r.value.table[id].tags == (if EncodeTags(tags).Some? then EncodeTags(tags) else t[id].tags)
  {
    if !HasText(documentId) then Err("documentId 不能为空")
    else
      var existing := GetByDocumentId(t, documentId);
      if existing.None? then Err("知识条目不存在: " + documentId)
      else if !HasText(title) then Err("标题不能为空")
      else if !HasText(content) then Err("知识内容不能为空")
      else
        var e := existing.value.(title := title, content := content, tags := EncodeTags(tags),
                                 vectorized := 0, vectorUpdatedTime := None);
        if !accepted then Err("更新知识条目失败: " + documentId)
        else
          var t' := WriteSkippingNulls(t, e);
          Ok(Saved(t', GetByDocumentId(t', documentId)))
  }

  /** `updateVectorState` with the null-skipping write: clearing the flag
      leaves the old timestamp in place. */
  function UpdateVectorStateAsWritten(t: Table, documentId: string, vectorized: bool, now: int,
                                      accepted: bool): (r: VectorUpdate)
    ensures r.updated == UpdateVectorState(t, documentId, vectorized, now, accepted).updated
    ensures vectorized && TableConsistent(t) ==> r == UpdateVectorState(t, documentId, vectorized, now, accepted)
  {
    var existing := GetByDocumentId(t, documentId);
    if existing.None? then VectorUpdate(false, t)
    else
      var e := existing.value.(vectorized := if vectorized then 1 else 0,
                               vectorUpdatedTime := if vectorized then Some(now) else None);
      if accepted then VectorUpdate(true, WriteSkippingNulls(t, e)) else VectorUpdate(false, t)
  }

  /** A row that is vectorised and tagged. */
  function VectorisedRow(): Entry {
    Entry("d", "T", "C", Some("a"), 1, Some(5))
  }

  /** Saving a draft again without tags, over a vectorised row, keeps the old
      tags and timestamp under the null-skipping write: the row claims to be
      a draft and carries a vector timestamp, and reads back a tag that was
      not saved. The intended write gives a consistent untagged draft. */
  lemma ResavedDraftKeepsStaleColumns()
    ensures var t := map["d" := VectorisedRow()];
            var doc := KnowledgeDocument("d", "T", "C", []);
            var r := SaveDraftAsWritten(t, doc, "x", true);
            && TableConsistent(t)
            && r.Ok?
            && r.value.table["d"] == Entry("d", "T", "C", Some("a"), 0, Some(5))
            && !TableConsistent(r.value.table)
            && SplitTags(r.value.table["d"].tags.GetOr("")) != TrimmedTexts(doc.tags)
            && SaveDraft(t, doc, "x", true).value.table["d"] == Entry("d", "T", "C", None, 0, None)
  {
    var t := map["d" := VectorisedRow()];
    var doc := KnowledgeDocument("d", "T", "C", []);
    Unpadded("d");
    Unpadded("T");
    Unpadded("C");
    Unpadded("a");
    var r := SaveDraftAsWritten(t, doc, "x", true);
    assert JavaSplit("a", IsComma) == ["a"] by {
      assert !HasDelim("a", IsComma);
    }
    assert TrimmedTexts(["a"]) == ["a"];
    assert !VectorConsistent(r.value.table["d"]);
  }

  /** Clearing the flag of a vectorised row keeps its timestamp under the
      null-skipping write, which the intended write clears. */
  lemma ClearedFlagKeepsTimestamp()
    ensures var t := map["d" := VectorisedRow()];
            var r := UpdateVectorStateAsWritten(t, "d", false, 9, true);
            && r.updated
            && r.table["d"].vectorized == 0 && r.table["d"].vectorUpdatedTime == Some(5)
            && !TableConsistent(r.table)
            && UpdateVectorState(t, "d", false, 9, true).table["d"].vectorUpdatedTime.None?
  {
    Unpadded("d");
  }

  /** A saved draft shows its tags back as the trimmed tags that have text. */
  lemma SavedTagsReadBack(t: Table, doc: KnowledgeDocument, freshId: string, accepted: bool)
    requires SaveDraft(t, doc, freshId, accepted).Ok?
    requires CommaFree(doc.tags)
    requires forall i :: 0 <= i < |doc.tags| ==> HasText(doc.tags[i]) ==> HasText(JavaTrim(doc.tags[i]))
    ensures var r := SaveDraft(t, doc, freshId, accepted).value;
      SplitTags(r.table[Normalized(doc, freshId).documentId].tags.GetOr("")) == TrimmedTexts(doc.tags)
  {
    TagsRoundTrip(doc.tags);
  }
}
