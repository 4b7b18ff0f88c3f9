/** Laying out a generated product requirement document as Word paragraphs:
    the text is cut into lines, blank lines become empty paragraphs, the
    first line with text is the title, and every other line is styled by the
    section-header set and the list-marker rules. Producing the Word file
    itself is left to the document library and is not modelled; a paragraph
    here records its text and the style chosen for it. */
module Prd {

  import opened Results
  import opened Text

  // ---------------------------------------------------------------------------
  // Styles
  // ---------------------------------------------------------------------------

  /** The six styles a line can receive. */
  datatype Level = Title | Section | FirstLevel | SecondLevel | ThirdLevel | Normal

  /** Lines that are styled as section headers when they match exactly. */
  const SECTION_HEADERS: seq<string> := ["需求背景", "需求概述", "需求详情"]

  // ---------------------------------------------------------------------------
  // List-marker rules
  // ---------------------------------------------------------------------------

  /** Characters the regular-expression dot does not match in `java.util.regex`
      without flags. */
  predicate IsLineTerminator(c: char) {
    c == '\n' || c == '\r' || c == '\U{0085}' || c == '\U{2028}' || c == '\U{2029}'
  }

  predicate NotLineTerminator(c: char) {
    !IsLineTerminator(c)
  }

  /** The circled numbers one to twenty, U+2460 to U+2473. */
  predicate IsCircledNumber(c: char) {
    '\U{2460}' <= c <= '\U{2473}'
  }

  /** Whole-string match of `^\d+、.*`, computed from the leading digit run. */
  predicate MatchesNumbered(s: string) {
    var k := FirstKept(s, IsAsciiDigit, 0);
    1 <= k < |s| && s[k] == '、' && AllChars(s[k + 1..], NotLineTerminator)
  }

  /** Whole-string match of `^\(\d+\).*`, computed from the digit run after the parenthesis. */
  predicate MatchesParenthesized(s: string) {
    |s| >= 1 && s[0] == '('
    && var k := FirstKept(s, IsAsciiDigit, 1);
       2 <= k < |s| && s[k] == ')' && AllChars(s[k + 1..], NotLineTerminator)
  }

  /** Whole-string match of `^[①-⑳].*`. */
  predicate MatchesCircled(s: string) {
    |s| >= 1 && IsCircledNumber(s[0]) && AllChars(s[1..], NotLineTerminator)
  }

  /** The pattern `^\d+、.*` read as a language: some non-empty digit run,
      the enumeration comma, then any text without a line terminator. */
  predicate NumberedLanguage(s: string) {
    exists k :: 1 <= k < |s| && AllChars(s[..k], IsAsciiDigit) && s[k] == '、'
                && AllChars(s[k + 1..], NotLineTerminator)
  }

  /** The pattern `^\(\d+\).*` read as a language. */
  predicate ParenthesizedLanguage(s: string) {
    exists k :: 2 <= k < |s| && s[0] == '(' && AllChars(s[1..k], IsAsciiDigit) && s[k] == ')'
                && AllChars(s[k + 1..], NotLineTerminator)
  }

  /** The leading digit run ends exactly where the first non-digit stands. */
  lemma DigitRunEnds(s: string, from: nat, k: nat)
    requires from <= k < |s|
    requires AllChars(s[from..k], IsAsciiDigit) && !IsAsciiDigit(s[k])
    ensures FirstKept(s, IsAsciiDigit, from) == k
  {
    var r := FirstKept(s, IsAsciiDigit, from);
    assert forall j :: from <= j < k ==> IsAsciiDigit(s[j]) by {
      forall j | from <= j < k ensures IsAsciiDigit(s[j]) {
        assert s[from..k][j - from] == s[j];
      }
    }
  }

  lemma NumberedIsLanguage(s: string)
    ensures MatchesNumbered(s) <==> NumberedLanguage(s)
  {
    var k := FirstKept(s, IsAsciiDigit, 0);
    if MatchesNumbered(s) {
      assert AllChars(s[..k], IsAsciiDigit) by {
        forall j | 0 <= j < k ensures IsAsciiDigit(s[..k][j]) {
          assert s[..k][j] == s[j];
        }
      }
      assert NumberedLanguage(s);
    }
    if NumberedLanguage(s) {
      var m :| 1 <= m < |s| && AllChars(s[..m], IsAsciiDigit) && s[m] == '、'
               && AllChars(s[m + 1..], NotLineTerminator);
      assert s[0..m] == s[..m];
      DigitRunEnds(s, 0, m);
    }
  }

  lemma ParenthesizedIsLanguage(s: string)
    ensures MatchesParenthesized(s) <==> ParenthesizedLanguage(s)
  {
    if MatchesParenthesized(s) {
      var k := FirstKept(s, IsAsciiDigit, 1);
      assert AllChars(s[1..k], IsAsciiDigit) by {
        forall j | 0 <= j < k - 1 ensures IsAsciiDigit(s[1..k][j]) {
          assert s[1..k][j] == s[j + 1];
        }
      }
      assert ParenthesizedLanguage(s);
    }
    if ParenthesizedLanguage(s) {
      var m :| 2 <= m < |s| && s[0] == '(' && AllChars(s[1..m], IsAsciiDigit) && s[m] == ')'
               && AllChars(s[m + 1..], NotLineTerminator);
      DigitRunEnds(s, 1, m);
    }
  }

  /** The three list markers begin with different characters, so at most one
      rule matches a line and the order of the rules never decides between
      two of them. No section header matches any rule. */
  lemma RulesExclusive(s: string)
    ensures !(MatchesNumbered(s) && MatchesParenthesized(s))
    ensures !(MatchesNumbered(s) && MatchesCircled(s))
    ensures !(MatchesParenthesized(s) && MatchesCircled(s))
    ensures s in SECTION_HEADERS ==> !MatchesNumbered(s) && !MatchesParenthesized(s) && !MatchesCircled(s)
  {
    if MatchesNumbered(s) {
      assert IsAsciiDigit(s[0]);
    }
  }

  // ---------------------------------------------------------------------------
  // Choosing a style
  // ---------------------------------------------------------------------------

  /** The style of a trimmed, non-blank line: the title for the first such
      line, then the section headers, then the list rules in order, and the
      normal style when nothing matches. */
  function DetermineStyle(text: string, isFirstLine: bool): (r: Level)
    ensures r == Title <==> isFirstLine
  {
    if isFirstLine then Title
    else if text in SECTION_HEADERS then Section
    else if MatchesNumbered(text) then FirstLevel
    else if MatchesParenthesized(text) then SecondLevel
    else if MatchesCircled(text) then ThirdLevel
    else Normal
  }

  /** The style of a line other than the first, stated through the patterns
      read as languages: each list level is chosen exactly when its pattern
      matches a line that is not a section header. */
  lemma StyleByLanguage(text: string, isFirstLine: bool)
    ensures isFirstLine ==> DetermineStyle(text, isFirstLine) == Title
    ensures !isFirstLine ==>
      (DetermineStyle(text, isFirstLine) == Section <==> text in SECTION_HEADERS)
    ensures !isFirstLine ==>
      (DetermineStyle(text, isFirstLine) == FirstLevel <==> text !in SECTION_HEADERS && NumberedLanguage(text))
    ensures !isFirstLine ==>
      (DetermineStyle(text, isFirstLine) == SecondLevel <==> text !in SECTION_HEADERS && ParenthesizedLanguage(text))
    ensures !isFirstLine ==>
      (DetermineStyle(text, isFirstLine) == ThirdLevel <==> text !in SECTION_HEADERS && MatchesCircled(text))
    ensures !isFirstLine ==>
      (DetermineStyle(text, isFirstLine) == Normal <==>
         text !in SECTION_HEADERS && !NumberedLanguage(text) && !ParenthesizedLanguage(text) && !MatchesCircled(text))
  {
    NumberedIsLanguage(text);
    ParenthesizedIsLanguage(text);
    RulesExclusive(text);
  }

  // ---------------------------------------------------------------------------
  // Lines and paragraphs
  // ---------------------------------------------------------------------------

  /** A paragraph of the document: an empty one for a blank line, or the
      trimmed text of a line with its style. */
  datatype Paragraph = EmptyParagraph | Styled(text: string, level: Level)

  predicate IsNewline(c: char) {
    c == '\n'
  }

  predicate IsBlankLine(line: string) {
    JavaTrim(line) == []
  }

  /** The lines of the content, as Java's `split("\n")` returns them. */
  function Lines(content: string): seq<string> {
    JavaSplit(content, IsNewline)
  }

  /** Each line trimmed; a blank line trims to the empty string. */
  function TrimLines(lines: seq<string>): (r: seq<string>)
    ensures |r| == |lines|
  {
    seq(|lines|, i requires 0 <= i < |lines| => JavaTrim(lines[i]))
  }

  /** Index of the first non-empty text, or the number of texts when all are empty. */
  function FirstText(texts: seq<string>): (r: nat)
    ensures r <= |texts|
    ensures forall j :: 0 <= j < r ==> texts[j] == []
    ensures r < |texts| ==> texts[r] != []
  {
    if texts == [] || texts[0] != [] then 0 else 1 + FirstText(texts[1..])
  }

  function ParagraphOf(text: string, isFirstLine: bool): Paragraph {
    if text == [] then EmptyParagraph else Styled(text, DetermineStyle(text, isFirstLine))
  }

  /** The document described line by line from the trimmed lines: line `i`
      becomes the paragraph of its text, taking the title style exactly when
      it is the first line with text. */
  function Layout(texts: seq<string>): seq<Paragraph> {
    seq(|texts|, i requires 0 <= i < |texts| => ParagraphOf(texts[i], i == FirstText(texts)))
  }

  /** The document a content yields when it is accepted. */
  function Document(content: string): seq<Paragraph> {
    Layout(TrimLines(Lines(content)))
  }

  /** Blank content is refused; otherwise the document has one paragraph per
      line, as the line-by-line layout describes. */
  method GenerateWordDocument(content: string) returns (r: Result<seq<Paragraph>>)
    ensures r.Err? <==> IsBlankLine(content)
    ensures r.Err? ==> r.error == "文档内容不能为空"
    ensures r.Ok? ==> r.value == Document(content)
  {
    if JavaTrim(content) == [] {
      return Err("文档内容不能为空");
    }
    var paragraphs := LayParagraphs(Lines(content));
    return Ok(paragraphs);
  }

  /** The paragraph loop of the generator, carrying the "first line with text
      still to come" flag. */
  method LayParagraphs(lines: seq<string>) returns (out: seq<Paragraph>)
    ensures out == Layout(TrimLines(lines))
  {
    ghost var texts := TrimLines(lines);
    ghost var first := FirstText(texts);
    out := [];
    var isFirstNonEmptyLine := true;
    var i := 0;
    while i < |lines|
      invariant 0 <= i <= |lines|
      invariant isFirstNonEmptyLine <==> i <= first
      invariant |out| == i
      invariant forall j :: 0 <= j < i ==> out[j] == ParagraphOf(texts[j], j == first)
    {
      var trimmedLine := JavaTrim(lines[i]);
      assert texts[i] == trimmedLine;
      if trimmedLine == [] {
        out := out + [EmptyParagraph];
      } else {
        var style := DetermineStyle(trimmedLine, isFirstNonEmptyLine);
        out := out + [Styled(trimmedLine, style)];
        if isFirstNonEmptyLine {
          isFirstNonEmptyLine := false;
        }
      }
      i := i + 1;
    }
  }

  /** Trimming a blank line in front gives an empty text in front. */
  lemma TrimBlankFront(blank: string, lines: seq<string>)
    requires IsBlankLine(blank)
    ensures TrimLines([blank] + lines) == [""] + TrimLines(lines)
  {
    var all := TrimLines([blank] + lines);
    var texts := TrimLines(lines);
    forall i | 0 <= i < |texts| ensures all[i + 1] == texts[i] {
      assert ([blank] + lines)[i + 1] == lines[i];
    }
  }

  /** An empty text in front adds an empty paragraph and leaves the title
      where it was. */
  lemma EmptyTextKeepsTitle(texts: seq<string>)
    ensures Layout([""] + texts) == [EmptyParagraph] + Layout(texts)
  {
    var all := [""] + texts;
    assert all[1..] == texts;
    assert FirstText(all) == FirstText(texts) + 1;
  }

  /** A blank line in front adds an empty paragraph and does not take the
      title from the first line with text. */
  lemma BlankLineKeepsTitle(blank: string, lines: seq<string>)
    requires IsBlankLine(blank)
    ensures Layout(TrimLines([blank] + lines)) == [EmptyParagraph] + Layout(TrimLines(lines))
  {
    TrimBlankFront(blank, lines);
    EmptyTextKeepsTitle(TrimLines(lines));
  }

  /** A line with text in front becomes the title, whatever it says, and no
      later line is a title. */
  lemma TextLineTakesTitle(line: string, lines: seq<string>)
    requires !IsBlankLine(line)
    ensures Layout(TrimLines([line] + lines))[0] == Styled(JavaTrim(line), Title)
    ensures forall i :: 1 <= i <= |lines| && Layout(TrimLines([line] + lines))[i].Styled? ==>
              Layout(TrimLines([line] + lines))[i].level != Title
  {
    assert FirstText(TrimLines([line] + lines)) == 0;
  }

  /** Every character of the text that is not a delimiter lands in some piece. */
  lemma {:induction false} SplitCovers(s: string, isDelim: char -> bool, k: nat) returns (i: nat, j: nat)
    requires k < |s| && !isDelim(s[k])
    ensures i < |SplitAll(s, isDelim)| && j < |SplitAll(s, isDelim)[i]|
    ensures SplitAll(s, isDelim)[i][j] == s[k]
    decreases |s|
  {
    if k == 0 {
      i, j := SplitFirstKept(s, isDelim);
    } else {
      var i', j' := SplitCovers(s[1..], isDelim, k - 1);
      i, j := SplitShift(s, isDelim, i', j');
    }
  }

  /** A first character that is kept opens the first piece. */
  lemma SplitFirstKept(s: string, isDelim: char -> bool) returns (i: nat, j: nat)
    requires s != [] && !isDelim(s[0])
    ensures i < |SplitAll(s, isDelim)| && j < |SplitAll(s, isDelim)[i]|
    ensures SplitAll(s, isDelim)[i][j] == s[0]
  {
    var rest := SplitAll(s[1..], isDelim);
    assert SplitAll(s, isDelim) == [[s[0]] + rest[0]] + rest[1..];
    i, j := 0, 0;
  }

  /** A character of the split tail keeps a place in the split of the whole. */
  lemma SplitShift(s: string, isDelim: char -> bool, i': nat, j': nat) returns (i: nat, j: nat)
    requires s != [] && i' < |SplitAll(s[1..], isDelim)| && j' < |SplitAll(s[1..], isDelim)[i']|
    ensures i < |SplitAll(s, isDelim)| && j < |SplitAll(s, isDelim)[i]|
    ensures SplitAll(s, isDelim)[i][j] == SplitAll(s[1..], isDelim)[i'][j']
  {
    var rest := SplitAll(s[1..], isDelim);
    if isDelim(s[0]) {
      assert SplitAll(s, isDelim) == [""] + rest;
      i, j := i' + 1, j';
    } else if i' == 0 {
      assert SplitAll(s, isDelim) == [[s[0]] + rest[0]] + rest[1..];
      i, j := 0, j' + 1;
    } else {
      assert SplitAll(s, isDelim) == [[s[0]] + rest[0]] + rest[1..];
      i, j := i', j';
    }
  }

  /** Content that is not blank has a line with text. */
  lemma TextHasTextLine(content: string)
    requires !IsBlankLine(content)
    ensures FirstText(TrimLines(Lines(content))) < |Lines(content)|
  {
    var k :| 0 <= k < |content| && !IsTrimmable(content[k]);
    var lines := Lines(content);
    var texts := TrimLines(lines);
    if !HasDelim(content, IsNewline) {
      assert lines == [content];
      assert texts[0] != [];
    } else {
      var pieces := SplitAll(content, IsNewline);
      var i, j := SplitCovers(content, IsNewline, k);
      assert pieces[i] != "";
      assert i < |lines|;
      assert lines[i] == pieces[i];
      assert !IsTrimmable(lines[i][j]);
      assert texts[i] != [];
    }
  }

  /** A document generated from non-blank content has exactly one title
      paragraph: the one for the first line with text. */
  lemma ExactlyOneTitle(content: string)
    requires !IsBlankLine(content)
    ensures var ps := Document(content);
            var t := FirstText(TrimLines(Lines(content)));
            t < |ps| && ps[t].Styled? && ps[t].level == Title
            && forall i :: 0 <= i < |ps| && i != t && ps[i].Styled? ==> ps[i].level != Title
  {
    TextHasTextLine(content);
  }
}
