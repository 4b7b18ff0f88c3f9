/** Character classes and string helpers of the Java and JavaScript runtimes
    the services rely on: trimming, blank tests, ASCII case mapping, regular
    expression splitting and decimal rendering.

    A string is a sequence of Unicode scalar values; the helpers below state
    the library behaviour on that representation. */
module Text {

  import opened Results

  // ---------------------------------------------------------------------------
  // Character classes
  // ---------------------------------------------------------------------------

  /** Characters removed by Java's `String.trim`: every code point up to U+0020. */
  predicate IsTrimmable(c: char) {
    c <= ' '
  }

  /** `Character.isWhitespace`: space separators other than the no-break
      spaces, the line and paragraph separators, and the ASCII controls
      U+0009..U+000D and U+001C..U+001F. Spring's `StringUtils.hasText` and
      Apache's `StringUtils.isBlank` are both defined through it. */
  predicate IsJavaWhitespace(c: char) {
    ('\t' <= c <= '\r') || ('\U{001C}' <= c <= ' ') || c == '\U{1680}'
    || ('\U{2000}' <= c <= '\U{2006}') || ('\U{2008}' <= c <= '\U{200A}')
    || c == '\U{2028}' || c == '\U{2029}' || c == '\U{205F}' || c == '\U{3000}'
  }

  /** White space and line terminators stripped by JavaScript's `String.prototype.trim`. */
  predicate IsJsWhitespace(c: char) {
    ('\t' <= c <= '\r') || c == ' ' || c == '\U{00A0}' || c == '\U{1680}'
    || ('\U{2000}' <= c <= '\U{200A}') || c == '\U{2028}' || c == '\U{2029}'
    || c == '\U{202F}' || c == '\U{205F}' || c == '\U{3000}' || c == '\U{FEFF}'
  }

  /** Guava's `CharMatcher.whitespace()`, used by `Splitter.trimResults()`. */
  predicate IsGuavaWhitespace(c: char) {
    ('\t' <= c <= '\r') || c == ' ' || c == '\U{0085}' || c == '\U{00A0}' || c == '\U{1680}'
    || ('\U{2000}' <= c <= '\U{200A}') || c == '\U{2028}' || c == '\U{2029}'
    || c == '\U{202F}' || c == '\U{205F}' || c == '\U{3000}'
  }

  /** The regular-expression class `\s` of `java.util.regex` (ASCII only). */
  predicate IsRegexSpace(c: char) {
    c == ' ' || ('\t' <= c <= '\r')
  }

  predicate IsAsciiDigit(c: char) {
    '0' <= c <= '9'
  }

  predicate IsAsciiLetter(c: char) {
    ('a' <= c <= 'z') || ('A' <= c <= 'Z')
  }

  // ---------------------------------------------------------------------------
  // Trimming
  // ---------------------------------------------------------------------------

  /** Index of the first character at or after `i` that does not satisfy `p`. */
  function FirstKept(s: string, p: char -> bool, i: nat): (r: nat)
    requires i <= |s|
    ensures i <= r <= |s|
    ensures forall k :: i <= k < r ==> p(s[k])
    ensures r < |s| ==> !p(s[r])
    decreases |s| - i
  {
    if i < |s| && p(s[i]) then FirstKept(s, p, i + 1) else i
  }

  /** End of the longest part of `s[lo..j]` not ending in a character that satisfies `p`. */
  function EndKept(s: string, p: char -> bool, lo: nat, j: nat): (r: nat)
    requires lo <= j <= |s|
    ensures lo <= r <= j
    ensures forall k :: r <= k < j ==> p(s[k])
    ensures r > lo ==> !p(s[r - 1])
  {
    if j > lo && p(s[j - 1]) then EndKept(s, p, lo, j - 1) else j
  }

  /** Removes the characters satisfying `p` from both ends. The result is a
      contiguous part of `s`; it is empty exactly when every character of `s`
      satisfies `p`, and otherwise it starts and ends with a character that
      does not. */
  function Strip(s: string, p: char -> bool): (r: string)
    ensures |r| <= |s| && FirstKept(s, p, 0) + |r| <= |s|
    ensures r == s[FirstKept(s, p, 0)..FirstKept(s, p, 0) + |r|]
    ensures r == [] <==> forall k :: 0 <= k < |s| ==> p(s[k])
    ensures r != [] ==> !p(r[0]) && !p(r[|r| - 1])
  {
    var lo := FirstKept(s, p, 0);
    var hi := EndKept(s, p, lo, |s|);
    assert lo < |s| ==> hi > lo;
    s[lo..hi]
  }

  /** `String.trim` of Java. */
  function JavaTrim(s: string): (r: string)
    ensures |r| <= |s|
    ensures r == [] <==> forall k :: 0 <= k < |s| ==> IsTrimmable(s[k])
  {
    Strip(s, IsTrimmable)
  }

  /** `String.prototype.trim` of JavaScript. */
  function JsTrim(s: string): (r: string)
    ensures |r| <= |s|
    ensures r == [] <==> forall k :: 0 <= k < |s| ==> IsJsWhitespace(s[k])
  {
    Strip(s, IsJsWhitespace)
  }

  /** Trimming performed by Guava's `Splitter.trimResults()`. */
  function GuavaTrim(s: string): (r: string)
    ensures |r| <= |s|
    ensures r == [] <==> forall k :: 0 <= k < |s| ==> IsGuavaWhitespace(s[k])
  {
    Strip(s, IsGuavaWhitespace)
  }

  /** Stripping twice is stripping once. */
  lemma StripIdempotent(s: string, p: char -> bool)
    ensures Strip(Strip(s, p), p) == Strip(s, p)
  {
    var r := Strip(s, p);
    if r != [] {
      assert FirstKept(r, p, 0) == 0;
      assert EndKept(r, p, 0, |r|) == |r|;
    }
  }

  /** A character that `p` does not match survives stripping: it sits
      between the first and last such characters. */
  lemma StripKeeps(s: string, p: char -> bool, k: int)
    requires 0 <= k < |s| && !p(s[k])
    ensures s[k] in Strip(s, p)
  {
    var lo := FirstKept(s, p, 0);
    var hi := EndKept(s, p, lo, |s|);
    assert lo <= k < hi;
    assert Strip(s, p)[k - lo] == s[k];
  }

  lemma JavaTrimIdempotent(s: string)
    ensures JavaTrim(JavaTrim(s)) == JavaTrim(s)
  {
    StripIdempotent(s, IsTrimmable);
  }

  /** Trimming only removes characters. */
  lemma TrimWithin(s: string)
    ensures forall c :: c in JavaTrim(s) ==> c in s
  {
    var t := JavaTrim(s);
    var lo := FirstKept(s, IsTrimmable, 0);
    forall c | c in t
      ensures c in s
    {
      var k :| 0 <= k < |t| && t[k] == c;
      assert s[lo + k] == c;
    }
  }

  // ---------------------------------------------------------------------------
  // Blank tests
  // ---------------------------------------------------------------------------

  /** Spring's `StringUtils.hasText`: some character is not white space.
      A null reference is modelled as the empty string, which has no text. */
  predicate HasText(s: string) {
    exists k :: 0 <= k < |s| && !IsJavaWhitespace(s[k])
  }

  /** Text at the front of a string is text of the whole. */
  lemma HasTextPrefix(a: string, b: string)
    requires HasText(a)
    ensures HasText(a + b)
  {
    var k :| 0 <= k < |a| && !IsJavaWhitespace(a[k]);
    assert (a + b)[k] == a[k];
  }

  /** A string with visible characters at both ends is its own trim, and has text. */
  lemma Unpadded(s: string)
    requires s != [] && !IsTrimmable(s[0]) && !IsTrimmable(s[|s| - 1]) && !IsJavaWhitespace(s[0])
    ensures JavaTrim(s) == s && HasText(s)
  {
    assert FirstKept(s, IsTrimmable, 0) == 0;
    assert EndKept(s, IsTrimmable, 0, |s|) == |s|;
  }

  /** Trimming never creates text: the trimmed string is part of the original. */
  lemma TrimKeepsText(s: string)
    ensures HasText(JavaTrim(s)) ==> HasText(s)
  {
    if HasText(JavaTrim(s)) {
      var t := JavaTrim(s);
      var k :| 0 <= k < |t| && !IsJavaWhitespace(t[k]);
      var off := FirstKept(s, IsTrimmable, 0);
      assert t[k] == s[off + k];
    }
  }

  /** Trimming keeps the text of a string free of the controls U+0000..U+0008
      and U+000E..U+001B, the only characters `trim` removes that are not
      white space. */
  lemma TrimmedHasText(s: string)
    requires forall k :: 0 <= k < |s| ==> (IsTrimmable(s[k]) ==> IsJavaWhitespace(s[k]))
    ensures HasText(s) ==> HasText(JavaTrim(s))
  {
    if HasText(s) {
      var k :| 0 <= k < |s| && !IsJavaWhitespace(s[k]);
      StripKeeps(s, IsTrimmable, k);
      var t := JavaTrim(s);
      var j :| 0 <= j < |t| && t[j] == s[k];
    }
  }

  /** The trimmed forms of the strings that have text, in order: a list
      filtered by `StringUtils::hasText` and then mapped by `String::trim`. */
  function TrimmedTexts(xs: seq<string>): (r: seq<string>)
    ensures |r| <= |xs|
    ensures r == [] <==> forall i :: 0 <= i < |xs| ==> !HasText(xs[i])
  {
    if xs == [] then []
    else
      var rest := TrimmedTexts(xs[1..]);
      assert forall i :: 1 <= i < |xs| ==> xs[i] == xs[1..][i - 1];
      if HasText(xs[0]) then [JavaTrim(xs[0])] + rest else rest
  }

  /** One string is kept, trimmed, exactly when it has text. */
  lemma TrimmedTextsOne(x: string)
    ensures TrimmedTexts([x]) == if HasText(x) then [JavaTrim(x)] else []
  {
    assert [x][1..] == [];
  }

  /** The filter works string by string: it distributes over concatenation. */
  lemma {:induction false} TrimmedTextsAppend(a: seq<string>, b: seq<string>)
    ensures TrimmedTexts(a + b) == TrimmedTexts(a) + TrimmedTexts(b)
    decreases |a|
  {
    if a == [] {
      assert a + b == b;
    } else {
      assert (a + b)[1..] == a[1..] + b;
      TrimmedTextsAppend(a[1..], b);
    }
  }

  /** The kept strings are exactly the trims of the strings with text. */
  lemma {:induction false} TrimmedTextsMember(xs: seq<string>, t: string)
    ensures t in TrimmedTexts(xs) <==> exists i :: 0 <= i < |xs| && HasText(xs[i]) && JavaTrim(xs[i]) == t
    decreases |xs|
  {
    if xs != [] {
      TrimmedTextsMember(xs[1..], t);
      assert forall i :: 1 <= i < |xs| ==> xs[i] == xs[1..][i - 1];
      if exists i :: 0 <= i < |xs| && HasText(xs[i]) && JavaTrim(xs[i]) == t {
        var i :| 0 <= i < |xs| && HasText(xs[i]) && JavaTrim(xs[i]) == t;
        if i > 0 {
          assert xs[1..][i - 1] == xs[i];
        }
      }
    }
  }

  /** The kept strings have text when trimming keeps the text of the inputs. */
  lemma TrimmedTextsHaveText(xs: seq<string>)
    requires forall i :: 0 <= i < |xs| ==> HasText(xs[i]) ==> HasText(JavaTrim(xs[i]))
    ensures forall i :: 0 <= i < |TrimmedTexts(xs)| ==> HasText(TrimmedTexts(xs)[i])
  {
    forall i | 0 <= i < |TrimmedTexts(xs)|
      ensures HasText(TrimmedTexts(xs)[i])
    {
      TrimmedTextsMember(xs, TrimmedTexts(xs)[i]);
    }
  }

  /** Trimmed strings with text pass the filter unchanged. */
  lemma {:induction false} TrimmedTextsFixed(xs: seq<string>)
    requires forall i :: 0 <= i < |xs| ==> HasText(xs[i]) && JavaTrim(xs[i]) == xs[i]
    ensures TrimmedTexts(xs) == xs
    decreases |xs|
  {
    if xs != [] {
      TrimmedTextsFixed(xs[1..]);
      assert [xs[0]] + xs[1..] == xs;
    }
  }

  /** Every kept string is its own trim. */
  lemma {:induction false} TrimmedTextsTrimmed(xs: seq<string>)
    ensures forall i :: 0 <= i < |TrimmedTexts(xs)| ==> JavaTrim(TrimmedTexts(xs)[i]) == TrimmedTexts(xs)[i]
    decreases |xs|
  {
    if xs != [] {
      TrimmedTextsTrimmed(xs[1..]);
      var rest := TrimmedTexts(xs[1..]);
      if HasText(xs[0]) {
        var r := [JavaTrim(xs[0])] + rest;
        assert TrimmedTexts(xs) == r;
        forall i | 0 <= i < |r|
          ensures JavaTrim(r[i]) == r[i]
        {
          if i == 0 {
            JavaTrimIdempotent(xs[0]);
          } else {
            assert r[i] == rest[i - 1];
          }
        }
      }
    }
  }

  // ---------------------------------------------------------------------------
  // ASCII case mapping
  // ---------------------------------------------------------------------------

  function UpperChar(c: char): (r: char)
    ensures 'a' <= c <= 'z' ==> r as int == c as int - 32
    ensures !('a' <= c <= 'z') ==> r == c
  {
    if 'a' <= c <= 'z' then (c as int - 32) as char else c
  }

  function LowerChar(c: char): (r: char)
    ensures 'A' <= c <= 'Z' ==> r as int == c as int + 32
    ensures !('A' <= c <= 'Z') ==> r == c
  {
    if 'A' <= c <= 'Z' then (c as int + 32) as char else c
  }

  /** `toUpperCase` restricted to the ASCII letters. */
  function Upper(s: string): (r: string)
    ensures |r| == |s|
    ensures forall k :: 0 <= k < |s| ==> r[k] == UpperChar(s[k])
  {
    if s == [] then [] else [UpperChar(s[0])] + Upper(s[1..])
  }

  /** `toLowerCase` restricted to the ASCII letters. */
  function Lower(s: string): (r: string)
    ensures |r| == |s|
    ensures forall k :: 0 <= k < |s| ==> r[k] == LowerChar(s[k])
  {
    if s == [] then [] else [LowerChar(s[0])] + Lower(s[1..])
  }

  /** `equalsIgnoreCase` restricted to ASCII case folding. */
  predicate EqualsIgnoreCase(a: string, b: string) {
    Upper(a) == Upper(b)
  }

  lemma UpperIdempotent(s: string)
    ensures Upper(Upper(s)) == Upper(s)
  {
  }

  /** Strings free of lower-case ASCII letters are their own upper-case form. */
  lemma UpperOfUpper(s: string)
    requires forall k :: 0 <= k < |s| ==> !('a' <= s[k] <= 'z')
    ensures Upper(s) == s
  {
  }

  // ---------------------------------------------------------------------------
  // Searching
  // ---------------------------------------------------------------------------

  /** `s` contains `sub` as a contiguous part. */
  predicate Contains(s: string, sub: string) {
    exists i :: 0 <= i <= |s| - |sub| && OccursAt(s, sub, i)
  }

  /** `sub` occurs in `s` starting at index `i`. */
  predicate OccursAt(s: string, sub: string, i: int) {
    0 <= i <= |s| - |sub| && s[i..i + |sub|] == sub
  }

  predicate StartsWith(s: string, prefix: string) {
    |prefix| <= |s| && s[..|prefix|] == prefix
  }

  predicate EndsWith(s: string, suffix: string) {
    |suffix| <= |s| && s[|s| - |suffix|..] == suffix
  }

  lemma ContainsSelf(s: string)
    ensures Contains(s, s)
  {
    assert s[0..|s|] == s;
    assert OccursAt(s, s, 0);
  }

  /** Both halves of an adjacent pair occur in a text that holds the pair. */
  lemma ContainsPair(head: string, u: string, b: string, rest: string)
    ensures Contains(head + (u + b) + rest, u) && Contains(head + (u + b) + rest, b)
  {
    var r := head + (u + b) + rest;
    assert r[|head|..|head| + |u|] == u;
    assert OccursAt(r, u, |head|);
    assert r[|head| + |u|..|head| + |u| + |b|] == b;
    assert OccursAt(r, b, |head| + |u|);
  }

  /** A message between `head` and `tail` mentions what it holds. */
  lemma Mentions(head: string, mid: string, tail: string)
    ensures Contains(head + mid + tail, mid)
  {
    ContainsPair(head, mid, tail, "");
    assert head + (mid + tail) + "" == head + mid + tail;
  }

  lemma StartsWithConcat(a: string, b: string, prefix: string)
    requires StartsWith(a, prefix)
    ensures StartsWith(a + b, prefix)
  {
    assert (a + b)[..|prefix|] == a[..|prefix|];
  }

  lemma ContainsConcat(a: string, b: string, sub: string)
    requires Contains(a, sub) || Contains(b, sub)
    ensures Contains(a + b, sub)
  {
    if Contains(a, sub) {
      var i :| 0 <= i <= |a| - |sub| && OccursAt(a, sub, i);
      assert (a + b)[i..i + |sub|] == sub;
      assert OccursAt(a + b, sub, i);
    } else {
      var i :| 0 <= i <= |b| - |sub| && OccursAt(b, sub, i);
      assert (a + b)[|a| + i..|a| + i + |sub|] == sub;
      assert OccursAt(a + b, sub, |a| + i);
    }
  }

  /** A single character is contained exactly when it occurs. */
  lemma ContainsChar(s: string, c: char)
    ensures Contains(s, [c]) <==> c in s
  {
    if c in s {
      var i :| 0 <= i < |s| && s[i] == c;
      assert s[i..i + 1] == [c];
      assert OccursAt(s, [c], i);
    }
    if Contains(s, [c]) {
      var i :| 0 <= i <= |s| - 1 && OccursAt(s, [c], i);
      assert s[i] == c;
    }
  }

  /** `String.lastIndexOf(c, from)`: the largest index not above `from`
      holding `c`, or -1. */
  function LastIndexOf(s: string, c: char, from: int): (r: int)
    ensures r == -1 || (0 <= r <= from && r < |s|)
    ensures r >= 0 ==> s[r] == c
    ensures forall k :: r < k <= from && 0 <= k < |s| ==> s[k] != c
    decreases from + 1
  {
    if from < 0 then -1
    else if from >= |s| then LastIndexOf(s, c, |s| - 1)
    else if s[from] == c then from
    else LastIndexOf(s, c, from - 1)
  }

  /** The last occurrence of `c` in the whole string sits at `p` when no `c` follows it. */
  lemma LastIndexAt(s: string, c: char, p: nat)
    requires p < |s| && s[p] == c
    requires forall j :: p < j < |s| ==> s[j] != c
    ensures LastIndexOf(s, c, |s|) == p
  {
  }

  // ---------------------------------------------------------------------------
  // Rewriting
  // ---------------------------------------------------------------------------

  /** `String.replace(char, char)`. */
  function ReplaceChar(s: string, a: char, b: char): (r: string)
    ensures |r| == |s|
    ensures forall k :: 0 <= k < |s| ==> r[k] == (if s[k] == a then b else s[k])
  {
    if s == [] then [] else [if s[0] == a then b else s[0]] + ReplaceChar(s[1..], a, b)
  }

  /** Keeps the characters satisfying `p`, in order: `replaceAll("[^…]+", "")`
      and `replace("\r", "")`. */
  function Keep(s: string, p: char -> bool): (r: string)
    ensures |r| <= |s|
    ensures forall k :: 0 <= k < |r| ==> p(r[k])
    ensures forall k :: 0 <= k < |s| && p(s[k]) ==> s[k] in r
    ensures forall c :: c in r ==> c in s
  {
    if s == [] then [] else (if p(s[0]) then [s[0]] else []) + Keep(s[1..], p)
  }

  // ---------------------------------------------------------------------------
  // Splitting and joining
  // ---------------------------------------------------------------------------

  /** Every piece between delimiters, empty pieces included: JavaScript's
      `split` and Guava's `Splitter.on` before any filtering. */
  function SplitAll(s: string, isDelim: char -> bool): (r: seq<string>)
    ensures |r| >= 1
    ensures forall i :: 0 <= i < |r| ==> forall k :: 0 <= k < |r[i]| ==> !isDelim(r[i][k])
  {
    if s == [] then [""]
    else
      var rest := SplitAll(s[1..], isDelim);
      if isDelim(s[0]) then [""] + rest else [[s[0]] + rest[0]] + rest[1..]
  }

  /** Every character of `s` satisfies `p`. */
  predicate AllChars(s: string, p: char -> bool) {
    forall k :: 0 <= k < |s| ==> p(s[k])
  }

  /** Splitting only cuts: every piece consists of characters of the text. */
  lemma {:induction false} SplitAllKeeps(s: string, isDelim: char -> bool, p: char -> bool)
    requires AllChars(s, p)
    ensures forall i :: 0 <= i < |SplitAll(s, isDelim)| ==> AllChars(SplitAll(s, isDelim)[i], p)
    decreases |s|
  {
    if s != [] {
      SplitAllKeeps(s[1..], isDelim, p);
      var rest := SplitAll(s[1..], isDelim);
      var r := SplitAll(s, isDelim);
      if isDelim(s[0]) {
        assert forall i :: 1 <= i < |r| ==> r[i] == rest[i - 1];
      } else {
        assert r[0] == [s[0]] + rest[0];
        assert forall i :: 1 <= i < |r| ==> r[i] == rest[i];
      }
    }
  }

  /** Stripping only removes characters from the ends. */
  lemma StripKeepsAll(s: string, p: char -> bool, q: char -> bool)
    ensures AllChars(s, q) ==> AllChars(Strip(s, p), q)
  {
    var r := Strip(s, p);
    var lo := FirstKept(s, p, 0);
    assert forall k :: 0 <= k < |r| ==> r[k] == s[lo + k];
  }

  /** Drops the empty strings at the end, as Java's `String.split` does. */
  function DropTrailingEmpty(xs: seq<string>): (r: seq<string>)
    ensures |r| <= |xs| && r == xs[..|r|]
    ensures r != [] ==> r[|r| - 1] != ""
    ensures forall i :: |r| <= i < |xs| ==> xs[i] == ""
  {
    if xs != [] && xs[|xs| - 1] == "" then DropTrailingEmpty(xs[..|xs| - 1]) else xs
  }

  predicate HasDelim(s: string, isDelim: char -> bool) {
    exists k :: 0 <= k < |s| && isDelim(s[k])
  }

  /** Java's `String.split(regex)` for a pattern matching exactly one
      character of a class: no match gives the whole string, otherwise the
      pieces with trailing empty strings removed. */
  function JavaSplit(s: string, isDelim: char -> bool): (r: seq<string>)
    ensures !HasDelim(s, isDelim) ==> r == [s]
    ensures forall i :: 0 <= i < |r| ==> forall k :: 0 <= k < |r[i]| ==> !isDelim(r[i][k])
  {
    if !HasDelim(s, isDelim) then [s] else DropTrailingEmpty(SplitAll(s, isDelim))
  }

  function NonEmpty(xs: seq<string>): (r: seq<string>)
    ensures |r| <= |xs|
    ensures forall i :: 0 <= i < |r| ==> r[i] != "" && r[i] in xs
    ensures forall i :: 0 <= i < |xs| && xs[i] != "" ==> xs[i] in r
  {
    if xs == [] then [] else (if xs[0] == "" then [] else [xs[0]]) + NonEmpty(xs[1..])
  }

  /** Java's `String.split` for a pattern `[class]+`: a run of delimiters
      separates once, a leading run still yields a leading empty piece, and
      trailing empty pieces are removed. */
  function JavaSplitRuns(s: string, isDelim: char -> bool): (r: seq<string>)
    ensures !HasDelim(s, isDelim) ==> r == [s]
    ensures forall i :: 0 < i < |r| ==> r[i] != ""
  {
    if !HasDelim(s, isDelim) then [s]
    else
      var pieces := SplitAll(s, isDelim);
      DropTrailingEmpty([pieces[0]] + NonEmpty(pieces[1..]))
  }

  /** `String.join(sep, xs)`. */
  function Join(sep: string, xs: seq<string>): (r: string)
    ensures xs == [] ==> r == ""
    ensures |xs| == 1 ==> r == xs[0]
  {
    if xs == [] then ""
    else if |xs| == 1 then xs[0]
    else xs[0] + sep + Join(sep, xs[1..])
  }

  /** Every piece occurs in the join. */
  lemma {:induction false} JoinContains(sep: string, xs: seq<string>, i: int)
    requires 0 <= i < |xs|
    ensures Contains(Join(sep, xs), xs[i])
    decreases |xs|
  {
    if |xs| == 1 {
      ContainsSelf(xs[0]);
    } else if i == 0 {
      ContainsSelf(xs[0]);
      ContainsConcat(xs[0], sep, xs[0]);
      ContainsConcat(xs[0] + sep, Join(sep, xs[1..]), xs[0]);
    } else {
      JoinContains(sep, xs[1..], i - 1);
      ContainsConcat(xs[0] + sep, Join(sep, xs[1..]), xs[i]);
    }
  }

  lemma {:induction false} SplitPrefix(x: string, rest: string, d: char, isDelim: char -> bool)
    requires isDelim(d)
    requires forall k :: 0 <= k < |x| ==> !isDelim(x[k])
    ensures SplitAll(x + [d] + rest, isDelim) == [x] + SplitAll(rest, isDelim)
    decreases |x|
  {
    if x == [] {
      assert x + [d] + rest == [d] + rest;
      assert ([d] + rest)[1..] == rest;
    } else {
      SplitPrefix(x[1..], rest, d, isDelim);
      assert (x + [d] + rest)[1..] == x[1..] + [d] + rest;
      assert [x[0]] + x[1..] == x;
    }
  }

  lemma {:induction false} SplitNoDelim(x: string, isDelim: char -> bool)
    requires forall k :: 0 <= k < |x| ==> !isDelim(x[k])
    ensures SplitAll(x, isDelim) == [x]
    decreases |x|
  {
    if x != [] {
      SplitNoDelim(x[1..], isDelim);
      assert [x[0]] + x[1..] == x;
    }
  }

  /** Splitting the join of delimiter-free pieces on the joining delimiter
      gives the pieces back. */
  lemma {:induction false} SplitJoin(xs: seq<string>, d: char, isDelim: char -> bool)
    requires xs != [] && isDelim(d)
    requires forall i :: 0 <= i < |xs| ==> forall k :: 0 <= k < |xs[i]| ==> !isDelim(xs[i][k])
    ensures SplitAll(Join([d], xs), isDelim) == xs
    decreases |xs|
  {
    if |xs| == 1 {
      SplitNoDelim(xs[0], isDelim);
    } else {
      SplitJoin(xs[1..], d, isDelim);
      SplitPrefix(xs[0], Join([d], xs[1..]), d, isDelim);
      assert [xs[0]] + xs[1..] == xs;
    }
  }

  /** Keeping every character changes nothing. */
  lemma {:induction false} KeepAll(s: string, p: char -> bool)
    requires forall k :: 0 <= k < |s| ==> p(s[k])
    ensures Keep(s, p) == s
    decreases |s|
  {
    if s != [] {
      KeepAll(s[1..], p);
      assert [s[0]] + s[1..] == s;
    }
  }

  lemma {:induction false} NonEmptyAll(xs: seq<string>)
    requires forall i :: 0 <= i < |xs| ==> xs[i] != ""
    ensures NonEmpty(xs) == xs
    decreases |xs|
  {
    if xs != [] {
      NonEmptyAll(xs[1..]);
      assert [xs[0]] + xs[1..] == xs;
    }
  }

  /** Dropping empty strings works piece by piece, keeping the order. */
  lemma {:induction false} NonEmptyConcat(a: seq<string>, b: seq<string>)
    ensures NonEmpty(a + b) == NonEmpty(a) + NonEmpty(b)
    decreases |a|
  {
    if a == [] {
      assert a + b == b;
    } else {
      assert (a + b)[0] == a[0] && (a + b)[1..] == a[1..] + b;
      NonEmptyConcat(a[1..], b);
    }
  }

  /** A join of several pieces holds the delimiter right after the first. */
  lemma JoinHasDelim(xs: seq<string>, d: char, isDelim: char -> bool)
    requires |xs| >= 2 && isDelim(d)
    ensures HasDelim(Join([d], xs), isDelim)
  {
    var s := Join([d], xs);
    assert s == xs[0] + [d] + Join([d], xs[1..]);
    assert s[|xs[0]|] == d;
  }

  /** Java's `split` on one delimiter character takes a join of
      delimiter-free pieces apart again when the last piece is not empty. */
  lemma JavaSplitJoin(xs: seq<string>, d: char, isDelim: char -> bool)
    requires |xs| >= 2 && isDelim(d) && xs[|xs| - 1] != ""
    requires forall i :: 0 <= i < |xs| ==> forall k :: 0 <= k < |xs[i]| ==> !isDelim(xs[i][k])
    ensures JavaSplit(Join([d], xs), isDelim) == xs
  {
    SplitJoin(xs, d, isDelim);
    JoinHasDelim(xs, d, isDelim);
  }

  /** Java's `split` on runs of delimiters takes a join of non-empty,
      delimiter-free pieces apart again. */
  lemma JavaSplitRunsJoin(xs: seq<string>, d: char, isDelim: char -> bool)
    requires |xs| >= 2 && isDelim(d)
    requires forall i :: 0 <= i < |xs| ==> xs[i] != "" && forall k :: 0 <= k < |xs[i]| ==> !isDelim(xs[i][k])
    ensures JavaSplitRuns(Join([d], xs), isDelim) == xs
  {
    SplitJoin(xs, d, isDelim);
    JoinHasDelim(xs, d, isDelim);
    NonEmptyAll(xs[1..]);
    assert [xs[0]] + xs[1..] == xs;
  }

  /** Appending a piece to a non-empty join adds the separator and the piece. */
  lemma {:induction false} JoinSnoc(sep: string, xs: seq<string>, x: string)
    requires xs != []
    ensures Join(sep, xs + [x]) == Join(sep, xs) + sep + x
    decreases |xs|
  {
    if |xs| == 1 {
      assert (xs + [x])[1..] == [x];
    } else {
      assert (xs + [x])[1..] == xs[1..] + [x];
      JoinSnoc(sep, xs[1..], x);
    }
  }

  /** A join of two or more pieces ends with the separator and the last piece. */
  lemma JoinLast(sep: string, xs: seq<string>)
    requires |xs| >= 2
    ensures Join(sep, xs) == Join(sep, xs[..|xs| - 1]) + sep + xs[|xs| - 1]
  {
    assert xs[..|xs| - 1] + [xs[|xs| - 1]] == xs;
    JoinSnoc(sep, xs[..|xs| - 1], xs[|xs| - 1]);
  }

  /** The first and last characters of a join of non-empty pieces. */
  lemma {:induction false} JoinEnds(sep: string, xs: seq<string>)
    requires xs != [] && forall i :: 0 <= i < |xs| ==> xs[i] != ""
    ensures var j := Join(sep, xs);
            j != [] && j[0] == xs[0][0] && j[|j| - 1] == xs[|xs| - 1][|xs[|xs| - 1]| - 1]
    decreases |xs|
  {
    if |xs| > 1 {
      JoinEnds(sep, xs[1..]);
    }
  }

  // ---------------------------------------------------------------------------
  // Decimal rendering and parsing
  // ---------------------------------------------------------------------------

  function DigitChar(d: nat): (r: char)
    requires d < 10
    ensures IsAsciiDigit(r)
  {
    ('0' as int + d) as char
  }

  function DigitValue(c: char): (r: nat)
    requires IsAsciiDigit(c)
    ensures r < 10 && DigitChar(r) == c
  {
    c as int - '0' as int
  }

  /** Decimal digits of a natural number without leading zeros. */
  function NatToString(n: nat): (r: string)
    ensures |r| >= 1
    ensures forall k :: 0 <= k < |r| ==> IsAsciiDigit(r[k])
    ensures r[|r| - 1] == DigitChar(n % 10)
    decreases n
  {
    if n < 10 then [DigitChar(n)] else NatToString(n / 10) + [DigitChar(n % 10)]
  }

  /** `String.valueOf` of an integer. */
  function IntToString(i: int): (r: string)
    ensures |r| >= 1
    ensures i >= 0 ==> r == NatToString(i)
    ensures i < 0 ==> r == "-" + NatToString(-i)
  {
    if i < 0 then "-" + NatToString(-i) else NatToString(i)
  }

  predicate AllDigits(s: string) {
    forall k :: 0 <= k < |s| ==> IsAsciiDigit(s[k])
  }

  /** Value of a string of ASCII digits. */
  function DigitsValue(s: string): (r: nat)
    requires AllDigits(s)
    decreases |s|
  {
    if s == [] then 0 else DigitsValue(s[..|s| - 1]) * 10 + DigitValue(s[|s| - 1])
  }

  /** Reading back the rendering of a natural number gives the number. */
  lemma {:induction false} DigitsValueOfNat(n: nat)
    ensures DigitsValue(NatToString(n)) == n
    decreases n
  {
    var s := NatToString(n);
    if n >= 10 {
      DigitsValueOfNat(n / 10);
      assert s[..|s| - 1] == NatToString(n / 10);
    }
  }

  /** `Integer.parseInt` / `Long.parseLong`: an optional sign then one or more
      ASCII digits, and the value must lie within `[lo, hi]`. */
  function ParseBoundedInt(s: string, lo: int, hi: int): (r: Option<int>)
    ensures r.Some? ==> lo <= r.value <= hi
  {
    var negative := |s| > 0 && s[0] == '-';
    var digits := if |s| > 0 && (s[0] == '-' || s[0] == '+') then s[1..] else s;
    if digits == [] || !AllDigits(digits) then None
    else
      var v: int := if negative then -(DigitsValue(digits) as int) else DigitsValue(digits);
      if lo <= v <= hi then Some(v) else None
  }

  /** Rendering then parsing an integer in range gives it back. */
  lemma ParseRendered(i: int, lo: int, hi: int)
    requires lo <= i <= hi
    ensures ParseBoundedInt(IntToString(i), lo, hi) == Some(i)
  {
    if i < 0 {
      ParseNegative(-i, lo, hi);
    } else {
      ParseNatural(i, lo, hi);
    }
  }

  lemma ParseNatural(n: nat, lo: int, hi: int)
    requires lo <= n <= hi
    ensures ParseBoundedInt(NatToString(n), lo, hi) == Some(n)
  {
    DigitsValueOfNat(n);
    assert IsAsciiDigit(NatToString(n)[0]);
  }

  lemma ParseNegative(n: nat, lo: int, hi: int)
    requires lo <= -(n as int) <= hi
    ensures ParseBoundedInt("-" + NatToString(n), lo, hi) == Some(-(n as int))
  {
    var s := "-" + NatToString(n);
    assert s[0] == '-' && s[1..] == NatToString(n);
    DigitsValueOfNat(n);
  }

  /** A rendered integer is already trimmed and has text. */
  lemma RenderedUnpadded(i: int)
    ensures JavaTrim(IntToString(i)) == IntToString(i) && HasText(IntToString(i))
  {
    var s := IntToString(i);
    assert s[0] == '-' || IsAsciiDigit(s[0]);
    Unpadded(s);
  }

  const INT_MIN: int := -0x8000_0000
  const INT_MAX: int := 0x7FFF_FFFF
  const LONG_MIN: int := -0x8000_0000_0000_0000
  const LONG_MAX: int := 0x7FFF_FFFF_FFFF_FFFF

  /** Number of occurrences of `c`. */
  function CountChar(s: string, c: char): (r: nat)
    ensures r <= |s|
    ensures r == 0 <==> c !in s
  {
    if s == [] then 0 else (if s[0] == c then 1 else 0) + CountChar(s[1..], c)
  }

  lemma {:induction false} CountCharConcat(a: string, b: string, c: char)
    ensures CountChar(a + b, c) == CountChar(a, c) + CountChar(b, c)
    decreases |a|
  {
    if a != [] {
      CountCharConcat(a[1..], b, c);
      assert (a + b)[1..] == a[1..] + b;
    } else {
      assert a + b == b;
    }
  }
}
