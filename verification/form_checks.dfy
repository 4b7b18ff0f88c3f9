/** Form validation of the browser client: the requirement description and
    name length rules and the expected-process-count field, which goes
    through JavaScript's `Number` conversion. */
module FormChecks {

  import opened Results
  import opened Text
  import opened JsNumbers

  /** `{valid, message}` as the validators return it. */
  datatype Check = Check(valid: bool, message: string)

  const REQUIREMENT_MIN_LENGTH: nat := 10
  const REQUIREMENT_MAX_LENGTH: nat := 5000
  const REQUIREMENT_NAME_MIN_LENGTH: nat := 2
  const REQUIREMENT_NAME_MAX_LENGTH: nat := 100

  const EXPECTED_PROCESS_COUNT_INVALID: string := "期望的功能过程数量需为正整数"
  const EMPTY_REQUIREMENT_NAME: string := "请先填写需求名称"

  // ---------------------------------------------------------------------------
  // Requirement description and name
  // ---------------------------------------------------------------------------

  /** The description is valid exactly when its trimmed length lies within
      the limits; a missing description reads as the empty string. */
  function ValidateRequirement(text: string): (r: Check)
    ensures r.valid <==> REQUIREMENT_MIN_LENGTH <= |JsTrim(text)| <= REQUIREMENT_MAX_LENGTH
    ensures r.valid ==> r.message == ""
    ensures |JsTrim(text)| < REQUIREMENT_MIN_LENGTH ==> r.message == "需求描述至少需要10个字符"
    ensures |JsTrim(text)| > REQUIREMENT_MAX_LENGTH ==> r.message == "需求描述不能超过5000个字符"
  {
    var trimmed := JsTrim(text);
    if |trimmed| < REQUIREMENT_MIN_LENGTH then Check(false, "需求描述至少需要10个字符")
    else if |trimmed| > REQUIREMENT_MAX_LENGTH then Check(false, "需求描述不能超过5000个字符")
    else Check(true, "")
  }

  /** Only the trimmed text matters: validating the trimmed description gives
      the same answer. */
  lemma RequirementTrimInvariant(text: string)
    ensures ValidateRequirement(JsTrim(text)) == ValidateRequirement(text)
  {
    StripIdempotent(text, IsJsWhitespace);
  }

  /** The name must not be empty, then must have at least two and at most
      one hundred characters once trimmed; the checks run in that order. */
  function ValidateRequirementName(text: string): (r: Check)
    ensures r.valid <==> REQUIREMENT_NAME_MIN_LENGTH <= |JsTrim(text)| <= REQUIREMENT_NAME_MAX_LENGTH
    ensures r.valid ==> r.message == ""
    ensures JsTrim(text) == "" ==> r.message == "需求名称不能为空"
    ensures |JsTrim(text)| == 1 ==> r.message == "需求名称至少需要2个字符"
    ensures |JsTrim(text)| > REQUIREMENT_NAME_MAX_LENGTH ==> r.message == "需求名称不能超过100个字符"
  {
    var trimmed := JsTrim(text);
    if trimmed == "" then Check(false, "需求名称不能为空")
    else if |trimmed| < REQUIREMENT_NAME_MIN_LENGTH then Check(false, "需求名称至少需要2个字符")
    else if |trimmed| > REQUIREMENT_NAME_MAX_LENGTH then Check(false, "需求名称不能超过100个字符")
    else Check(true, "")
  }

  /** The name kept for a document: the trimmed name when it passes the name
      rules, otherwise the rule's message (or the generic one when empty). */
  function EnsureRequirementName(name: string): (r: Result<string>)
    ensures r.Ok? <==> ValidateRequirementName(name).valid
    ensures r.Ok? ==> r.value == JsTrim(name)
    ensures r.Err? ==> r.error == ValidateRequirementName(name).message
  {
    var trimmed := JsTrim(name);
    var result := ValidateRequirementName(trimmed);
    StripIdempotent(name, IsJsWhitespace);
    if !result.valid then Err(if result.message != "" then result.message else EMPTY_REQUIREMENT_NAME)
    else Ok(trimmed)
  }

  /** A kept name is kept again unchanged. */
  lemma EnsureNameIdempotent(name: string)
    requires EnsureRequirementName(name).Ok?
    ensures EnsureRequirementName(EnsureRequirementName(name).value) == EnsureRequirementName(name)
  {
    StripIdempotent(name, IsJsWhitespace);
  }

  // ---------------------------------------------------------------------------
  // Expected process count
  // ---------------------------------------------------------------------------

  /** The field's value: absent (`null` or `undefined`), a number, or text. */
  datatype CountInput = Missing | NumberValue(n: JsNumber) | TextValue(s: string)

  /** `{valid, message, value}` of the count check. */
  datatype CountCheck = CountCheck(valid: bool, message: string, value: Option<int>)

  /** The number the field converts to, or `None` when its text is empty. A
      number goes through `String` and back, which gives it back unchanged. */
  function ParsedCount(input: CountInput): Option<JsNumber> {
    match input
    case Missing => None
    case NumberValue(n) => Some(n)
    case TextValue(s) => if JsTrim(s) == "" then None else Some(StringToNumber(JsTrim(s)))
  }

  predicate IsPositiveInteger(n: JsNumber) {
    IsInteger(n) && IntegerValue(n) > 0
  }

  /** An empty field is valid without a value; otherwise the field is valid
      exactly when it converts to a positive integer, which becomes the value. */
  function ValidateExpectedProcessCount(input: CountInput): (r: CountCheck)
    ensures r.valid <==> ParsedCount(input).None? || IsPositiveInteger(ParsedCount(input).value)
    ensures r.valid ==> r.message == ""
    ensures !r.valid ==> r.message == EXPECTED_PROCESS_COUNT_INVALID && r.value.None?
    ensures r.value.Some? <==> r.valid && ParsedCount(input).Some?
    ensures r.value.Some? ==> r.value.value > 0 && r.value.value == IntegerValue(ParsedCount(input).value)
  {
    match ParsedCount(input)
    case None => CountCheck(true, "", None)
    case Some(parsed) =>
      if !IsInteger(parsed) || IntegerValue(parsed) <= 0 then CountCheck(false, EXPECTED_PROCESS_COUNT_INVALID, None)
      else CountCheck(true, "", Some(IntegerValue(parsed)))
  }

  /** A count typed as plain digits, with any surrounding white space, is
      accepted with its value. */
  lemma TypedCountAccepted(n: nat, pad: string)
    requires n >= 1 && AllChars(pad, IsJsWhitespace)
    ensures ValidateExpectedProcessCount(TextValue(pad + NatToString(n) + pad)) == CountCheck(true, "", Some(n))
  {
    var s := NatToString(n);
    DigitsNumber(n);
    PaddedTrim(pad, s);
    TextParsed(pad + s + pad, s);
    AcceptedInteger(TextValue(pad + s + pad), n);
  }

  /** A text converts to the number of its trimmed form. */
  lemma TextParsed(s: string, t: string)
    requires JsTrim(s) == t && t != ""
    ensures ParsedCount(TextValue(s)) == Some(StringToNumber(t))
  {
  }

  /** A field converting to a positive integer is accepted with that value. */
  lemma AcceptedInteger(c: CountInput, n: nat)
    requires n >= 1 && ParsedCount(c).Some? && IsInteger(ParsedCount(c).value)
    requires IntegerValue(ParsedCount(c).value) == n
    ensures ValidateExpectedProcessCount(c) == CountCheck(true, "", Some(n))
  {
  }

  /** A number field holding a positive integer is accepted with it; zero and
      negative integers are refused. */
  lemma NumberCountAccepted(n: int)
    ensures n >= 1 ==> ValidateExpectedProcessCount(NumberValue(Finite(n, 0))) == CountCheck(true, "", Some(n))
    ensures n <= 0 ==> !ValidateExpectedProcessCount(NumberValue(Finite(n, 0))).valid
  {
  }

  /** A fraction of zeros still gives an integer: "12.00" is twelve. */
  lemma ZeroFractionAccepted(n: nat, zeros: nat)
    requires n >= 1
    ensures ValidateExpectedProcessCount(TextValue(NatToString(n) + "." + seq(zeros, _ => '0'))).value == Some(n)
  {
    var s := NatToString(n) + "." + seq(zeros, _ => '0');
    ZeroFractionNumber(n, zeros);
    DigitLiteralTrimmed(s);
    TextParsed(s, s);
    ShiftedInteger(n, zeros);
    AcceptedInteger(TextValue(s), n);
  }

  /** Digits, a point and zeros convert to the digits' value scaled up and down. */
  lemma ZeroFractionNumber(n: nat, zeros: nat)
    ensures StringToNumber(NatToString(n) + "." + seq(zeros, _ => '0')) == Finite(n * Pow(10, zeros), -(zeros as int))
  {
    var f: string := seq(zeros, _ => '0');
    ZerosIn(zeros);
    DecimalDigitsIn(f);
    DigitsInNat(n);
    DigitsInAppend(NatToString(n), f, 10);
    FractionNumber(n, f, n * Pow(10, zeros));
  }

  lemma ShiftedInteger(n: nat, k: nat)
    ensures IsInteger(Finite(n * Pow(10, k), -(k as int))) && IntegerValue(Finite(n * Pow(10, k), -(k as int))) == n
  {
    ShiftBack(n, Pow(10, k));
  }

  /** A literal that starts and ends with a digit or a point has nothing to trim. */
  lemma DigitLiteralTrimmed(s: string)
    requires s != [] && IsAsciiDigit(s[0])
    requires IsAsciiDigit(s[|s| - 1]) || s[|s| - 1] == '.'
    ensures JsTrim(s) == s
  {
    PaddedTrim("", s);
    assert "" + s + "" == s;
  }

  lemma ShiftBack(n: int, p: nat)
    requires p >= 1
    ensures (n * p) % p == 0 && (n * p) / p == n
  {
    var q := (n * p) / p;
    var r := (n * p) % p;
    assert n * p == q * p + r;
    assert (n - q) * p == r by { MulSub(n, q, p); }
    if n - q >= 1 {
      MulAtLeast(n - q, p);
    } else if n - q <= -1 {
      MulAtLeast(q - n, p);
      MulSub(q, n, p);
    }
  }

  lemma MulSub(a: int, b: int, p: int)
    ensures (a - b) * p == a * p - b * p
  {
  }

  lemma MulAtLeast(k: int, p: int)
    requires k >= 1 && p >= 1
    ensures k * p >= p
  {
  }

  /** An exponent is honoured: "5e2" is five hundred. */
  lemma ExponentAccepted(n: nat, x: nat)
    requires n >= 1
    ensures ValidateExpectedProcessCount(TextValue(NatToString(n) + "e" + NatToString(x))).value == Some(n * Pow(10, x))
  {
    var s := NatToString(n) + "e" + NatToString(x);
    ExponentNumber(n, x);
    assert IsAsciiDigit(s[|s| - 1]);
    DigitLiteralTrimmed(s);
    TextParsed(s, s);
    assert n * Pow(10, x) >= 1 by { MulAtLeast(n, Pow(10, x)); }
    AcceptedInteger(TextValue(s), n * Pow(10, x));
  }

  /** A hexadecimal literal is accepted with its value: "0x1A" is twenty-six. */
  lemma HexAccepted(digits: string, v: nat)
    requires digits != [] && DigitsIn(digits, 16) == Some(v) && v >= 1
    ensures ValidateExpectedProcessCount(TextValue("0x" + digits)) == CountCheck(true, "", Some(v))
  {
    var s := "0x" + digits;
    HexNumber(digits, v);
    assert JsTrim(s) == s by {
      DigitsInLast(digits, 16);
      assert s[|s| - 1] == digits[|digits| - 1];
      PaddedTrim("", s);
      assert "" + s + "" == s;
    }
    TextParsed(s, s);
    AcceptedInteger(TextValue(s), v);
  }

  /** A fraction ending in a non-zero digit is refused: "1.5" is not a count. */
  lemma FractionRefused(n: nat, d: nat)
    requires 1 <= d <= 9
    ensures !ValidateExpectedProcessCount(TextValue(NatToString(n) + "." + [DigitChar(d)])).valid
  {
    var s := NatToString(n) + "." + [DigitChar(d)];
    DigitFractionNumber(n, d);
    DigitLiteralTrimmed(s);
    TextParsed(s, s);
    TenthsNotInteger(n, d);
  }

  lemma TenthsNotInteger(n: nat, d: nat)
    requires 1 <= d <= 9
    ensures !IsInteger(Finite(n * 10 + d, -1))
  {
    assert Pow(10, 1) == 10;
    assert (n * 10 + d) % 10 == d;
  }

  /** Digits, a point and one more digit convert to tenths. */
  lemma DigitFractionNumber(n: nat, d: nat)
    requires d <= 9
    ensures StringToNumber(NatToString(n) + "." + [DigitChar(d)]) == Finite(n * 10 + d, -1)
  {
    var f := [DigitChar(d)];
    assert DigitsValue(f) == d by { assert f[..0] == []; }
    DecimalDigitsIn(f);
    DigitsInNat(n);
    DigitsInAppend(NatToString(n), f, 10);
    assert Pow(10, 1) == 10;
    FractionNumber(n, f, n * 10 + d);
  }

  /** A blank field is valid and carries no value. */
  lemma BlankCountAccepted(s: string)
    requires AllChars(s, IsJsWhitespace)
    ensures ValidateExpectedProcessCount(TextValue(s)) == CountCheck(true, "", None)
  {
  }

  /** Trimming white space from around a text without outer white space gives the text. */
  lemma PaddedTrim(pad: string, s: string)
    requires AllChars(pad, IsJsWhitespace) && s != []
    requires !IsJsWhitespace(s[0]) && !IsJsWhitespace(s[|s| - 1])
    ensures JsTrim(pad + s + pad) == s
  {
    var t := pad + s + pad;
    assert forall k :: 0 <= k < |pad| ==> t[k] == pad[k];
    assert FirstKept(t, IsJsWhitespace, 0) == |pad| by {
      FirstKeptAt(t, IsJsWhitespace, |pad|);
    }
    assert forall k :: |pad| + |s| <= k < |t| ==> t[k] == pad[k - |pad| - |s|];
    assert EndKept(t, IsJsWhitespace, |pad|, |t|) == |pad| + |s| by {
      EndKeptAt(t, IsJsWhitespace, |pad|, |pad| + |s|);
    }
    assert t[|pad|..|pad| + |s|] == s;
  }

  /** The first character not satisfying `p` is found where it stands. */
  lemma FirstKeptAt(t: string, p: char -> bool, i: nat)
    requires i < |t| && !p(t[i])
    requires forall k :: 0 <= k < i ==> p(t[k])
    ensures FirstKept(t, p, 0) == i
  {
  }

  /** The last character not satisfying `p` is found where it stands. */
  lemma EndKeptAt(t: string, p: char -> bool, lo: nat, j: nat)
    requires lo < j <= |t| && !p(t[j - 1])
    requires forall k :: j <= k < |t| ==> p(t[k])
    ensures EndKept(t, p, lo, |t|) == j
  {
  }
}
