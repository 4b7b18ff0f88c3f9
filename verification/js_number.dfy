/** JavaScript's `Number` conversion of a trimmed, non-empty string, as the
    browser client applies it to a typed count: a `0x`, `0o` or `0b` literal,
    an optionally signed `Infinity`, or an optionally signed decimal literal
    with an optional fraction and exponent. Anything else is `NaN`. Values
    are exact (`m * 10^e`); the rounding to the nearest double is not
    modelled. The scanners are recursive so that each use unfolds one step. */
module JsNumbers {

  import opened Results
  import opened Text

  datatype JsNumber = Finite(m: int, e: int) | NaN | Infinite(negative: bool)

  /** An unsigned decimal literal read as `m * 10^e`, or none. */
  datatype Decimal = NoDecimal | Decimal(m: nat, e: int)

  function Pow(b: nat, k: nat): (r: nat)
    ensures b >= 1 ==> r >= 1
  {
    if k == 0 then 1 else b * Pow(b, k - 1)
  }

  /** `Number.isInteger`. */
  predicate IsInteger(n: JsNumber) {
    n.Finite? && (n.e >= 0 || n.m % Pow(10, -n.e) == 0)
  }

  /** The value of an integral number. */
  function IntegerValue(n: JsNumber): int
    requires IsInteger(n)
  {
    if n.e >= 0 then n.m * Pow(10, n.e) else n.m / Pow(10, -n.e)
  }

  // ---------------------------------------------------------------------------
  // Scanners
  // ---------------------------------------------------------------------------

  /** The digit a character stands for in radices up to 36, or 36 for none. */
  function RadixDigit(c: char): nat {
    if '0' <= c <= '9' then c as nat - '0' as nat
    else if 'a' <= c <= 'z' then c as nat - 'a' as nat + 10
    else if 'A' <= c <= 'Z' then c as nat - 'A' as nat + 10
    else 36
  }

  /** The value of a run of digits of the radix; `None` when a character is
      not one of its digits. The empty run is zero. */
  function DigitsIn(s: string, radix: nat): (r: Option<nat>)
    decreases |s|
  {
    if s == [] then Some(0)
    else
      match DigitsIn(s[..|s| - 1], radix)
      case None => None
      case Some(v) =>
        var d := RadixDigit(s[|s| - 1]);
        if d < radix then Some(v * radix + d) else None
  }

  /** The index of the first occurrence of `a` or `b`, or `|s|`. */
  function MarkAt(s: string, a: char, b: char): (r: nat)
    ensures r <= |s|
  {
    if s == [] || s[0] == a || s[0] == b then 0 else 1 + MarkAt(s[1..], a, b)
  }

  /** The radix named by the letter after a leading zero, or 0 for none. */
  function RadixOf(c: char): nat {
    if c == 'x' || c == 'X' then 16
    else if c == 'o' || c == 'O' then 8
    else if c == 'b' || c == 'B' then 2
    else 0
  }

  // ---------------------------------------------------------------------------
  // The conversion
  // ---------------------------------------------------------------------------

  /** `0x`, `0o` and `0b` literals: at least one digit of the radix. */
  function RadixLiteral(digits: string, radix: nat): (r: JsNumber)
    ensures r.Finite? ==> r.e == 0 && r.m >= 0
  {
    if digits == [] then NaN
    else match DigitsIn(digits, radix)
      case None => NaN
      case Some(v) => Finite(v, 0)
  }

  /** An exponent: an optional sign and one or more digits. */
  function ExponentValue(s: string): Option<int> {
    var negative := |s| > 0 && s[0] == '-';
    var digits := if |s| > 0 && (s[0] == '-' || s[0] == '+') then s[1..] else s;
    if digits == [] then None
    else match DigitsIn(digits, 10)
      case None => None
      case Some(v) => Some(if negative then -(v as int) else v)
  }

  /** Digits with an optional fraction, or a point and digits: all the
      digits as one mantissa, scaled down by the number of fraction digits.
      A second point leaves a non-digit in the run. */
  function DecimalBody(body: string): Decimal {
    var p := MarkAt(body, '.', '.');
    var fraction := if p < |body| then body[p + 1..] else [];
    if p == 0 && fraction == [] then NoDecimal
    else match DigitsIn(body[..p] + fraction, 10)
      case None => NoDecimal
      case Some(m) => Decimal(m, -|fraction|)
  }

  /** An unsigned decimal literal: a decimal body and an optional exponent. */
  function UnsignedDecimal(s: string): Decimal {
    var x := MarkAt(s, 'e', 'E');
    var body := DecimalBody(s[..x]);
    var exponent := if x < |s| then ExponentValue(s[x + 1..]) else Some(0);
    if body.NoDecimal? || exponent.None? then NoDecimal else Decimal(body.m, body.e + exponent.value)
  }

  /** `Number(s)` of a trimmed string: the empty string is zero; otherwise
      a non-decimal literal (no sign allowed), or an optionally signed
      decimal literal or `Infinity`. No decimal literal reads as
      `Infinity`, so trying it second changes nothing. */
  function StringToNumber(s: string): (r: JsNumber)
    ensures s == "" ==> r == Finite(0, 0)
    ensures r.Infinite? <==> s == "Infinity" || s == "+Infinity" || s == "-Infinity"
    ensures r.Infinite? ==> (r.negative <==> s[0] == '-')
  {
    InfinityNotDecimal();
    SignedInfinity(s);
    if s == "" then Finite(0, 0)
    else if |s| >= 2 && s[0] == '0' && RadixOf(s[1]) != 0 then RadixLiteral(s[2..], RadixOf(s[1]))
    else
      var negative := |s| > 0 && s[0] == '-';
      var body := if |s| > 0 && (s[0] == '-' || s[0] == '+') then s[1..] else s;
      match UnsignedDecimal(body)
      case Decimal(m, e) => Finite(if negative then -(m as int) else m, e)
      case NoDecimal => if body == "Infinity" then Infinite(negative) else NaN
  }

  // ---------------------------------------------------------------------------
  // Scanner lemmas
  // ---------------------------------------------------------------------------

  /** `MarkAt` finds the first mark: none before it, and a mark at it unless
      it is the end. */
  lemma {:induction false} MarkAtIsFirst(s: string, a: char, b: char)
    ensures forall k :: 0 <= k < MarkAt(s, a, b) ==> s[k] != a && s[k] != b
    ensures MarkAt(s, a, b) < |s| ==> s[MarkAt(s, a, b)] == a || s[MarkAt(s, a, b)] == b
    decreases |s|
  {
    if s != [] && s[0] != a && s[0] != b {
      MarkAtIsFirst(s[1..], a, b);
      assert forall k :: 1 <= k < |s| ==> s[k] == s[1..][k - 1];
    }
  }

  /** Conversely, the first mark is where `MarkAt` stops. */
  lemma {:induction false} MarkAtFound(s: string, a: char, b: char, i: nat)
    requires i <= |s| && (i < |s| ==> s[i] == a || s[i] == b)
    requires forall k :: 0 <= k < i ==> s[k] != a && s[k] != b
    ensures MarkAt(s, a, b) == i
    decreases i
  {
    if i > 0 {
      assert forall k :: 0 <= k < i - 1 ==> s[1..][k] == s[k + 1];
      MarkAtFound(s[1..], a, b, i - 1);
    }
  }

  /** Decimal digits read by `DigitsIn` are the decimal digits of `Text`, with
      the same value. */
  lemma {:induction false} DecimalDigitsIn(s: string)
    ensures DigitsIn(s, 10).Some? <==> AllDigits(s)
    ensures AllDigits(s) ==> DigitsIn(s, 10) == Some(DigitsValue(s))
    decreases |s|
  {
    if s != [] {
      var init := s[..|s| - 1];
      DecimalDigitsIn(init);
      assert forall k :: 0 <= k < |init| ==> init[k] == s[k];
      if AllDigits(s) {
        assert AllDigits(init);
      }
    }
  }

  /** Appending digits shifts the value left by their number. */
  lemma {:induction false} DigitsInAppend(a: string, b: string, radix: nat)
    requires DigitsIn(a, radix).Some? && DigitsIn(b, radix).Some?
    ensures DigitsIn(a + b, radix) == Some(DigitsIn(a, radix).value * Pow(radix, |b|) + DigitsIn(b, radix).value)
    decreases |b|
  {
    if b == [] {
      assert a + b == a;
    } else {
      DigitsInLast(b, radix);
      DigitsInAppend(a, b[..|b| - 1], radix);
      AppendLastDigit(a, b, radix);
    }
  }

  /** The step of `DigitsInAppend`: one more digit at the end of `b`. */
  lemma AppendLastDigit(a: string, b: string, radix: nat)
    requires b != [] && DigitsIn(a, radix).Some? && DigitsIn(b, radix).Some?
    requires DigitsIn(b[..|b| - 1], radix).Some?
    requires DigitsIn(a + b[..|b| - 1], radix)
             == Some(DigitsIn(a, radix).value * Pow(radix, |b| - 1) + DigitsIn(b[..|b| - 1], radix).value)
    requires DigitsIn(b, radix).value == DigitsIn(b[..|b| - 1], radix).value * radix + RadixDigit(b[|b| - 1])
    ensures DigitsIn(a + b, radix) == Some(DigitsIn(a, radix).value * Pow(radix, |b|) + DigitsIn(b, radix).value)
  {
    var init := b[..|b| - 1];
    var c := b[|b| - 1];
    assert RadixDigit(c) < radix;
    assert (a + b)[..|a + b| - 1] == a + init && (a + b)[|a + b| - 1] == c;
    DigitsInStep(a + b, radix);
    var p := Pow(radix, |init|);
    assert Pow(radix, |b|) == radix * p;
    ShiftDigit(DigitsIn(a + init, radix).value, DigitsIn(a, radix).value, DigitsIn(init, radix).value, p,
               Pow(radix, |b|), radix, RadixDigit(c), DigitsIn(b, radix).value);
  }

  /** `DigitsIn` one digit at a time. */
  lemma DigitsInStep(s: string, radix: nat)
    requires s != [] && DigitsIn(s[..|s| - 1], radix).Some? && RadixDigit(s[|s| - 1]) < radix
    ensures DigitsIn(s, radix) == Some(DigitsIn(s[..|s| - 1], radix).value * radix + RadixDigit(s[|s| - 1]))
  {
  }

  /** The last digit of a run is its least significant one. */
  lemma DigitsInLast(s: string, radix: nat)
    requires s != [] && DigitsIn(s, radix).Some?
    ensures DigitsIn(s[..|s| - 1], radix).Some?
    ensures DigitsIn(s, radix).value == DigitsIn(s[..|s| - 1], radix).value * radix + RadixDigit(s[|s| - 1])
  {
  }

  /** Shifting `x` by `p` positions and then one more is shifting it by `radix * p`. */
  lemma ShiftDigit(shifted: int, x: int, y: int, p: int, pNext: int, radix: int, d: int, yNext: int)
    requires shifted == x * p + y && pNext == radix * p && yNext == y * radix + d
    ensures shifted * radix + d == x * pNext + yNext
  {
  }

  /** The rendering of a natural number reads back as the number. */
  lemma DigitsInNat(n: nat)
    ensures DigitsIn(NatToString(n), 10) == Some(n)
  {
    DecimalDigitsIn(NatToString(n));
    DigitsValueOfNat(n);
  }

  /** A run of zeros is zero. */
  lemma {:induction false} ZerosIn(k: nat)
    ensures DigitsIn(seq(k, _ => '0'), 10) == Some(0)
  {
    if k > 0 {
      ZerosIn(k - 1);
      assert seq(k, _ => '0')[..k - 1] == seq(k - 1, _ => '0');
    }
  }

  // ---------------------------------------------------------------------------
  // Decimal literals
  // ---------------------------------------------------------------------------

  /** A decimal body read from the runs before and after its first point. */
  lemma BodyParts(b: string, p: nat, m: nat)
    requires p <= |b| && MarkAt(b, '.', '.') == p && p > 0
    requires DigitsIn(b[..p] + (if p < |b| then b[p + 1..] else []), 10) == Some(m)
    ensures DecimalBody(b) == Decimal(m, if p < |b| then p + 1 - |b| else 0)
  {
  }

  /** A run of digits is its own decimal body. */
  lemma RunBody(w: string, m: nat)
    requires w != [] && DigitsIn(w, 10) == Some(m)
    ensures DecimalBody(w) == Decimal(m, 0)
  {
    assert forall k :: 0 <= k < |w| ==> w[k] != '.' by {
      DecimalDigitsIn(w);
    }
    MarkAtFound(w, '.', '.', |w|);
    assert w[..|w|] + [] == w;
    BodyParts(w, |w|, m);
  }

  /** A run of digits, a point and a run of digits form a decimal body. */
  lemma PointBody(w: string, f: string, m: nat)
    requires w != [] && AllDigits(w) && DigitsIn(w + f, 10) == Some(m)
    ensures DecimalBody(w + "." + f) == Decimal(m, -|f|)
  {
    var s := w + "." + f;
    assert forall k :: 0 <= k < |w| ==> s[k] == w[k];
    MarkAtFound(s, '.', '.', |w|);
    assert s[..|w|] == w && s[|w| + 1..] == f;
    BodyParts(s, |w|, m);
  }

  /** An unsigned literal without an exponent mark is its decimal body. */
  lemma UnsignedBody(s: string, m: nat, f: int)
    requires MarkAt(s, 'e', 'E') == |s|
    requires DecimalBody(s) == Decimal(m, f)
    ensures UnsignedDecimal(s) == Decimal(m, f)
  {
    assert s[..|s|] == s;
  }

  /** An unsigned literal read from the body before its first exponent mark
      and the exponent after it. */
  lemma UnsignedExponent(s: string, x: nat, m: nat, f: int, e: int)
    requires x < |s| && MarkAt(s, 'e', 'E') == x
    requires DecimalBody(s[..x]) == Decimal(m, f)
    requires ExponentValue(s[x + 1..]) == Some(e)
    ensures UnsignedDecimal(s) == Decimal(m, f + e)
  {
  }

  /** Digits followed by a character that is not a radix letter. */
  predicate DecimalStarting(s: string) {
    |s| >= 1 && IsAsciiDigit(s[0]) && (|s| >= 2 ==> RadixOf(s[1]) == 0 || s[0] != '0')
  }

  /** A literal starting with a digit other than a radix prefix is decimal. */
  lemma DecimalStart(s: string, m: nat, e: int)
    requires DecimalStarting(s) && UnsignedDecimal(s) == Decimal(m, e)
    ensures StringToNumber(s) == Finite(m, e)
  {
  }

  /** Plain digits convert to their value: `Number(String(n)) == n`. */
  lemma DigitsNumber(n: nat)
    ensures StringToNumber(NatToString(n)) == Finite(n, 0)
  {
    DigitsLiteral(n);
    DecimalStart(NatToString(n), n, 0);
  }

  /** The rendering of a natural number is an unsigned literal of its value. */
  lemma DigitsLiteral(n: nat)
    ensures DecimalStarting(NatToString(n)) && UnsignedDecimal(NatToString(n)) == Decimal(n, 0)
  {
    var s := NatToString(n);
    DigitsInNat(n);
    assert forall k :: 0 <= k < |s| ==> s[k] != 'e' && s[k] != 'E';
    MarkAtFound(s, 'e', 'E', |s|);
    RunBody(s, n);
    UnsignedBody(s, n, 0);
    assert |s| >= 2 ==> IsAsciiDigit(s[1]);
  }

  /** Digits, a point and digits convert to all the digits over a power of ten. */
  lemma FractionNumber(n: nat, f: string, m: nat)
    requires AllDigits(f) && DigitsIn(NatToString(n) + f, 10) == Some(m)
    ensures StringToNumber(NatToString(n) + "." + f) == Finite(m, -|f|)
  {
    var w := NatToString(n);
    PointLiteral(w, f, m);
    DecimalStart(w + "." + f, m, -|f|);
  }

  /** Digits, a point and digits form an unsigned literal without exponent. */
  lemma PointLiteral(w: string, f: string, m: nat)
    requires w != [] && AllDigits(w) && AllDigits(f) && DigitsIn(w + f, 10) == Some(m)
    ensures DecimalStarting(w + "." + f) && UnsignedDecimal(w + "." + f) == Decimal(m, -|f|)
  {
    DigitsStart(w, ".", f);
    NoExponentMark(w, f);
    PointBody(w, f, m);
    UnsignedBody(w + "." + f, m, -|f|);
  }

  lemma NoExponentMark(w: string, f: string)
    requires AllDigits(w) && AllDigits(f)
    ensures MarkAt(w + "." + f, 'e', 'E') == |w + "." + f|
  {
    var s := w + "." + f;
    assert forall k :: 0 <= k < |w| ==> s[k] == w[k];
    assert forall k :: |w| < k < |s| ==> s[k] == f[k - |w| - 1];
    MarkAtFound(s, 'e', 'E', |s|);
  }

  /** Digits followed by a one-character mark other than a radix letter. */
  lemma DigitsStart(w: string, mark: string, rest: string)
    requires w != [] && AllDigits(w) && |mark| == 1 && RadixOf(mark[0]) == 0
    ensures DecimalStarting(w + mark + rest)
  {
    var s := w + mark + rest;
    assert s[0] == w[0];
    assert |w| >= 2 ==> s[1] == w[1] && IsAsciiDigit(w[1]);
    assert |w| == 1 ==> s[1] == mark[0];
  }

  /** Digits, an exponent mark and exponent digits convert to a scaled number. */
  lemma ExponentNumber(n: nat, x: nat)
    ensures StringToNumber(NatToString(n) + "e" + NatToString(x)) == Finite(n, x)
  {
    ExponentLiteral(n, x);
    DecimalStart(NatToString(n) + "e" + NatToString(x), n, x);
  }

  /** Digits, an exponent mark and exponent digits form an unsigned literal. */
  lemma ExponentLiteral(n: nat, x: nat)
    ensures DecimalStarting(NatToString(n) + "e" + NatToString(x))
    ensures UnsignedDecimal(NatToString(n) + "e" + NatToString(x)) == Decimal(n, x)
  {
    var w := NatToString(n);
    var d := NatToString(x);
    var s := w + "e" + d;
    DigitsStart(w, "e", d);
    assert forall k :: 0 <= k < |w| ==> s[k] == w[k];
    MarkAtFound(s, 'e', 'E', |w|);
    assert s[..|w|] == w && s[|w| + 1..] == d;
    DigitsInNat(n);
    ExponentOfNat(x);
    RunBody(w, n);
    UnsignedExponent(s, |w|, n, 0, x);
  }

  /** Exponent digits without a sign give their value. */
  lemma ExponentOfNat(x: nat)
    ensures ExponentValue(NatToString(x)) == Some(x as int)
  {
    DigitsInNat(x);
    assert IsAsciiDigit(NatToString(x)[0]);
  }

  /** The word `Infinity` is not a decimal literal. */
  lemma InfinityNotDecimal()
    ensures UnsignedDecimal("Infinity") == NoDecimal
  {
    var body := "Infinity";
    assert MarkAt(body, 'e', 'E') == |body| by {
      MarkAtFound(body, 'e', 'E', |body|);
    }
    assert body[..|body|] == body;
    assert MarkAt(body, '.', '.') == |body| by {
      MarkAtFound(body, '.', '.', |body|);
    }
    assert DigitsIn(body, 10).None? by {
      DecimalDigitsIn(body);
      assert !IsAsciiDigit(body[0]);
    }
  }

  /** After an optional sign the text is `Infinity` exactly for the three
      spellings of infinity, none of which starts with a zero. */
  lemma SignedInfinity(s: string)
    ensures var body := if |s| > 0 && (s[0] == '-' || s[0] == '+') then s[1..] else s;
            body == "Infinity" <==> s == "Infinity" || s == "+Infinity" || s == "-Infinity"
    ensures s == "Infinity" || s == "+Infinity" || s == "-Infinity" ==> s[0] != '0'
  {
    if |s| > 0 && (s[0] == '-' || s[0] == '+') && s[1..] == "Infinity" {
      assert s == [s[0]] + s[1..];
    }
  }

  /** A hexadecimal literal converts to its value: `0x1A` is twenty-six. */
  lemma HexNumber(digits: string, v: nat)
    requires digits != [] && DigitsIn(digits, 16) == Some(v)
    ensures StringToNumber("0x" + digits) == Finite(v, 0)
  {
    var s := "0x" + digits;
    assert s[2..] == digits;
  }
}
