/** The part of `java.math.BigDecimal` the services rely on: an unscaled
    integer with a scale, parsing from a string, rounding half up to a
    scale, division by a small integer, addition, stripping trailing zeros
    and plain rendering. The value of `Decimal(u, s)` is `u / 10^s`. */
module Decimals {

  import opened Results
  import opened Text

  datatype Decimal = Decimal(unscaled: int, scale: int)

  const ZERO := Decimal(0, 0)

  function Pow10(n: nat): (r: nat)
    ensures r >= 1
  {
    if n == 0 then 1 else 10 * Pow10(n - 1)
  }

  lemma {:induction false} Pow10Add(a: nat, b: nat)
    ensures Pow10(a + b) == Pow10(a) * Pow10(b)
    decreases a
  {
    if a > 0 {
      Pow10Add(a - 1, b);
    }
  }

  function Max(a: int, b: int): int {
    if a >= b then a else b
  }

  /** The unscaled value of `d` written at the larger scale `k`. */
  function Lift(d: Decimal, k: int): int
    requires k >= d.scale
  {
    d.unscaled * Pow10(k - d.scale)
  }

  /** Equal in value, whatever the scales (`compareTo` returns 0). */
  predicate SameValue(a: Decimal, b: Decimal) {
    var k := Max(a.scale, b.scale);
    Lift(a, k) == Lift(b, k)
  }

  /** `compareTo(ZERO) > 0`. */
  predicate Positive(d: Decimal) {
    d.unscaled > 0
  }

  // ---------------------------------------------------------------------------
  // Rounding
  // ---------------------------------------------------------------------------

  /** `num / den` rounded to the nearest integer, ties away from zero
      (`RoundingMode.HALF_UP`). */
  function RoundHalfUp(num: int, den: nat): (r: int)
    requires den > 0
    ensures -(den as int) <= 2 * (num - r * den) <= den
    ensures 2 * (num - r * den) == den ==> num < 0
    ensures 2 * (num - r * den) == -(den as int) ==> num > 0
  {
    var m := if num < 0 then -num else num;
    var q := m / den;
    var rem := m % den;
    var up := if 2 * rem >= den then q + 1 else q;
    if num < 0 then -up else up
  }

  lemma MulStep(t: int, den: int)
    ensures t * den == den + (t - 1) * den
  {
  }

  lemma MulNeg(t: int, den: int)
    ensures (-t) * den == -(t * den)
  {
  }

  /** A positive multiple of a positive number is at least that number. */
  lemma MultipleAtLeast(t: int, den: int)
    requires den > 0 && t >= 1
    ensures t * den >= den
  {
    MulStep(t, den);
    assert (t - 1) * den >= 0;
  }

  /** Rounding is unique: any integer meeting the half-up conditions is the
      rounded quotient. */
  lemma RoundHalfUpUnique(num: int, den: nat, r: int)
    requires den > 0
    requires -(den as int) <= 2 * (num - r * den) <= den
    requires 2 * (num - r * den) == den ==> num < 0
    requires 2 * (num - r * den) == -(den as int) ==> num > 0
    ensures r == RoundHalfUp(num, den)
  {
    var q := RoundHalfUp(num, den);
    var x := num - r * den;
    var y := num - q * den;
    assert (q - r) * den == x - y;
    if q > r {
      MultipleAtLeast(q - r, den);
    } else if q < r {
      MultipleAtLeast(r - q, den);
      MulNeg(q - r, den);
    }
  }

  /** An exact quotient rounds to itself. */
  lemma RoundExact(q: int, den: nat)
    requires den > 0
    ensures RoundHalfUp(q * den, den) == q
  {
    RoundHalfUpUnique(q * den, den, q);
  }

  /** `setScale(n, RoundingMode.HALF_UP)`. */
  function SetScale(d: Decimal, n: int): (r: Decimal)
    ensures r.scale == n
    ensures n >= d.scale ==> SameValue(r, d)
    ensures n < d.scale ==> r.unscaled == RoundHalfUp(d.unscaled, Pow10(d.scale - n))
  {
    if n >= d.scale then Decimal(d.unscaled * Pow10(n - d.scale), n)
    else Decimal(RoundHalfUp(d.unscaled, Pow10(d.scale - n)), n)
  }

  /** A value that fits the scale keeps its value when set to it. */
  lemma SetScaleExact(d: Decimal, n: int)
    requires n < d.scale && d.unscaled % Pow10(d.scale - n) == 0
    ensures SameValue(SetScale(d, n), d)
  {
    var den := Pow10(d.scale - n);
    var q := d.unscaled / den;
    assert d.unscaled == q * den;
    RoundExact(q, den);
  }

  /** `divide(BigDecimal.valueOf(divisor), n, RoundingMode.HALF_UP)`: the
      quotient rounded half up to scale `n`. */
  function DivideBy(d: Decimal, divisor: nat, n: int): (r: Decimal)
    requires divisor > 0
    ensures r.scale == n
    ensures n >= d.scale ==> r.unscaled == RoundHalfUp(d.unscaled * Pow10(n - d.scale), divisor)
    ensures n < d.scale ==> r.unscaled == RoundHalfUp(d.unscaled, divisor * Pow10(d.scale - n))
  {
    if n >= d.scale then Decimal(RoundHalfUp(d.unscaled * Pow10(n - d.scale), divisor), n)
    else Decimal(RoundHalfUp(d.unscaled, divisor * Pow10(d.scale - n)), n)
  }

  /** `add`: the sum at the larger scale. */
  function Add(a: Decimal, b: Decimal): (r: Decimal)
    ensures r.scale == Max(a.scale, b.scale)
    ensures r.unscaled == Lift(a, r.scale) + Lift(b, r.scale)
  {
    var k := Max(a.scale, b.scale);
    Decimal(Lift(a, k) + Lift(b, k), k)
  }

  /** The sum of a sequence of decimals, starting from zero. */
  function Sum(ds: seq<Decimal>): (r: Decimal)
    ensures r.scale >= 0
    decreases |ds|
  {
    if ds == [] then ZERO else Add(Sum(ds[..|ds| - 1]), ds[|ds| - 1])
  }

  // ---------------------------------------------------------------------------
  // Stripping trailing zeros
  // ---------------------------------------------------------------------------

  /** `stripTrailingZeros`: the same value with the fewest digits; zero
      becomes `BigDecimal.ZERO`. */
  function StripTrailingZeros(d: Decimal): (r: Decimal)
    ensures r.unscaled == 0 <==> d.unscaled == 0
    ensures r.unscaled == 0 ==> r == ZERO
    ensures r.unscaled != 0 ==> r.unscaled % 10 != 0 && r.scale <= d.scale
                                && d.unscaled == r.unscaled * Pow10(d.scale - r.scale)
    decreases Abs(d.unscaled)
  {
    if d.unscaled == 0 then ZERO
    else if d.unscaled % 10 == 0 then
      var r := StripTrailingZeros(Decimal(d.unscaled / 10, d.scale - 1));
      assert d.unscaled == (d.unscaled / 10) * 10;
      assert Pow10(d.scale - r.scale) == 10 * Pow10(d.scale - 1 - r.scale);
      r
    else d
  }

  /** Stripping twice strips no more. */
  lemma StripIdempotent(d: Decimal)
    ensures StripTrailingZeros(StripTrailingZeros(d)) == StripTrailingZeros(d)
  {
  }

  // ---------------------------------------------------------------------------
  // Rendering
  // ---------------------------------------------------------------------------

  function Zeros(n: int): (r: string)
    ensures |r| == (if n < 0 then 0 else n)
    ensures forall k :: 0 <= k < |r| ==> r[k] == '0'
    decreases n
  {
    if n <= 0 then "" else "0" + Zeros(n - 1)
  }

  function Abs(i: int): nat {
    if i < 0 then -i else i
  }

  /** The digits of `d` written with at least `d.scale + 1` of them, so that
      a point can be placed with a digit before it. */
  function PaddedDigits(d: Decimal): (r: string)
    requires d.scale > 0
    ensures |r| > d.scale && AllDigits(r)
  {
    var digits := NatToString(Abs(d.unscaled));
    if |digits| > d.scale then digits else Zeros(d.scale + 1 - |digits|) + digits
  }

  /** `toPlainString`: no exponent; a positive scale places a point with
      at least one digit before it, a negative scale appends zeros. */
  function ToPlainString(d: Decimal): (r: string)
    ensures r != []
  {
    var sign := if d.unscaled < 0 then "-" else "";
    if d.scale <= 0 then
      (if d.unscaled == 0 then "0" else sign + NatToString(Abs(d.unscaled)) + Zeros(-d.scale))
    else
      var p := PaddedDigits(d);
      sign + p[..|p| - d.scale] + "." + p[|p| - d.scale..]
  }

  // ---------------------------------------------------------------------------
  // Parsing
  // ---------------------------------------------------------------------------

  /** The first index whose character satisfies `p`, or the length. */
  function FirstWhere(s: string, p: char -> bool): (r: nat)
    ensures r <= |s|
    ensures r < |s| ==> p(s[r])
    ensures forall k :: 0 <= k < r ==> !p(s[k])
    decreases |s|
  {
    if s == [] then 0 else if p(s[0]) then 0 else 1 + FirstWhere(s[1..], p)
  }

  predicate IsExponentMark(c: char) {
    c == 'e' || c == 'E'
  }

  predicate IsPoint(c: char) {
    c == '.'
  }

  /** An optional sign then one or more digits. */
  function ParseExponent(s: string): (r: Option<int>)
  {
    var negative := |s| > 0 && s[0] == '-';
    var digits := if |s| > 0 && (s[0] == '-' || s[0] == '+') then s[1..] else s;
    if digits == [] || !AllDigits(digits) then None
    else Some(if negative then -(DigitsValue(digits) as int) else DigitsValue(digits))
  }

  /** A leading sign, if any, and the rest. */
  function SplitSign(s: string): (r: (bool, string))
    ensures r.1 == s || (s != [] && r.1 == s[1..])
  {
    if |s| > 0 && (s[0] == '-' || s[0] == '+') then (s[0] == '-', s[1..]) else (false, s)
  }

  /** Digits with an optional point, at least one digit in all: the
      magnitude and the number of fraction digits. */
  function ParseMantissa(m: string): (r: Option<(nat, nat)>)
  {
    var dot := FirstWhere(m, IsPoint);
    var whole := m[..dot];
    var fraction := if dot < |m| then m[dot + 1..] else "";
    if !AllDigits(whole) || !AllDigits(fraction) || |whole| + |fraction| == 0 then None
    else Some((DigitsValue(whole + fraction), |fraction|))
  }

  /** A mantissa and an optional exponent: the magnitude and the scale. */
  function ParseUnsigned(body: string): (r: Option<(nat, int)>)
  {
    var e := FirstWhere(body, IsExponentMark);
    var exponent := if e < |body| then ParseExponent(body[e + 1..]) else Some(0);
    var mantissa := ParseMantissa(body[..e]);
    if exponent.None? || mantissa.None? then None
    else Some((mantissa.value.0, mantissa.value.1 - exponent.value))
  }

  /** `new BigDecimal(String)`: an optional sign, digits with an optional
      point (at least one digit in all), then an optional exponent mark with
      a signed integer. The scale is the number of fraction digits less the
      exponent. Anything else is a `NumberFormatException`. */
  function ParseDecimal(s: string): (r: Option<Decimal>)
    ensures s == [] ==> r.None?
    ensures s != [] && AllDigits(s) ==> r == Some(Decimal(DigitsValue(s), 0))
  {
    if s != [] && AllDigits(s) then WholeNumberRead(s); ParseDecimalBody(s) else ParseDecimalBody(s)
  }

  function ParseDecimalBody(s: string): Option<Decimal>
  {
    var (negative, body) := SplitSign(s);
    var parsed := ParseUnsigned(body);
    if parsed.None? then None
    else Some(Decimal(if negative then -(parsed.value.0 as int) else parsed.value.0, parsed.value.1))
  }

  /** A plain digit string reads as a whole number. */
  lemma WholeNumberRead(s: string)
    requires s != [] && AllDigits(s)
    ensures ParseDecimalBody(s) == Some(Decimal(DigitsValue(s), 0))
  {
    assert !IsExponentMark(s[0]) && !IsPoint(s[0]) && s[0] != '-' && s[0] != '+';
    assert SplitSign(s) == (false, s);
    NoExponent(s);
    MantissaWhole(s);
  }

  lemma Shift(x: int, p: int, y: int, last: int)
    ensures (x * p + y) * 10 + last == x * (10 * p) + (y * 10 + last)
  {
  }

  /** The value of a digit string is the value of its head shifted past its tail. */
  lemma {:induction false} DigitsValueConcat(a: string, b: string)
    requires AllDigits(a) && AllDigits(b)
    ensures AllDigits(a + b) && DigitsValue(a + b) == DigitsValue(a) * Pow10(|b|) + DigitsValue(b)
    decreases |b|
  {
    if b == [] {
      assert a + b == a;
    } else {
      var b' := b[..|b| - 1];
      var last := DigitValue(b[|b| - 1]);
      DigitsValueConcat(a, b');
      assert (a + b)[..|a + b| - 1] == a + b';
      assert DigitsValue(a + b) == DigitsValue(a + b') * 10 + last;
      assert DigitsValue(b) == DigitsValue(b') * 10 + last;
      Shift(DigitsValue(a), Pow10(|b'|), DigitsValue(b'), last);
    }
  }

  /** Leading zeros do not change the value. */
  lemma {:induction false} ZerosValue(n: int)
    ensures AllDigits(Zeros(n)) && DigitsValue(Zeros(n)) == 0
    decreases n
  {
    if n > 0 {
      ZerosValue(n - 1);
      var z := Zeros(n);
      assert z[..|z| - 1] == Zeros(n - 1) by {
        assert forall k :: 0 <= k < |z| - 1 ==> z[k] == '0';
      }
    }
  }

  /** The padded digits read back as the magnitude. */
  lemma PaddedValue(d: Decimal)
    requires d.scale > 0
    ensures DigitsValue(PaddedDigits(d)) == Abs(d.unscaled)
  {
    var digits := NatToString(Abs(d.unscaled));
    DigitsValueOfNat(Abs(d.unscaled));
    if |digits| <= d.scale {
      ZerosValue(d.scale + 1 - |digits|);
      DigitsValueConcat(Zeros(d.scale + 1 - |digits|), digits);
    }
  }

  /** A sign written before a digit is read as the sign. */
  lemma SignRead(negative: bool, body: string)
    requires body != [] && IsAsciiDigit(body[0])
    ensures SplitSign((if negative then "-" else "") + body) == (negative, body)
  {
    var s := (if negative then "-" else "") + body;
    if negative {
      assert s[1..] == body;
    } else {
      assert s == body;
    }
  }

  /** A string without an exponent mark is all mantissa. */
  lemma NoExponent(body: string)
    requires forall k :: 0 <= k < |body| ==> !IsExponentMark(body[k])
    ensures ParseUnsigned(body) == (var m := ParseMantissa(body);
                                    if m.None? then None else Some((m.value.0, m.value.1 as int)))
  {
    assert FirstWhere(body, IsExponentMark) == |body|;
    assert body[..|body|] == body;
  }

  /** Reading digits with no point. */
  lemma MantissaWhole(m: string)
    requires m != [] && AllDigits(m)
    ensures ParseMantissa(m) == Some((DigitsValue(m), 0))
  {
    assert FirstWhere(m, IsPoint) == |m| by {
      assert forall k :: 0 <= k < |m| ==> !IsPoint(m[k]);
    }
    assert m[..|m|] == m;
    assert m + "" == m;
  }

  /** Reading digits, a point and more digits. */
  lemma MantissaPointed(whole: string, fraction: string)
    requires whole != [] && AllDigits(whole) && AllDigits(fraction)
    ensures AllDigits(whole + fraction)
    ensures ParseMantissa(whole + "." + fraction) == Some((DigitsValue(whole + fraction), |fraction|))
  {
    var m := whole + "." + fraction;
    assert FirstWhere(m, IsPoint) == |whole| by {
      assert IsPoint(m[|whole|]);
      assert forall k :: 0 <= k < |whole| ==> m[k] == whole[k] && !IsPoint(m[k]);
    }
    assert m[..|whole|] == whole;
    assert m[|whole| + 1..] == fraction;
    DigitsValueConcat(whole, fraction);
  }

  lemma ParsePlainWhole(d: Decimal)
    requires d.scale == 0
    ensures ParseDecimal(ToPlainString(d)) == Some(d)
  {
    var negative := d.unscaled < 0;
    var digits := NatToString(Abs(d.unscaled));
    DigitsValueOfNat(Abs(d.unscaled));
    assert ToPlainString(d) == (if negative then "-" else "") + digits by {
      assert NatToString(0) == "0";
      assert Zeros(0) == "";
    }
    SignRead(negative, digits);
    NoExponent(digits);
    MantissaWhole(digits);
  }

  lemma ParsePlainPointed(d: Decimal)
    requires d.scale > 0
    ensures ParseDecimal(ToPlainString(d)) == Some(d)
  {
    var negative := d.unscaled < 0;
    PointedShape(d);
    PointedBodyRead(d);
    ParseSigned(negative, PointedBody(d), Abs(d.unscaled), d.scale);
  }

  lemma PointedShape(d: Decimal)
    requires d.scale > 0
    ensures ToPlainString(d) == (if d.unscaled < 0 then "-" else "") + PointedBody(d)
  {
  }

  /** A sign before an unsigned literal negates its value. */
  lemma ParseSigned(negative: bool, body: string, m: nat, e: int)
    requires body != [] && IsAsciiDigit(body[0]) && ParseUnsigned(body) == Some((m, e))
    ensures ParseDecimal((if negative then "-" else "") + body) == Some(Decimal(if negative then -(m as int) else m, e))
  {
    SignRead(negative, body);
  }

  /** The unsigned part of the plain rendering of a decimal with a positive scale. */
  function PointedBody(d: Decimal): string
    requires d.scale > 0
  {
    var p := PaddedDigits(d);
    p[..|p| - d.scale] + "." + p[|p| - d.scale..]
  }

  lemma PointedBodyRead(d: Decimal)
    requires d.scale > 0
    ensures PointedBody(d) != [] && IsAsciiDigit(PointedBody(d)[0])
    ensures ParseUnsigned(PointedBody(d)) == Some((Abs(d.unscaled), d.scale as int))
  {
    var p := PaddedDigits(d);
    var whole := p[..|p| - d.scale];
    var fraction := p[|p| - d.scale..];
    var body := whole + "." + fraction;
    assert whole + fraction == p;
    assert body[0] == p[0];
    NoExponent(body);
    MantissaPointed(whole, fraction);
    PaddedValue(d);
  }

  /** Parsing the plain rendering of a decimal with a non-negative scale
      gives the decimal back. */
  lemma ParsePlain(d: Decimal)
    requires d.scale >= 0
    ensures ParseDecimal(ToPlainString(d)) == Some(d)
  {
    if d.scale == 0 {
      ParsePlainWhole(d);
    } else {
      ParsePlainPointed(d);
    }
  }
}
