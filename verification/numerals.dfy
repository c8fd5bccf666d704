/** Decimal numerals: the integer literals Python's `int()` accepts and the decimal literals
    its `float()` accepts (optional sign, ASCII digits, at most one decimal point, surrounding
    whitespace ignored), and the decimal rendering an f-string gives a natural number. */
module Numerals {
  import opened Wrappers
  import opened Text

  predicate IsDigit(c: char) {
    '0' <= c <= '9'
  }

  function DigitValue(c: char): nat
    requires IsDigit(c)
  {
    (c as int) - ('0' as int)
  }

  function DigitChar(d: nat): (c: char)
    requires d < 10
    ensures IsDigit(c) && DigitValue(c) == d
  {
    (('0' as int) + d) as char
  }

  predicate AllDigits(s: string) {
    forall i :: 0 <= i < |s| ==> IsDigit(s[i])
  }

  /** The value of a run of decimal digits, most significant first. */
  function DigitsValue(s: string): nat
    requires AllDigits(s)
  {
    if s == [] then 0 else 10 * DigitsValue(s[..|s| - 1]) + DigitValue(s[|s| - 1])
  }

  function Pow10(n: nat): (p: nat)
    ensures p >= 1
  {
    if n == 0 then 1 else 10 * Pow10(n - 1)
  }

  /** `str(n)` / `f"{n}"`: shortest decimal numeral, no leading zero. */
  function NatToString(n: nat): (r: string)
    ensures r != [] && AllDigits(r) && DigitsValue(r) == n
    ensures |r| > 1 ==> r[0] != '0'
  {
    if n < 10 then [DigitChar(n)]
    else
      var p := NatToString(n / 10);
      var r := p + [DigitChar(n % 10)];
      assert r[..|r| - 1] == p;
      r
  }

  /** The sign and magnitude text of a numeric literal, as Python reads an optional leading `+`/`-`. */
  function SplitSign(t: string): (bool, string) {
    if |t| > 0 && (t[0] == '+' || t[0] == '-') then (t[0] == '-', t[1..]) else (false, t)
  }

  /** `int(s)`: `None` where Python raises `ValueError`. */
  function ParseInt(s: string): (r: Option<int>)
    ensures r.Some? <==> SplitSign(Strip(s)).1 != [] && AllDigits(SplitSign(Strip(s)).1)
    ensures r.Some? && !SplitSign(Strip(s)).0 ==> r.value == DigitsValue(SplitSign(Strip(s)).1)
    ensures r.Some? && SplitSign(Strip(s)).0 ==> r.value == -(DigitsValue(SplitSign(Strip(s)).1) as int)
  {
    var (negative, digits) := SplitSign(Strip(s));
    if digits != [] && AllDigits(digits) then
      Some(if negative then -(DigitsValue(digits) as int) else DigitsValue(digits))
    else None
  }

  /** Position of the first occurrence of `c` in `s`. */
  function IndexOf(s: string, c: char): (r: Option<nat>)
    ensures r.None? <==> c !in s
    ensures r.Some? ==> r.value < |s| && s[r.value] == c && c !in s[..r.value]
  {
    if s == [] then None
    else if s[0] == c then Some(0)
    else
      match IndexOf(s[1..], c)
      case None => None
      case Some(k) =>
        assert s[..k + 1] == [s[0]] + s[1..][..k];
        Some(k + 1)
  }

  /** The value of the unsigned decimal `whole.frac`. */
  function DecimalValue(whole: string, frac: string): (v: real)
    requires AllDigits(whole) && AllDigits(frac)
    ensures v >= DigitsValue(whole) as real
  {
    var f := DigitsValue(frac) as real / Pow10(|frac|) as real;
    assert f >= 0.0;
    DigitsValue(whole) as real + f
  }

  /** `t` is `whole.frac` with its point at `k`: digits on either side, at least one in all. */
  ghost predicate PointAt(t: string, k: int) {
    0 <= k < |t| && t[k] == '.' && AllDigits(t[..k]) && AllDigits(t[k + 1..]) && |t| >= 2
  }

  /** The unsigned decimal literals: a run of digits, or digits around one point with at
      least one digit in all. */
  ghost predicate DecimalForm(t: string) {
    (t != [] && AllDigits(t)) || exists k :: PointAt(t, k)
  }

  /** The point of a decimal literal is its first `.`. */
  lemma PointIsFirst(t: string, k: int)
    requires PointAt(t, k)
    ensures IndexOf(t, '.') == Some(k)
  {
    assert t[k] in t;
  }

  /** Without a point, a decimal literal is a non-empty run of digits. */
  lemma FormWithoutPoint(t: string)
    requires '.' !in t
    ensures DecimalForm(t) <==> t != [] && AllDigits(t)
  {
    forall k | 0 <= k < |t| ensures !PointAt(t, k) {
      assert t[k] in t;
    }
  }

  /** With its first point at `k`, a decimal literal has digits on either side of `k` and at
      least one digit in all. */
  lemma FormAtFirstPoint(t: string, k: nat)
    requires IndexOf(t, '.') == Some(k)
    ensures DecimalForm(t) <==>
      (t[..k] != [] || t[k + 1..] != []) && AllDigits(t[..k]) && AllDigits(t[k + 1..])
  {
    if DecimalForm(t) {
      assert !IsDigit(t[k]);
      var p :| PointAt(t, p);
      PointIsFirst(t, p);
    }
    if (t[..k] != [] || t[k + 1..] != []) && AllDigits(t[..k]) && AllDigits(t[k + 1..]) {
      assert |t| == |t[..k]| + 1 + |t[k + 1..]|;
      assert PointAt(t, k);
    }
  }

  /** The unsigned part of a decimal literal: digits, optionally one point and more digits,
      at least one digit in all. */
  function ParseUnsignedDecimal(t: string): (r: Option<real>)
    ensures r.Some? <==> DecimalForm(t)
    ensures AllDigits(t) && t != [] ==> r == Some(DigitsValue(t) as real)
    ensures r.Some? ==> r.value >= 0.0
  {
    match IndexOf(t, '.')
    case None =>
      FormWithoutPoint(t);
      if t != [] && AllDigits(t) then Some(DecimalValue(t, [])) else None
    case Some(k) =>
      FormAtFirstPoint(t, k);
      var whole, frac := t[..k], t[k + 1..];
      if (whole != [] || frac != []) && AllDigits(whole) && AllDigits(frac)
      then Some(DecimalValue(whole, frac)) else None
  }

  /** A literal with a point has the value of its whole and fractional digits. */
  lemma PointValue(t: string, k: int)
    requires PointAt(t, k)
    ensures ParseUnsignedDecimal(t) == Some(DecimalValue(t[..k], t[k + 1..]))
  {
    PointIsFirst(t, k);
  }

  /** `float(s)` for plain decimal literals: `None` where Python raises `ValueError`. */
  function ParseDecimal(s: string): (r: Option<real>)
    ensures r.Some? <==> DecimalForm(SplitSign(Strip(s)).1)
    ensures r.Some? ==> Strip(s) != []
  {
    var (negative, body) := SplitSign(Strip(s));
    match ParseUnsignedDecimal(body)
    case None => None
    case Some(v) => Some(if negative then -v else v)
  }

  /** A sign followed by text that starts and ends with a digit or a point is its own
      `strip()`, and the sign is read off it. */
  lemma SignedText(sign: string, t: string)
    requires |sign| <= 1 && (sign == [] || sign[0] == '-' || sign[0] == '+')
    requires t != [] && (t[0] == '.' || IsDigit(t[0])) && (t[|t| - 1] == '.' || IsDigit(t[|t| - 1]))
    ensures Strip(sign + t) == sign + t
    ensures SplitSign(sign + t) == (sign != [] && sign[0] == '-', t)
  {
    var s := sign + t;
    assert s[|s| - 1] == t[|t| - 1];
    if sign == [] {
      assert s == t;
    } else {
      assert s[0] == sign[0] && s[1..] == t;
    }
    StripTrimmed(s);
  }

  /** `float("12.5")`, `float("12.")`, `float(".5")`: digits, a point and digits read as
      the value of the digits. */
  lemma UnsignedLiteral(whole: string, frac: string)
    requires AllDigits(whole) && AllDigits(frac) && (whole != [] || frac != [])
    ensures ParseUnsignedDecimal(whole + "." + frac) == Some(DecimalValue(whole, frac))
  {
    var t := whole + "." + frac;
    assert t[..|whole|] == whole && t[|whole| + 1..] == frac;
    assert PointAt(t, |whole|);
    PointValue(t, |whole|);
  }

  /** Whitespace around a literal does not change what `float()` reads:
      `float("  12.5 ") == float("12.5")`. */
  lemma ParseDecimalIgnoresPadding(s: string)
    ensures ParseDecimal(s) == ParseDecimal(Strip(s))
  {
    StripIdempotent(s);
  }

  /** `float("-12.5")`: an optional sign, digits, a point and digits read as the signed value
      of the digits. */
  lemma DecimalLiteral(sign: string, whole: string, frac: string)
    requires |sign| <= 1 && (sign == [] || sign[0] == '-' || sign[0] == '+')
    requires AllDigits(whole) && AllDigits(frac) && (whole != [] || frac != [])
    ensures var v := DecimalValue(whole, frac);
      ParseDecimal(sign + (whole + "." + frac)) == Some(if sign != [] && sign[0] == '-' then -v else v)
  {
    var t := whole + "." + frac;
    assert t[0] == (if whole == [] then '.' else whole[0]);
    assert t[|t| - 1] == (if frac == [] then '.' else frac[|frac| - 1]);
    SignedText(sign, t);
    UnsignedLiteral(whole, frac);
  }

  /** Every literal `int()` accepts, `float()` accepts with the same value. */
  lemma ParseDecimalOfInt(s: string)
    requires ParseInt(s).Some?
    ensures ParseDecimal(s) == Some(ParseInt(s).value as real)
  {
    var (negative, digits) := SplitSign(Strip(s));
    assert forall k :: 0 <= k < |digits| ==> digits[k] != '.';
  }

  /** `int(str(n)) == n`. */
  lemma ParseIntOfNatToString(n: nat)
    ensures ParseInt(NatToString(n)) == Some(n)
  {
    var r := NatToString(n);
    StripTrimmed(r);
    assert SplitSign(r) == (false, r);
  }

  /** `float(str(n)) == n`. */
  lemma ParseDecimalOfNatToString(n: nat)
    ensures ParseDecimal(NatToString(n)) == Some(n as real)
  {
    ParseIntOfNatToString(n);
    ParseDecimalOfInt(NatToString(n));
  }

  /** `int(float(x))`: truncation toward zero. */
  function Truncate(x: real): (n: int)
    ensures x >= 0.0 ==> n as real <= x < n as real + 1.0
    ensures x < 0.0 ==> n as real - 1.0 < x <= n as real
  {
    if x >= 0.0 then x.Floor else -((-x).Floor)
  }
}
