/**
 * C# `decimal` as exact reals: `decimal.Round(x, 5, MidpointRounding.AwayFromZero)`
 * and `decimal.TryParse(s, NumberStyles.Float, CultureInfo.InvariantCulture, ...)`.
 */
module Decimal {
  import opened Wrappers

  /** 10^5: the providers round every converted amount to 5 decimal places. */
  const Scale: real := 100000.0
  /** Half of the last kept place, 0.000005. */
  const HalfUnit: real := 0.000005

  /** `x` has at most 5 decimal places: it is an integer number of 0.00001. */
  predicate OnGrid(x: real) {
    (x * Scale).Floor as real == x * Scale
  }

  /** `decimal.Round(x, 5, MidpointRounding.AwayFromZero)`: the grid point
      nearest to `x`; a value exactly half-way between two grid points goes to
      the one farther from zero. */
  function Round5(x: real): (r: real)
    ensures OnGrid(r)
    ensures x >= 0.0 ==> -HalfUnit < r - x <= HalfUnit
    ensures x < 0.0 ==> -HalfUnit <= r - x < HalfUnit
  {
    if x >= 0.0 then RoundUpHalf(x)
    else
      var r := RoundUpHalf(-x);
      OnGridNegate(r);
      -r
  }

  lemma OnGridNegate(x: real)
    requires OnGrid(x)
    ensures OnGrid(-x)
  {
    var k := (x * Scale).Floor;
    assert (-x) * Scale == (-k) as real;
  }

  /** Rounds a non-negative value, a half going up. */
  function RoundUpHalf(y: real): (r: real)
    requires y >= 0.0
    ensures OnGrid(r) && r >= 0.0
    ensures -HalfUnit < r - y <= HalfUnit
  {
    var k := (y * Scale + 0.5).Floor;
    assert k as real <= y * Scale + 0.5 < k as real + 1.0;
    var r := k as real / Scale;
    assert r * Scale == k as real;
    r
  }

  /** An offer's `Rate`: the amount converted at `rate` and rounded,
      `decimal.Round(value * rate, 5, MidpointRounding.AwayFromZero)`. */
  function Convert(value: real, rate: real): real {
    Round5(value * rate)
  }

  /** The converted amount has at most 5 decimal places and lies within half
      a unit of the fifth place of the exact product. */
  lemma ConvertBounds(value: real, rate: real)
    ensures OnGrid(Convert(value, rate))
    ensures -HalfUnit <= Convert(value, rate) - value * rate <= HalfUnit
  {
  }

  /** At parity the converted amount is the rounded amount itself. */
  lemma ConvertAtParity(value: real)
    ensures Convert(value, 1.0) == Round5(value)
  {
    assert value * 1.0 == value;
  }

  /** The two bounds of `Round5` pin its result down: no other grid point
      satisfies them. */
  lemma {:induction false} Round5Unique(x: real, r': real)
    requires OnGrid(r')
    requires x >= 0.0 ==> -HalfUnit < r' - x <= HalfUnit
    requires x < 0.0 ==> -HalfUnit <= r' - x < HalfUnit
    ensures r' == Round5(x)
  {
    var r := Round5(x);
    var a := (r * Scale).Floor;
    var b := (r' * Scale).Floor;
    assert (a - b) as real == (r - r') * Scale;
    assert -1.0 < (r - r') * Scale < 1.0;
    assert a == b;
  }

  /** A value that already has at most 5 decimal places is left unchanged,
      so rounding is idempotent. */
  lemma Round5OnGrid(x: real)
    requires OnGrid(x)
    ensures Round5(x) == x
    ensures Round5(Round5(x)) == Round5(x)
  {
    Round5Unique(x, x);
  }

  /** Rounding away from zero is symmetric about zero. */
  lemma Round5Negate(x: real)
    ensures Round5(-x) == -Round5(x)
  {
  }

  /** A worked example: 123.456789 becomes 123.45679. */
  lemma Round5Example()
    ensures Round5(123.456789) == 123.45679
  {
    assert (123.456789 * Scale + 0.5).Floor == 12345679;
  }

  // ---------------------------------------------------------------------
  // Parsing

  predicate IsDigit(c: char) {
    '0' <= c <= '9'
  }

  /** The white space `NumberStyles.AllowLeadingWhite`/`AllowTrailingWhite`
      accept: U+0009..U+000D and U+0020. */
  predicate IsNumberWhite(c: char) {
    c == ' ' || ('\t' <= c <= '\r')
  }

  /** The integer value of a run of decimal digits. */
  function DigitsValue(ds: string): (v: nat)
    requires forall i :: 0 <= i < |ds| ==> IsDigit(ds[i])
  {
    if |ds| == 0 then 0
    else
      assert IsDigit(ds[|ds| - 1]);
      10 * DigitsValue(ds[..|ds| - 1]) + (ds[|ds| - 1] as int - '0' as int)
  }

  function Pow10(n: nat): (p: nat)
    ensures p >= 1
  {
    if n == 0 then 1 else 10 * Pow10(n - 1)
  }

  /** Length of the longest prefix of `s` made of digits. */
  function DigitRun(s: string): (n: nat)
    ensures n <= |s|
    ensures forall i :: 0 <= i < n ==> IsDigit(s[i])
    ensures n < |s| ==> !IsDigit(s[n])
  {
    if |s| > 0 && IsDigit(s[0]) then 1 + DigitRun(s[1..]) else 0
  }

  function StripNumberWhite(s: string): (t: string)
    ensures |t| <= |s|
    ensures |t| > 0 ==> !IsNumberWhite(t[0]) && !IsNumberWhite(t[|t| - 1])
  {
    if |s| > 0 && IsNumberWhite(s[0]) then StripNumberWhite(s[1..])
    else if |s| > 0 && IsNumberWhite(s[|s| - 1]) then StripNumberWhite(s[..|s| - 1])
    else s
  }

  /** `decimal.TryParse` with `NumberStyles.Float` in the invariant culture:
      optional surrounding white space, an optional sign, digits with an
      optional '.' fraction, at least one digit in all. */
  function ParseDecimal(s: string): Option<real> {
    var t := StripNumberWhite(s);
    match ParseNumeral(Unsigned(t))
    case None => None
    case Some(v) => Some(Signed(|t| > 0 && t[0] == '-', v))
  }

  /** The text after an optional leading sign. */
  function Unsigned(t: string): string {
    if |t| > 0 && (t[0] == '-' || t[0] == '+') then t[1..] else t
  }

  /** The value of unsigned digits with an optional '.' fraction. */
  function ParseNumeral(u: string): Option<real> {
    var n := DigitRun(u);
    var whole := u[..n];
    var rest := u[n..];
    if rest == [] && n > 0 then Some(DigitsValue(whole) as real)
    else if |rest| > 1 && rest[0] == '.' && DigitRun(rest[1..]) == |rest| - 1 then
      Some(NumeralValue(whole, rest[1..]))
    else if |rest| == 1 && rest[0] == '.' && n > 0 then Some(DigitsValue(whole) as real)
    else None
  }

  /** The value of the digits `whole`, a '.' and the digits `frac`. */
  function NumeralValue(whole: string, frac: string): real
    requires AllDigits(whole) && AllDigits(frac)
  {
    DigitsValue(whole) as real + DigitsValue(frac) as real / Pow10(|frac|) as real
  }

  function Signed(negative: bool, v: real): real {
    if negative then -v else v
  }

  predicate AllDigits(s: string) {
    forall i :: 0 <= i < |s| ==> IsDigit(s[i])
  }

  /** Digits, or digits around one '.', with at least one digit in all. */
  predicate IsNumeral(u: string) {
    || (|u| > 0 && AllDigits(u))
    || (|u| > 1 && exists n :: 0 <= n < |u| && u[n] == '.' && AllDigits(u[..n]) && AllDigits(u[n + 1..]))
  }

  /** A run of digits ended by a non-digit or by the end is the whole digit
      run. */
  lemma {:induction false} DigitRunEnds(u: string, n: nat)
    requires n <= |u| && AllDigits(u[..n])
    requires n < |u| ==> !IsDigit(u[n])
    ensures DigitRun(u) == n
  {
    if n > 0 {
      assert IsDigit(u[..n][0]);
      assert u[1..][..n - 1] == u[..n][1..];
      DigitRunEnds(u[1..], n - 1);
    }
  }

  /** A numeral is accepted. */
  lemma {:induction false} NumeralIsParsed(u: string)
    requires IsNumeral(u)
    ensures ParseNumeral(u).Some?
  {
    var n := DigitRun(u);
    var rest := u[n..];
    if |u| > 0 && AllDigits(u) {
      DigitRunEnds(u, |u|) by { assert u[..|u|] == u; }
    } else {
      var m :| 0 <= m < |u| && u[m] == '.' && AllDigits(u[..m]) && AllDigits(u[m + 1..]);
      DigitRunEnds(u, m);
      assert rest[1..] == u[m + 1..];
      DigitRunEnds(rest[1..], |rest| - 1) by {
        assert rest[1..][..|rest| - 1] == rest[1..];
      }
    }
  }

  /** Only a numeral is accepted. */
  lemma {:induction false} ParsedIsNumeral(u: string)
    requires ParseNumeral(u).Some?
    ensures IsNumeral(u)
  {
    var n := DigitRun(u);
    var rest := u[n..];
    if rest == [] {
      assert u[..n] == u;
    } else {
      assert u[n] == '.' && u[n + 1..] == rest[1..];
      if |rest| > 1 {
        assert AllDigits(rest[1..][..DigitRun(rest[1..])]);
        assert rest[1..][..|rest| - 1] == rest[1..];
      }
    }
  }

  /** `TryParse` succeeds exactly on an optionally signed numeral, once the
      surrounding white space is removed. */
  lemma ParseDecimalAccepts(s: string)
    ensures ParseDecimal(s).Some? <==> IsNumeral(Unsigned(StripNumberWhite(s)))
  {
    var u := Unsigned(StripNumberWhite(s));
    if ParseNumeral(u).Some? {
      ParsedIsNumeral(u);
    } else if IsNumeral(u) {
      NumeralIsParsed(u);
    }
  }

  /** The sign written before a numeral. */
  function SignText(negative: bool): string {
    if negative then "-" else ""
  }

  /** Digits, a '.' and more digits read back as the whole part plus the
      fraction's digits over 10^length. */
  lemma {:induction false} NumeralReadsFraction(whole: string, frac: string)
    requires AllDigits(whole) && AllDigits(frac) && |whole| + |frac| > 0
    ensures ParseNumeral(whole + "." + frac) == Some(NumeralValue(whole, frac))
  {
    var u := whole + "." + frac;
    assert u[..|whole|] == whole && u[|whole| + 1..] == frac;
    DigitRunEnds(u, |whole|);
    var rest := u[|whole|..];
    assert rest[1..] == frac;
    DigitRunEnds(frac, |frac|) by { assert frac[..|frac|] == frac; }
  }

  /** Digits alone read back as their value. */
  lemma NumeralReadsWhole(whole: string)
    requires AllDigits(whole) && |whole| > 0
    ensures ParseNumeral(whole) == Some(DigitsValue(whole) as real)
  {
    DigitRunEnds(whole, |whole|) by { assert whole[..|whole|] == whole; }
    assert whole[..|whole|] == whole;
  }

  /** A numeral written with an optional '-' and no surrounding white space
      is read as its unsigned value with the sign applied. */
  lemma SignedNumeral(negative: bool, u: string)
    requires |u| > 0 && (IsDigit(u[0]) || u[0] == '.') && (IsDigit(u[|u| - 1]) || u[|u| - 1] == '.')
    ensures ParseDecimal(SignText(negative) + u)
            == if ParseNumeral(u).Some? then Some(Signed(negative, ParseNumeral(u).value)) else None
  {
    var s := SignText(negative) + u;
    assert s[|s| - 1] == u[|u| - 1];
    assert StripNumberWhite(s) == s;
    if negative {
      assert s[1..] == u;
    }
    assert Unsigned(s) == u;
  }

  /** `TryParse` reads an optionally negative numeral of digits, '.' and
      digits as its value. */
  lemma ParseDecimalReadsFraction(negative: bool, whole: string, frac: string)
    requires AllDigits(whole) && AllDigits(frac) && |whole| + |frac| > 0
    ensures ParseDecimal(SignText(negative) + whole + "." + frac) == Some(Signed(negative, NumeralValue(whole, frac)))
  {
    var u := whole + "." + frac;
    assert SignText(negative) + whole + "." + frac == SignText(negative) + u;
    assert u[0] == if |whole| > 0 then whole[0] else '.';
    assert u[|u| - 1] == if |frac| > 0 then frac[|frac| - 1] else '.';
    NumeralReadsFraction(whole, frac);
    SignedNumeral(negative, u);
  }

  /** `TryParse` reads an optionally negative run of digits as its value. */
  lemma ParseDecimalReadsWhole(negative: bool, whole: string)
    requires AllDigits(whole) && |whole| > 0
    ensures ParseDecimal(SignText(negative) + whole) == Some(Signed(negative, DigitsValue(whole) as real))
  {
    NumeralReadsWhole(whole);
    SignedNumeral(negative, whole);
  }

  /** A fraction is accepted. */
  lemma ParseDecimalFraction()
    ensures ParseDecimal("0.9") == Some(0.9)
  {
    assert StripNumberWhite("0.9") == "0.9";
    assert DigitRun("0.9") == 1;
    assert "0.9"[..1] == "0" && "0.9"[1..] == ".9" && ".9"[1..] == "9";
    assert DigitsValue("0") == 0;
    assert DigitsValue("9") == 9;
  }

  /** A sign is accepted. */
  lemma ParseDecimalSigned()
    ensures ParseDecimal("-12") == Some(-12.0)
  {
    assert StripNumberWhite("-12") == "-12";
    assert "-12"[1..] == "12";
    assert DigitRun("12") == 2;
    assert "12"[..2] == "12" && "12"[2..] == "";
    assert DigitsValue("1") == 1;
    assert DigitsValue("12") == 12;
  }

  /** Text without digits is rejected. */
  lemma ParseDecimalRejects()
    ensures ParseDecimal(".") == None
    ensures ParseDecimal("") == None
    ensures ParseDecimal("x1") == None
  {
    assert DigitRun(".") == 0;
    assert DigitRun("x1") == 0;
  }
}
