/**
 * The number scanner `_parse_number` of parse_algorithm/parser.py: the first run matching
 * `\d[\d,.]*`, its commas removed, converted by `float(...)`. The legacy `parse_area` and
 * `parse_population` of super_algorithm.py scan the same run (see the Legacy module).
 *
 * Values are exact: a decimal string `w.f` stands for `w + f / 10^|f|`; floating-point
 * rounding is not modelled.
 */
module Numbers {
  import opened Wrappers

  predicate IsDigit(c: char) {
    '0' <= c <= '9'
  }

  /** A character of the class `[\d,.]`. */
  predicate IsRunChar(c: char) {
    IsDigit(c) || c == ',' || c == '.'
  }

  /** A match `text[start..end]`. */
  datatype Span = Span(start: nat, end: nat)

  /** The index of the first digit at or after `i`, or `|s|`. */
  function FirstDigitFrom(s: string, i: nat): (r: nat)
    requires i <= |s|
    ensures i <= r <= |s|
    ensures forall k :: i <= k < r ==> !IsDigit(s[k])
    ensures r < |s| ==> IsDigit(s[r])
    decreases |s| - i
  {
    if i == |s| || IsDigit(s[i]) then i else FirstDigitFrom(s, i + 1)
  }

  /** The end of the longest stretch of `[\d,.]` characters starting at `i`. */
  function RunEndFrom(s: string, i: nat): (r: nat)
    requires i <= |s|
    ensures i <= r <= |s|
    ensures forall k :: i <= k < r ==> IsRunChar(s[k])
    ensures r < |s| ==> !IsRunChar(s[r])
    decreases |s| - i
  {
    if i == |s| || !IsRunChar(s[i]) then i else RunEndFrom(s, i + 1)
  }

  /** `re.search(r"\d[\d,.]*", s)`: the leftmost match, as long as the greedy star makes it. */
  function FindRun(s: string): (r: Option<Span>)
    ensures r.None? <==> forall k :: 0 <= k < |s| ==> !IsDigit(s[k])
    ensures r.Some? ==> r.value.start < r.value.end <= |s|
    ensures r.Some? ==> IsDigit(s[r.value.start])
    ensures r.Some? ==> forall k :: 0 <= k < r.value.start ==> !IsDigit(s[k])
    ensures r.Some? ==> forall k :: r.value.start <= k < r.value.end ==> IsRunChar(s[k])
    ensures r.Some? ==> r.value.end == |s| || !IsRunChar(s[r.value.end])
  {
    var i := FirstDigitFrom(s, 0);
    if i == |s| then None else Some(Span(i, RunEndFrom(s, i + 1)))
  }

  /** `s.replace(",", "")`. */
  function RemoveCommas(s: string): (r: string)
    ensures |r| <= |s|
    ensures forall c :: c in r <==> c in s && c != ','
    ensures |s| > 0 && s[0] != ',' ==> |r| > 0 && r[0] == s[0]
    ensures |r| + Count(s, ',') == |s|
  {
    if s == [] then []
    else (if s[0] == ',' then [] else [s[0]]) + RemoveCommas(s[1..])
  }

  /** Removal works piece by piece, so what remains keeps the order of the text. */
  lemma {:induction false} RemoveCommasConcat(a: string, b: string)
    ensures RemoveCommas(a + b) == RemoveCommas(a) + RemoveCommas(b)
  {
    if a == [] {
      assert a + b == b;
    } else {
      assert (a + b)[0] == a[0] && (a + b)[1..] == a[1..] + b;
      RemoveCommasConcat(a[1..], b);
    }
  }

  lemma {:induction false} RemoveCommasKeepsCommaFree(s: string)
    requires forall k :: 0 <= k < |s| ==> s[k] != ','
    ensures RemoveCommas(s) == s
  {
    if s != [] {
      RemoveCommasKeepsCommaFree(s[1..]);
    }
  }

  /** Digits and decimal points only, starting with a digit: what `RemoveCommas` leaves of a run. */
  predicate IsNumeral(raw: string) {
    |raw| > 0 && IsDigit(raw[0]) && forall k :: 0 <= k < |raw| ==> IsDigit(raw[k]) || raw[k] == '.'
  }

  /** `match.group().replace(",", "")`, or `None` when the text has no digit. */
  function RawNumber(text: string): (r: Option<string>)
    ensures r.None? <==> forall k :: 0 <= k < |text| ==> !IsDigit(text[k])
    ensures r.Some? ==> IsNumeral(r.value)
  {
    match FindRun(text)
    case None => None
    case Some(span) =>
      var run := text[span.start..span.end];
      var raw := RemoveCommas(run);
      assert forall k :: 0 <= k < |raw| ==> raw[k] in run;
      Some(raw)
  }

  /** The number of occurrences of `c` in `s`. */
  function Count(s: string, c: char): (n: nat)
    ensures n == 0 <==> c !in s
  {
    if s == [] then 0 else (if s[0] == c then 1 else 0) + Count(s[1..], c)
  }

  /** The index of the first decimal point, or `|s|`. */
  function DotIndex(s: string): (d: nat)
    ensures d <= |s|
    ensures forall k :: 0 <= k < d ==> s[k] != '.'
    ensures d < |s| ==> s[d] == '.'
  {
    if s == [] || s[0] == '.' then 0 else 1 + DotIndex(s[1..])
  }

  /** With at most one point, nothing after the first point is a point. */
  lemma {:induction false} SingleDot(s: string)
    requires Count(s, '.') <= 1 && DotIndex(s) < |s|
    ensures '.' !in s[DotIndex(s) + 1..]
  {
    if s[0] != '.' {
      assert s[1..][DotIndex(s[1..]) + 1..] == s[DotIndex(s) + 1..];
      SingleDot(s[1..]);
    } else {
      assert Count(s[1..], '.') == 0;
    }
  }

  function DigitValue(c: char): nat
    requires IsDigit(c)
  {
    c as int - '0' as int
  }

  predicate AllDigits(s: string) {
    forall k :: 0 <= k < |s| ==> IsDigit(s[k])
  }

  /** The natural number a string of decimal digits denotes. */
  function DigitsValue(ds: string): nat
    requires AllDigits(ds)
  {
    if ds == [] then 0 else DigitsValue(ds[..|ds| - 1]) * 10 + DigitValue(ds[|ds| - 1])
  }

  function Pow10(n: nat): (p: nat)
    ensures p >= 1
  {
    if n == 0 then 1 else 10 * Pow10(n - 1)
  }

  lemma {:induction false} DigitsBelowPow10(ds: string)
    requires AllDigits(ds)
    ensures DigitsValue(ds) < Pow10(|ds|)
  {
    if ds != [] {
      DigitsBelowPow10(ds[..|ds| - 1]);
    }
  }

  /** The digits before the decimal point. */
  function WholeDigits(raw: string): (w: string)
    requires IsNumeral(raw)
    ensures 0 < |w| <= |raw| && AllDigits(w) && w == raw[..|w|]
  {
    raw[..DotIndex(raw)]
  }

  /** The digits after the decimal point (none when there is no point). */
  function FractionDigits(raw: string): (f: string)
    requires IsNumeral(raw) && Count(raw, '.') <= 1
    ensures AllDigits(f)
  {
    var d := DotIndex(raw);
    if d == |raw| then [] else SingleDot(raw); raw[d + 1..]
  }

  /**
   * `float(raw)` for a numeral with at most one point, exactly; it lies between the whole
   * number before the point and the next one, since the fraction part is less than one.
   */
  function DecimalValue(raw: string): (r: real)
    requires IsNumeral(raw) && Count(raw, '.') <= 1
    ensures DigitsValue(WholeDigits(raw)) as real <= r < DigitsValue(WholeDigits(raw)) as real + 1.0
  {
    var f := FractionDigits(raw);
    DigitsBelowPow10(f);
    ProperFraction(DigitsValue(f), Pow10(|f|));
    DigitsValue(WholeDigits(raw)) as real + DigitsValue(f) as real / Pow10(|f|) as real
  }

  lemma ProperFraction(num: nat, den: nat)
    requires num < den
    ensures 0.0 <= num as real / den as real < 1.0
  {
  }

  /** The value of digits written after others: the first ones shift left by the length of the rest. */
  lemma {:induction false} DigitsValueConcat(a: string, b: string)
    requires AllDigits(a) && AllDigits(b)
    ensures AllDigits(a + b)
    ensures DigitsValue(a + b) == DigitsValue(a) * Pow10(|b|) + DigitsValue(b)
  {
    AllDigitsConcat(a, b);
    if b == [] {
      assert a + b == a;
    } else {
      assert AllDigits(b[..|b| - 1]);
      DigitsValueConcat(a, b[..|b| - 1]);
      DigitsValueConcatStep(a, b);
    }
  }

  lemma DigitsValueConcatStep(a: string, b: string)
    requires AllDigits(a) && AllDigits(b) && b != [] && AllDigits(a + b) && AllDigits(b[..|b| - 1])
    requires AllDigits(a + b[..|b| - 1])
    requires DigitsValue(a + b[..|b| - 1]) == DigitsValue(a) * Pow10(|b| - 1) + DigitsValue(b[..|b| - 1])
    ensures DigitsValue(a + b) == DigitsValue(a) * Pow10(|b|) + DigitsValue(b)
  {
    SplitLast(a, b);
    ShiftDigit(DigitsValue(a), DigitsValue(b[..|b| - 1]), Pow10(|b| - 1), DigitValue(b[|b| - 1]));
  }

  lemma ShiftDigit(va: nat, vi: nat, p: nat, dx: nat)
    ensures (va * p + vi) * 10 + dx == va * (10 * p) + (vi * 10 + dx)
  {
  }

  lemma AllDigitsConcat(a: string, b: string)
    requires AllDigits(a) && AllDigits(b)
    ensures AllDigits(a + b)
  {
    forall k | 0 <= k < |a + b| ensures IsDigit((a + b)[k]) {
      if k < |a| { assert (a + b)[k] == a[k]; } else { assert (a + b)[k] == b[k - |a|]; }
    }
  }

  /** `d`, multiplied by `p`, is exactly the whole number `n`. */
  predicate ScalesTo(d: real, p: nat, n: nat) {
    d * p as real == n as real
  }

  /**
   * The exact value of a numeral: scaled by ten to the number of fraction digits, it is the
   * whole number the digits on both sides of the point spell together ("1234.5" is 12345 / 10).
   */
  lemma DecimalValueExact(raw: string)
    requires IsNumeral(raw) && Count(raw, '.') <= 1
    ensures AllDigits(WholeDigits(raw) + FractionDigits(raw))
    ensures ScalesTo(DecimalValue(raw), Pow10(|FractionDigits(raw)|), DigitsValue(WholeDigits(raw) + FractionDigits(raw)))
  {
    var w, f := WholeDigits(raw), FractionDigits(raw);
    DigitsValueConcat(w, f);
    ScaledFraction(DecimalValue(raw), DigitsValue(w), DigitsValue(f), Pow10(|f|), DigitsValue(w + f));
  }

  lemma ScaledFraction(d: real, whole: nat, frac: nat, p: nat, n: nat)
    requires p >= 1 && d == whole as real + frac as real / p as real && n == whole * p + frac
    ensures ScalesTo(d, p, n)
  {
    assert (whole * p) as real == whole as real * p as real;
  }

  /** `_parse_number(text)`. */
  function ParseNumber(text: string): (r: Option<real>)
    ensures r.None? <==> RawNumber(text).None? || Count(RawNumber(text).value, '.') > 1
    ensures r.Some? ==> 0.0 <= r.value
  {
    if text == "" then None
    else
      match RawNumber(text)
      case None => None
      case Some(raw) =>
        if Count(raw, '.') > 1 then None
        else Some(DecimalValue(raw))
  }

  /** Python's `int(x)` on a float: the fractional part is discarded, toward zero. */
  function Truncate(x: real): (r: int)
    ensures 0.0 <= x ==> 0 <= r && r as real <= x < r as real + 1.0
    ensures x < 0.0 ==> r <= 0 && r as real - 1.0 < x <= r as real
  {
    if x >= 0.0 then x.Floor else -((-x).Floor)
  }

  /** The number written before the decimal point of the text's first numeral. */
  function WholePart(text: string): (r: Option<int>)
    ensures r.None? <==> forall k :: 0 <= k < |text| ==> !IsDigit(text[k])
    ensures r.Some? ==> 0 <= r.value
  {
    match RawNumber(text)
    case None => None
    case Some(raw) => Some(DigitsValue(WholeDigits(raw)))
  }

  /** `int(_parse_number(text))` is the number written before the decimal point. */
  lemma TruncateKeepsWholeDigits(text: string)
    requires ParseNumber(text).Some?
    ensures Some(Truncate(ParseNumber(text).value)) == WholePart(text)
  {
    var raw := RawNumber(text).value;
    assert ParseNumber(text).value == DecimalValue(raw);
    FloorOfBounded(DecimalValue(raw), DigitsValue(WholeDigits(raw)));
  }

  lemma FloorOfBounded(x: real, n: nat)
    requires n as real <= x < n as real + 1.0
    ensures Truncate(x) == n
  {
  }

  lemma FindRunOfDigits(digits: string, rest: string)
    requires |digits| > 0 && AllDigits(digits)
    requires rest == [] || !IsRunChar(rest[0])
    ensures FindRun(digits + rest) == Some(Span(0, |digits|))
  {
    var s := digits + rest;
    assert IsDigit(s[0]);
    assert rest != [] ==> s[|digits|] == rest[0];
  }

  /** A run of plain digits followed by something that cannot continue it reads as that number. */
  lemma ParseNumberStopsAtRun(digits: string, rest: string)
    requires |digits| > 0 && AllDigits(digits)
    requires rest == [] || !IsRunChar(rest[0])
    ensures ParseNumber(digits + rest) == Some(DigitsValue(digits) as real)
  {
    RawNumberOfDigits(digits, rest);
    assert forall k :: 0 <= k < |digits| ==> digits[k] != '.';
    assert Count(digits, '.') == 0;
    DecimalValueOfDigits(digits);
    assert digits + rest != [];
  }

  lemma DecimalValueOfDigits(digits: string)
    requires |digits| > 0 && AllDigits(digits) && Count(digits, '.') == 0
    ensures DecimalValue(digits) == DigitsValue(digits) as real
  {
    assert WholeDigits(digits) == digits;
    var f := FractionDigits(digits);
    assert f == [];
    assert DigitsValue(f) as real / Pow10(|f|) as real == 0.0;
  }

  lemma RawNumberOfDigits(digits: string, rest: string)
    requires |digits| > 0 && AllDigits(digits)
    requires rest == [] || !IsRunChar(rest[0])
    ensures RawNumber(digits + rest) == Some(digits)
  {
    FindRunOfDigits(digits, rest);
    assert (digits + rest)[0..|digits|] == digits;
    RemoveCommasKeepsCommaFree(digits);
  }

  /** Decimal rendering of a natural number, as `str(n)`. */
  function DecimalString(n: nat): (s: string)
    ensures |s| > 0 && AllDigits(s)
  {
    var d := ['0' + (n % 10) as char];
    if n < 10 then d else DecimalString(n / 10) + d
  }

  lemma {:induction false} DecimalStringValue(n: nat)
    ensures DigitsValue(DecimalString(n)) == n
  {
    var s := DecimalString(n);
    assert s[..|s| - 1] == if n < 10 then [] else DecimalString(n / 10);
    if n >= 10 {
      DecimalStringValue(n / 10);
    }
  }

  /** Round trip: the scanner reads back every rendered natural number. */
  lemma ParseRendered(n: nat)
    ensures ParseNumber(DecimalString(n)) == Some(n as real)
  {
    DecimalStringValue(n);
    ParseNumberStopsAtRun(DecimalString(n), []);
    assert DecimalString(n) + [] == DecimalString(n);
  }

  lemma {:induction false} CountConcat(a: string, b: string, c: char)
    ensures Count(a + b, c) == Count(a, c) + Count(b, c)
  {
    if a != [] {
      assert (a + b)[1..] == a[1..] + b;
      CountConcat(a[1..], b, c);
    } else {
      assert a + b == b;
    }
  }

  /** One character counts once when it is `c` and not at all otherwise. */
  lemma CountSingle(x: char, c: char)
    ensures Count([x], c) == if x == c then 1 else 0
  {
    assert [x][1..] == [];
  }

  /** The parts of a numeral with its one point at `d`. */
  lemma PointParts(raw: string, d: nat)
    requires 0 < d < |raw| && raw[d] == '.' && AllDigits(raw[..d]) && AllDigits(raw[d + 1..])
    ensures IsNumeral(raw) && Count(raw, '.') == 1
    ensures WholeDigits(raw) == raw[..d] && FractionDigits(raw) == raw[d + 1..]
  {
    PointShape(raw, d);
    PointCount(raw, d);
  }

  lemma PointShape(raw: string, d: nat)
    requires 0 < d < |raw| && raw[d] == '.' && AllDigits(raw[..d]) && AllDigits(raw[d + 1..])
    ensures IsNumeral(raw) && DotIndex(raw) == d
  {
    assert forall k :: 0 <= k < d ==> raw[k] == raw[..d][k];
    assert forall k :: d < k < |raw| ==> raw[k] == raw[d + 1..][k - d - 1];
  }

  lemma PointCount(raw: string, d: nat)
    requires 0 < d < |raw| && raw[d] == '.' && AllDigits(raw[..d]) && AllDigits(raw[d + 1..])
    ensures Count(raw, '.') == 1
  {
    var w, f := raw[..d], raw[d + 1..];
    assert raw == w + "." + f;
    CountConcat(w + ".", f, '.');
    CountConcat(w, ".", '.');
    assert '.' !in w && '.' !in f;
  }

  lemma AreaExampleRaw()
    ensures RawNumber("1,234.5 km2") == Some("1234.5")
  {
    AreaExampleRun();
    assert "1,234.5 km2"[0..7] == "1,234.5";
    AreaExampleCommas();
  }

  lemma AreaExampleRun()
    ensures FindRun("1,234.5 km2") == Some(Span(0, 7))
  {
    var s := "1,234.5 km2";
    assert FirstDigitFrom(s, 0) == 0;
    assert !IsRunChar(s[7]);
    assert RunEndFrom(s, 7) == 7;
    assert RunEndFrom(s, 4) == 7;
    assert RunEndFrom(s, 1) == 7;
  }

  lemma AreaExampleCommas()
    ensures RemoveCommas("1,234.5") == "1234.5"
  {
    assert "1,234.5" == "1," + "234.5";
    RemoveCommasConcat("1,", "234.5");
    assert RemoveCommas("1,") == "1" by {
      assert "1,"[1..] == "," && ","[1..] == [];
    }
    RemoveCommasKeepsCommaFree("234.5");
  }

  lemma AreaExample()
    ensures ParseNumber("1,234.5 km2") == Some(1234.5)
  {
    AreaExampleRaw();
    AreaExamplePoint();
    AreaExampleValue();
    ParseNumberOfRaw("1,234.5 km2", "1234.5");
  }

  /** `_parse_number` on a text whose numeral has at most one point. */
  lemma ParseNumberOfRaw(text: string, raw: string)
    requires RawNumber(text) == Some(raw) && Count(raw, '.') <= 1
    ensures ParseNumber(text) == Some(DecimalValue(raw))
  {
  }

  lemma AreaExampleValue()
    requires IsNumeral("1234.5") && Count("1234.5", '.') == 1
    requires WholeDigits("1234.5") == "1234" && FractionDigits("1234.5") == "5"
    ensures DecimalValue("1234.5") == 1234.5
  {
    DigitsValue1234();
    DigitsValue5();
    assert Pow10(1) == 10;
  }

  lemma AreaExamplePoint()
    ensures IsNumeral("1234.5") && Count("1234.5", '.') == 1
    ensures WholeDigits("1234.5") == "1234" && FractionDigits("1234.5") == "5"
  {
    var raw := "1234.5";
    assert raw[..4] == "1234" && raw[5..] == "5";
    assert AllDigits(raw[..4]);
    PointParts(raw, 4);
  }

  lemma DigitsValue5()
    ensures DigitsValue("5") == 5
  {
    assert DecimalString(5) == "5";
    DecimalStringValue(5);
  }

  lemma DigitsValue1234()
    ensures DigitsValue("1234") == 1234
  {
    assert DecimalString(1234) == "1234";
    DecimalStringValue(1234);
  }

  /** A numeral with two decimal points is rejected rather than read as the first part. */
  lemma TwoPointsExample()
    ensures ParseNumber("1.2.3") == None
  {
    assert FindRun("1.2.3") == Some(Span(0, 5));
    assert "1.2.3"[0..5] == "1.2.3";
    RemoveCommasKeepsCommaFree("1.2.3");
    assert Count("1.2.3", '.') == 2;
  }

  /** A text without any digit has no number. */
  lemma NoDigitExample()
    ensures ParseNumber("n/a") == None
  {
    var s := "n/a";
    assert forall k :: 0 <= k < |s| ==> !IsDigit(s[k]);
  }
}
