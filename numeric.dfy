/**
 * Python's `int()` and `float()` on the plain decimal texts a lifter types, such as `135`,
 * `+5`, `-5`, `137.5`, `.5` and `135.`; and `str()` of a natural number, the text a
 * well-formed entry holds.
 */
module Numeric {
  import opened Wrappers
  import Text

  predicate IsDigit(c: char) {
    '0' <= c <= '9'
  }

  predicate AllDigits(s: string) {
    forall i :: 0 <= i < |s| ==> IsDigit(s[i])
  }

  /** The number a string of decimal digits denotes (0 for the empty string). */
  function DigitsValue(s: string): nat
    requires AllDigits(s)
  {
    if s == [] then 0 else 10 * DigitsValue(s[..|s| - 1]) + (s[|s| - 1] as int - '0' as int)
  }

  function Pow10(k: nat): (p: nat)
    ensures p >= 1
  {
    if k == 0 then 1 else 10 * Pow10(k - 1)
  }

  /** An optional leading `+` or `-`: whether it was `-`, and the text after it. */
  function Unsign(s: string): (bool, string) {
    if s != [] && (s[0] == '+' || s[0] == '-') then (s[0] == '-', s[1..]) else (false, s)
  }

  /** The default limit on the number of digits `int()` converts (since Python 3.11, and in
      the security releases before it); a longer digit string raises `ValueError`. */
  const MaxIntDigits: nat := 4300

  /** `int(s)` on the grammar `[+-]digits` with at most `MaxIntDigits` digits; any other text
      is refused. */
  function ParseInt(s: string): (r: Option<int>)
    ensures r.Some? ==> s != [] && (s[0] != '-' ==> r.value >= 0)
  {
    var (negative, body) := Unsign(s);
    if body != [] && AllDigits(body) && |body| <= MaxIntDigits then
      var n := DigitsValue(body) as int;
      Some(if negative then -n else n)
    else None
  }

  /** The number `whole.fraction` denotes: the fraction digits count in tenths, hundredths, … */
  function DecimalValue(whole: string, fraction: string): (v: real)
    requires AllDigits(whole) && AllDigits(fraction)
    ensures v >= DigitsValue(whole) as real
  {
    DigitsValue(whole) as real + DigitsValue(fraction) as real / Pow10(|fraction|) as real
  }

  /** `float(s)` on the grammar `[+-](digits | digits.digits | digits. | .digits)`; any other
      text is refused. */
  function ParseFloat(s: string): (r: Option<real>)
    ensures r.Some? ==> s != [] && (s[0] != '-' ==> r.value >= 0.0)
  {
    var (negative, body) := Unsign(s);
    var parts := Text.SplitOn(body, '.');
    if |parts| == 1 && parts[0] != [] && AllDigits(parts[0]) then
      var v := DigitsValue(parts[0]) as real;
      Some(if negative then -v else v)
    else if |parts| == 2 && (parts[0] != [] || parts[1] != []) && AllDigits(parts[0]) && AllDigits(parts[1]) then
      var v := DecimalValue(parts[0], parts[1]);
      Some(if negative then -v else v)
    else None
  }

  function DigitChar(d: nat): (c: char)
    requires d < 10
    ensures IsDigit(c) && c as int - '0' as int == d
  {
    ('0' as int + d) as char
  }

  /** `str(n)`: the decimal digits of `n`, most significant first, without leading zeros. */
  function ShowNat(n: nat): (s: string)
    ensures s != [] && AllDigits(s)
  {
    if n < 10 then [DigitChar(n)] else ShowNat(n / 10) + [DigitChar(n % 10)]
  }

  lemma {:induction false} ShowNatValue(n: nat)
    ensures DigitsValue(ShowNat(n)) == n
  {
    if n >= 10 {
      ShowNatValue(n / 10);
      var s := ShowNat(n);
      assert s[..|s| - 1] == ShowNat(n / 10);
    }
  }

  lemma NoSeparatorInDigits(s: string, c: char)
    requires AllDigits(s) && !IsDigit(c)
    ensures c !in s
  {
  }

  /** `int` reads back what `str` writes, up to the digit limit. */
  lemma ParseIntShow(n: nat)
    requires |ShowNat(n)| <= MaxIntDigits
    ensures ParseInt(ShowNat(n)) == Some(n)
  {
    ShowNatValue(n);
  }

  /** `float` reads back what `str` writes for a natural number. */
  lemma ParseFloatShow(n: nat)
    ensures ParseFloat(ShowNat(n)) == Some(n as real)
  {
    var s := ShowNat(n);
    NoSeparatorInDigits(s, '.');
    Text.SplitOnWithout(s, '.');
    ShowNatValue(n);
  }

  /** `float` of `a.b` for digit strings `a` and `b`, not both empty, with an optional sign:
      the value of `a` plus `b` read as a fraction of `10^|b|`, negated under `-`. */
  lemma ParseFloatDecimal(sign: string, a: string, b: string)
    requires sign == "" || sign == "+" || sign == "-"
    requires AllDigits(a) && AllDigits(b) && (a != [] || b != [])
    ensures var v := DecimalValue(a, b);
            ParseFloat(sign + a + ['.'] + b) == Some(if sign == "-" then -v else v)
  {
    var body := a + ['.'] + b;
    assert body[0] == (if a == [] then '.' else a[0]);
    UnsignOf(sign, body);
    SplitAtPoint(a, b);
    assert sign + a + ['.'] + b == sign + body;
    ParseFloatOfParts(sign + body, sign == "-", body, a, b);
  }

  lemma ParseFloatOfParts(s: string, negative: bool, body: string, a: string, b: string)
    requires Unsign(s) == (negative, body) && Text.SplitOn(body, '.') == [a, b]
    requires AllDigits(a) && AllDigits(b) && (a != [] || b != [])
    ensures var v := DecimalValue(a, b);
            ParseFloat(s) == Some(if negative then -v else v)
  {
  }

  lemma UnsignOf(sign: string, body: string)
    requires sign == "" || sign == "+" || sign == "-"
    requires body != [] && body[0] != '+' && body[0] != '-'
    ensures Unsign(sign + body) == (sign == "-", body)
  {
    if sign == "" {
      assert sign + body == body;
    } else {
      assert (sign + body)[0] == sign[0];
      assert (sign + body)[1..] == body;
    }
  }

  /** Two digit strings around a point split into exactly those two. */
  lemma SplitAtPoint(a: string, b: string)
    requires AllDigits(a) && AllDigits(b)
    ensures Text.SplitOn(a + ['.'] + b, '.') == [a, b]
  {
    NoSeparatorInDigits(a, '.');
    NoSeparatorInDigits(b, '.');
    Text.SplitOnAfter(a, '.', b);
    Text.SplitOnWithout(b, '.');
  }

  /** A weight with whole and fraction digits: `137.5`. */
  lemma ParseFloatWithFraction()
    ensures ParseFloat("137.5") == Some(137.5)
  {
    var whole, fraction := "137", "5";
    assert DigitsValue(whole) == 137 by {
      assert whole[..2] == "13" && whole[..2][..1] == "1" && whole[..2][..1][..0] == "";
    }
    assert DigitsValue(fraction) == 5 by { assert fraction[..0] == ""; }
    assert DecimalValue(whole, fraction) == 137.5;
    assert "137.5" == "" + whole + ['.'] + fraction;
    ParseFloatDecimal("", whole, fraction);
  }

  /** A negative weight with no whole digits: `-.5`. */
  lemma ParseFloatFractionOnly()
    ensures ParseFloat("-.5") == Some(-0.5)
  {
    var fraction := "5";
    assert DigitsValue(fraction) == 5 by { assert fraction[..0] == ""; }
    assert DecimalValue("", fraction) == 0.5;
    assert "-.5" == "-" + "" + ['.'] + fraction;
    ParseFloatDecimal("-", "", fraction);
  }
}
