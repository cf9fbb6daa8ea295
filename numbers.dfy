/**
 * Number text as the readers see it: Python's `int(s)`, `str(n)` and
 * `float(s)` for plain decimal notation, and the Swedish decimal comma.
 */
module Numbers {
  import opened Wrappers
  import opened Text

  predicate IsDigit(c: char) { '0' <= c <= '9' }

  predicate AllDigits(s: string) { forall i :: 0 <= i < |s| ==> IsDigit(s[i]) }

  function DigitChar(d: nat): (c: char)
    requires d < 10
    ensures IsDigit(c)
  {
    ('0' as int + d) as char
  }

  /** The number a string of decimal digits denotes (most significant digit first). */
  function DigitsValue(s: string): nat
    requires AllDigits(s)
  {
    if s == [] then 0 else 10 * DigitsValue(s[..|s| - 1]) + (s[|s| - 1] as int - '0' as int)
  }

  function Pow10(n: nat): (p: nat)
    ensures p > 0
  {
    if n == 0 then 1 else 10 * Pow10(n - 1)
  }

  /** The last `w` decimal digits of `n`, zero-padded on the left. */
  function FixedDigits(n: nat, w: nat): (s: string)
    ensures |s| == w && AllDigits(s)
  {
    if w == 0 then "" else FixedDigits(n / 10, w - 1) + [DigitChar(n % 10)]
  }

  /** Reading back `w` fixed digits of a number below 10^w gives the number. */
  lemma {:induction false} FixedDigitsValue(n: nat, w: nat)
    requires n < Pow10(w)
    ensures DigitsValue(FixedDigits(n, w)) == n
  {
    if w > 0 {
      var q, d := n / 10, n % 10;
      assert n == 10 * q + d;
      assert q < Pow10(w - 1);
      FixedDigitsValue(q, w - 1);
      var s := FixedDigits(n, w);
      assert s[..w - 1] == FixedDigits(q, w - 1);
      assert s[w - 1] as int - '0' as int == d;
    }
  }

  /** Every digit string is the fixed-width rendering of its own value. */
  lemma {:induction false} DigitsFixed(s: string)
    requires AllDigits(s)
    ensures FixedDigits(DigitsValue(s), |s|) == s
  {
    if s != [] {
      var init := s[..|s| - 1];
      var d := s[|s| - 1] as int - '0' as int;
      var v := DigitsValue(s);
      assert v == 10 * DigitsValue(init) + d;
      assert v / 10 == DigitsValue(init) && v % 10 == d;
      DigitsFixed(init);
      assert s == init + [s[|s| - 1]];
    }
  }

  /** `str(n)` for a natural number. */
  function NatToString(n: nat): (s: string)
    ensures s != [] && AllDigits(s)
  {
    if n < 10 then [DigitChar(n)] else NatToString(n / 10) + [DigitChar(n % 10)]
  }

  lemma {:induction false} NatToStringValue(n: nat)
    ensures DigitsValue(NatToString(n)) == n
  {
    if n >= 10 {
      var s := NatToString(n);
      assert s[..|s| - 1] == NatToString(n / 10);
      NatToStringValue(n / 10);
    } else {
      var s := NatToString(n);
      assert s[..0] == "";
    }
  }

  /** `str(n)` */
  function IntToString(n: int): string
  {
    if n < 0 then "-" + NatToString(-n) else NatToString(n)
  }

  /** The text left once surrounding whitespace and one optional sign are removed, and whether the sign was `-`. */
  function SignAndBody(s: string): (bool, string)
  {
    var t := Strip(s, Whitespace);
    if t != [] && t[0] in {'+', '-'} then (t[0] == '-', t[1..]) else (false, t)
  }

  /** `int(s)`: surrounding whitespace, an optional sign and at least one decimal digit; None where Python raises ValueError. */
  function ParseInt(s: string): (r: Option<int>)
    ensures r.Some? ==> AllDigits(SignAndBody(s).1) && SignAndBody(s).1 != []
  {
    var (negative, body) := SignAndBody(s);
    if body != [] && AllDigits(body) then
      var v: int := DigitsValue(body);
      Some(if negative then -v else v)
    else
      None
  }

  lemma NoWhitespaceAtEnds(s: string)
    requires s != [] && s[0] !in Whitespace && s[|s| - 1] !in Whitespace
    ensures Strip(s, Whitespace) == s
  {
    assert TrimLeft(s, Whitespace) == s;
  }

  /** A digit string, with or without a leading minus, splits into its sign and its digits. */
  lemma SignAndBodyOfDigits(digits: string, negative: bool)
    requires digits != [] && AllDigits(digits)
    ensures SignAndBody(if negative then "-" + digits else digits) == (negative, digits)
  {
    var s := if negative then "-" + digits else digits;
    assert IsDigit(digits[|digits| - 1]);
    assert s[|s| - 1] == digits[|digits| - 1];
    assert IsDigit(digits[0]);
    NoWhitespaceAtEnds(s);
    if negative {
      assert s[1..] == digits;
    }
  }

  /** `int(str(n)) == n` */
  lemma ParseIntRoundTrip(n: int)
    ensures ParseInt(IntToString(n)) == Some(n)
  {
    var m: nat := if n < 0 then -n else n;
    NatToStringValue(m);
    SignAndBodyOfDigits(NatToString(m), n < 0);
  }

  /** `s.replace(',', '.')`: the Swedish decimal comma becomes a decimal point, nothing else changes. */
  function DecimalComma(s: string): (r: string)
    ensures |r| == |s| && ',' !in r
    ensures forall i :: 0 <= i < |s| && s[i] != ',' ==> r[i] == s[i]
  {
    seq(|s|, i requires 0 <= i < |s| => if s[i] == ',' then '.' else s[i])
  }

  /** The value of the digits after a decimal point: `5` is 0.5, `25` is 0.25. */
  function FractionValue(fraction: string): real
    requires AllDigits(fraction)
  {
    DigitsValue(fraction) as real / Pow10(|fraction|) as real
  }

  /** The value of the decimal numeral `whole.fraction`. */
  function DecimalValue(whole: string, fraction: string): real
    requires AllDigits(whole) && AllDigits(fraction)
  {
    DigitsValue(whole) as real + FractionValue(fraction)
  }

  /**
   * `float(s)` for plain decimal notation: surrounding whitespace, an optional
   * sign, digits with at most one decimal point and at least one digit.
   * None where Python raises ValueError.
   */
  function ParseDecimal(s: string): Option<real>
  {
    var (negative, body) := SignAndBody(s);
    var i := IndexOf(body, '.');
    var whole := body[..i];
    var fraction := if i < |body| then body[i + 1..] else "";
    if AllDigits(whole) && AllDigits(fraction) && |whole| + |fraction| > 0 then
      var v := DecimalValue(whole, fraction);
      Some(if negative then -v else v)
    else
      None
  }

  /** `make_float(s)`, also how `read_course_results` turns module credits into a number. */
  function MakeFloat(s: string): (r: Option<real>)
    ensures ',' !in s ==> r == ParseDecimal(s)
  {
    assert ',' !in s ==> DecimalComma(s) == s;
    ParseDecimal(DecimalComma(s))
  }

  /** The plain decimal `whole.fraction` (or `whole` alone when the fraction is empty) reads as its exact value. */
  lemma ParseUnsignedDecimal(whole: string, fraction: string)
    requires whole != [] && AllDigits(whole) && AllDigits(fraction)
    ensures ParseDecimal(if fraction == [] then whole else whole + "." + fraction)
         == Some(DecimalValue(whole, fraction))
  {
    if fraction == [] {
      ParseWholeNumeral(whole);
    } else {
      ParsePointNumeral(whole, fraction);
    }
  }

  /** Digits without a decimal point read as their value. */
  lemma ParseWholeNumeral(whole: string)
    requires whole != [] && AllDigits(whole)
    ensures ParseDecimal(whole) == Some(DecimalValue(whole, ""))
  {
    assert IsDigit(whole[0]) && IsDigit(whole[|whole| - 1]);
    NoWhitespaceAtEnds(whole);
    assert SignAndBody(whole) == (false, whole);
    assert forall j :: 0 <= j < |whole| ==> whole[j] != '.';
    IndexOfAt(whole, '.', |whole|);
    assert whole[..|whole|] == whole;
  }

  /** Digits, a decimal point and more digits read as their value. */
  lemma ParsePointNumeral(whole: string, fraction: string)
    requires whole != [] && fraction != [] && AllDigits(whole) && AllDigits(fraction)
    ensures ParseDecimal(whole + "." + fraction) == Some(DecimalValue(whole, fraction))
  {
    var d := whole + "." + fraction;
    assert d[0] == whole[0] && d[|d| - 1] == fraction[|fraction| - 1];
    assert IsDigit(d[0]) && IsDigit(d[|d| - 1]);
    NoWhitespaceAtEnds(d);
    assert SignAndBody(d) == (false, d);
    assert d[|whole|] == '.';
    assert forall j :: 0 <= j < |whole| ==> d[j] == whole[j] && d[j] != '.';
    IndexOfAt(d, '.', |whole|);
    assert d[..|whole|] == whole;
    assert d[|whole| + 1..] == fraction;
  }

  /** Between two digit strings, the decimal comma is the only character `DecimalComma` changes. */
  lemma DecimalCommaBetweenDigits(whole: string, fraction: string)
    requires AllDigits(whole) && AllDigits(fraction)
    ensures DecimalComma(whole + "," + fraction) == whole + "." + fraction
  {
    var s := whole + "," + fraction;
    var t := whole + "." + fraction;
    forall i | 0 <= i < |s|
      ensures DecimalComma(s)[i] == t[i]
    {
      if i < |whole| {
        assert s[i] == whole[i] && IsDigit(whole[i]);
      } else if i > |whole| {
        assert s[i] == fraction[i - |whole| - 1] && IsDigit(fraction[i - |whole| - 1]);
      }
    }
  }

  /** A credit written with a decimal comma, such as `7,5`, reads as the decimal `7.5`. */
  lemma MakeFloatOfCommaDecimal(whole: nat, fraction: string)
    requires fraction != [] && AllDigits(fraction)
    ensures MakeFloat(NatToString(whole) + "," + fraction) == Some(DecimalValue(NatToString(whole), fraction))
    ensures DecimalValue(NatToString(whole), fraction) == whole as real + FractionValue(fraction)
  {
    var w := NatToString(whole);
    DecimalCommaBetweenDigits(w, fraction);
    ParseUnsignedDecimal(w, fraction);
    NatToStringValue(whole);
  }

  /** A natural number written by `str(n)` reads back as itself under `float`. */
  lemma ParseDecimalOfNat(n: nat)
    ensures ParseDecimal(NatToString(n)) == Some(n as real)
  {
    ParseUnsignedDecimal(NatToString(n), "");
    NatToStringValue(n);
    assert DigitsValue("") == 0 && Pow10(0) == 1 && FractionValue("") == 0.0;
    assert DecimalValue(NatToString(n), "") == n as real;
  }
}
