/**
  Decimal text for amounts: the text `x.toFixed(2)` produces for an exact number `x`, and a
  reader for plain decimal text (an optional minus sign, digits, and optionally a point
  followed by digits), which is the value parseFloat gives such text.
*/
module Decimal {
  import opened Wrappers
  import opened TradeMath

  predicate IsDigit(c: char) {
    '0' <= c <= '9'
  }

  predicate AllDigits(s: string) {
    forall i :: 0 <= i < |s| ==> IsDigit(s[i])
  }

  function DigitChar(d: nat): (c: char)
    requires d < 10
    ensures IsDigit(c) && c as int - '0' as int == d
  {
    ('0' as int + d) as char
  }

  /** The number a string of decimal digits denotes; the empty string denotes 0. */
  function DigitsValue(s: string): nat
    requires AllDigits(s)
  {
    if s == [] then 0 else DigitsValue(s[..|s| - 1]) * 10 + (s[|s| - 1] as int - '0' as int)
  }

  /** Decimal text of `n` without leading zeros. */
  function NatText(n: nat): (s: string)
    ensures |s| >= 1 && AllDigits(s)
    ensures s[0] == '0' <==> n == 0
    ensures |s| == 1 || s[0] != '0'
  {
    if n < 10 then [DigitChar(n)] else NatText(n / 10) + [DigitChar(n % 10)]
  }

  lemma {:induction false} NatTextValue(n: nat)
    ensures DigitsValue(NatText(n)) == n
  {
    if n >= 10 {
      var s := NatText(n);
      assert s[..|s| - 1] == NatText(n / 10);
      NatTextValue(n / 10);
    }
  }

  function Pow10(k: nat): (p: nat)
    ensures p >= 1
  {
    if k == 0 then 1 else 10 * Pow10(k - 1)
  }

  /** Position of the first '.' in `s`, or `|s|` when there is none. */
  function DotIndex(s: string): (k: nat)
    ensures k <= |s|
    ensures forall i :: 0 <= i < k ==> s[i] != '.'
    ensures k < |s| ==> s[k] == '.'
  {
    if s == [] then 0 else if s[0] == '.' then 0 else 1 + DotIndex(s[1..])
  }

  /** Value of unsigned plain decimal text `D+` or `D+.D+`; `None` for anything else. */
  function UnsignedValue(s: string): Option<real> {
    var k := DotIndex(s);
    if k < |s| then PartsValue(s[..k], s[k + 1..], true) else PartsValue(s, "", false)
  }

  /** Value of a whole part and a fractional part, the latter required when a point was present. */
  function PartsValue(whole: string, frac: string, dotted: bool): Option<real> {
    if whole != "" && AllDigits(whole) && AllDigits(frac) && (dotted ==> frac != "") then
      Some(DigitsValue(whole) as real + DigitsValue(frac) as real / Pow10(|frac|) as real)
    else None
  }

  /** Value of plain decimal text with an optional leading minus sign; `None` for anything else. */
  function DecimalValue(s: string): (r: Option<real>)
    ensures s == "" ==> r.None?
    ensures r.Some? && r.value < 0.0 ==> s[0] == '-'
  {
    if |s| > 0 && s[0] == '-' then
      match UnsignedValue(s[1..])
      case Some(v) => Some(-v)
      case None => None
    else UnsignedValue(s)
  }

  /**
    `x.toFixed(2)`: a minus sign when `x` is negative (also when the rounded value is zero,
    as in "-0.00"), the whole part, a point and exactly two digits of cents.
  */
  function FixedText(x: real): (s: string)
    ensures |s| >= 4 && s[|s| - 3] == '.' && AllDigits(s[|s| - 2..])
    ensures (s[0] == '-') <==> x < 0.0
    ensures var w := if x < 0.0 then s[1..|s| - 3] else s[..|s| - 3];
      |w| >= 1 && AllDigits(w) && (|w| == 1 || w[0] != '0')
  {
    (if x < 0.0 then "-" else "") + CentsText(Cents(x))
  }

  /** Unsigned text of `c` hundredths: the whole part, a point and two digits. */
  function CentsText(c: nat): (s: string)
    ensures |s| >= 4 && s[|s| - 3] == '.' && IsDigit(s[0])
    ensures AllDigits(s[..|s| - 3]) && AllDigits(s[|s| - 2..])
    ensures |s| == 4 || s[0] != '0'
  {
    var r := c % 100;
    NatText(c / 100) + "." + [DigitChar(r / 10), DigitChar(r % 10)]
  }

  /** The value of `whole.frac` for digit strings `whole` and `frac`. */
  lemma UnsignedOfParts(whole: string, frac: string)
    requires AllDigits(whole)
    ensures UnsignedValue(whole + "." + frac) == PartsValue(whole, frac, true)
  {
    var s := whole + ("." + frac);
    assert ("." + frac)[0] == '.';
    assert DotIndex("." + frac) == 0;
    DotIndexAfter(whole, "." + frac);
    var k := DotIndex(s);
    assert k == |whole| < |s|;
    assert s[..k] == whole;
    assert s[k + 1..] == frac;
    assert whole + "." + frac == s;
    assert UnsignedValue(s) == PartsValue(whole, frac, true);
  }

  /** Text of a whole number of cents reads back as that many hundredths. */
  lemma UnsignedCents(c: nat)
    ensures UnsignedValue(CentsText(c)) == Some(c as real / 100.0)
  {
    var q, r := c / 100, c % 100;
    var frac := [DigitChar(r / 10), DigitChar(r % 10)];
    UnsignedOfParts(NatText(q), frac);
    NatTextValue(q);
    assert frac[..1] == [DigitChar(r / 10)];
    assert frac[..1][..0] == [];
    assert DigitsValue(frac[..1]) == r / 10;
    assert DigitsValue(frac) == r;
    assert Pow10(|frac|) == 100;
    assert NatText(q) != "" && AllDigits(NatText(q)) && AllDigits(frac);
    assert PartsValue(NatText(q), frac, true) == Some(q as real + r as real / 100.0);
    CentsSplit(c);
  }

  lemma CentsSplit(c: nat)
    ensures (c / 100) as real + (c % 100) as real / 100.0 == c as real / 100.0
  {
    var q, r := c / 100, c % 100;
    assert c == q * 100 + r;
    assert c as real == q as real * 100.0 + r as real;
  }

  lemma {:induction false} DotIndexAfter(p: string, rest: string)
    requires AllDigits(p)
    ensures DotIndex(p + rest) == |p| + DotIndex(rest)
  {
    if p != [] {
      assert (p + rest)[1..] == p[1..] + rest;
      DotIndexAfter(p[1..], rest);
    } else {
      assert p + rest == rest;
    }
  }

  /** Reading back the text of `x.toFixed(2)` gives `x` rounded to cents. */
  lemma FixedTextValue(x: real)
    ensures DecimalValue(FixedText(x)) == Some(Round2(x))
  {
    var c := Cents(x);
    var body := CentsText(c);
    UnsignedCents(c);
    if x < 0.0 {
      assert FixedText(x) == "-" + body;
      assert FixedText(x)[1..] == body;
      assert Round2(x) == -(c as real / 100.0);
    } else {
      assert FixedText(x) == body;
      assert Round2(x) == c as real / 100.0;
    }
  }
}
