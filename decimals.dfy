/**
 * Exact decimals as the lab stores and prints them. A reference bound is a
 * `DecimalField(max_digits=10, decimal_places=2)`, modelled as a whole number
 * of hundredths; a result value is text, read by a decimal parser.
 */
module Decimals {
  import opened Optional
  import opened Text

  /** A stored two-place decimal: `Some(c)` is `c / 100`, `None` is SQL NULL. */
  type Bound = Option<int>

  /** Python truthiness of a stored decimal: `None` and `Decimal('0.00')` are falsy. */
  predicate Truthy(b: Bound) {
    b.Some? && b.value != 0
  }

  function CentsToReal(c: int): real {
    c as real / 100.0
  }

  /** The number of hundredths without its sign. */
  function Abs(c: int): nat {
    if c < 0 then -c else c
  }

  /** `str()` of a stored two-place decimal: optional minus, whole part, point, two digits. */
  function FormatCents(c: int): (s: string)
    ensures |s| >= 4 && IsDigit(s[|s| - 1])
    ensures c >= 0 ==> s == FormatUnsigned(c)
    ensures c < 0 ==> s == "-" + FormatUnsigned(Abs(c))
  {
    if c < 0 then "-" + FormatUnsigned(Abs(c)) else FormatUnsigned(c)
  }

  function FormatUnsigned(a: nat): (s: string)
    ensures |s| >= 4 && IsDigit(s[0]) && IsDigit(s[|s| - 1])
  {
    NatToStr(a / 100) + "." + Pad2(a % 100)
  }

  /**
   * Reads plain decimal notation after stripping surrounding whitespace:
   * optional sign, digits, optional point and digits, at least one digit.
   */
  function ParseDecimal(s: string): Option<real> {
    ParseSigned(Strip(s))
  }

  function ParseSigned(t: string): Option<real> {
    if t != [] && (t[0] == '-' || t[0] == '+') then
      match ParseUnsigned(t[1..])
      case None => None
      case Some(v) => Some(if t[0] == '-' then -v else v)
    else
      ParseUnsigned(t)
  }

  function ParseUnsigned(u: string): Option<real> {
    var i := IndexOf(u, '.');
    ParseParts(u[..i], if i < |u| then u[i + 1..] else [])
  }

  /** The digits before and after the point: all digits, and at least one in all. */
  function ParseParts(whole: string, frac: string): Option<real> {
    if AllDigits(whole) && AllDigits(frac) && |whole| + |frac| >= 1 then
      Some(DigitsToNat(whole) as real + FractionValue(frac))
    else
      None
  }

  /** A run of digits with no sign, point or surrounding space reads as the whole number it spells. */
  lemma ParseWholeNumber(d: string)
    requires d != [] && AllDigits(d)
    ensures ParseDecimal(d) == Some(DigitsToNat(d) as real)
  {
    assert !IsSpace(d[0]) && !IsSpace(d[|d| - 1]);
    StripTight(d, IsSpace);
    assert IndexOf(d, '.') == |d|;
    assert d[..|d|] == d;
    assert ParseUnsigned(d) == ParseParts(d, []);
  }

  /** Text that reads as a decimal holds a digit once stripped: text such as `pos` is rejected. */
  lemma ParseNeedsDigit(s: string)
    requires ParseDecimal(s).Some?
    ensures exists k :: 0 <= k < |Strip(s)| && IsDigit(Strip(s)[k])
  {
    var t := Strip(s);
    if t != [] && (t[0] == '-' || t[0] == '+') {
      UnsignedNeedsDigit(t[1..]);
      var k :| 0 <= k < |t[1..]| && IsDigit(t[1..][k]);
      assert IsDigit(t[k + 1]);
    } else {
      UnsignedNeedsDigit(t);
    }
  }

  lemma UnsignedNeedsDigit(u: string)
    requires ParseUnsigned(u).Some?
    ensures exists k :: 0 <= k < |u| && IsDigit(u[k])
  {
    var i := IndexOf(u, '.');
    var whole, frac := u[..i], if i < |u| then u[i + 1..] else [];
    assert AllDigits(whole) && AllDigits(frac) && |whole| + |frac| >= 1;
    if whole != [] {
      assert IsDigit(u[0]) by { assert whole[0] == u[0]; }
    } else {
      assert IsDigit(u[i + 1]) by { assert frac[0] == u[i + 1]; }
    }
  }

  /** The value of the digits after the point: `0.d1d2...dk`, read from the right. */
  function FractionValue(frac: string): real
    requires AllDigits(frac)
  {
    if frac == [] then 0.0 else (DigitValue(frac[0]) as real + FractionValue(frac[1..])) / 10.0
  }

  lemma {:induction false} IndexOfAfterDigits(d: string, rest: string)
    requires AllDigits(d)
    ensures IndexOf(d + "." + rest, '.') == |d|
  {
    if d != [] {
      assert (d + "." + rest)[1..] == d[1..] + "." + rest;
      IndexOfAfterDigits(d[1..], rest);
    }
  }

  /** Digits, a point and more text: the parts are split at that point. */
  lemma ParseUnsignedSplit(d: string, p: string)
    requires AllDigits(d)
    ensures ParseUnsigned(d + "." + p) == ParseParts(d, p)
  {
    var u := d + "." + p;
    IndexOfAfterDigits(d, p);
    assert u[..|d|] == d;
    assert u[|d| + 1..] == p;
  }

  lemma FractionOfPad2(r: nat)
    requires r < 100
    ensures FractionValue(Pad2(r)) == r as real / 100.0
  {
    var s := Pad2(r);
    DigitRoundTrip(r / 10);
    DigitRoundTrip(r % 10);
    assert s[1..][1..] == [];
    assert FractionValue(s[1..]) == (r % 10) as real / 10.0;
    assert FractionValue(s) == ((r / 10) as real + (r % 10) as real / 10.0) / 10.0;
    assert r as real == (r / 10) as real * 10.0 + (r % 10) as real;
  }

  lemma CentsSplit(a: nat)
    ensures CentsToReal(a) == (a / 100) as real + (a % 100) as real / 100.0
  {
    var q, r := a / 100, a % 100;
    assert a == q * 100 + r;
    assert a as real == q as real * 100.0 + r as real;
  }

  /** The parts printed for `a` hundredths read back as `a / 100`. */
  lemma PartsOfCents(a: nat)
    ensures ParseParts(NatToStr(a / 100), Pad2(a % 100)) == Some(CentsToReal(a))
  {
    NatToStrRoundTrip(a / 100);
    FractionOfPad2(a % 100);
    CentsSplit(a);
  }

  lemma UnsignedFormatRoundTrip(a: nat)
    ensures ParseUnsigned(FormatUnsigned(a)) == Some(CentsToReal(a))
  {
    ParseUnsignedSplit(NatToStr(a / 100), Pad2(a % 100));
    PartsOfCents(a);
  }

  lemma StripFormatted(c: int)
    ensures Strip(FormatCents(c)) == FormatCents(c)
  {
    var s := FormatCents(c);
    assert !IsSpace(s[0]) && !IsSpace(s[|s| - 1]);
    StripTight(s, IsSpace);
  }

  /** Printing a stored bound and reading it back gives the same number. */
  lemma FormatParseRoundTrip(c: int)
    ensures ParseDecimal(FormatCents(c)) == Some(CentsToReal(c))
  {
    StripFormatted(c);
    FormattedParsesSigned(c);
  }

  lemma FormattedParsesSigned(c: int)
    ensures ParseSigned(FormatCents(c)) == Some(CentsToReal(c))
  {
    if c < 0 {
      NegativeRoundTrip(c);
    } else {
      NonNegativeRoundTrip(c);
    }
  }

  lemma NegativeRoundTrip(c: int)
    requires c < 0
    ensures ParseSigned("-" + FormatUnsigned(Abs(c))) == Some(CentsToReal(c))
  {
    UnsignedFormatRoundTrip(Abs(c));
    assert CentsToReal(Abs(c)) == -CentsToReal(c);
    SignedParse(FormatUnsigned(Abs(c)), CentsToReal(c));
  }

  lemma NonNegativeRoundTrip(a: nat)
    ensures ParseSigned(FormatUnsigned(a)) == Some(CentsToReal(a))
  {
    UnsignedFormatRoundTrip(a);
    var s := FormatUnsigned(a);
    assert s != [] && s[0] != '-' && s[0] != '+';
  }

  lemma SignedParse(u: string, v: real)
    requires ParseUnsigned(u) == Some(-v)
    ensures ParseSigned("-" + u) == Some(v)
  {
    var t := "-" + u;
    assert t[0] == '-' && t[1..] == u;
  }
}
