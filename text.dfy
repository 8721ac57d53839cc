/**
 * String helpers with the meaning Python gives them: `str.strip()`,
 * `str.strip(chars)`, `str(n)` for a non-negative integer, and reading a run
 * of decimal digits back.
 */
module Text {

  /** Python's `str.isspace()` for one character (the Unicode whitespace set). */
  predicate IsSpace(c: char) {
    c == ' ' || c == '\t' || c == '\n' || c == '\r' || c == '\U{000B}' || c == '\U{000C}'
    || ('\U{001C}' <= c <= '\U{001F}') || c == '\U{0085}' || c == '\U{00A0}' || c == '\U{1680}'
    || ('\U{2000}' <= c <= '\U{200A}') || c == '\U{2028}' || c == '\U{2029}' || c == '\U{202F}'
    || c == '\U{205F}' || c == '\U{3000}'
  }

  /** The characters removed by `.strip(' -')`. */
  predicate IsSpaceOrDash(c: char) {
    c == ' ' || c == '-'
  }

  /** Drops the longest prefix whose characters all satisfy `drop`. */
  function StripLeftBy(s: string, drop: char -> bool): (r: string)
    ensures |r| <= |s| && r == s[|s| - |r|..]
    ensures r == [] || !drop(r[0])
    ensures forall i :: 0 <= i < |s| - |r| ==> drop(s[i])
  {
    if s != [] && drop(s[0]) then
      var r := StripLeftBy(s[1..], drop);
      assert s[1..][|s| - 1 - |r|..] == s[|s| - |r|..];
      assert forall i :: 1 <= i < |s| - |r| ==> s[i] == s[1..][i - 1];
      r
    else s
  }

  /** Drops the longest suffix whose characters all satisfy `drop`. */
  function StripRightBy(s: string, drop: char -> bool): (r: string)
    ensures |r| <= |s| && r == s[..|r|]
    ensures r == [] || !drop(r[|r| - 1])
    ensures forall i :: |r| <= i < |s| ==> drop(s[i])
  {
    if s != [] && drop(s[|s| - 1]) then StripRightBy(s[..|s| - 1], drop) else s
  }

  /** Python `s.strip(chars)`: both ends, with `drop` deciding membership in `chars`. */
  function StripBy(s: string, drop: char -> bool): string {
    StripRightBy(StripLeftBy(s, drop), drop)
  }

  /** Python `s.strip()`. */
  function Strip(s: string): string {
    StripBy(s, IsSpace)
  }

  /** Python `s.strip(' -')`. */
  function StripSpaceDash(s: string): string {
    StripBy(s, IsSpaceOrDash)
  }

  lemma {:induction false} StripLeftDropsPrefix(j: string, x: string, drop: char -> bool)
    requires forall i :: 0 <= i < |j| ==> drop(j[i])
    ensures StripLeftBy(j + x, drop) == StripLeftBy(x, drop)
  {
    if j != [] {
      assert (j + x)[1..] == j[1..] + x;
      StripLeftDropsPrefix(j[1..], x, drop);
    } else {
      assert j + x == x;
    }
  }

  lemma {:induction false} StripRightDropsSuffix(x: string, j: string, drop: char -> bool)
    requires forall i :: 0 <= i < |j| ==> drop(j[i])
    ensures StripRightBy(x + j, drop) == StripRightBy(x, drop)
  {
    if j != [] {
      assert (x + j)[..|x + j| - 1] == x + j[..|j| - 1];
      StripRightDropsSuffix(x, j[..|j| - 1], drop);
    } else {
      assert x + j == x;
    }
  }

  /** A string whose two ends are not stripped. */
  predicate Tight(s: string, drop: char -> bool) {
    s == [] || (!drop(s[0]) && !drop(s[|s| - 1]))
  }

  lemma StripTight(s: string, drop: char -> bool)
    requires Tight(s, drop)
    ensures StripBy(s, drop) == s
  {
  }

  /** What a strip leaves is tight: neither end is a character it drops. */
  lemma StripByTight(s: string, drop: char -> bool)
    ensures Tight(StripBy(s, drop), drop)
  {
    var l := StripLeftBy(s, drop);
    var r := StripRightBy(l, drop);
    if r != [] {
      assert r[0] == l[0];
    }
  }

  // ---------------------------------------------------------------- digits

  predicate IsDigit(c: char) {
    '0' <= c <= '9'
  }

  predicate AllDigits(s: string) {
    forall i :: 0 <= i < |s| ==> IsDigit(s[i])
  }

  function DigitChar(d: nat): (c: char)
    requires d < 10
    ensures IsDigit(c)
  {
    ['0', '1', '2', '3', '4', '5', '6', '7', '8', '9'][d]
  }

  function DigitValue(c: char): (d: nat)
    requires IsDigit(c)
    ensures d < 10
  {
    c as int - '0' as int
  }

  lemma DigitRoundTrip(d: nat)
    requires d < 10
    ensures DigitValue(DigitChar(d)) == d
  {
  }

  /** Python `str(n)` for `n >= 0`: shortest decimal form, no sign, no leading zero. */
  function NatToStr(n: nat): (s: string)
    ensures 1 <= |s| && AllDigits(s)
    ensures n < 10 <==> |s| == 1
    ensures n >= 10 ==> s[0] != '0'
  {
    if n < 10 then [DigitChar(n)] else NatToStr(n / 10) + [DigitChar(n % 10)]
  }

  /** The number a non-empty run of decimal digits denotes (an empty run reads as 0). */
  function DigitsToNat(s: string): nat
    requires AllDigits(s)
  {
    if s == [] then 0 else DigitsToNat(s[..|s| - 1]) * 10 + DigitValue(s[|s| - 1])
  }

  lemma {:induction false} NatToStrRoundTrip(n: nat)
    ensures DigitsToNat(NatToStr(n)) == n
  {
    var s := NatToStr(n);
    if n >= 10 {
      NatToStrRoundTrip(n / 10);
      assert s[..|s| - 1] == NatToStr(n / 10);
      DigitRoundTrip(n % 10);
    } else {
      DigitRoundTrip(n);
    }
  }

  /** `str` is injective on non-negative integers. */
  lemma NatToStrInjective(a: nat, b: nat)
    requires NatToStr(a) == NatToStr(b)
    ensures a == b
  {
    NatToStrRoundTrip(a);
    NatToStrRoundTrip(b);
  }

  lemma {:induction false} NatToStrLength(n: nat, k: nat)
    requires Pow10(k) <= n < Pow10(k + 1)
    ensures |NatToStr(n)| == k + 1
  {
    if k > 0 {
      NatToStrLength(n / 10, k - 1);
    }
  }

  function Pow10(k: nat): (p: nat)
    ensures p >= 1
  {
    if k == 0 then 1 else 10 * Pow10(k - 1)
  }

  /** Two-digit zero-padded form of `n < 100`, as `%02d` and strftime's `%y`/`%m`/`%d` print. */
  function Pad2(n: nat): (s: string)
    requires n < 100
    ensures |s| == 2 && AllDigits(s)
  {
    [DigitChar(n / 10), DigitChar(n % 10)]
  }

  lemma Pad2RoundTrip(n: nat)
    requires n < 100
    ensures DigitsToNat(Pad2(n)) == n
  {
    var s := Pad2(n);
    assert s[..1] == [DigitChar(n / 10)];
    assert s[..1][..0] == [];
    DigitRoundTrip(n / 10);
    DigitRoundTrip(n % 10);
  }

  /** Position of the first `c` in `s`, or `|s|` when there is none. */
  function IndexOf(s: string, c: char): (i: nat)
    ensures i <= |s|
    ensures i < |s| ==> s[i] == c
    ensures forall j :: 0 <= j < i ==> s[j] != c
  {
    if s == [] then 0 else if s[0] == c then 0 else 1 + IndexOf(s[1..], c)
  }
}
