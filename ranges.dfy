/**
 * Reference-range strings printed on reports: `f"{lo} - {hi}".strip(' -')`,
 * where each end is either a formatted stored bound or free text.
 */
module Ranges {
  import opened Optional
  import opened Text
  import opened Decimals

  /** `f"{b or ''}"` for a stored two-place bound: a falsy bound (NULL or zero) prints as nothing. */
  function BoundText(b: Bound): (s: string)
    ensures s == "" <==> !Truthy(b)
  {
    if Truthy(b) then FormatCents(b.value) else ""
  }

  /** `f"{lo} - {hi}".strip(' -')`: the result never starts or ends with a space or a dash. */
  function RangeText(lo: string, hi: string): (r: string)
    ensures Tight(r, IsSpaceOrDash)
  {
    StripByTight(lo + " - " + hi, IsSpaceOrDash);
    StripSpaceDash(lo + " - " + hi)
  }

  /** `normal_range` of the generic report: the test's `normal_value_min`/`normal_value_max`. */
  function NormalRange(min: Bound, max: Bound): (r: string)
    ensures Tight(r, IsSpaceOrDash)
    ensures !Truthy(min) && !Truthy(max) ==> r == ""
  {
    RangeText(BoundText(min), BoundText(max))
  }

  /** The magnitude of a stored bound as printed without its sign. */
  function Magnitude(c: int): string {
    FormatUnsigned(Abs(c))
  }

  predicate TightRangeEnd(s: string) {
    Tight(s, IsSpaceOrDash)
  }

  /** When neither end starts or ends with a space or dash, stripping only removes the separator around a missing end. */
  lemma RangeOfTightEnds(lo: string, hi: string)
    requires TightRangeEnd(lo) && TightRangeEnd(hi)
    ensures RangeText(lo, hi) == if lo == "" then hi else if hi == "" then lo else lo + " - " + hi
  {
    var sep := " - ";
    assert forall i :: 0 <= i < |sep| ==> IsSpaceOrDash(sep[i]);
    if lo == "" {
      assert lo + sep + hi == sep + hi;
      StripLeftDropsPrefix(sep, hi, IsSpaceOrDash);
    } else if hi == "" {
      assert lo + sep + hi == lo + sep;
      StripRightDropsSuffix(lo, sep, IsSpaceOrDash);
      assert StripLeftBy(lo + sep, IsSpaceOrDash) == lo + sep;
    } else {
      StripTight(lo + sep + hi, IsSpaceOrDash);
    }
  }

  lemma RangeDropsLeadingMinus(x: string, hi: string)
    ensures RangeText("-" + x, hi) == RangeText(x, hi)
  {
    assert "-" + x + " - " + hi == "-" + (x + " - " + hi);
    StripLeftDropsPrefix("-", x + " - " + hi, IsSpaceOrDash);
  }

  lemma RangeNegativeHighAlone(x: string)
    ensures RangeText("", "-" + x) == RangeText("", x)
  {
    var j1, j2 := " - -", " - ";
    assert "" + " - " + ("-" + x) == j1 + x;
    assert "" + " - " + x == j2 + x;
    assert forall i :: 0 <= i < |j1| ==> IsSpaceOrDash(j1[i]);
    assert forall i :: 0 <= i < |j2| ==> IsSpaceOrDash(j2[i]);
    StripLeftDropsPrefix(j1, x, IsSpaceOrDash);
    StripLeftDropsPrefix(j2, x, IsSpaceOrDash);
    assert StripLeftBy(j1 + x, IsSpaceOrDash) == StripLeftBy(j2 + x, IsSpaceOrDash);
  }

  lemma MagnitudeIsTight(c: int)
    ensures TightRangeEnd(Magnitude(c))
  {
  }

  /** The formatted bound with its leading minus sign (if any) removed. */
  lemma BoundTextSign(b: Bound)
    requires Truthy(b)
    ensures b.value > 0 ==> BoundText(b) == Magnitude(b.value)
    ensures b.value < 0 ==> BoundText(b) == "-" + Magnitude(b.value)
  {
  }

  /** A truthy lower bound prints as its magnitude at the start of the range string. */
  lemma LowBoundRange(min: Bound, hi: string)
    requires Truthy(min)
    ensures RangeText(BoundText(min), hi) == RangeText(Magnitude(min.value), hi)
  {
    BoundTextSign(min);
    if min.value < 0 {
      RangeDropsLeadingMinus(Magnitude(min.value), hi);
    }
  }

  /** Two ends that survive the strip on the outside are joined unchanged. */
  lemma JoinedEnds(lo: string, hi: string)
    requires lo != [] && !IsSpaceOrDash(lo[0])
    requires hi != [] && !IsSpaceOrDash(hi[|hi| - 1])
    ensures RangeText(lo, hi) == lo + " - " + hi
  {
    var s := lo + " - " + hi;
    assert s[0] == lo[0] && s[|s| - 1] == hi[|hi| - 1];
    StripTight(s, IsSpaceOrDash);
  }

  lemma MagnitudeJoin(a: int, c: int)
    ensures RangeText(Magnitude(a), FormatCents(c)) == Magnitude(a) + " - " + FormatCents(c)
  {
    JoinedEnds(Magnitude(a), FormatCents(c));
  }

  lemma BothBoundsRange(min: Bound, max: Bound)
    requires Truthy(min) && Truthy(max)
    ensures NormalRange(min, max) == Magnitude(min.value) + " - " + FormatCents(max.value)
  {
    LowBoundRange(min, BoundText(max));
    MagnitudeJoin(min.value, max.value);
  }

  lemma LowBoundOnlyRange(min: Bound, max: Bound)
    requires Truthy(min) && !Truthy(max)
    ensures NormalRange(min, max) == Magnitude(min.value)
  {
    LowBoundRange(min, "");
    MagnitudeIsTight(min.value);
    RangeOfTightEnds(Magnitude(min.value), "");
  }

  lemma HighBoundOnlyRange(min: Bound, max: Bound)
    requires !Truthy(min) && Truthy(max)
    ensures NormalRange(min, max) == Magnitude(max.value)
  {
    var m := Magnitude(max.value);
    BoundTextSign(max);
    MagnitudeIsTight(max.value);
    if max.value < 0 {
      RangeNegativeHighAlone(m);
    }
    RangeOfTightEnds("", m);
  }

  /**
   * What the generic report prints for a test's bounds: nothing when both are
   * falsy (zero counts as absent), a lone bound by itself, otherwise
   * `min - max`; the minus sign of a negative lower bound, and of a negative
   * upper bound printed alone, is lost to the strip.
   */
  lemma NormalRangeCases(min: Bound, max: Bound)
    ensures !Truthy(min) && !Truthy(max) ==> NormalRange(min, max) == ""
    ensures Truthy(min) && !Truthy(max) ==> NormalRange(min, max) == Magnitude(min.value)
    ensures !Truthy(min) && Truthy(max) ==> NormalRange(min, max) == Magnitude(max.value)
    ensures Truthy(min) && Truthy(max) ==>
              NormalRange(min, max) == Magnitude(min.value) + " - " + FormatCents(max.value)
  {
    if Truthy(min) && Truthy(max) {
      BothBoundsRange(min, max);
    } else if Truthy(min) {
      LowBoundOnlyRange(min, max);
    } else if Truthy(max) {
      HighBoundOnlyRange(min, max);
    } else {
      RangeOfTightEnds("", "");
    }
  }
}
