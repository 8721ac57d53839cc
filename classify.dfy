/**
 * Result classification. Two classifiers exist: the model-level hook of
 * `IndividualTestResult.save` (generic bounds, Python truthiness, otherwise
 * keeps the status) and the sex-specific one of the group bulk form (explicit
 * `is not None`, `abnormal` as fallback). A result value is text. The group
 * form reads it with `Decimal`; the hook as written compares the text itself
 * with the decimal bounds, which raises, and the model's hook reads it as a
 * decimal first (see `HookAsWritten`).
 */
module Classify {
  import opened Optional
  import opened Decimals
  import opened Catalog

  /** `IndividualTestResult.status`; `Unset` is the empty default of a fresh row. */
  datatype ResultStatus = Unset | Normal | High | Low | Abnormal

  /** The status text stored in the column. */
  function StatusName(s: ResultStatus): string {
    match s
    case Unset => ""
    case Normal => "normal"
    case High => "high"
    case Low => "low"
    case Abnormal => "abnormal"
  }

  /** Position on the value axis: low < normal < high. */
  function Rank(s: ResultStatus): int {
    match s
    case Low => 0
    case Normal => 1
    case High => 2
    case _ => -1
  }

  /** The shared decision: below the minimum is low, else above the maximum is high, else normal. */
  function Compare(v: real, min: real, max: real): (s: ResultStatus)
    ensures s == Low <==> v < min
    ensures s == High <==> min <= v && max < v
    ensures s == Normal <==> min <= v <= max
  {
    if v < min then Low else if v > max then High else Normal
  }

  /** For fixed bounds the decision never moves backwards as the value grows. */
  lemma CompareMonotone(v1: real, v2: real, min: real, max: real)
    requires v1 <= v2
    ensures Rank(Compare(v1, min, max)) <= Rank(Compare(v2, min, max))
  {
  }

  /**
   * The hook in `IndividualTestResult.save`: classify against
   * `normal_value_min`/`normal_value_max` only when both are truthy (a zero
   * bound counts as missing); otherwise keep `current`. A value without a
   * decimal reading also keeps `current`.
   */
  function HookStatus(test: IndividualTest, value: string, current: ResultStatus): (s: ResultStatus)
    ensures !(Truthy(test.normalMin) && Truthy(test.normalMax)) ==> s == current
    ensures ParseDecimal(value).None? ==> s == current
    ensures Truthy(test.normalMin) && Truthy(test.normalMax) && ParseDecimal(value).Some? ==>
              s == Compare(ParseDecimal(value).value,
                           CentsToReal(test.normalMin.value), CentsToReal(test.normalMax.value))
  {
    if Truthy(test.normalMin) && Truthy(test.normalMax) then
      match ParseDecimal(value)
      case Some(v) => Compare(v, CentsToReal(test.normalMin.value), CentsToReal(test.normalMax.value))
      case None => current
    else
      current
  }

  /** An exception a save of a result row raises before anything is written. */
  datatype SaveError =
    | HookTypeError    // the hook compares a `str` with a `Decimal`
    | InvalidDecimal   // `DecimalField.to_python` rejects the text when the value column is written

  /** What a save gives back: its result, or the exception it raised. */
  datatype Outcome<T> = Done(result: T) | Raised(error: SaveError)

  /** The decimal value column accepts only text with a decimal reading. */
  predicate ValueRejected(value: string) {
    ParseDecimal(value).None?
  }

  /**
   * The hook as written, given the text the bulk forms assign: with both
   * generic bounds truthy it compares that `str` with a `Decimal` and raises
   * `TypeError`; otherwise it keeps `current`.
   */
  function HookAsWritten(test: IndividualTest, value: string, current: ResultStatus): (r: Outcome<ResultStatus>)
    ensures r.Raised? <==> Truthy(test.normalMin) && Truthy(test.normalMax)
    ensures r.Raised? ==> r.error == HookTypeError
    ensures r.Done? ==> r.result == HookStatus(test, value, current)
  {
    if Truthy(test.normalMin) && Truthy(test.normalMax) then Raised(HookTypeError) else Done(current)
  }

  /**
   * With bounds 3.50 and 5.00 the hook as written raises on the text "4",
   * while reading it as a decimal first classifies it as normal.
   */
  lemma HookAsWrittenRaisesOnText(test: IndividualTest)
    requires test.normalMin == Some(350) && test.normalMax == Some(500)
    ensures HookAsWritten(test, "4", Unset) == Raised(HookTypeError)
    ensures HookStatus(test, "4", Unset) == Normal
  {
    ParsesFour();
  }

  lemma ParsesFour()
    ensures ParseDecimal("4") == Some(4.0)
  {
    assert Text.Strip("4") == "4" by {
      Text.StripTight("4", Text.IsSpace);
    }
    assert ParseUnsigned("4") == Some(4.0) by {
      assert Text.IndexOf("4", '.') == 1;
      assert "4"[..1] == "4";
      assert ParseParts("4", []) == Some(4.0);
    }
    assert ParseSigned("4") == ParseUnsigned("4") by {
      assert "4"[0] == '4';
    }
  }

  /** Gender `"M"` selects the `_m` bounds, every other value the `_f` bounds. */
  function SexBounds(test: IndividualTest, gender: string): (b: (Bound, Bound))
    ensures gender == "M" ==> b == (test.minM, test.maxM)
    ensures gender != "M" ==> b == (test.minF, test.maxF)
  {
    if gender == "M" then (test.minM, test.maxM) else (test.minF, test.maxF)
  }

  /**
   * The group form's classifier: with a decimal value and both sex-specific
   * bounds present (zero is present), low/high/normal; otherwise abnormal.
   */
  function FormStatus(test: IndividualTest, gender: string, value: string): (s: ResultStatus)
    ensures s != Unset
    ensures s == Abnormal <==>
              ParseDecimal(value).None? || SexBounds(test, gender).0.None? || SexBounds(test, gender).1.None?
    ensures s != Abnormal ==>
              s == Compare(ParseDecimal(value).value,
                           CentsToReal(SexBounds(test, gender).0.value),
                           CentsToReal(SexBounds(test, gender).1.value))
  {
    var (min, max) := SexBounds(test, gender);
    match ParseDecimal(value)
    case None => Abnormal
    case Some(v) =>
      if min.Some? && max.Some? then Compare(v, CentsToReal(min.value), CentsToReal(max.value))
      else Abnormal
  }

  /** The bounds themselves classify as normal. */
  lemma BoundsAreNormal(min: real, max: real)
    requires min <= max
    ensures Compare(min, min, max) == Normal && Compare(max, min, max) == Normal
  {
  }

  /** For fixed bounds the form's status moves only low -> normal -> high as the value grows. */
  lemma FormStatusMonotone(test: IndividualTest, gender: string, a: string, b: string)
    requires ParseDecimal(a).Some? && ParseDecimal(b).Some?
    requires ParseDecimal(a).value <= ParseDecimal(b).value
    requires SexBounds(test, gender).0.Some? && SexBounds(test, gender).1.Some?
    ensures Rank(FormStatus(test, gender, a)) <= Rank(FormStatus(test, gender, b))
    ensures Rank(FormStatus(test, gender, a)) >= 0
  {
    var (min, max) := SexBounds(test, gender);
    CompareMonotone(ParseDecimal(a).value, ParseDecimal(b).value, CentsToReal(min.value), CentsToReal(max.value));
  }

  /**
   * What the group form finally stores: it sets the sex-specific status, and
   * `result.save()` then runs the hook, which overrides it with the generic
   * bounds whenever both of those are truthy and the value is a decimal.
   */
  function GroupFormStoredStatus(test: IndividualTest, gender: string, value: string): (s: ResultStatus)
    ensures Truthy(test.normalMin) && Truthy(test.normalMax) && ParseDecimal(value).Some? ==>
              s == Compare(ParseDecimal(value).value,
                           CentsToReal(test.normalMin.value), CentsToReal(test.normalMax.value))
    ensures !(Truthy(test.normalMin) && Truthy(test.normalMax) && ParseDecimal(value).Some?) ==>
              s == FormStatus(test, gender, value)
    ensures s != Unset
  {
    HookStatus(test, value, FormStatus(test, gender, value))
  }

  /**
   * The two classifiers disagree on a zero bound: a test with bounds 0.00 and
   * 10.00 classifies "-1" as low in the form, while the hook leaves the status alone.
   */
  lemma ZeroBoundTreatedDifferently(test: IndividualTest)
    requires test.minF == Some(0) && test.maxF == Some(1000)
    requires test.normalMin == Some(0) && test.normalMax == Some(1000)
    ensures FormStatus(test, "F", "-1") == Low
    ensures HookStatus(test, "-1", Unset) == Unset
  {
    ParsesMinusOne();
  }

  lemma ParsesMinusOne()
    ensures ParseDecimal("-1") == Some(-1.0)
  {
    assert Text.Strip("-1") == "-1" by {
      Text.StripTight("-1", Text.IsSpace);
    }
    assert ParseUnsigned("1") == Some(1.0) by {
      assert Text.IndexOf("1", '.') == 1;
      assert "1"[..1] == "1";
      assert ParseParts("1", []) == Some(1.0);
    }
    assert ParseSigned("-1") == Some(-1.0) by {
      assert "-" + "1" == "-1";
      SignedParse("1", -1.0);
    }
  }
}
