/**
 * `Patient`: validation, the age/birth-date reconciliation and the one-time
 * accession barcode performed by `clean` and `save`. The clock and the random
 * generator are parameters: `now` is the date part of `datetime.now()`,
 * `today` is `date.today()`, `suffix` is the value `random.randint(1000, 9999)` drew.
 */
module Patients {
  import opened Optional
  import opened Text
  import opened Dates

  /** `clean`: a patient needs a birth date or a non-zero age. */
  predicate Clean(dob: Option<Date>, age: Option<int>) {
    dob.Some? || AgeGiven(age)
  }

  /** `yymmdd` of `now` followed by the four-digit random suffix. */
  function BarcodeFor(now: Date, suffix: nat): (code: string)
    requires ValidDate(now) && 1000 <= suffix <= 9999
    ensures |code| == 10 && AllDigits(code)
  {
    NatToStrLength(suffix, 3);
    Pad2(now.year % 100) + Pad2(now.month) + Pad2(now.day) + NatToStr(suffix)
  }

  /** The barcode reads back as the two-digit year, month, day and the suffix. */
  lemma BarcodeDecodes(now: Date, suffix: nat)
    requires ValidDate(now) && 1000 <= suffix <= 9999
    ensures var code := BarcodeFor(now, suffix);
            DigitsToNat(code[0..2]) == now.year % 100 && DigitsToNat(code[2..4]) == now.month
            && DigitsToNat(code[4..6]) == now.day && DigitsToNat(code[6..]) == suffix
  {
    var code := BarcodeFor(now, suffix);
    NatToStrLength(suffix, 3);
    assert code[0..2] == Pad2(now.year % 100);
    assert code[2..4] == Pad2(now.month);
    assert code[4..6] == Pad2(now.day);
    assert code[6..] == NatToStr(suffix);
    Pad2RoundTrip(now.year % 100);
    Pad2RoundTrip(now.month);
    Pad2RoundTrip(now.day);
    NatToStrRoundTrip(suffix);
  }

  /** Birth date and age after the derivation step of `save`, or the exception it raises. */
  datatype Derived =
    | Derived(dob: Option<Date>, age: Option<int>)
    | ValidationError      // `clean` raised: nothing is stored
    | BirthYearError       // `date(today.year - age, 7, 1)` raised ValueError: nothing is stored

  /** The branches of `save` after `clean`, in their source order. */
  function DeriveFields(dob: Option<Date>, age: Option<int>, today: Date): (r: Derived)
    ensures r.ValidationError? <==> !Clean(dob, age)
    ensures r.Derived? && dob.Some? ==> r.dob == dob && r.age == CalculateAge(dob, today)
    ensures r.Derived? && dob.None? ==>
              r.age == age && r.dob == Some(Date(today.year - age.value, 7, 1))
    ensures r.BirthYearError? <==> dob.None? && AgeGiven(age) && !(1 <= today.year - age.value <= 9999)
  {
    if !Clean(dob, age) then ValidationError
    else if dob.Some? && !AgeGiven(age) then Derived(dob, CalculateAge(dob, today))
    else if AgeGiven(age) && dob.None? then
      match EstimateBirthdate(age, today)
      case Approx(d) => Derived(Some(d), age)
      case _ => BirthYearError
    else Derived(dob, CalculateAge(dob, today))
  }

  /** A stored patient always has both a birth date and an age, and they agree. */
  lemma DerivedFieldsAgree(dob: Option<Date>, age: Option<int>, today: Date)
    requires DeriveFields(dob, age, today).Derived?
    ensures var r := DeriveFields(dob, age, today);
            r.dob.Some? && r.age.Some?
            && (dob.Some? ==> r.age == CalculateAge(r.dob, today))
            && (dob.None? ==> CalculateAge(r.dob, today).value
                              == r.age.value - (if MonthDayBefore(today.month, today.day, 7, 1) then 1 else 0))
  {
    if dob.None? {
      EstimateThenCalculate(age, today);
    }
  }

  /**
   * What `save` did. The last two are the database refusing the row:
   * `RejectedNegativeAge` when the age column, which holds only non-negative
   * integers, would get a negative age (a birth date after today), and
   * `RejectedDuplicate` when the barcode column, which is unique, already
   * holds the code for another patient.
   */
  datatype SaveOutcome = Stored | RejectedInvalid | RejectedBirthYear | RejectedNegativeAge | RejectedDuplicate

  /** The age column is a positive-integer field: NULL or a number that is not negative. */
  predicate AgeColumnAccepts(age: Option<int>) {
    age.None? || age.value >= 0
  }

  /** What the database answers to the row once the fields are derived. */
  function RowOutcome(barcode: string, age: Option<int>, others: set<string>): (o: SaveOutcome)
    ensures o == Stored <==> AgeColumnAccepts(age) && barcode !in others
    ensures o == RejectedNegativeAge <==> !AgeColumnAccepts(age)
    ensures o == RejectedDuplicate <==> AgeColumnAccepts(age) && barcode in others
  {
    if !AgeColumnAccepts(age) then RejectedNegativeAge
    else if barcode in others then RejectedDuplicate
    else Stored
  }

  /**
   * With a birth date on file the age is always recomputed, and the age column
   * refuses it exactly when the birth date lies after today.
   */
  lemma AgeRefusedIffBornAfterToday(dob: Date, age: Option<int>, today: Date)
    ensures var r := DeriveFields(Some(dob), age, today);
            r.Derived? && (AgeColumnAccepts(r.age) <==> AnniversaryReached(dob, today, 0))
  {
  }

  class Patient {
    var barcode: string          // "" stands for NULL/empty
    var fullName: string
    var dateOfBirth: Option<Date>
    var age: Option<int>
    var gender: string

    constructor (fullName: string, gender: string, dateOfBirth: Option<Date>, age: Option<int>)
      ensures this.fullName == fullName && this.gender == gender && barcode == ""
      ensures this.dateOfBirth == dateOfBirth && this.age == age
    {
      this.barcode := "";
      this.fullName := fullName;
      this.gender := gender;
      this.dateOfBirth := dateOfBirth;
      this.age := age;
    }

    /**
     * `save`: assigns a barcode when there is none (before validating, so a
     * rejected patient keeps the new code in memory), validates, then derives
     * age and birth date, and finally writes the row. Nothing is stored when
     * validation or the date construction fails, when the derived age is
     * negative, or when `others`, the barcodes of the other stored patients,
     * already holds this one; the derived fields stay in memory in those last
     * two cases.
     */
    method Save(now: Date, today: Date, suffix: nat, others: set<string>) returns (outcome: SaveOutcome)
      requires ValidDate(now) && 1000 <= suffix <= 9999
      modifies this
      ensures barcode == (if old(barcode) == "" then BarcodeFor(now, suffix) else old(barcode))
      ensures barcode != ""
      ensures fullName == old(fullName) && gender == old(gender)
      ensures var d := DeriveFields(old(dateOfBirth), old(age), today);
              match d
              case Derived(dob, a) =>
                && outcome == RowOutcome(barcode, a, others)
                && dateOfBirth == dob && age == a
              case ValidationError =>
                outcome == RejectedInvalid && dateOfBirth == old(dateOfBirth) && age == old(age)
              case BirthYearError =>
                outcome == RejectedBirthYear && dateOfBirth == old(dateOfBirth) && age == old(age)
    {
      if barcode == "" {
        barcode := BarcodeFor(now, suffix);
      }
      if !Clean(dateOfBirth, age) {
        return RejectedInvalid;
      }
      if dateOfBirth.Some? && !AgeGiven(age) {
        age := CalculateAge(dateOfBirth, today);
      } else if AgeGiven(age) && dateOfBirth.None? {
        match EstimateBirthdate(age, today)
        case Approx(d) =>
          dateOfBirth := Some(d);
        case _ =>
          return RejectedBirthYear;
      } else if dateOfBirth.Some? && AgeGiven(age) {
        age := CalculateAge(dateOfBirth, today);
      }
      outcome := RowOutcome(barcode, age, others);
    }
  }
}
