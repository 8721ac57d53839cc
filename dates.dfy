/** Calendar dates and the age arithmetic of `Patient.calculate_age` / `estimate_birthdate_from_age`. */
module Dates {
  import opened Optional

  datatype Date = Date(year: int, month: int, day: int)

  predicate IsLeapYear(y: int) {
    y % 4 == 0 && (y % 100 != 0 || y % 400 == 0)
  }

  function DaysInMonth(y: int, m: int): int
    requires 1 <= m <= 12
  {
    if m == 2 then (if IsLeapYear(y) then 29 else 28)
    else if m == 4 || m == 6 || m == 9 || m == 11 then 30
    else 31
  }

  /** A date Python's `datetime.date` can represent (years 1 to 9999). */
  predicate ValidDate(d: Date) {
    1 <= d.year <= 9999 && 1 <= d.month <= 12 && 1 <= d.day <= DaysInMonth(d.year, d.month)
  }

  /** Tuple comparison `(m1, d1) < (m2, d2)`. */
  predicate MonthDayBefore(m1: int, d1: int, m2: int, d2: int) {
    m1 < m2 || (m1 == m2 && d1 < d2)
  }

  /**
   * `calculate_age`: whole years from `dob` to `today`, one less when this
   * year's birthday (by month and day) has not come yet; `None` without a birth date.
   */
  function CalculateAge(dob: Option<Date>, today: Date): (age: Option<int>)
    ensures age.Some? <==> dob.Some?
  {
    match dob
    case None => None
    case Some(b) =>
      Some(today.year - b.year - (if MonthDayBefore(today.month, today.day, b.month, b.day) then 1 else 0))
  }

  /** The `n`-th birthday of someone born on `dob` falls on or before `today`. */
  predicate AnniversaryReached(dob: Date, today: Date, n: int) {
    dob.year + n < today.year
    || (dob.year + n == today.year && !MonthDayBefore(today.month, today.day, dob.month, dob.day))
  }

  /** The computed age is exactly the number of birthdays reached: the largest such `n`. */
  lemma AgeIsBirthdaysReached(dob: Date, today: Date, n: int)
    ensures AnniversaryReached(dob, today, n) <==> n <= CalculateAge(Some(dob), today).value
  {
  }

  /** Age never decreases as `today` moves forward. */
  lemma AgeMonotoneInToday(dob: Date, t1: Date, t2: Date)
    requires t1.year < t2.year || (t1.year == t2.year && !MonthDayBefore(t2.month, t2.day, t1.month, t1.day))
    ensures CalculateAge(Some(dob), t1).value <= CalculateAge(Some(dob), t2).value
  {
    var a1 := CalculateAge(Some(dob), t1).value;
    AgeIsBirthdaysReached(dob, t1, a1);
    AgeIsBirthdaysReached(dob, t2, a1);
  }

  /** Outcome of `estimate_birthdate_from_age`. */
  datatype Estimate =
    | NoAge                 // `age` is None or 0: the method returns None
    | Approx(date: Date)    // 1 July of `today.year - age`
    | YearOutOfRange        // `date(...)` raises ValueError

  /** Python truthiness of the optional age. */
  predicate AgeGiven(age: Option<int>) {
    age.Some? && age.value != 0
  }

  function EstimateBirthdate(age: Option<int>, today: Date): (e: Estimate)
    ensures e.NoAge? <==> !AgeGiven(age)
    ensures e.Approx? ==> ValidDate(e.date) && e.date.month == 7 && e.date.day == 1
                          && e.date.year == today.year - age.value
    ensures e.YearOutOfRange? <==> AgeGiven(age) && !(1 <= today.year - age.value <= 9999)
  {
    if AgeGiven(age) then
      var y := today.year - age.value;
      if 1 <= y <= 9999 then Approx(Date(y, 7, 1)) else YearOutOfRange
    else
      NoAge
  }

  /**
   * Estimating a birth date from an age and computing the age back gives the
   * same age from 1 July on, and one less before 1 July.
   */
  lemma EstimateThenCalculate(age: Option<int>, today: Date)
    requires EstimateBirthdate(age, today).Approx?
    ensures CalculateAge(Some(EstimateBirthdate(age, today).date), today)
            == Some(age.value - (if MonthDayBefore(today.month, today.day, 7, 1) then 1 else 0))
  {
  }
}
