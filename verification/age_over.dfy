/**
  The `@AgeOver` constraint: a birth date is acceptable when the person is
  at least eighteen whole years old on the day of validation. The day of
  validation, `LocalDate.now()` in the program, is a parameter here.
*/
module AgeOverValidation {
  import opened Wrappers
  import opened Dates

  const MinAge: int := 18

  /** `AgeOverValidation.isValid`: a null birth date passes; otherwise the period's whole years must reach `MinAge`. */
  function IsValid(dateOfBirth: Option<Date>, today: Date): (ok: bool)
    ensures dateOfBirth.None? ==> ok
    ensures dateOfBirth.Some? && After(dateOfBirth.value, today) ==> !ok
  {
    match dateOfBirth
    case None => true
    case Some(b) =>
      PeriodYears(b, today) >= MinAge
  }

  /** A birth date passes exactly when it is not in the future and at least eighteen whole calendar years have elapsed. */
  lemma IsValidIffEighteenWholeYears(b: Date, today: Date)
    ensures IsValid(Some(b), today) <==> !After(b, today) && ElapsedYears(b, today) >= MinAge
  {
    if !After(b, today) {
      PeriodYearsIsElapsedYears(b, today);
    }
  }

  /** In the eighteenth year, a birthday later in the year than today does not count yet. */
  lemma BirthdayNotYetReached(b: Date, today: Date)
    requires today.year - b.year == MinAge
    requires MonthDayBefore(today.month, today.day, b.month, b.day)
    ensures !IsValid(Some(b), today)
  {
    IsValidIffEighteenWholeYears(b, today);
  }

  /** Someone born on 29 February is still seventeen on 28 February of their eighteenth year, and eighteen on 1 March. */
  lemma LeapDayBirth(y: int)
    requires IsLeapYear(y)
    ensures !IsValid(Some(Ymd(y, 2, 29)), Ymd(y + MinAge, 2, 28))
    ensures IsValid(Some(Ymd(y, 2, 29)), Ymd(y + MinAge, 3, 1))
  {
    IsValidIffEighteenWholeYears(Ymd(y, 2, 29), Ymd(y + MinAge, 2, 28));
    IsValidIffEighteenWholeYears(Ymd(y, 2, 29), Ymd(y + MinAge, 3, 1));
  }

  /** Born exactly eighteen years before today passes; born one day later fails. */
  lemma ExactlyEighteenYears(today: Date)
    requires IsCalendarDate(Ymd(today.year - MinAge, today.month, today.day))
    ensures IsValid(Some(Ymd(today.year - MinAge, today.month, today.day)), today)
    ensures !IsValid(Some(NextDay(Ymd(today.year - MinAge, today.month, today.day))), today)
  {
    var b: Date := Ymd(today.year - MinAge, today.month, today.day);
    IsValidIffEighteenWholeYears(b, today);
    IsValidIffEighteenWholeYears(NextDay(b), today);
  }

  /** If a birth date passes, every earlier birth date passes on the same day. */
  lemma EarlierBirthDatePasses(earlier: Date, later: Date, today: Date)
    requires !After(earlier, later)
    requires IsValid(Some(later), today)
    ensures IsValid(Some(earlier), today)
  {
    IsValidIffEighteenWholeYears(later, today);
    IsValidIffEighteenWholeYears(earlier, today);
  }
}
