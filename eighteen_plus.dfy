/**
 * The minimum-age rule behind the `@EighteenPlusConstraint` annotation. It
 * subtracts the birth year from the current date's year and compares the
 * difference with the configured minimum; month and day play no part.
 */
module EighteenPlus {
  import opened Wrappers
  import opened Dates

  /**
   * `Throws` is the `DateTimeException` that `LocalDate.minusYears` raises
   * when the resulting year leaves the range `java.time` supports.
   */
  datatype Verdict = Valid | Invalid | Throws

  /** The annotation's message, the same whatever minimum is configured. */
  const Message: string := "You should be at least 18"

  /** `now.minusYears(birth.getYear()).getYear()`, or `None` when that call throws. */
  function YearsBetween(birth: LocalDate, now: LocalDate): (years: Option<int>)
    ensures years.Some? ==> MinYear <= years.value <= MaxYear
    ensures years.Some? ==> years.value == now.year - birth.year
    ensures years.Some? <==> MinYear <= now.year - birth.year <= MaxYear
  {
    var year := now.year - birth.year;
    if MinYear <= year <= MaxYear then Some(year) else None
  }

  /** `isValid(value, context)` with the clock's date `now` and the configured `minimalUserAge`. */
  function IsValid(value: Option<LocalDate>, now: LocalDate, minimalUserAge: int): (v: Verdict)
    ensures value.None? ==> v == Valid
    ensures v == Throws ==> value.Some?
  {
    match value
    case None => Valid
    case Some(birth) =>
      match YearsBetween(birth, now)
      case None => Throws
      case Some(years) => if years >= minimalUserAge then Valid else Invalid
  }

  /** A present date passes exactly when the year difference reaches the minimum (while it is representable). */
  lemma ValidIffYearGap(birth: LocalDate, now: LocalDate, minimalUserAge: int)
    requires MinYear <= now.year - birth.year <= MaxYear
    ensures IsValid(Some(birth), now, minimalUserAge) == Valid <==> now.year - birth.year >= minimalUserAge
    ensures IsValid(Some(birth), now, minimalUserAge) != Throws
  {
  }

  /** The outcome depends on the two years only. */
  lemma MonthAndDayIgnored(b1: LocalDate, b2: LocalDate, now1: LocalDate, now2: LocalDate, minimalUserAge: int)
    requires b1.year == b2.year && now1.year == now2.year
    ensures IsValid(Some(b1), now1, minimalUserAge) == IsValid(Some(b2), now2, minimalUserAge)
  {
  }

  /** Born exactly `minimalUserAge` years before `now`'s year passes; a year later fails. */
  lemma Boundary(birth: LocalDate, later: LocalDate, now: LocalDate, minimalUserAge: int)
    requires MinYear < minimalUserAge <= MaxYear
    requires birth.year == now.year - minimalUserAge
    requires later.year == birth.year + 1
    ensures IsValid(Some(birth), now, minimalUserAge) == Valid
    ensures IsValid(Some(later), now, minimalUserAge) == Invalid
  {
  }

  /** An earlier birth year passes too, as long as the difference stays representable. */
  lemma MonotoneInBirthYear(birth: LocalDate, earlier: LocalDate, now: LocalDate, minimalUserAge: int)
    requires IsValid(Some(birth), now, minimalUserAge) == Valid
    requires earlier.year <= birth.year
    requires now.year - earlier.year <= MaxYear
    ensures IsValid(Some(earlier), now, minimalUserAge) == Valid
  {
  }

  /**
   * Monotonicity stops at the edge of the year range: the earliest birth
   * year makes `minusYears` throw instead of passing.
   */
  lemma EarliestBirthYearThrows()
    ensures IsValid(Some(Date(2000, 1, 1)), Date(2024, 1, 1), 18) == Valid
    ensures IsValid(Some(Date(MinYear, 1, 1)), Date(2024, 1, 1), 18) == Throws
  {
  }

  /**
   * With a minimum of at least one year, a passing birth date lies strictly
   * before `now`, which is why the DTOs need no separate past-date check.
   */
  lemma ValidImpliesPast(birth: LocalDate, now: LocalDate, minimalUserAge: int)
    requires minimalUserAge >= 1
    requires IsValid(Some(birth), now, minimalUserAge) == Valid
    ensures IsBefore(birth, now)
  {
  }

  /** With a minimum of zero a date later in the current year passes, although it is in the future. */
  lemma ZeroMinimumAdmitsFutureDate()
    ensures IsValid(Some(Date(2024, 12, 31)), Date(2024, 1, 1), 0) == Valid
    ensures IsAfter(Date(2024, 12, 31), Date(2024, 1, 1))
  {
  }

  /** Born 2020-01-01, checked on 2024-01-01 against a minimum of 18: rejected. */
  lemma UnderageExample()
    ensures IsValid(Some(Date(2020, 1, 1)), Date(2024, 1, 1), 18) == Invalid
  {
  }
}
