/** Calendar dates as `java.time.LocalDate` represents them. */
module Dates {

  /** The year range `java.time.Year` accepts; `LocalDate` arithmetic throws outside it. */
  const MinYear: int := -999_999_999
  const MaxYear: int := 999_999_999

  /** The proleptic Gregorian leap-year rule. */
  predicate IsLeapYear(y: int) {
    y % 4 == 0 && (y % 100 != 0 || y % 400 == 0)
  }

  function DaysInMonth(year: int, month: int): (n: int)
    requires 1 <= month <= 12
    ensures 28 <= n <= 31
    ensures month == 2 ==> (n == 29 <==> IsLeapYear(year))
  {
    if month == 2 then (if IsLeapYear(year) then 29 else 28)
    else if month == 4 || month == 6 || month == 9 || month == 11 then 30
    else 31
  }

  datatype Date = Date(year: int, month: int, day: int)

  predicate IsLocalDate(d: Date) {
    && MinYear <= d.year <= MaxYear
    && 1 <= d.month <= 12
    && 1 <= d.day <= DaysInMonth(d.year, d.month)
  }

  /** The values a `LocalDate` can hold. */
  type LocalDate = d: Date | IsLocalDate(d) witness Date(2000, 1, 1)

  /** `a.isBefore(b)`: year, then month, then day. */
  predicate IsBefore(a: Date, b: Date) {
    || a.year < b.year
    || (a.year == b.year && a.month < b.month)
    || (a.year == b.year && a.month == b.month && a.day < b.day)
  }

  /** `a.isAfter(b)`: neither before nor equal, so a one-day range is not reversed. */
  predicate IsAfter(a: Date, b: Date)
    ensures IsAfter(a, b) <==> !IsBefore(a, b) && a != b
  {
    IsBefore(b, a)
  }

  /** Exactly one of before, equal, after holds: the order `LocalDate.compareTo` defines is total. */
  lemma Trichotomy(a: Date, b: Date)
    ensures IsBefore(a, b) || a == b || IsAfter(a, b)
    ensures !(IsBefore(a, b) && IsAfter(a, b))
    ensures !IsBefore(a, a)
  {
  }
}
