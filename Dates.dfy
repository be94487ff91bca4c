/**
 * `java.time.LocalDate` as far as the service uses it: a valid proleptic
 * Gregorian calendar date, the `isBefore` / `isAfter` comparisons, and
 * `minusYears`, which keeps month and day and clamps 29 February to
 * 28 February when the target year is not a leap year.
 */
module Dates {

  /** Java's `Year.isLeap`; divisibility tests agree between Java's `%` and Dafny's, also for negative years. */
  predicate IsLeapYear(year: int) {
    year % 4 == 0 && (year % 100 != 0 || year % 400 == 0)
  }

  function DaysInMonth(year: int, month: int): (n: int)
    requires 1 <= month <= 12
    ensures 28 <= n <= 31
    ensures month == 2 ==> (n == 29 <==> IsLeapYear(year))
  {
    if month == 2 then (if IsLeapYear(year) then 29 else 28)
    else if month == 4 || month == 6 || month == 9 || month == 11 then 30
    else 31
  }

  datatype YearMonthDay = YearMonthDay(year: int, month: int, day: int)

  predicate IsValidDate(d: YearMonthDay) {
    1 <= d.month <= 12 && 1 <= d.day <= DaysInMonth(d.year, d.month)
  }

  /** Every `LocalDate` value names an existing calendar day. */
  type Date = d: YearMonthDay | IsValidDate(d) witness YearMonthDay(1970, 1, 1)

  /** `a.isBefore(b)`: chronological order, which is lexicographic on (year, month, day). */
  predicate IsBefore(a: Date, b: Date) {
    a.year < b.year
    || (a.year == b.year && a.month < b.month)
    || (a.year == b.year && a.month == b.month && a.day < b.day)
  }

  /** `a.isAfter(b)`. */
  predicate IsAfter(a: Date, b: Date) {
    IsBefore(b, a)
  }

  /** `d.minusYears(years)`: same month and day, the day clamped to the length of the month. */
  function MinusYears(d: Date, years: int): (r: Date)
    ensures r.year == d.year - years && r.month == d.month
    ensures r.day <= d.day
    ensures r.day < d.day ==> d.month == 2 && d.day == 29 && r.day == 28 && !IsLeapYear(r.year)
  {
    var year := d.year - years;
    var last := DaysInMonth(year, d.month);
    YearMonthDay(year, d.month, if d.day <= last then d.day else last)
  }

  /** `isBefore` is a strict total order on dates. */
  lemma IsBeforeStrictTotalOrder(a: Date, b: Date, c: Date)
    ensures !IsBefore(a, a)
    ensures IsBefore(a, b) ==> !IsBefore(b, a)
    ensures IsBefore(a, b) && IsBefore(b, c) ==> IsBefore(a, c)
    ensures a == b || IsBefore(a, b) || IsBefore(b, a)
  {
  }

  /** Subtracting zero years gives the same date back. */
  lemma MinusYearsZero(d: Date)
    ensures MinusYears(d, 0) == d
  {
  }

  /**
   * The number of whole years from `birth` to `today`: the year difference,
   * less one when the birthday has not yet come round in `today`'s year.
   */
  function AgeInYears(birth: Date, today: Date): int {
    today.year - birth.year
      - (if today.month < birth.month || (today.month == birth.month && today.day < birth.day) then 1 else 0)
  }

  /**
   * A date is not after `today.minusYears(n)` exactly when the person born on
   * it has had at least `n` birthdays by `today` — the leap-day clamping of
   * `minusYears` never changes the answer.
   */
  lemma NotAfterCutoffIffOldEnough(birth: Date, today: Date, n: int)
    ensures !IsAfter(birth, MinusYears(today, n)) <==> AgeInYears(birth, today) >= n
  {
  }
}
