/** The Gregorian calendar facts behind `get_days_in_month` (`calendar.monthrange(year, month)[1]`). */
module Calendar {
  import opened Wrappers
  import opened Errors

  /** `calendar.month_name[1:]`: the full English month names, January first. */
  const MonthNames: seq<string> := [
    "January", "February", "March", "April", "May", "June",
    "July", "August", "September", "October", "November", "December"
  ]

  /** `calendar.mdays`: the length of each month in a common year; index 0 is unused. */
  const CommonYearDays: seq<nat> := [0, 31, 28, 31, 30, 31, 30, 31, 31, 30, 31, 30, 31]

  /** `calendar.isleap`. Dafny's `%` agrees with Python's for a positive divisor, negative years included. */
  predicate IsLeapYear(year: int) {
    year % 4 == 0 && (year % 100 != 0 || year % 400 == 0)
  }

  /** `get_days_in_month(month, year)`: `mdays[month]`, plus one for February of a leap year;
      a month outside 1..12 raises IllegalMonthError. */
  function DaysInMonth(month: int, year: int): (r: Result<nat, Error>)
    ensures r.Err? <==> !(1 <= month <= 12)
    ensures r.Err? ==> r.error == IllegalMonth(month)
    ensures r.Ok? ==> 28 <= r.value <= 31
    ensures r.Ok? && month == 2 ==> r.value == if IsLeapYear(year) then 29 else 28
    ensures r.Ok? ==> (r.value == 30 <==> month in {4, 6, 9, 11})
    ensures r.Ok? ==> (r.value == 31 <==> month in {1, 3, 5, 7, 8, 10, 12})
  {
    if !(1 <= month <= 12) then Err(IllegalMonth(month))
    else Ok(CommonYearDays[month] + if month == 2 && IsLeapYear(year) then 1 else 0)
  }

  /** The number of days in the first `months` months of `year`. */
  function DaysThrough(months: nat, year: int): nat
    requires months <= 12
  {
    if months == 0 then 0 else DaysThrough(months - 1, year) + DaysInMonth(months, year).value
  }

  /** The twelve month lengths add up to the length of the Gregorian year. */
  lemma YearLength(year: int)
    ensures DaysThrough(12, year) == if IsLeapYear(year) then 366 else 365
  {
    var leap := if IsLeapYear(year) then 1 else 0;
    assert DaysThrough(1, year) == 31;
    assert DaysThrough(2, year) == 59 + leap;
    assert DaysThrough(4, year) == 120 + leap;
    assert DaysThrough(6, year) == 181 + leap;
    assert DaysThrough(8, year) == 243 + leap;
    assert DaysThrough(10, year) == 304 + leap;
  }
}
