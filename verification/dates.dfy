/**
  `DateTime` on the month axis. A date is its calendar month, counted as
  `year * 12 + (month - 1)`, together with its position inside that month
  (day and time of day), which is kept abstract.
*/
module Dates {
  import opened Options

  datatype Date = Date(monthIndex: int, withinMonth: nat)

  /** The largest month count `DateTime.AddMonths` accepts, in either direction. */
  const MaxMonthShift := 120000
  const MinYear := 1
  const MaxYear := 9999

  /** The month lies in a year `DateTime` can represent. */
  predicate InCalendar(monthIndex: int) {
    12 * MinYear <= monthIndex < 12 * (MaxYear + 1)
  }

  /** Chronological order. */
  predicate Before(a: Date, b: Date) {
    a.monthIndex < b.monthIndex || (a.monthIndex == b.monthIndex && a.withinMonth < b.withinMonth)
  }

  /**
    `DateTime.AddMonths`: `None` where it throws `ArgumentOutOfRangeException`,
    either because the month count is beyond `MaxMonthShift` or because the
    target month falls outside the representable years. The day is kept as it is.
  */
  function AddMonths(d: Date, months: int): (r: Option<Date>)
    ensures r.Some? ==> r.value.withinMonth == d.withinMonth
    ensures r.Some? ==> (Before(d, r.value) <==> months > 0)
    ensures r.Some? ==> (Before(r.value, d) <==> months < 0)
  {
    if months < -MaxMonthShift || months > MaxMonthShift || !InCalendar(d.monthIndex + months) then None
    else Some(d.(monthIndex := d.monthIndex + months))
  }

  /** The year of a month index. */
  function Year(monthIndex: int): int {
    monthIndex / 12
  }

  /** The 1-based month of the year of a month index. */
  function Month(monthIndex: int): int {
    monthIndex % 12 + 1
  }

  /** C#'s `/` on `int` for a positive divisor: it rounds toward zero. */
  function TruncDiv(a: int, b: int): int
    requires b > 0
  {
    if a >= 0 then a / b else -((-a) / b)
  }

  /** C#'s `%` on `int` for a positive divisor: the remainder takes the dividend's sign. */
  function TruncMod(a: int, b: int): int
    requires b > 0
  {
    a - b * TruncDiv(a, b)
  }

  /**
    The (year, 1-based month) that `DateTime.AddMonths` computes from a date's
    year and month and a month count, before checking the year's range.
  */
  function YearMonthAfter(year: int, month: int, months: int): (int, int) {
    var m := month + months;
    if m > 0 then
      var q := (m - 1) / 12;
      (year + q, m - q * 12)
    else
      (year + TruncDiv(m, 12) - 1, 12 + TruncMod(m, 12))
  }

  /**
    Moving along the month axis agrees with the year-and-month arithmetic of
    `DateTime.AddMonths`: it reaches the same calendar month, and it fails
    exactly when the month count is out of bounds or that month's year is.
  */
  lemma AddMonthsMatchesYearMonth(d: Date, months: int)
    ensures 1 <= YearMonthAfter(Year(d.monthIndex), Month(d.monthIndex), months).1 <= 12
    ensures 12 * YearMonthAfter(Year(d.monthIndex), Month(d.monthIndex), months).0
              + YearMonthAfter(Year(d.monthIndex), Month(d.monthIndex), months).1 - 1
            == d.monthIndex + months
    ensures AddMonths(d, months).Some? <==>
              && -MaxMonthShift <= months <= MaxMonthShift
              && MinYear <= YearMonthAfter(Year(d.monthIndex), Month(d.monthIndex), months).0 <= MaxYear
  {
  }
}
