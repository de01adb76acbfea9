/**
  Calendar dates in the proleptic Gregorian calendar and the "add years and
  months" step used to project a graduation date: the enrollment date plus a
  relative delta of whole years and months, with the day of the month clamped
  to the length of the month that is reached.
 */
module Calendar {

  /** A year, month and day as written; not necessarily a real date. */
  datatype Date = Date(year: int, month: int, day: int)

  /** The Gregorian leap-year rule. */
  predicate IsLeapYear(year: int) {
    year % 4 == 0 && (year % 100 != 0 || year % 400 == 0)
  }

  function DaysInMonth(year: int, month: int): (n: int)
    requires 1 <= month <= 12
    ensures 28 <= n <= 31
    ensures month == 2 ==> (n == 29 <==> IsLeapYear(year))
    ensures month != 2 ==> n >= 30
  {
    if month == 2 then (if IsLeapYear(year) then 29 else 28)
    else if month == 4 || month == 6 || month == 9 || month == 11 then 30
    else 31
  }

  predicate ValidDate(d: Date) {
    1 <= d.month <= 12 && 1 <= d.day <= DaysInMonth(d.year, d.month)
  }

  /** A date that exists in the calendar, as every date object in the roster does. */
  type CalendarDate = d: Date | ValidDate(d) witness Date(1970, 1, 1)

  /** Months elapsed since January of year 0; each (year, month) pair has its own index. */
  function MonthIndex(d: Date): int {
    12 * d.year + (d.month - 1)
  }

  function Min(a: int, b: int): int { if a < b then a else b }

  /**
    Reference definition: the date `n` calendar months after `d` (before it
    when `n` is negative), with the day clamped to the month reached.
   */
  function ShiftMonths(d: CalendarDate, n: int): (r: CalendarDate)
    ensures MonthIndex(r) == MonthIndex(d) + n
    ensures r.day == Min(d.day, DaysInMonth(r.year, r.month))
  {
    var t := MonthIndex(d) + n;
    var year := t / 12;
    var month := t % 12 + 1;
    Date(year, month, Min(d.day, DaysInMonth(year, month)))
  }

  /**
    How the relative delta normalises its arguments: a month count of
    magnitude twelve or more is carried into the years, keeping its sign, so
    that the months left lie strictly between -12 and 12.
   */
  function NormaliseDelta(years: int, months: int): (r: (int, int))
    ensures -11 <= r.1 <= 11
    ensures 12 * r.0 + r.1 == 12 * years + months
    ensures months >= 0 ==> r.1 >= 0
    ensures months <= 0 ==> r.1 <= 0
  {
    if months > 11 then (years + months / 12, months % 12)
    else if months < -11 then (years - (-months) / 12, -((-months) % 12))
    else (years, months)
  }

  /**
    Adding the delta to a date: add the years, add the months with a single
    carry into or out of the year, then clamp the day to the month's length.
   */
  function AddRelative(d: CalendarDate, years: int, months: int): (r: CalendarDate)
    ensures MonthIndex(r) == MonthIndex(d) + 12 * years + months
    ensures r.day == Min(d.day, DaysInMonth(r.year, r.month))
  {
    var delta := NormaliseDelta(years, months);
    var year := d.year + delta.0;
    var month := d.month + delta.1;
    var year' := if month > 12 then year + 1 else if month < 1 then year - 1 else year;
    var month' := if month > 12 then month - 12 else if month < 1 then month + 12 else month;
    Date(year', month', Min(d.day, DaysInMonth(year', month')))
  }

  /** The month index determines the year and the month. */
  lemma MonthIndexInjective(a: Date, b: Date)
    requires 1 <= a.month <= 12 && 1 <= b.month <= 12
    requires MonthIndex(a) == MonthIndex(b)
    ensures a.year == b.year && a.month == b.month
  {
  }

  /**
    The relative delta of `years` years and `months` months moves a date by
    exactly `12 * years + months` calendar months.
   */
  lemma AddRelativeIsShift(d: CalendarDate, years: int, months: int)
    ensures AddRelative(d, years, months) == ShiftMonths(d, 12 * years + months)
  {
    MonthIndexInjective(AddRelative(d, years, months), ShiftMonths(d, 12 * years + months));
  }

  /** Shifting by zero months changes nothing. */
  lemma ShiftZero(d: CalendarDate)
    ensures ShiftMonths(d, 0) == d
  {
    MonthIndexInjective(ShiftMonths(d, 0), d);
  }

  /** Shifts compose on the year and month; the day can only be clamped further. */
  lemma ShiftCompose(d: CalendarDate, m: int, n: int)
    ensures var r := ShiftMonths(ShiftMonths(d, m), n);
      r.year == ShiftMonths(d, m + n).year && r.month == ShiftMonths(d, m + n).month &&
      r.day <= ShiftMonths(d, m + n).day
  {
    MonthIndexInjective(ShiftMonths(ShiftMonths(d, m), n), ShiftMonths(d, m + n));
  }

  /** When the day needs no clamping, shifting back undoes the shift. */
  lemma ShiftBack(d: CalendarDate, n: int)
    requires d.day <= DaysInMonth(ShiftMonths(d, n).year, ShiftMonths(d, n).month)
    ensures ShiftMonths(ShiftMonths(d, n), -n) == d
  {
    MonthIndexInjective(ShiftMonths(ShiftMonths(d, n), -n), d);
  }

  /** Days up to the 28th are never clamped. */
  lemma ShiftKeepsEarlyDay(d: CalendarDate, n: int)
    requires d.day <= 28
    ensures ShiftMonths(d, n).day == d.day
  {
  }

  /** The worked examples: a month after 31 January 2020 is 29 February 2020, and so on. */
  lemma GraduationExamples()
    ensures AddRelative(Date(2020, 1, 31), 0, 1) == Date(2020, 2, 29)
    ensures AddRelative(Date(2021, 1, 31), 0, 1) == Date(2021, 2, 28)
    ensures AddRelative(Date(2020, 2, 29), 1, 0) == Date(2021, 2, 28)
    ensures AddRelative(Date(2021, 9, 1), 4, 0) == Date(2025, 9, 1)
    ensures AddRelative(Date(2020, 3, 31), 0, -1) == Date(2020, 2, 29)
    ensures AddRelative(Date(2020, 1, 15), 0, -13) == Date(2018, 12, 15)
    ensures AddRelative(Date(2019, 11, 30), 1, 14) == Date(2022, 1, 30)
  {
  }
}
