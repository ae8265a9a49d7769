/**
 * Calendar dates under the proleptic Gregorian rules, and what a JavaScript
 * `new Date(year, monthIndex, day)` reads back through its local-time getters
 * `getFullYear()`, `getMonth()` and `getDate()`: an out-of-range month or day
 * rolls over into the neighbouring months and years, and a year from 0 to 99
 * is taken as 1900 to 1999.
 */
module Calendar {

  /** A local calendar date with a 0-based month, as a JavaScript Date exposes it. */
  datatype CalendarDate = CalendarDate(year: int, month0: int, day: int)

  predicate IsLeapYear(y: int) {
    y % 4 == 0 && (y % 100 != 0 || y % 400 == 0)
  }

  function DaysInMonth(y: int, m0: int): (n: nat)
    requires 0 <= m0 < 12
    ensures 28 <= n <= 31
    ensures n == 29 <==> m0 == 1 && IsLeapYear(y)
  {
    if m0 == 1 then (if IsLeapYear(y) then 29 else 28)
    else if m0 == 3 || m0 == 5 || m0 == 8 || m0 == 10 then 30
    else 31
  }

  /** A date that exists in the Gregorian calendar. */
  predicate IsValidDate(d: CalendarDate) {
    0 <= d.month0 < 12 && 1 <= d.day <= DaysInMonth(d.year, d.month0)
  }

  /** Day 0 of month m0: the last day of the month before it. */
  function RollBack(y: int, m0: int, day: int): (r: CalendarDate)
    requires 0 <= m0 < 12 && day < 1
    ensures IsValidDate(r)
    decreases 1 - day
  {
    var (py, pm) := if m0 == 0 then (y - 1, 11) else (y, m0 - 1);
    var d := day + DaysInMonth(py, pm);
    if d < 1 then RollBack(py, pm, d) else CalendarDate(py, pm, d)
  }

  /** A day past the end of month m0 carries into the months after it. */
  function RollForward(y: int, m0: int, day: int): (r: CalendarDate)
    requires 0 <= m0 < 12 && day > DaysInMonth(y, m0)
    ensures IsValidDate(r)
    decreases day
  {
    var (ny, nm) := if m0 == 11 then (y + 1, 0) else (y, m0 + 1);
    var d := day - DaysInMonth(y, m0);
    if d > DaysInMonth(ny, nm) then RollForward(ny, nm, d) else CalendarDate(ny, nm, d)
  }

  /**
   * The date reached from day 1 of month m0 of year y by moving day - 1 days,
   * after first carrying whole years out of the month index (ECMAScript MakeDay).
   */
  function MakeDay(y: int, m0: int, day: int): (r: CalendarDate)
    ensures IsValidDate(r)
  {
    var ym := y + m0 / 12;
    var mn := m0 % 12;
    if day < 1 then RollBack(ym, mn, day)
    else if day > DaysInMonth(ym, mn) then RollForward(ym, mn, day)
    else CalendarDate(ym, mn, day)
  }

  /** What `new Date(year, month0, day)` reports through its local getters. */
  function LocalDate(year: int, month0: int, day: int): (r: CalendarDate)
    ensures IsValidDate(r)
  {
    MakeDay(if 0 <= year <= 99 then 1900 + year else year, month0, day)
  }

  lemma MakeDayOfValid(d: CalendarDate)
    requires IsValidDate(d)
    ensures MakeDay(d.year, d.month0, d.day) == d
  {
  }

  /**
   * A Date built from year, month0 and day reports the same three fields
   * exactly when they name a real date and the year is outside 0..99.
   */
  lemma LocalDateRoundTrip(year: int, month0: int, day: int)
    ensures LocalDate(year, month0, day) == CalendarDate(year, month0, day)
        <==> IsValidDate(CalendarDate(year, month0, day)) && !(0 <= year <= 99)
  {
    var d := CalendarDate(year, month0, day);
    if IsValidDate(d) {
      var full := if 0 <= year <= 99 then 1900 + year else year;
      if IsValidDate(CalendarDate(full, month0, day)) {
        MakeDayOfValid(CalendarDate(full, month0, day));
      } else {
        // only 29 February of a leap year 0..99 whose 19xx year is not leap
        assert month0 == 1 && day == 29;
        assert LocalDate(year, month0, day) == CalendarDate(full, 2, 1);
      }
    }
  }
}
