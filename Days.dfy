/** Calendar days as whole day numbers.

    A day is identified by its day number counted from 1970-01-01 (day 0, a
    Thursday).  The time of day, the time zone and the millisecond arithmetic
    of the JavaScript code are abstracted away: two moments on the same calendar day
    have the same day number, so the whole-day difference of two days is the
    difference of their numbers.
 */
module Days {

  type Day = int

  /** A calendar date of the proleptic Gregorian calendar. */
  datatype Date = Date(year: int, month: int, dayOfMonth: int)

  predicate IsLeapYear(year: int) {
    year % 4 == 0 && (year % 100 != 0 || year % 400 == 0)
  }

  function DaysInMonth(year: int, month: int): (n: int)
    requires 1 <= month <= 12
    ensures 28 <= n <= 31
  {
    if month == 2 then (if IsLeapYear(year) then 29 else 28)
    else if month == 4 || month == 6 || month == 9 || month == 11 then 30
    else 31
  }

  /** The date exists: a month 1..12 and a day within that month. */
  predicate ValidDate(date: Date) {
    1 <= date.month <= 12 && 1 <= date.dayOfMonth <= DaysInMonth(date.year, date.month)
  }

  /** The calendar date after `date`: the next day of the month, else the
      first of the next month, else New Year's Day of the next year. */
  function NextDate(date: Date): (next: Date)
    requires ValidDate(date)
    ensures ValidDate(next)
  {
    if date.dayOfMonth < DaysInMonth(date.year, date.month) then
      date.(dayOfMonth := date.dayOfMonth + 1)
    else if date.month < 12 then Date(date.year, date.month + 1, 1)
    else Date(date.year + 1, 1, 1)
  }

  /** Days from 1970-01-01 to March 1 of year `y`, the start of the
      March-based year that the computation below counts in. */
  function MarchFirst(y: int): int {
    var era := y / 400;
    var yearOfEra := y - era * 400;
    era * 146097 + yearOfEra * 365 + yearOfEra / 4 - yearOfEra / 100 - 719468
  }

  /** Number of the day given as a proleptic Gregorian year, month (1..12) and
      day of month (1..31), counted from 1970-01-01.  This is the usual
      era-based "days from civil" computation: January and February count as
      months 10 and 11 of the year before, which begins on March 1.  Dafny's
      `/` on a positive divisor rounds toward negative infinity, which is what
      it needs. */
  function DaysFromCivil(year: int, month: int, dayOfMonth: int): Day
    requires 1 <= month <= 12 && 1 <= dayOfMonth <= 31
  {
    var y := if month <= 2 then year - 1 else year;
    var shiftedMonth := if month > 2 then month - 3 else month + 9;
    var dayOfYear := (153 * shiftedMonth + 2) / 5 + dayOfMonth - 1;
    MarchFirst(y) + dayOfYear
  }

  function DayOf(date: Date): Day
    requires ValidDate(date)
  {
    DaysFromCivil(date.year, date.month, date.dayOfMonth)
  }

  /** The first day of the regimen, 2025-11-22. */
  const RegimenStart: Day := DaysFromCivil(2025, 11, 22)

  /** Day of the week, 0 = Sunday, 1 = Monday, ..., 6 = Saturday. */
  function Weekday(d: Day): (w: int)
    ensures 0 <= w < 7
    ensures (d + 4 - w) % 7 == 0
  {
    (d + 4) % 7
  }

  /** Whole-day difference from `d1` to `d2`: positive when `d2` is later. */
  function DaysBetween(d1: Day, d2: Day): (r: int)
    ensures d1 + r == d2
    ensures r == 0 <==> d1 == d2
    ensures r > 0 <==> d1 < d2
  {
    d2 - d1
  }

  lemma EpochIsThursday()
    ensures DaysFromCivil(1970, 1, 1) == 0
    ensures Weekday(0) == 4
  {
  }

  lemma RegimenStartIsSaturday()
    ensures RegimenStart == 20414
    ensures Weekday(RegimenStart) == 6
  {
  }

  /** The weekday advances by one, modulo seven, from one day to the next. */
  lemma WeekdaySuccessor(d: Day)
    ensures Weekday(d + 1) == (Weekday(d) + 1) % 7
  {
    var q, w := (d + 4) / 7, Weekday(d);
    if w < 6 {
      ModSeven(d + 5, q, w + 1);
    } else {
      ModSeven(d + 5, q + 1, 0);
    }
  }

  /** The weekday repeats every seven days. */
  lemma WeekdayPeriodic(d: Day, weeks: int)
    ensures Weekday(d + 7 * weeks) == Weekday(d)
  {
    ModSeven(d + 7 * weeks + 4, (d + 4) / 7 + weeks, Weekday(d));
  }

  /** Remainder modulo seven is determined by any quotient-remainder split. */
  lemma ModSeven(x: int, q: int, r: int)
    requires 0 <= r < 7 && x == 7 * q + r
    ensures x % 7 == r
  {
  }

  /** A March-based year is 366 days long when the February it ends with is
      a leap February, and 365 days otherwise. */
  lemma MarchYearLength(y: int)
    ensures MarchFirst(y + 1) == MarchFirst(y) + if IsLeapYear(y + 1) then 366 else 365
  {
    var era := y / 400;
    var z := y - era * 400 + 1;
    if z < 400 {
      DivMod(y + 1, 400, era, z);
      YearOfEraStep(z);
      DivMod(y + 1, 4, era * 100 + z / 4, z % 4);
      DivMod(y + 1, 100, era * 4 + z / 100, z % 100);
    } else {
      DivMod(y + 1, 400, era + 1, 0);
    }
  }

  /** Within an era, year `z` of the era adds a leap day exactly when `z` is
      a multiple of 4 but not of 100. */
  lemma YearOfEraStep(z: int)
    requires 1 <= z < 400
    ensures z * 365 + z / 4 - z / 100 - ((z - 1) * 365 + (z - 1) / 4 - (z - 1) / 100)
            == if z % 4 == 0 && z % 100 != 0 then 366 else 365
  {
    DivMod(z, 4, (z - 1) / 4 + (if (z - 1) % 4 == 3 then 1 else 0), if (z - 1) % 4 == 3 then 0 else (z - 1) % 4 + 1);
    DivMod(z, 100, (z - 1) / 100 + (if (z - 1) % 100 == 99 then 1 else 0), if (z - 1) % 100 == 99 then 0 else (z - 1) % 100 + 1);
  }

  /** Quotient and remainder by 4, 100 or 400 are determined by any
      quotient-remainder split. */
  lemma DivMod(x: int, k: int, q: int, r: int)
    requires (k == 4 || k == 100 || k == 400) && 0 <= r < k && x == k * q + r
    ensures x / k == q && x % k == r
  {
    if k == 4 {
      assert x == 4 * q + r;
    } else if k == 100 {
      assert x == 100 * q + r;
    } else {
      assert x == 400 * q + r;
    }
  }

  /** Day numbers count calendar days: the date after any valid date, across
      month ends, year ends and 29 February, has the next day number, so the
      whole-day difference between them is 1. */
  lemma NextDateIsNextDay(date: Date)
    requires ValidDate(date)
    ensures DayOf(NextDate(date)) == DayOf(date) + 1
    ensures DaysBetween(DayOf(date), DayOf(NextDate(date))) == 1
  {
    var Date(year, month, dayOfMonth) := date;
    if dayOfMonth < DaysInMonth(year, month) {
      WithinMonth(year, month, dayOfMonth);
    } else if month == 2 {
      EndOfFebruary(year);
    } else {
      EndOfMonth(year, month);
    }
  }

  lemma WithinMonth(year: int, month: int, dayOfMonth: int)
    requires 1 <= month <= 12 && 1 <= dayOfMonth < DaysInMonth(year, month)
    ensures DaysFromCivil(year, month, dayOfMonth + 1) == DaysFromCivil(year, month, dayOfMonth) + 1
  {
  }

  /** March 1 follows the last day of February, 28 or 29. */
  lemma EndOfFebruary(year: int)
    ensures DaysFromCivil(year, 3, 1) == DaysFromCivil(year, 2, DaysInMonth(year, 2)) + 1
  {
    MarchYearLength(year - 1);
  }

  /** The first of the next month, or New Year's Day after a 31 December,
      follows the last day of any month other than February. */
  lemma EndOfMonth(year: int, month: int)
    requires 1 <= month <= 12 && month != 2
    ensures var last := DaysFromCivil(year, month, DaysInMonth(year, month));
            if month < 12 then DaysFromCivil(year, month + 1, 1) == last + 1
            else DaysFromCivil(year + 1, 1, 1) == last + 1
  {
  }
}
