/**
 * Calendar dates as (year, month, day) triples of the proleptic Gregorian
 * calendar, with a day number for ordering, day-of-week and "next day"
 * arithmetic, and a model of the JavaScript `Date` constructor
 * `new Date(year, monthIndex, day)` that the source uses everywhere.
 */
module Dates {

  datatype Date = Date(year: int, month: int, day: int)

  predicate IsLeapYear(y: int) {
    y % 4 == 0 && (y % 100 != 0 || y % 400 == 0)
  }

  function DaysInMonth(y: int, m: int): (n: int)
    ensures 28 <= n <= 31
    ensures m == 2 ==> (n == 29 <==> IsLeapYear(y))
  {
    if m == 2 then (if IsLeapYear(y) then 29 else 28)
    else if m == 4 || m == 6 || m == 9 || m == 11 then 30
    else 31
  }

  function YearLength(y: int): int {
    if IsLeapYear(y) then 366 else 365
  }

  /** A triple that names a real calendar day (any year, even negative). */
  predicate Valid(d: Date) {
    1 <= d.month <= 12 && 1 <= d.day <= DaysInMonth(d.year, d.month)
  }

  /** Days from 0001-01-01 to January 1 of year y. */
  function DaysBeforeYear(y: int): int {
    var p := y - 1;
    365 * p + p / 4 - p / 100 + p / 400
  }

  /** Days from January 1 to the first of month m of year y (0 outside 1..12). */
  function DaysBeforeMonth(y: int, m: int): int {
    var base :=
      if m == 2 then 31
      else if m == 3 then 59
      else if m == 4 then 90
      else if m == 5 then 120
      else if m == 6 then 151
      else if m == 7 then 181
      else if m == 8 then 212
      else if m == 9 then 243
      else if m == 10 then 273
      else if m == 11 then 304
      else if m == 12 then 334
      else 0;
    base + (if 2 < m <= 12 && IsLeapYear(y) then 1 else 0)
  }

  /** Day number: 0 for 0001-01-01, one more for each following day (when Valid). */
  function DayNumber(d: Date): int {
    DaysBeforeYear(d.year) + DaysBeforeMonth(d.year, d.month) + d.day - 1
  }

  /** Lexicographic order of (year, month, day). */
  predicate Before(a: Date, b: Date) {
    a.year < b.year
    || (a.year == b.year && a.month < b.month)
    || (a.year == b.year && a.month == b.month && a.day < b.day)
  }

  /** JavaScript's getDay(): 0 is Sunday, 6 is Saturday (0001-01-01 was a Monday). */
  function DayOfWeek(d: Date): (w: int)
    ensures 0 <= w < 7
  {
    (DayNumber(d) + 1) % 7
  }

  // ---------------------------------------------------------------------
  // Stepping by one day

  function NextDay(d: Date): Date {
    if d.day < DaysInMonth(d.year, d.month) then Date(d.year, d.month, d.day + 1)
    else if d.month < 12 then Date(d.year, d.month + 1, 1)
    else Date(d.year + 1, 1, 1)
  }

  function PrevDay(d: Date): Date {
    if d.day > 1 then Date(d.year, d.month, d.day - 1)
    else if d.month > 1 then Date(d.year, d.month - 1, DaysInMonth(d.year, d.month - 1))
    else Date(d.year - 1, 12, 31)
  }

  /** The date k days after d (before it when k is negative), as `setDate(getDate() + k)` does. */
  function AddDays(d: Date, k: int): Date
    decreases if k < 0 then -k else k
  {
    if k == 0 then d
    else if k > 0 then AddDays(NextDay(d), k - 1)
    else AddDays(PrevDay(d), k + 1)
  }

  // ---------------------------------------------------------------------
  // The JavaScript Date constructor

  /** `new Date(y, ...)` reads a year 0..99 as 1900..1999. */
  function JsYear(y: int): int {
    if 0 <= y <= 99 then 1900 + y else y
  }

  /** The first of the month that `new Date(y, monthIndex, 1)` lands on. */
  function JsFirstOfMonth(y: int, monthIndex: int): Date {
    Date(JsYear(y) + monthIndex / 12, monthIndex % 12 + 1, 1)
  }

  /**
   * `new Date(y, monthIndex, day)`: the month index is 0-based and may
   * overflow into other years, the day may overflow into other months.
   */
  function JsDate(y: int, monthIndex: int, day: int): Date {
    AddDays(JsFirstOfMonth(y, monthIndex), day - 1)
  }

  // ---------------------------------------------------------------------
  // Stepping keeps dates valid and moves the day number by one

  lemma NextDayFacts(d: Date)
    requires Valid(d)
    ensures Valid(NextDay(d)) && DayNumber(NextDay(d)) == DayNumber(d) + 1
  {
    if d.day < DaysInMonth(d.year, d.month) {
    } else if d.month < 12 {
      MonthStep(d.year, d.month);
    } else {
      YearStep(d.year);
    }
  }

  lemma PrevDayFacts(d: Date)
    requires Valid(d)
    ensures Valid(PrevDay(d)) && DayNumber(PrevDay(d)) == DayNumber(d) - 1
  {
    if d.day > 1 {
    } else if d.month > 1 {
      MonthStep(d.year, d.month - 1);
    } else {
      YearStep(d.year - 1);
    }
  }

  lemma {:induction false} AddDaysFacts(d: Date, k: int)
    requires Valid(d)
    ensures Valid(AddDays(d, k)) && DayNumber(AddDays(d, k)) == DayNumber(d) + k
    decreases if k < 0 then -k else k
  {
    if k > 0 {
      var next := NextDay(d);
      NextDayFacts(d);
      AddDaysFacts(next, k - 1);
      assert AddDays(d, k) == AddDays(next, k - 1);
    } else if k < 0 {
      var prev := PrevDay(d);
      PrevDayFacts(d);
      AddDaysFacts(prev, k + 1);
      assert AddDays(d, k) == AddDays(prev, k + 1);
    }
  }

  /** `new Date(y, monthIndex, day)` is always a real calendar day. */
  lemma JsDateFacts(y: int, monthIndex: int, day: int)
    ensures Valid(JsFirstOfMonth(y, monthIndex))
    ensures Valid(JsDate(y, monthIndex, day))
    ensures DayNumber(JsDate(y, monthIndex, day)) == DayNumber(JsFirstOfMonth(y, monthIndex)) + day - 1
  {
    AddDaysFacts(JsFirstOfMonth(y, monthIndex), day - 1);
  }

  // ---------------------------------------------------------------------
  // Lemmas: the day number counts days

  lemma MonthStep(y: int, m: int)
    requires 1 <= m < 12
    ensures DaysBeforeMonth(y, m + 1) == DaysBeforeMonth(y, m) + DaysInMonth(y, m)
  {
  }

  lemma YearStep(y: int)
    ensures DaysBeforeYear(y + 1) == DaysBeforeYear(y) + YearLength(y)
    ensures DaysBeforeMonth(y, 12) + DaysInMonth(y, 12) == YearLength(y)
  {
    DivStep4(y);
    DivStep100(y);
    DivStep400(y);
  }

  lemma DivStep4(y: int)
    ensures y / 4 == (y - 1) / 4 + (if y % 4 == 0 then 1 else 0)
  {
  }

  lemma DivStep100(y: int)
    ensures y / 100 == (y - 1) / 100 + (if y % 100 == 0 then 1 else 0)
  {
  }

  lemma DivStep400(y: int)
    ensures y / 400 == (y - 1) / 400 + (if y % 400 == 0 then 1 else 0)
  {
  }

  /** The days of one year occupy [DaysBeforeYear(y), DaysBeforeYear(y + 1)). */
  lemma DayNumberInYear(d: Date)
    requires Valid(d)
    ensures DaysBeforeYear(d.year) <= DayNumber(d) < DaysBeforeYear(d.year + 1)
  {
    YearStep(d.year);
    if d.month < 12 {
      MonthsBelow(d.year, d.month + 1, 12);
      MonthStep(d.year, d.month);
    }
  }

  /** Months are laid out in order within a year. */
  lemma MonthsBelow(y: int, m: int, n: int)
    requires 1 <= m <= n <= 12
    ensures DaysBeforeMonth(y, m) + (if m < n then DaysInMonth(y, m) else 0) <= DaysBeforeMonth(y, n)
  {
  }

  lemma {:induction false} YearsBelow(a: int, b: int)
    requires a <= b
    ensures DaysBeforeYear(a) <= DaysBeforeYear(b)
    decreases b - a
  {
    if a < b {
      YearStep(a);
      YearsBelow(a + 1, b);
    }
  }

  /** The day number orders valid dates exactly as the calendar does. */
  lemma DayNumberOrder(a: Date, b: Date)
    requires Valid(a) && Valid(b)
    ensures DayNumber(a) < DayNumber(b) <==> Before(a, b)
  {
    if a.year < b.year {
      EarlierYear(a, b);
    } else if b.year < a.year {
      EarlierYear(b, a);
    } else if a.month < b.month {
      EarlierMonth(a, b);
    } else if b.month < a.month {
      EarlierMonth(b, a);
    }
  }

  lemma EarlierYear(a: Date, b: Date)
    requires Valid(a) && Valid(b) && a.year < b.year
    ensures DayNumber(a) < DayNumber(b)
  {
    DayNumberInYear(a);
    DayNumberInYear(b);
    YearsBelow(a.year + 1, b.year);
  }

  lemma EarlierMonth(a: Date, b: Date)
    requires Valid(a) && Valid(b) && a.year == b.year && a.month < b.month
    ensures DayNumber(a) < DayNumber(b)
  {
    MonthsBelow(a.year, a.month, b.month);
  }

  /** Two valid dates with the same day number are the same date. */
  lemma DayNumberInjective(a: Date, b: Date)
    requires Valid(a) && Valid(b) && DayNumber(a) == DayNumber(b)
    ensures a == b
  {
    DayNumberOrder(a, b);
    DayNumberOrder(b, a);
  }

  /** On a valid triple with a year of 100 or more, the constructor is the identity. */
  lemma JsDateOfValid(y: int, monthIndex: int, day: int)
    requires y >= 100 && 0 <= monthIndex < 12
    requires Valid(Date(y, monthIndex + 1, day))
    ensures JsDate(y, monthIndex, day) == Date(y, monthIndex + 1, day)
  {
    assert JsFirstOfMonth(y, monthIndex) == Date(y, monthIndex + 1, 1) by {
      assert JsYear(y) == y;
      assert monthIndex / 12 == 0;
      assert monthIndex % 12 == monthIndex;
    }
    JsDateFacts(y, monthIndex, day);
    DayNumberInjective(JsDate(y, monthIndex, day), Date(y, monthIndex + 1, day));
  }
}
