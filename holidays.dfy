/**
 * The season calendar of src/utils/southAfricanHolidays.ts: the
 * anonymous Gregorian Computus for Easter, the South African public
 * holidays, the school-holiday windows, the Friday/Saturday/Sunday
 * weekends, and the peak-season set that is their union.
 *
 * The source keeps holiday dates as "YYYY-MM-DD" strings; here they are
 * Date triples (DateText.FormatDateInjective makes the two equivalent).
 */
module Holidays {
  import opened Wrappers
  import opened Dates
  import opened Seqs

  datatype HolidayKind = Public | School

  datatype Holiday = Holiday(date: Date, name: string, kind: HolidayKind)

  datatype PublicTemplate = PublicTemplate(month: int, day: int, name: string)

  datatype SchoolTemplate =
    SchoolTemplate(startMonth: int, startDay: int, endMonth: int, endDay: int, name: string)

  const PublicHolidayTemplates: seq<PublicTemplate> := [
    PublicTemplate(1, 1, "New Year's Day"),
    PublicTemplate(3, 21, "Human Rights Day"),
    PublicTemplate(4, 18, "Good Friday"),
    PublicTemplate(4, 21, "Family Day"),
    PublicTemplate(4, 27, "Freedom Day"),
    PublicTemplate(5, 1, "Workers' Day"),
    PublicTemplate(6, 16, "Youth Day"),
    PublicTemplate(8, 9, "National Women's Day"),
    PublicTemplate(9, 24, "Heritage Day"),
    PublicTemplate(12, 16, "Day of Reconciliation"),
    PublicTemplate(12, 25, "Christmas Day"),
    PublicTemplate(12, 26, "Day of Goodwill")
  ]

  const SchoolHolidayTemplates: seq<SchoolTemplate> := [
    SchoolTemplate(12, 15, 1, 15, "Summer Holidays"),
    SchoolTemplate(3, 25, 4, 5, "Autumn Break"),
    SchoolTemplate(6, 24, 7, 14, "Winter Holidays"),
    SchoolTemplate(9, 23, 10, 2, "Spring Break")
  ]

  // ---------------------------------------------------------------------
  // Easter: the anonymous Gregorian algorithm (Meeus/Jones/Butcher)

  /** JavaScript's `%`: the remainder takes the sign of the dividend. */
  function JsRem(x: int, n: int): (r: int)
    requires n > 0
    ensures x >= 0 ==> r == x % n
  {
    if x >= 0 then x % n else -((-x) % n)
  }

  datatype Computus = Computus(a: int, b: int, c: int, d: int, e: int, f: int, g: int,
                               h: int, i: int, k: int, l: int, m: int, month: int, day: int)

  /**
   * The intermediate quantities of getEasterDate, with `Math.floor(x / n)`
   * as `x / n` and JavaScript's `%` as JsRem.
   */
  function JsComputusTerms(year: int): Computus {
    var a := JsRem(year, 19);
    var b := year / 100;
    var c := JsRem(year, 100);
    var d := b / 4;
    var e := JsRem(b, 4);
    var f := (b + 8) / 25;
    var g := (b - f + 1) / 3;
    var h := JsRem(19 * a + b - d - g + 15, 30);
    var i := c / 4;
    var k := JsRem(c, 4);
    var l := JsRem(32 + 2 * e + 2 * i - h - k, 7);
    var m := (a + 11 * h + 22 * l) / 451;
    var month := (h + l - 7 * m + 114) / 31;
    var day := JsRem(h + l - 7 * m + 114, 31) + 1;
    Computus(a, b, c, d, e, f, g, h, i, k, l, m, month, day)
  }

  /** The same quantities with Euclidean remainders. */
  function ComputusTerms(year: int): Computus {
    var a := year % 19;
    var b := year / 100;
    var c := year % 100;
    var d := b / 4;
    var e := b % 4;
    var f := (b + 8) / 25;
    var g := (b - f + 1) / 3;
    var h := (19 * a + b - d - g + 15) % 30;
    var i := c / 4;
    var k := c % 4;
    var l := (32 + 2 * e + 2 * i - h - k) % 7;
    var m := (a + 11 * h + 22 * l) / 451;
    var month := (h + l - 7 * m + 114) / 31;
    var day := (h + l - 7 * m + 114) % 31 + 1;
    Computus(a, b, c, d, e, f, g, h, i, k, l, m, month, day)
  }

  /** From year 0 on every remainder has a non-negative dividend, so the two agree. */
  lemma ComputusAgrees(year: int)
    requires year >= 0
    ensures JsComputusTerms(year) == ComputusTerms(year)
  {
    var t := ComputusTerms(year);
    var j := JsComputusTerms(year);
    assert j.a == t.a && j.b == t.b && j.c == t.c && 0 <= t.c < 100;
    assert j.d == t.d && j.e == t.e && j.f == t.f && j.g == t.g;
    CenturyCorrection(t.b, t.d, t.f, t.g);
    assert j.h == t.h && j.i == t.i && j.k == t.k;
    assert 0 <= t.e < 4 && 0 <= t.k < 4 && 0 <= t.h < 30;
    assert j.l == t.l && j.m == t.m;
    OffsetRange(t.a, t.h, t.l, t.m);
    assert j.month == t.month && j.day == t.day;
  }

  /** getEasterDate: `new Date(year, month - 1, day)`. */
  function EasterDate(year: int): (r: Date)
    ensures Valid(r)
  {
    var t := ComputusTerms(year);
    JsDateFacts(year, t.month - 1, t.day);
    JsDate(year, t.month - 1, t.day)
  }

  /** Good Friday: `setDate(easter.getDate() - 2)`. */
  function GoodFriday(year: int): Date {
    AddDays(EasterDate(year), -2)
  }

  /** Family Day: `setDate(easter.getDate() + 1)`. */
  function FamilyDay(year: int): Date {
    AddDays(EasterDate(year), 1)
  }

  // ---------------------------------------------------------------------
  // Public holidays

  /** One fixed template's contribution: nothing for the two Easter-based names. */
  function FixedEntry(year: int, t: PublicTemplate): seq<Holiday> {
    if t.name == "Good Friday" || t.name == "Family Day" then []
    else [Holiday(JsDate(year, t.month - 1, t.day), t.name, Public)]
  }

  /** What the forEach over the first n templates has pushed. */
  function FixedUpTo(year: int, templates: seq<PublicTemplate>, n: nat): seq<Holiday>
    requires n <= |templates|
  {
    if n == 0 then [] else FixedUpTo(year, templates, n - 1) + FixedEntry(year, templates[n - 1])
  }

  function EasterHolidays(year: int): seq<Holiday> {
    [Holiday(GoodFriday(year), "Good Friday", Public), Holiday(FamilyDay(year), "Family Day", Public)]
  }

  /** getPublicHolidays: Good Friday, Family Day, then the fixed templates in order. */
  function PublicHolidays(year: int): seq<Holiday> {
    EasterHolidays(year) + FixedUpTo(year, PublicHolidayTemplates, |PublicHolidayTemplates|)
  }

  method GetPublicHolidays(year: int) returns (holidays: seq<Holiday>)
    ensures holidays == PublicHolidays(year)
  {
    var easter := EasterDate(year);
    var goodFriday := AddDays(easter, -2);
    var familyDay := AddDays(easter, 1);
    holidays := [];
    holidays := holidays + [Holiday(goodFriday, "Good Friday", Public)];
    holidays := holidays + [Holiday(familyDay, "Family Day", Public)];
    assert holidays == EasterHolidays(year);
    var fixed := FixedHolidays(year, PublicHolidayTemplates);
    holidays := holidays + fixed;
  }

  /** The forEach over the fixed templates. */
  method FixedHolidays(year: int, templates: seq<PublicTemplate>) returns (holidays: seq<Holiday>)
    ensures holidays == FixedUpTo(year, templates, |templates|)
  {
    holidays := [];
    var n := 0;
    while n < |templates|
      invariant 0 <= n <= |templates|
      invariant holidays == FixedUpTo(year, templates, n)
    {
      var entry := FixedHoliday(year, templates[n]);
      holidays := holidays + entry;
      n := n + 1;
    }
  }

  /** The body of the forEach over the fixed templates. */
  method FixedHoliday(year: int, template: PublicTemplate) returns (entry: seq<Holiday>)
    ensures entry == FixedEntry(year, template)
  {
    entry := [];
    if !(template.name == "Good Friday" || template.name == "Family Day") {
      var date := JsDate(year, template.month - 1, template.day);
      entry := [Holiday(date, template.name, Public)];
    }
  }

  // ---------------------------------------------------------------------
  // School holidays

  /** startYear is the previous year for a window that starts in December. */
  function WindowStart(t: SchoolTemplate, year: int): Date {
    JsDate(if t.startMonth == 12 then year - 1 else year, t.startMonth - 1, t.startDay)
  }

  /** endYear is `year` on both branches of the source's conditional. */
  function WindowEnd(t: SchoolTemplate, year: int): Date {
    JsDate(year, t.endMonth - 1, t.endDay)
  }

  /** The filter inside the day loop. */
  predicate KeepDay(t: SchoolTemplate, year: int, d: Date) {
    d.year == year || (t.startMonth == 12 && d.year == year + 1)
  }

  /** The days the loop `for (d = start; d <= end; d.setDate(d.getDate() + 1))` pushes from d on. */
  function WindowWalk(t: SchoolTemplate, year: int, d: Date, end: Date): seq<Holiday>
    requires Valid(d) && Valid(end)
    decreases DayNumber(end) - DayNumber(d)
  {
    if DayNumber(d) > DayNumber(end) then []
    else
      NextDayFacts(d);
      (if KeepDay(t, year, d) then [Holiday(d, t.name, School)] else [])
      + WindowWalk(t, year, NextDay(d), end)
  }

  function WindowDays(t: SchoolTemplate, year: int): seq<Holiday> {
    JsDateFacts(if t.startMonth == 12 then year - 1 else year, t.startMonth - 1, t.startDay);
    JsDateFacts(year, t.endMonth - 1, t.endDay);
    WindowWalk(t, year, WindowStart(t, year), WindowEnd(t, year))
  }

  function SchoolUpTo(year: int, templates: seq<SchoolTemplate>, n: nat): seq<Holiday>
    requires n <= |templates|
  {
    if n == 0 then [] else SchoolUpTo(year, templates, n - 1) + WindowDays(templates[n - 1], year)
  }

  /** getSchoolHolidays: every kept day of every window, window by window. */
  function SchoolHolidays(year: int): seq<Holiday> {
    SchoolUpTo(year, SchoolHolidayTemplates, |SchoolHolidayTemplates|)
  }

  method GetSchoolHolidays(year: int) returns (holidays: seq<Holiday>)
    ensures holidays == SchoolHolidays(year)
  {
    holidays := SchoolWindows(year, SchoolHolidayTemplates);
  }

  /** The forEach over the windows. */
  method SchoolWindows(year: int, templates: seq<SchoolTemplate>) returns (holidays: seq<Holiday>)
    ensures holidays == SchoolUpTo(year, templates, |templates|)
  {
    holidays := [];
    var n := 0;
    while n < |templates|
      invariant 0 <= n <= |templates|
      invariant holidays == SchoolUpTo(year, templates, n)
    {
      var days := KeptWindowDays(templates[n], year);
      assert SchoolUpTo(year, templates, n + 1) == SchoolUpTo(year, templates, n) + days;
      holidays := holidays + days;
      n := n + 1;
    }
  }

  /** One window of the forEach: its start and end dates, then the day loop. */
  method KeptWindowDays(template: SchoolTemplate, year: int) returns (days: seq<Holiday>)
    ensures days == WindowDays(template, year)
  {
    var startDate := WindowStart(template, year);
    var endDate := WindowEnd(template, year);
    JsDateFacts(if template.startMonth == 12 then year - 1 else year, template.startMonth - 1, template.startDay);
    JsDateFacts(year, template.endMonth - 1, template.endDay);
    days := WalkWindow(template, year, startDate, endDate);
  }

  /** The day loop from startDate to endDate, keeping the days the year filter admits. */
  method WalkWindow(template: SchoolTemplate, year: int, startDate: Date, endDate: Date) returns (days: seq<Holiday>)
    requires Valid(startDate) && Valid(endDate)
    ensures days == WindowWalk(template, year, startDate, endDate)
  {
    days := [];
    var d := startDate;
    while DayNumber(d) <= DayNumber(endDate)
      invariant Valid(d)
      invariant days + WindowWalk(template, year, d, endDate)
                == WindowWalk(template, year, startDate, endDate)
      decreases DayNumber(endDate) - DayNumber(d)
    {
      var step := if KeepDay(template, year, d) then [Holiday(d, template.name, School)] else [];
      NextDayFacts(d);
      ghost var rest := WindowWalk(template, year, NextDay(d), endDate);
      assert WindowWalk(template, year, d, endDate) == step + rest;
      AppendAssociative(days, step, rest);
      days := days + step;
      d := NextDay(d);
    }
  }

  // ---------------------------------------------------------------------
  // Weekends and the peak-season set

  /** Friday, Saturday or Sunday. */
  predicate IsWeekendDay(d: Date) {
    var w := DayOfWeek(d);
    w == 0 || w == 5 || w == 6
  }

  /** `new Date(year, monthIndex + 1, 0).getDate()`: the length of the month. */
  function DaysInMonthJs(year: int, monthIndex: int): int {
    JsDate(year, monthIndex + 1, 0).day
  }

  /** The weekend days added by the inner loop for days 1 .. n - 1 of a month. */
  function WeekendDaysOfMonth(year: int, monthIndex: int, n: int): set<Date>
    decreases n
  {
    if n <= 1 then {}
    else
      WeekendDaysOfMonth(year, monthIndex, n - 1)
      + (var date := JsDate(year, monthIndex, n - 1);
         if IsWeekendDay(date) then {date} else {})
  }

  /** The weekend days added by the outer loop for months 0 .. n - 1. */
  function WeekendDaysUpTo(year: int, n: nat): set<Date> {
    if n == 0 then {}
    else WeekendDaysUpTo(year, n - 1) + WeekendDaysOfMonth(year, n - 1, DaysInMonthJs(year, n - 1) + 1)
  }

  function WeekendDates(year: int): set<Date> {
    WeekendDaysUpTo(year, 12)
  }

  /** The forEach(add) over a holiday list, as a set of dates. */
  function DatesOf(holidays: seq<Holiday>): set<Date> {
    if |holidays| == 0 then {}
    else DatesOf(holidays[..|holidays| - 1]) + {holidays[|holidays| - 1].date}
  }

  /** getPeakSeasonDates: public holidays, school holidays, weekends. */
  function PeakSeasonDates(year: int): set<Date> {
    DatesOf(PublicHolidays(year)) + DatesOf(SchoolHolidays(year)) + WeekendDates(year)
  }

  method GetPeakSeasonDates(year: int) returns (peakDates: set<Date>)
    ensures peakDates == PeakSeasonDates(year)
  {
    peakDates := {};
    var publicHolidays := GetPublicHolidays(year);
    peakDates := AddHolidayDates(peakDates, publicHolidays);
    var schoolHolidays := GetSchoolHolidays(year);
    peakDates := AddHolidayDates(peakDates, schoolHolidays);
    peakDates := AddWeekendDates(peakDates, year);
  }

  /** `holidays.forEach(h => peakDates.add(h.date))`. */
  method AddHolidayDates(dates: set<Date>, holidays: seq<Holiday>) returns (r: set<Date>)
    ensures r == dates + DatesOf(holidays)
  {
    r := dates;
    var n := 0;
    while n < |holidays|
      invariant 0 <= n <= |holidays|
      invariant r == dates + DatesOf(holidays[..n])
    {
      assert holidays[..n + 1][..n] == holidays[..n];
      r := r + {holidays[n].date};
      n := n + 1;
    }
    assert holidays[..n] == holidays;
  }

  /** The month loop adding every Friday, Saturday and Sunday of the year. */
  method AddWeekendDates(dates: set<Date>, year: int) returns (r: set<Date>)
    ensures r == dates + WeekendDates(year)
  {
    r := dates;
    var month := 0;
    while month < 12
      invariant 0 <= month <= 12
      invariant r == dates + WeekendDaysUpTo(year, month)
    {
      r := AddWeekendDaysOfMonth(r, year, month);
      month := month + 1;
    }
  }

  /** The day loop over one month, up to `new Date(year, month + 1, 0).getDate()`. */
  method AddWeekendDaysOfMonth(dates: set<Date>, year: int, month: int) returns (r: set<Date>)
    ensures r == dates + WeekendDaysOfMonth(year, month, DaysInMonthJs(year, month) + 1)
  {
    r := dates;
    var daysInMonth := DaysInMonthJs(year, month);
    JsDateFacts(year, month + 1, 0);
    var day := 1;
    while day <= daysInMonth
      invariant 1 <= day <= daysInMonth + 1
      invariant r == dates + WeekendDaysOfMonth(year, month, day)
    {
      var date := JsDate(year, month, day);
      if IsWeekendDay(date) {
        r := r + {date};
      }
      day := day + 1;
    }
  }

  /** isPeakSeason: membership in the peak-season set of the date's own year. */
  function IsPeakSeason(d: Date): bool {
    d in PeakSeasonDates(d.year)
  }

  // ---------------------------------------------------------------------
  // Holiday names

  /** The position of the first holiday on date d, if any (`Array.find`). */
  function FirstOn(holidays: seq<Holiday>, d: Date): (r: Option<nat>)
    ensures r.Some? ==> r.value < |holidays| && holidays[r.value].date == d
                        && forall j :: 0 <= j < r.value ==> holidays[j].date != d
    ensures r.None? <==> forall j :: 0 <= j < |holidays| ==> holidays[j].date != d
  {
    if |holidays| == 0 then None
    else if holidays[0].date == d then Some(0)
    else
      var rest := FirstOn(holidays[1..], d);
      if rest.None? then None else Some(rest.value + 1)
  }

  /** The `find` of getHolidayName: the name of the first holiday on the date, if any. */
  function NameOn(holidays: seq<Holiday>, d: Date): Option<string> {
    var found := FirstOn(holidays, d);
    if found.Some? then Some(holidays[found.value].name) else None
  }

  /** getHolidayName: the first public, then school, holiday on the date. */
  function HolidayName(d: Date): Option<string> {
    NameOn(PublicHolidays(d.year) + SchoolHolidays(d.year), d)
  }

  // ---------------------------------------------------------------------
  // Lemmas: Easter

  /** The days from March 22 to Easter, as the Computus yields them. */
  function EasterOffset(year: int): int {
    var t := ComputusTerms(year);
    t.h + t.l - 7 * t.m
  }

  /** How the Computus terms decompose the year, and their ranges. */
  lemma ComputusRanges(year: int)
    ensures var t := ComputusTerms(year);
      && year == 100 * t.b + t.c && 0 <= t.c < 100
      && t.c == 4 * t.i + t.k && 0 <= t.k < 4
      && t.b == 4 * t.d + t.e && 0 <= t.e < 4
      && 0 <= t.a < 19 && 0 <= t.h < 30 && 0 <= t.l < 7
      && t.l == (32 + 2 * t.e + 2 * t.i - t.h - t.k) % 7
      && t.m == (t.a + 11 * t.h + 22 * t.l) / 451
      && t.month == (EasterOffset(year) + 114) / 31
      && t.day == (EasterOffset(year) + 114) % 31 + 1
  {
  }

  /** The century corrections never outgrow the century count. */
  lemma CenturyCorrection(b: int, d: int, f: int, g: int)
    requires b >= 0 && d == b / 4 && f == (b + 8) / 25 && g == (b - f + 1) / 3
    ensures b - d - g >= 0
  {
  }

  /** `h + l - 7m`, the days after March 22, lies in 0..34. */
  lemma OffsetRange(a: int, h: int, l: int, m: int)
    requires 0 <= a < 19 && 0 <= h < 30 && 0 <= l < 7 && m == (a + 11 * h + 22 * l) / 451
    ensures 0 <= h + l - 7 * m <= 34
  {
    if m >= 1 {
      assert 11 * h + 22 * l >= 433;
      assert l == 6 && h >= 28;
    } else {
      assert 11 * h + 22 * l < 451;
    }
  }

  /** Easter falls between March 22 and April 25 of its own year. */
  lemma EasterInSpring(year: int)
    requires year >= 100
    ensures var e := EasterDate(year);
      && Valid(e) && e.year == year
      && ((e.month == 3 && 22 <= e.day <= 31) || (e.month == 4 && 1 <= e.day <= 25))
      && DayNumber(e) == DayNumber(Date(year, 3, 22)) + EasterOffset(year)
  {
    ComputusRanges(year);
    var t := ComputusTerms(year);
    OffsetRange(t.a, t.h, t.l, t.m);
    var off := EasterOffset(year);
    if off <= 9 {
      assert t.month == 3 && t.day == off + 22;
      JsDateOfValid(year, 2, t.day);
    } else {
      assert t.month == 4 && t.day == off - 9;
      JsDateOfValid(year, 3, t.day);
    }
  }

  /** Day number arithmetic for the start of a year, by century and leap adjustments. */
  lemma DaysBeforeYearSplit(y: int, b: int, c: int, i: int, k: int, d: int, e: int)
    requires y == 100 * b + c && 0 <= c < 100
    requires c == 4 * i + k && 0 <= k < 4
    requires b == 4 * d + e && 0 <= e < 4
    ensures DaysBeforeYear(y) + (if IsLeapYear(y) then 1 else 0) == 365 * (y - 1) + 25 * b + i - b + d
  {
    var p := y - 1;
    assert y / 4 == 25 * b + i;
    assert y / 100 == b;
    assert y / 400 == d;
    assert y % 4 == k;
    assert y % 100 == c;
    assert y % 400 == 100 * e + c;
    assert p / 4 == y / 4 - (if k == 0 then 1 else 0);
    assert p / 100 == y / 100 - (if c == 0 then 1 else 0);
    assert p / 400 == y / 400 - (if c == 0 && e == 0 then 1 else 0);
  }

  /** The weekday arithmetic behind the Computus: March 22 plus the offset is a Sunday. */
  lemma SundayArithmetic(y: int, b: int, c: int, i: int, k: int, d: int, e: int, h: int, l: int, m: int)
    requires y == 100 * b + c && 0 <= c < 100
    requires c == 4 * i + k && 0 <= k < 4
    requires b == 4 * d + e && 0 <= e < 4
    requires l == (32 + 2 * e + 2 * i - h - k) % 7
    ensures (DayNumber(Date(y, 3, 22)) + h + l - 7 * m + 1) % 7 == 0
  {
    DaysBeforeYearSplit(y, b, c, i, k, d, e);
    var x := 32 + 2 * e + 2 * i - h - k;
    var q := x / 7;
    assert l == x - 7 * q;
    var n := DayNumber(Date(y, 3, 22));
    assert n == DaysBeforeYear(y) + 80 + (if IsLeapYear(y) then 1 else 0);
    var w := 20871 * d + 5218 * e + 209 * i + 52 * k - 36 - q - m;
    SundaySum(n, y, b, c, i, k, d, e, h, l, m, q);
    assert (7 * w) % 7 == 0;
  }

  /** The linear identity behind SundayArithmetic. */
  lemma SundaySum(n: int, y: int, b: int, c: int, i: int, k: int, d: int, e: int, h: int, l: int, m: int, q: int)
    requires n == 365 * (y - 1) + 25 * b + i - b + d + 80
    requires y == 100 * b + c && c == 4 * i + k && b == 4 * d + e
    requires l == 32 + 2 * e + 2 * i - h - k - 7 * q
    ensures n + h + l - 7 * m + 1 == 7 * (20871 * d + 5218 * e + 209 * i + 52 * k - 36 - q - m)
  {
  }

  /** The Computus always lands on a Sunday. */
  lemma EasterIsSunday(year: int)
    requires year >= 100
    ensures DayOfWeek(EasterDate(year)) == 0
  {
    ComputusRanges(year);
    EasterInSpring(year);
    var t := ComputusTerms(year);
    SundayArithmetic(year, t.b, t.c, t.i, t.k, t.d, t.e, t.h, t.l, t.m);
  }

  /** Good Friday is the Friday two days before Easter, between March 20 and April 23. */
  lemma GoodFridayFacts(year: int)
    requires year >= 100
    ensures var g := GoodFriday(year);
      && Valid(g) && g.year == year && DayOfWeek(g) == 5
      && DayNumber(g) == DayNumber(EasterDate(year)) - 2
      && ((g.month == 3 && 20 <= g.day <= 31) || (g.month == 4 && 1 <= g.day <= 23))
  {
    EasterInSpring(year);
    EasterIsSunday(year);
    var e := EasterDate(year);
    AddDaysFacts(e, -2);
    var c := if e.day > 2 then Date(year, e.month, e.day - 2) else Date(year, 3, 29 + e.day);
    assert Valid(c) && DayNumber(c) == DayNumber(e) - 2;
    DayNumberInjective(GoodFriday(year), c);
    WeekdayAfter(e, c, -2);
  }

  /** Family Day is the Monday after Easter, between March 23 and April 26. */
  lemma FamilyDayFacts(year: int)
    requires year >= 100
    ensures var f := FamilyDay(year);
      && Valid(f) && f.year == year && DayOfWeek(f) == 1
      && DayNumber(f) == DayNumber(EasterDate(year)) + 1
      && ((f.month == 3 && 23 <= f.day <= 31) || (f.month == 4 && 1 <= f.day <= 26))
  {
    EasterInSpring(year);
    EasterIsSunday(year);
    var e := EasterDate(year);
    AddDaysFacts(e, 1);
    var c := if e.month == 3 && e.day == 31 then Date(year, 4, 1) else Date(year, e.month, e.day + 1);
    assert Valid(c) && DayNumber(c) == DayNumber(e) + 1;
    DayNumberInjective(FamilyDay(year), c);
    WeekdayAfter(e, c, 1);
  }

  /** j days after a Sunday the weekday is j mod 7. */
  lemma WeekdayAfter(sunday: Date, d: Date, j: int)
    requires DayOfWeek(sunday) == 0 && DayNumber(d) == DayNumber(sunday) + j
    ensures DayOfWeek(d) == j % 7
  {
    var n := DayNumber(sunday) + 1;
    var q := n / 7;
    assert n == 7 * q;
    var r := j % 7;
    assert j == 7 * (j / 7) + r;
    assert DayNumber(d) + 1 == 7 * (q + j / 7) + r;
  }

  // ---------------------------------------------------------------------
  // Lemmas: the public holiday list

  /** The fixed dates that the template list contributes. */
  function FixedPublicHolidays(year: int): seq<Holiday> {
    [
      Holiday(Date(year, 1, 1), "New Year's Day", Public),
      Holiday(Date(year, 3, 21), "Human Rights Day", Public),
      Holiday(Date(year, 4, 27), "Freedom Day", Public),
      Holiday(Date(year, 5, 1), "Workers' Day", Public),
      Holiday(Date(year, 6, 16), "Youth Day", Public),
      Holiday(Date(year, 8, 9), "National Women's Day", Public),
      Holiday(Date(year, 9, 24), "Heritage Day", Public),
      Holiday(Date(year, 12, 16), "Day of Reconciliation", Public),
      Holiday(Date(year, 12, 25), "Christmas Day", Public),
      Holiday(Date(year, 12, 26), "Day of Goodwill", Public)
    ]
  }

  /** A kept template on a real day of a year from 100 on yields exactly that day. */
  lemma FixedEntryOfValid(year: int, t: PublicTemplate)
    requires year >= 100 && 1 <= t.month <= 12 && Valid(Date(year, t.month, t.day))
    requires t.name != "Good Friday" && t.name != "Family Day"
    ensures FixedEntry(year, t) == [Holiday(Date(year, t.month, t.day), t.name, Public)]
  {
    JsDateOfValid(year, t.month - 1, t.day);
  }

  lemma FixedTemplates1To4(year: int)
    requires year >= 100
    ensures FixedUpTo(year, PublicHolidayTemplates, 4)
            == FixedUpTo(year, PublicHolidayTemplates, 0) + FixedPublicHolidays(year)[0..2]
  {
    var t := PublicHolidayTemplates;
    FixedEntryOfValid(year, t[0]);
    assert FixedUpTo(year, t, 1) == FixedUpTo(year, t, 0) + FixedEntry(year, t[0]);
    FixedEntryOfValid(year, t[1]);
    assert FixedUpTo(year, t, 2) == FixedUpTo(year, t, 1) + FixedEntry(year, t[1]);
    assert FixedEntry(year, t[2]) == [];
    assert FixedUpTo(year, t, 3) == FixedUpTo(year, t, 2) + FixedEntry(year, t[2]);
    assert FixedEntry(year, t[3]) == [];
    assert FixedUpTo(year, t, 4) == FixedUpTo(year, t, 3) + FixedEntry(year, t[3]);
  }

  lemma FixedTemplates5To8(year: int)
    requires year >= 100
    ensures FixedUpTo(year, PublicHolidayTemplates, 8)
            == FixedUpTo(year, PublicHolidayTemplates, 4) + FixedPublicHolidays(year)[2..6]
  {
    var t := PublicHolidayTemplates;
    FixedEntryOfValid(year, t[4]);
    assert FixedUpTo(year, t, 5) == FixedUpTo(year, t, 4) + FixedEntry(year, t[4]);
    FixedEntryOfValid(year, t[5]);
    assert FixedUpTo(year, t, 6) == FixedUpTo(year, t, 5) + FixedEntry(year, t[5]);
    FixedEntryOfValid(year, t[6]);
    assert FixedUpTo(year, t, 7) == FixedUpTo(year, t, 6) + FixedEntry(year, t[6]);
    FixedEntryOfValid(year, t[7]);
    assert FixedUpTo(year, t, 8) == FixedUpTo(year, t, 7) + FixedEntry(year, t[7]);
  }

  lemma FixedTemplates9To12(year: int)
    requires year >= 100
    ensures FixedUpTo(year, PublicHolidayTemplates, 12)
            == FixedUpTo(year, PublicHolidayTemplates, 8) + FixedPublicHolidays(year)[6..10]
  {
    var t := PublicHolidayTemplates;
    FixedEntryOfValid(year, t[8]);
    assert FixedUpTo(year, t, 9) == FixedUpTo(year, t, 8) + FixedEntry(year, t[8]);
    FixedEntryOfValid(year, t[9]);
    assert FixedUpTo(year, t, 10) == FixedUpTo(year, t, 9) + FixedEntry(year, t[9]);
    FixedEntryOfValid(year, t[10]);
    assert FixedUpTo(year, t, 11) == FixedUpTo(year, t, 10) + FixedEntry(year, t[10]);
    FixedEntryOfValid(year, t[11]);
    assert FixedUpTo(year, t, 12) == FixedUpTo(year, t, 11) + FixedEntry(year, t[11]);
  }

  /**
   * getPublicHolidays yields Good Friday, Family Day and ten fixed holidays
   * of the year; the fixed April 18 and April 21 entries of the template
   * list are skipped.
   */
  lemma PublicHolidayList(year: int)
    requires year >= 100
    ensures PublicHolidays(year) == EasterHolidays(year) + FixedPublicHolidays(year)
    ensures |PublicHolidays(year)| == 12
  {
    FixedTemplatesAll(year);
  }

  /** The forEach over all twelve templates pushes the ten fixed holidays. */
  lemma FixedTemplatesAll(year: int)
    requires year >= 100
    ensures FixedUpTo(year, PublicHolidayTemplates, |PublicHolidayTemplates|) == FixedPublicHolidays(year)
  {
    var f := FixedPublicHolidays(year);
    var t := PublicHolidayTemplates;
    FixedTemplates1To4(year);
    FixedTemplates5To8(year);
    FixedTemplates9To12(year);
    assert FixedUpTo(year, t, 0) == [];
    ThreeSlices(f, 2, 6);
  }

  // ---------------------------------------------------------------------
  // Lemmas: sets of holiday dates

  lemma {:induction false} DatesOfMembers(holidays: seq<Holiday>, x: Date)
    ensures x in DatesOf(holidays) <==> exists j :: 0 <= j < |holidays| && holidays[j].date == x
    decreases |holidays|
  {
    if |holidays| > 0 {
      var front := holidays[..|holidays| - 1];
      DatesOfMembers(front, x);
      if x in DatesOf(front) {
        var j :| 0 <= j < |front| && front[j].date == x;
        assert holidays[j].date == x;
      }
      if exists j :: 0 <= j < |holidays| && holidays[j].date == x {
        var j :| 0 <= j < |holidays| && holidays[j].date == x;
        if j < |front| {
          assert front[j].date == x;
        }
      }
    }
  }

  lemma DatesOfAppend(a: seq<Holiday>, b: seq<Holiday>)
    ensures DatesOf(a + b) == DatesOf(a) + DatesOf(b)
  {
    forall x
      ensures x in DatesOf(a + b) <==> x in DatesOf(a) || x in DatesOf(b)
    {
      DatesOfMembers(a + b, x);
      DatesOfMembers(a, x);
      DatesOfMembers(b, x);
      if x in DatesOf(b) {
        var j :| 0 <= j < |b| && b[j].date == x;
        assert (a + b)[|a| + j].date == x;
      }
      if x in DatesOf(a) {
        var j :| 0 <= j < |a| && a[j].date == x;
        assert (a + b)[j].date == x;
      }
      if x in DatesOf(a + b) {
        var j :| 0 <= j < |a + b| && (a + b)[j].date == x;
        if j < |a| {
          assert a[j].date == x;
        } else {
          assert b[j - |a|].date == x;
        }
      }
    }
  }

  // ---------------------------------------------------------------------
  // Lemmas: school holidays

  /** The school windows as the code yields them: Jan 1-15, Mar 25-Apr 5, Jun 24-Jul 14, Sep 23-Oct 2. */
  predicate InSchoolWindow(month: int, day: int) {
    (month == 1 && day <= 15)
    || (month == 3 && day >= 25) || (month == 4 && day <= 5)
    || (month == 6 && day >= 24) || (month == 7 && day <= 14)
    || (month == 9 && day >= 23) || (month == 10 && day <= 2)
  }

  /** The day loop keeps exactly the admitted days between d and end. */
  lemma {:induction false} WindowWalkMembers(t: SchoolTemplate, year: int, d: Date, end: Date, x: Date)
    requires Valid(d) && Valid(end)
    ensures x in DatesOf(WindowWalk(t, year, d, end))
            <==> Valid(x) && DayNumber(d) <= DayNumber(x) <= DayNumber(end) && KeepDay(t, year, x)
    decreases DayNumber(end) - DayNumber(d)
  {
    if DayNumber(d) <= DayNumber(end) {
      NextDayFacts(d);
      var step := if KeepDay(t, year, d) then [Holiday(d, t.name, School)] else [];
      var rest := WindowWalk(t, year, NextDay(d), end);
      assert WindowWalk(t, year, d, end) == step + rest;
      DatesOfAppend(step, rest);
      DatesOfMembers(step, x);
      WindowWalkMembers(t, year, NextDay(d), end, x);
      if Valid(x) && DayNumber(x) == DayNumber(d) {
        DayNumberInjective(x, d);
      }
    }
  }

  /** A window from (sy, sm, sd) to (ey, em, ed) as the loop walks it. */
  lemma WindowMembers(t: SchoolTemplate, year: int, x: Date)
    requires year >= 101
    requires 1 <= t.startMonth <= 12 && 1 <= t.endMonth <= 12
    requires Valid(Date(year, t.startMonth, t.startDay)) && Valid(Date(year, t.endMonth, t.endDay))
    requires Valid(Date(year - 1, t.startMonth, t.startDay))
    ensures var start := Date(if t.startMonth == 12 then year - 1 else year, t.startMonth, t.startDay);
            var end := Date(year, t.endMonth, t.endDay);
            x in DatesOf(WindowDays(t, year))
            <==> Valid(x) && !Before(x, start) && !Before(end, x) && KeepDay(t, year, x)
  {
    var sy := if t.startMonth == 12 then year - 1 else year;
    JsDateOfValid(sy, t.startMonth - 1, t.startDay);
    JsDateOfValid(year, t.endMonth - 1, t.endDay);
    var start := Date(sy, t.startMonth, t.startDay);
    var end := Date(year, t.endMonth, t.endDay);
    JsDateFacts(sy, t.startMonth - 1, t.startDay);
    JsDateFacts(year, t.endMonth - 1, t.endDay);
    WindowWalkMembers(t, year, start, end, x);
    if Valid(x) {
      DayNumberOrder(x, start);
      DayNumberOrder(end, x);
    }
  }

  lemma SchoolUpToUnfold(year: int)
    ensures var t := SchoolHolidayTemplates;
      SchoolHolidays(year)
      == WindowDays(t[0], year) + WindowDays(t[1], year) + WindowDays(t[2], year) + WindowDays(t[3], year)
  {
    var t := SchoolHolidayTemplates;
    assert SchoolUpTo(year, t, 1) == WindowDays(t[0], year);
    assert SchoolUpTo(year, t, 2) == SchoolUpTo(year, t, 1) + WindowDays(t[1], year);
    assert SchoolUpTo(year, t, 3) == SchoolUpTo(year, t, 2) + WindowDays(t[2], year);
    assert SchoolUpTo(year, t, 4) == SchoolUpTo(year, t, 3) + WindowDays(t[3], year);
  }

  /**
   * getSchoolHolidays of year y holds exactly the days of y inside the
   * four windows. Of the summer window, which starts on December 15 of
   * the previous year, only January 1-15 remain, because the year filter
   * drops the December days.
   */
  lemma SchoolHolidayDates(year: int, x: Date)
    requires year >= 101
    ensures x in DatesOf(SchoolHolidays(year))
            <==> Valid(x) && x.year == year && InSchoolWindow(x.month, x.day)
  {
    var t := SchoolHolidayTemplates;
    SchoolUpToUnfold(year);
    var w0, w1, w2, w3 := WindowDays(t[0], year), WindowDays(t[1], year), WindowDays(t[2], year), WindowDays(t[3], year);
    DatesOfAppend(w0 + w1 + w2, w3);
    DatesOfAppend(w0 + w1, w2);
    DatesOfAppend(w0, w1);
    WindowMembers(t[0], year, x);
    WindowMembers(t[1], year, x);
    WindowMembers(t[2], year, x);
    WindowMembers(t[3], year, x);
  }

  // ---------------------------------------------------------------------
  // Lemmas: weekends

  /** `new Date(year, monthIndex + 1, 0)` is the last day of the month. */
  lemma DaysInMonthJsIsLength(year: int, monthIndex: int)
    requires year >= 100 && 0 <= monthIndex < 12
    ensures DaysInMonthJs(year, monthIndex) == DaysInMonth(year, monthIndex + 1)
  {
    var first := JsFirstOfMonth(year, monthIndex + 1);
    assert JsYear(year) == year;
    if monthIndex < 11 {
      assert first == Date(year, monthIndex + 2, 1);
    } else {
      assert first == Date(year + 1, 1, 1);
    }
    assert JsDate(year, monthIndex + 1, 0) == AddDays(first, -1) == AddDays(PrevDay(first), 0);
  }

  lemma {:induction false} WeekendDaysOfMonthMembers(year: int, monthIndex: int, n: int, x: Date)
    requires year >= 100 && 0 <= monthIndex < 12 && n <= DaysInMonth(year, monthIndex + 1) + 1
    ensures x in WeekendDaysOfMonth(year, monthIndex, n)
            <==> Valid(x) && x.year == year && x.month == monthIndex + 1 && x.day < n && IsWeekendDay(x)
    decreases n
  {
    if n > 1 {
      WeekendDaysOfMonthMembers(year, monthIndex, n - 1, x);
      JsDateOfValid(year, monthIndex, n - 1);
    }
  }

  lemma {:induction false} WeekendDaysUpToMembers(year: int, n: nat, x: Date)
    requires year >= 100 && n <= 12
    ensures x in WeekendDaysUpTo(year, n)
            <==> Valid(x) && x.year == year && x.month <= n && IsWeekendDay(x)
  {
    if n > 0 {
      WeekendDaysUpToMembers(year, n - 1, x);
      DaysInMonthJsIsLength(year, n - 1);
      WeekendDaysOfMonthMembers(year, n - 1, DaysInMonthJs(year, n - 1) + 1, x);
    }
  }

  /** The weekend loops collect every Friday, Saturday and Sunday of the year, and nothing else. */
  lemma WeekendDatesMembers(year: int, x: Date)
    requires year >= 100
    ensures x in WeekendDates(year) <==> Valid(x) && x.year == year && IsWeekendDay(x)
  {
    WeekendDaysUpToMembers(year, 12, x);
  }

  // ---------------------------------------------------------------------
  // Lemmas: peak season

  /** The ten fixed public holidays. */
  predicate IsFixedPublicHoliday(month: int, day: int) {
    (month == 1 && day == 1) || (month == 3 && day == 21) || (month == 4 && day == 27)
    || (month == 5 && day == 1) || (month == 6 && day == 16) || (month == 8 && day == 9)
    || (month == 9 && day == 24) || (month == 12 && (day == 16 || day == 25 || day == 26))
  }

  lemma FixedPublicHolidayDates(year: int, x: Date)
    ensures x in DatesOf(FixedPublicHolidays(year))
            <==> Valid(x) && x.year == year && IsFixedPublicHoliday(x.month, x.day)
  {
    var f := FixedPublicHolidays(year);
    DatesOfMembers(f, x);
    if Valid(x) && x.year == year && IsFixedPublicHoliday(x.month, x.day) {
      var j := if x.month == 1 then 0 else if x.month == 3 then 1 else if x.month == 4 then 2
               else if x.month == 5 then 3 else if x.month == 6 then 4 else if x.month == 8 then 5
               else if x.month == 9 then 6 else if x.day == 16 then 7 else if x.day == 25 then 8 else 9;
      assert f[j].date == x;
    }
  }

  lemma PublicHolidayDates(year: int, x: Date)
    requires year >= 100
    ensures x in DatesOf(PublicHolidays(year))
            <==> x == GoodFriday(year) || x == FamilyDay(year)
                 || (Valid(x) && x.year == year && IsFixedPublicHoliday(x.month, x.day))
  {
    PublicHolidayList(year);
    DatesOfAppend(EasterHolidays(year), FixedPublicHolidays(year));
    DatesOfMembers(EasterHolidays(year), x);
    FixedPublicHolidayDates(year, x);
  }

  /**
   * The peak-season set of a year is exactly: Good Friday, Family Day, the
   * fixed public holidays, the school-holiday days and the weekend days of
   * that year.
   */
  lemma PeakSeasonMembers(year: int, x: Date)
    requires year >= 101
    ensures x in PeakSeasonDates(year)
            <==> Valid(x) && x.year == year
                 && (x == GoodFriday(year) || x == FamilyDay(year)
                     || IsFixedPublicHoliday(x.month, x.day)
                     || InSchoolWindow(x.month, x.day)
                     || IsWeekendDay(x))
  {
    PublicHolidayDates(year, x);
    SchoolHolidayDates(year, x);
    WeekendDatesMembers(year, x);
    GoodFridayFacts(year);
    FamilyDayFacts(year);
  }

  /** isPeakSeason, for a real date of a year from 101 on. */
  lemma IsPeakSeasonExactly(d: Date)
    requires Valid(d) && d.year >= 101
    ensures IsPeakSeason(d)
            <==> d == GoodFriday(d.year) || d == FamilyDay(d.year)
                 || IsFixedPublicHoliday(d.month, d.day)
                 || InSchoolWindow(d.month, d.day)
                 || IsWeekendDay(d)
  {
    PeakSeasonMembers(d.year, d);
  }

  // ---------------------------------------------------------------------
  // Lemmas: holiday names

  /** find over two concatenated lists: the first list's match, else the second's shifted past the first. */
  lemma {:induction false} FirstOnAppend(p: seq<Holiday>, q: seq<Holiday>, d: Date)
    ensures FirstOn(p + q, d)
            == if FirstOn(p, d).Some? then FirstOn(p, d)
               else if FirstOn(q, d).Some? then Some(|p| + FirstOn(q, d).value)
               else None
    decreases |p|
  {
    if |p| == 0 {
      assert p + q == q;
    } else {
      assert (p + q)[0] == p[0];
      assert (p + q)[1..] == p[1..] + q;
      if p[0].date != d {
        FirstOnAppend(p[1..], q, d);
        assert |p[1..]| + 1 == |p|;
      }
    }
  }

  /** The name found in two concatenated lists, in the terms of each list. */
  lemma NameOnAppend(p: seq<Holiday>, q: seq<Holiday>, d: Date)
    ensures NameOn(p + q, d).Some? <==> d in DatesOf(p) || d in DatesOf(q)
    ensures FirstOn(p, d).Some? ==> NameOn(p + q, d) == Some(p[FirstOn(p, d).value].name)
    ensures FirstOn(p, d).None? && FirstOn(q, d).Some? ==> NameOn(p + q, d) == Some(q[FirstOn(q, d).value].name)
  {
    FirstOnAppend(p, q, d);
    DatesOfMembers(p, d);
    DatesOfMembers(q, d);
    if FirstOn(p, d).None? && FirstOn(q, d).Some? {
      var g := FirstOn(q, d).value;
      assert (p + q)[|p| + g] == q[g];
    }
  }

  /**
   * getHolidayName finds a name exactly for public and school holiday
   * dates; a public holiday's name wins, and otherwise the first school
   * holiday on the date names it.
   */
  lemma HolidayNameFound(d: Date)
    ensures var p := PublicHolidays(d.year);
            var q := SchoolHolidays(d.year);
            && (HolidayName(d).Some? <==> d in DatesOf(p) || d in DatesOf(q))
            && (FirstOn(p, d).Some? ==> HolidayName(d) == Some(p[FirstOn(p, d).value].name))
            && (FirstOn(p, d).None? && FirstOn(q, d).Some? ==> HolidayName(d) == Some(q[FirstOn(q, d).value].name))
  {
    NameOnAppend(PublicHolidays(d.year), SchoolHolidays(d.year), d);
  }

  // ---------------------------------------------------------------------
  // Examples

  /** Christmas Day is always peak season. */
  lemma ChristmasIsPeak(d: Date)
    requires Valid(d) && d.year >= 101 && d.month == 12 && d.day == 25
    ensures IsPeakSeason(d)
  {
    IsPeakSeasonExactly(d);
  }
}
