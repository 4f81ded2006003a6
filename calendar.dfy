/**
 * The guest booking calendar (src/components/Calendar.tsx): the month
 * shown, the two-click range selection, the day cells of the month grid,
 * and the price of the selected stay. `today` is the day the page is
 * rendered on, at midnight; JavaScript Date values are compared by their
 * day numbers.
 */
module CalendarView {
  import opened Wrappers
  import opened Dates
  import opened Holidays
  import opened Schema
  import opened Pricing

  /** A selected stay: the startDate and endDate of the selection. */
  datatype Range = Range(start: Date, end: Date)

  /** A cell of the month grid. */
  datatype DateInfo = DateInfo(date: int, available: int, isCurrentMonth: bool, seasonType: Option<Season>)

  /** What the page knows about one day of the month shown. */
  datatype DayData = DayData(available: int, seasonType: Option<Season>)

  /** `new Date(today.getFullYear(), today.getMonth(), 1)`: the first of today's month. */
  function FirstOfMonth(today: Date): Date {
    JsFirstOfMonth(today.year, today.month - 1)
  }

  /** maxDate: `new Date(today.getFullYear() + 2, today.getMonth(), 0)`. */
  function MaxDate(today: Date): (r: Date)
    ensures Dates.Valid(r)
  {
    JsDateFacts(today.year + 2, today.month - 1, 0);
    JsDate(today.year + 2, today.month - 1, 0)
  }

  /** The date of a clicked cell: `new Date(currentDate.getFullYear(), currentDate.getMonth(), day)`. */
  function ClickedDate(current: Date, day: int): (d: Date)
    ensures Dates.Valid(d)
  {
    JsDateFacts(current.year, current.month - 1, day);
    JsDate(current.year, current.month - 1, day)
  }

  /** Months counted from year 0, so that consecutive months differ by one. */
  function MonthIndex(d: Date): int {
    d.year * 12 + d.month - 1
  }

  /** The two clicks a and b as a range, the earlier one first (`clickedDate < tempStart` swaps). */
  function Ordered(first: Date, second: Date): (r: Range)
    ensures DayNumber(r.start) <= DayNumber(r.end)
    ensures (r.start == first && r.end == second) || (r.start == second && r.end == first)
    ensures DayNumber(second) < DayNumber(first) <==> r.start == second && r.end == first && first != second
  {
    if DayNumber(second) < DayNumber(first) then Range(second, first) else Range(first, second)
  }

  /** Monday-based padding: how many cells of the previous month precede the first. */
  function Padding(startingDayOfWeek: int): (n: int)
    requires 0 <= startingDayOfWeek < 7
    ensures 0 <= n < 7
    ensures (n + 1) % 7 == startingDayOfWeek
  {
    if startingDayOfWeek == 0 then 6 else startingDayOfWeek - 1
  }

  /**
   * The cell of day d of the month shown. isPeak is the season test of the
   * holiday rules; the page passes Holidays.IsPeakSeason.
   */
  function DayCell(d: Date, today: Date, byDay: map<int, DayData>, maxCapacity: int, isPeak: Date -> bool): (c: DateInfo)
    ensures c.date == d.day && c.isCurrentMonth
    ensures DayNumber(d) < DayNumber(today) ==> c.available == 0
    ensures DayNumber(d) >= DayNumber(today) ==>
              c.available == if d.day in byDay then byDay[d.day].available else maxCapacity
    ensures d.day in byDay && byDay[d.day].seasonType.Some? ==> c.seasonType == byDay[d.day].seasonType
    ensures (d.day !in byDay || byDay[d.day].seasonType.None?) ==>
              c.seasonType == if DayNumber(d) < DayNumber(today) then None
                              else Some(if isPeak(d) then Peak else OffPeak)
  {
    var isPast := DayNumber(d) < DayNumber(today);
    var available := if isPast then 0 else if d.day in byDay then byDay[d.day].available else maxCapacity;
    var stored := if d.day in byDay then byDay[d.day].seasonType else None;
    var seasonType := if stored.None? && !isPast then Some(if isPeak(d) then Peak else OffPeak) else stored;
    DateInfo(d.day, available, true, seasonType)
  }

  /** The `nights` figure: 0 without a range, else the day difference but at least 1. */
  function Nights(selected: Option<Range>): (n: int)
    ensures selected.None? ==> n == 0
    ensures selected.Some? ==> n >= 1
    ensures selected.Some? && DayNumber(selected.value.start) < DayNumber(selected.value.end) ==>
              n == DayNumber(selected.value.end) - DayNumber(selected.value.start)
    ensures selected.Some? && DayNumber(selected.value.end) <= DayNumber(selected.value.start) ==> n == 1
  {
    if selected.None? then 0
    else
      var diff := DayNumber(selected.value.end) - DayNumber(selected.value.start);
      if diff < 1 then 1 else diff
  }

  /** The last day of the month before d's: `new Date(year, month, 0).getDate()`. */
  function PrevMonthLastDay(d: Date): int {
    if d.month > 1 then DaysInMonth(d.year, d.month - 1) else 31
  }

  /** The padding cells: the last `pad` days of the previous month, greyed out. */
  function PaddingCells(prevLast: int, pad: nat, maxCapacity: int): (cells: seq<DateInfo>)
    ensures |cells| == pad
  {
    seq(pad, k => DateInfo(prevLast - pad + k + 1, maxCapacity, false, None))
  }

  /** The cells of days 1 .. n of the month. */
  function MonthCells(year: int, month: int, n: nat, today: Date, byDay: map<int, DayData>, maxCapacity: int, isPeak: Date -> bool)
    : (cells: seq<DateInfo>)
    ensures |cells| == n
  {
    seq(n, k => DayCell(Date(year, month, k + 1), today, byDay, maxCapacity, isPeak))
  }

  /** The month grid of the month that starts on first, Monday first. */
  function CalendarGrid(first: Date, today: Date, byDay: map<int, DayData>, maxCapacity: int, isPeak: Date -> bool)
    : seq<DateInfo>
  {
    PaddingCells(PrevMonthLastDay(first), Padding(DayOfWeek(first)), maxCapacity)
      + MonthCells(first.year, first.month, DaysInMonth(first.year, first.month), today, byDay, maxCapacity, isPeak)
  }

  /** isSelected: a date lies within the selected range, ends included. */
  predicate IsSelected(selected: Option<Range>, d: Date) {
    selected.Some? && DayNumber(selected.value.start) <= DayNumber(d) <= DayNumber(selected.value.end)
  }

  /** isRangeStart: d is the first day of the selection (equal getTime()). */
  predicate IsRangeStart(selected: Option<Range>, d: Date) {
    selected.Some? && DayNumber(d) == DayNumber(selected.value.start)
  }

  /** isRangeEnd: d is the last day of the selection. */
  predicate IsRangeEnd(selected: Option<Range>, d: Date) {
    selected.Some? && DayNumber(d) == DayNumber(selected.value.end)
  }

  /** The state of the calendar: the month shown, a pending first click and the selection shown. */
  class CalendarState {
    const today: Date
    var currentDate: Date
    var tempStart: Option<Date>
    var selected: Option<Range>

    /**
     * The month shown is the first of one of the 24 months from today's
     * month on; a pending first click is shown as a one-day range; a
     * selection is ordered and starts no earlier than today.
     */
    ghost predicate Valid()
      reads this
    {
      && Dates.Valid(today) && today.year >= 100
      && Dates.Valid(currentDate) && currentDate.day == 1
      && MonthIndex(today) <= MonthIndex(currentDate) <= MonthIndex(today) + 23
      && (tempStart.Some? ==> selected == Some(Range(tempStart.value, tempStart.value)))
      && (selected.Some? ==>
            && Dates.Valid(selected.value.start) && Dates.Valid(selected.value.end)
            && DayNumber(today) <= DayNumber(selected.value.start) <= DayNumber(selected.value.end))
    }

    /** The calendar opens on today's month with nothing selected. */
    constructor(today: Date)
      requires Dates.Valid(today) && today.year >= 100
      ensures Valid()
      ensures this.today == today && currentDate == FirstOfMonth(today)
      ensures tempStart == None && selected == None
    {
      this.today := today;
      currentDate := FirstOfMonth(today);
      tempStart := None;
      selected := None;
      new;
      FirstOfTodaysMonth(today);
    }

    /** goToPreviousMonth: step back a month unless that is before today's month. */
    method GoToPreviousMonth()
      requires Valid()
      modifies this
      ensures Valid()
      ensures tempStart == old(tempStart) && selected == old(selected)
      ensures var newDate := JsFirstOfMonth(old(currentDate).year, old(currentDate).month - 2);
              currentDate == if DayNumber(newDate) >= DayNumber(FirstOfMonth(today)) then newDate
                             else old(currentDate)
    {
      var newDate := JsFirstOfMonth(currentDate.year, currentDate.month - 2);
      if DayNumber(newDate) >= DayNumber(FirstOfMonth(today)) {
        PreviousMonthEarlier(currentDate);
        LowerBound(today, newDate);
        currentDate := newDate;
      }
    }

    /** goToNextMonth: step forward a month unless that is after maxDate. */
    method GoToNextMonth()
      requires Valid()
      modifies this
      ensures Valid()
      ensures tempStart == old(tempStart) && selected == old(selected)
      ensures var newDate := JsFirstOfMonth(old(currentDate).year, old(currentDate).month);
              currentDate == if DayNumber(newDate) <= DayNumber(MaxDate(today)) then newDate
                            else old(currentDate)
    {
      var newDate := JsFirstOfMonth(currentDate.year, currentDate.month);
      if DayNumber(newDate) <= DayNumber(MaxDate(today)) {
        NextMonthLater(currentDate);
        UpperBound(today, newDate);
        currentDate := newDate;
      }
    }

    /**
     * selectDay: clicks on other months' cells, unavailable cells and past
     * days are ignored; a first click selects one day, a second click
     * completes the range in date order and ends the selection flow.
     */
    method SelectDay(day: int, info: DateInfo)
      requires Valid()
      modifies this
      ensures Valid()
      ensures currentDate == old(currentDate)
      ensures var clicked := ClickedDate(currentDate, day);
              if !info.isCurrentMonth || info.available == 0 || DayNumber(clicked) < DayNumber(today) then
                tempStart == old(tempStart) && selected == old(selected)
              else if old(tempStart).None? then
                tempStart == Some(clicked) && selected == Some(Range(clicked, clicked))
              else
                tempStart == None && selected == Some(Ordered(old(tempStart).value, clicked))
    {
      var clicked := ClickedDate(currentDate, day);
      if info.isCurrentMonth && info.available != 0 && DayNumber(clicked) >= DayNumber(today) {
        if tempStart.None? {
          tempStart := Some(clicked);
          selected := Some(Range(clicked, clicked));
        } else {
          selected := Some(Ordered(tempStart.value, clicked));
          tempStart := None;
        }
      }
    }

  /** generateCalendarDays: the padding cells of the previous month, then one cell per day. */
    method GenerateCalendarDays(byDay: map<int, DayData>, maxCapacity: int) returns (days: seq<DateInfo>)
      requires Valid()
      ensures days == CalendarGrid(currentDate, today, byDay, maxCapacity, IsPeakSeason)
    {
      var year, month := currentDate.year, currentDate.month - 1;
      MonthBounds(currentDate);
      var daysInMonth := JsDate(year, month + 1, 0).day;
      var startingDayOfWeek := DayOfWeek(JsFirstOfMonth(year, month));
      var prevMonthLastDay := JsDate(year, month, 0).day;
      var paddingDays := Padding(startingDayOfWeek);
      days := PaddingLoop(prevMonthLastDay, paddingDays, maxCapacity);
      var cells := MonthLoop(year, month, daysInMonth, today, byDay, maxCapacity, IsPeakSeason);
      days := days + cells;
    }

    /** calculateTotalCost: 0 without a selection, else the price of its nights. */
    method CalculateTotalCost() returns (total: int)
      requires Valid()
      ensures selected.None? ==> total == 0
      ensures selected.Some? ==> total == StayCost(selected.value.start, selected.value.end)
    {
      if selected.None? {
        return 0;
      }
      total := AccommodationCost(selected.value.start, selected.value.end);
    }

    /** totalCost: the accommodation cost plus the boma cost. */
    method TotalCost(bomaCost: int) returns (total: int)
      requires Valid()
      ensures selected.None? ==> total == bomaCost
      ensures selected.Some? ==> total == StayCost(selected.value.start, selected.value.end) + bomaCost
    {
      var accommodationCost := CalculateTotalCost();
      total := accommodationCost + bomaCost;
    }
  }

  /** The `for (let i = paddingDays; i > 0; i--)` loop. */
  method PaddingLoop(prevLast: int, pad: nat, maxCapacity: int) returns (cells: seq<DateInfo>)
    ensures cells == PaddingCells(prevLast, pad, maxCapacity)
  {
    cells := [];
    var i := pad;
    while i > 0
      invariant 0 <= i <= pad
      invariant |cells| == pad - i
      invariant forall k :: 0 <= k < |cells| ==> cells[k] == DateInfo(prevLast - pad + k + 1, maxCapacity, false, None)
    {
      cells := cells + [DateInfo(prevLast - i + 1, maxCapacity, false, None)];
      i := i - 1;
    }
  }

  /** The `for (let i = 1; i <= daysInMonth; i++)` loop, over `new Date(year, month, i)`. */
  method MonthLoop(year: int, month: int, daysInMonth: int, today: Date, byDay: map<int, DayData>, maxCapacity: int,
                   isPeak: Date -> bool)
    returns (cells: seq<DateInfo>)
    requires year >= 100 && 0 <= month < 12 && daysInMonth == DaysInMonth(year, month + 1)
    ensures cells == MonthCells(year, month + 1, daysInMonth, today, byDay, maxCapacity, isPeak)
  {
    cells := [];
    var i := 1;
    while i <= daysInMonth
      invariant 1 <= i <= daysInMonth + 1
      invariant |cells| == i - 1
      invariant forall k :: 0 <= k < |cells| ==> cells[k] == DayCell(Date(year, month + 1, k + 1), today, byDay, maxCapacity, isPeak)
    {
      JsDateOfValid(year, month, i);
      var currentDay := JsDate(year, month, i);
      cells := cells + [DayCell(currentDay, today, byDay, maxCapacity, isPeak)];
      i := i + 1;
    }
  }

  // ---------------------------------------------------------------------
  // Lemmas

  /** `new Date(y, m - 1, 0)` is the day before the first of month m. */
  lemma DayBeforeFirst(d: Date)
    requires Dates.Valid(d) && d.day == 1 && d.year >= 100
    ensures JsFirstOfMonth(d.year, d.month - 1) == d
    ensures JsDate(d.year, d.month - 1, 0) == PrevDay(d)
  {
    assert JsYear(d.year) == d.year;
    assert (d.month - 1) / 12 == 0 && (d.month - 1) % 12 == d.month - 1;
    assert AddDays(d, -1) == AddDays(PrevDay(d), 0);
  }

  /** The three JavaScript dates generateCalendarDays starts from. */
  lemma MonthBounds(d: Date)
    requires Dates.Valid(d) && d.day == 1 && d.year >= 100
    ensures JsFirstOfMonth(d.year, d.month - 1) == d
    ensures JsDate(d.year, d.month, 0).day == DaysInMonth(d.year, d.month)
    ensures JsDate(d.year, d.month - 1, 0).day == PrevMonthLastDay(d)
  {
    DayBeforeFirst(d);
    DaysInMonthJsIsLength(d.year, d.month - 1);
  }

  /** The first of today's month. */
  lemma FirstOfTodaysMonth(today: Date)
    requires Dates.Valid(today) && today.year >= 100
    ensures FirstOfMonth(today) == Date(today.year, today.month, 1)
  {
    assert JsYear(today.year) == today.year;
    assert (today.month - 1) / 12 == 0 && (today.month - 1) % 12 == today.month - 1;
  }

  /** The month before a first of the month starts earlier. */
  lemma PreviousMonthEarlier(d: Date)
    requires Dates.Valid(d) && d.day == 1 && d.year >= 100
    ensures var p := JsFirstOfMonth(d.year, d.month - 2);
            Dates.Valid(p) && p.day == 1 && MonthIndex(p) == MonthIndex(d) - 1
  {
    var p := JsFirstOfMonth(d.year, d.month - 2);
    assert JsYear(d.year) == d.year;
    if d.month >= 2 {
      assert p == Date(d.year, d.month - 1, 1);
    } else {
      assert p == Date(d.year - 1, 12, 1);
    }
  }

  /** The month after a first of the month starts later. */
  lemma NextMonthLater(d: Date)
    requires Dates.Valid(d) && d.day == 1 && d.year >= 100
    ensures var n := JsFirstOfMonth(d.year, d.month);
            Dates.Valid(n) && n.day == 1 && MonthIndex(n) == MonthIndex(d) + 1
  {
    var n := JsFirstOfMonth(d.year, d.month);
    assert JsYear(d.year) == d.year;
    if d.month < 12 {
      assert n == Date(d.year, d.month + 1, 1);
    } else {
      assert n == Date(d.year + 1, 1, 1);
    }
  }

  /** A first of the month is no earlier than the first of today's month iff its month index is not smaller. */
  lemma LowerBound(today: Date, c: Date)
    requires Dates.Valid(today) && today.year >= 100
    requires Dates.Valid(c) && c.day == 1
    ensures DayNumber(FirstOfMonth(today)) <= DayNumber(c) <==> MonthIndex(today) <= MonthIndex(c)
  {
    FirstOfTodaysMonth(today);
    DayNumberOrder(c, FirstOfMonth(today));
  }

  /** A first of the month is no later than maxDate iff it is at most 23 months after today's. */
  lemma UpperBound(today: Date, c: Date)
    requires Dates.Valid(today) && today.year >= 100
    requires Dates.Valid(c) && c.day == 1
    ensures DayNumber(c) <= DayNumber(MaxDate(today)) <==> MonthIndex(c) <= MonthIndex(today) + 23
  {
    var bound := Date(today.year + 2, today.month, 1);
    DayBeforeFirst(bound);
    assert MaxDate(today) == PrevDay(bound);
    PrevDayFacts(bound);
    assert DayNumber(MaxDate(today)) == DayNumber(bound) - 1;
    DayNumberOrder(c, bound);
    assert Before(c, bound) <==> MonthIndex(c) < MonthIndex(bound);
  }

  /**
   * The months the calendar can show are exactly today's month and the 23
   * after it: the first of a month passes both navigation checks iff its
   * month index is within that window.
   */
  lemma NavigableMonths(today: Date, c: Date)
    requires Dates.Valid(today) && today.year >= 100
    requires Dates.Valid(c) && c.day == 1
    ensures DayNumber(FirstOfMonth(today)) <= DayNumber(c) <= DayNumber(MaxDate(today))
            <==> MonthIndex(today) <= MonthIndex(c) <= MonthIndex(today) + 23
  {
    LowerBound(today, c);
    UpperBound(today, c);
  }

  /** The grid has the padding cells, then day i of the month at index pad + i - 1. */
  lemma GridCells(first: Date, today: Date, byDay: map<int, DayData>, maxCapacity: int, isPeak: Date -> bool, i: int)
    requires Dates.Valid(first) && first.day == 1 && 1 <= i <= DaysInMonth(first.year, first.month)
    ensures var grid := CalendarGrid(first, today, byDay, maxCapacity, isPeak);
            var pad := Padding(DayOfWeek(first));
            && |grid| == pad + DaysInMonth(first.year, first.month)
            && (forall k :: 0 <= k < pad ==> !grid[k].isCurrentMonth && grid[k].available == maxCapacity)
            && grid[pad + i - 1] == DayCell(Date(first.year, first.month, i), today, byDay, maxCapacity, isPeak)
            && grid[pad + i - 1].date == i
  {
  }

  /**
   * Day i of the month sits in the grid column of its weekday: with the
   * Monday-based padding, column 0 is Monday and column 6 is Sunday.
   */
  lemma GridColumn(first: Date, i: int)
    requires Dates.Valid(first) && first.day == 1 && 1 <= i <= DaysInMonth(first.year, first.month)
    ensures var column := (Padding(DayOfWeek(first)) + i - 1) % 7;
            DayOfWeek(Date(first.year, first.month, i)) == (column + 1) % 7
  {
    var pad := Padding(DayOfWeek(first));
    var n := DayNumber(first) + 1;
    assert DayNumber(Date(first.year, first.month, i)) + 1 == n + i - 1;
    ColumnWeekday(pad, n, i - 1);
  }

  /** Shifting two numbers congruent modulo 7 by the same amount keeps them congruent. */
  lemma ColumnWeekday(pad: int, n: int, k: int)
    requires (pad + 1) % 7 == n % 7
    ensures ((pad + k) % 7 + 1) % 7 == (n + k) % 7
  {
    var q, r := (pad + k) / 7, (pad + k) % 7;
    assert pad + k + 1 == 7 * q + r + 1;
    assert (r + 1) % 7 == (pad + k + 1) % 7;
    var qa, qb := (pad + 1) / 7, n / 7;
    assert pad + 1 == 7 * qa + (pad + 1) % 7;
    assert n == 7 * qb + n % 7;
    assert pad + 1 + k == n + k + 7 * (qa - qb);
  }

  /** After a first click only the clicked day is selected. */
  lemma OneDaySelected(c: Date, d: Date)
    requires Dates.Valid(c) && Dates.Valid(d)
    ensures IsSelected(Some(Range(c, c)), d) <==> d == c
  {
    if DayNumber(d) == DayNumber(c) {
      DayNumberInjective(c, d);
    }
  }

  /**
   * The ends of an ordered selection are selected days, and one day is
   * both its start and its end exactly when the selection is that one day.
   */
  lemma RangeEnds(r: Range, d: Date)
    requires Dates.Valid(r.start) && Dates.Valid(r.end) && Dates.Valid(d)
    requires DayNumber(r.start) <= DayNumber(r.end)
    ensures IsRangeStart(Some(r), d) ==> IsSelected(Some(r), d)
    ensures IsRangeEnd(Some(r), d) ==> IsSelected(Some(r), d)
    ensures IsRangeStart(Some(r), d) && IsRangeEnd(Some(r), d) <==> d == r.start && r.start == r.end
  {
    if DayNumber(d) == DayNumber(r.start) {
      DayNumberInjective(d, r.start);
    }
    if DayNumber(d) == DayNumber(r.end) {
      DayNumberInjective(d, r.end);
    }
  }

  /** A one-day selection shows one night but costs nothing. */
  lemma OneDaySelection(d: Date)
    requires Dates.Valid(d)
    ensures Nights(Some(Range(d, d))) == 1 && StayCost(d, d) == 0
  {
  }

  /** A past day's cell has nothing available, so clicking it selects nothing. */
  lemma PastCellUnavailable(d: Date, today: Date, byDay: map<int, DayData>, maxCapacity: int, isPeak: Date -> bool)
    requires DayNumber(d) < DayNumber(today)
    ensures DayCell(d, today, byDay, maxCapacity, isPeak).available == 0
  {
  }
}
