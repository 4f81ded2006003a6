/**
 * The admin page (src/pages/Admin.tsx): its date helpers, the night count
 * and price of a booking, the search filter, the action menu of a booking,
 * blocking and unblocking a date, and the check-out adjustment of the edit
 * dialog. Month views, bookings and settings are the values the Convex
 * queries return.
 */
module AdminPage {
  import opened Wrappers
  import opened Schema
  import opened Dates
  import opened DateText
  import opened Pricing
  import opened AdminKeys
  import AV = Availability
  import CalendarView

  // ---------------------------------------------------------------------
  // Date helpers

  /** Piece i of a split, or "undefined" when the split has fewer pieces (as a template literal shows it). */
  function Piece(parts: seq<string>, i: nat): string {
    if i < |parts| then parts[i] else "undefined"
  }

  /** formatDDMMYYYY: "" stays ""; otherwise the dash-separated pieces in reverse order, joined by slashes. */
  function FormatDisplayDate(iso: string): (s: string)
    ensures iso == "" <==> s == ""
  {
    if iso == "" then ""
    else
      var parts := Split(iso, '-');
      Piece(parts, 2) + "/" + Piece(parts, 1) + "/" + Piece(parts, 0)
  }

  /** A date shown as YYYY-MM-DD is displayed as DD/MM/YYYY, zero-padded. */
  lemma DisplayOfFormatDate(d: Date)
    requires d.year >= 0 && d.month >= 0 && d.day >= 0
    ensures FormatDisplayDate(FormatDate(d)) == Pad2(IntStr(d.day)) + "/" + Pad2(IntStr(d.month)) + "/" + IntStr(d.year)
  {
    SplitFormatDate(d);
  }

  /** Every date the page parses has a year of at least 100: two-digit years are read as 19xx. */
  lemma ParsedYear(s: string)
    requires ParseLocal(s).Some?
    ensures ParseLocal(s).value.year >= 100
  {
    var parts := Split(s, '-');
    var y := NumberOf(parts[0]).value;
    var m := if |parts| > 1 then NumberOf(parts[1]) else None;
    var d := if |parts| > 2 then NumberOf(parts[2]) else None;
    var month := if m.None? || m.value == 0 then 1 else m.value;
    var day := if d.None? || d.value == 0 then 1 else d.value;
    assert ParseLocal(s) == Some(JsDate(y, month - 1, day));
    JsYearAtLeast(y, month - 1, day);
  }

  /** A JavaScript date built from a non-negative year and month index lies in year 100 or later. */
  lemma JsYearAtLeast(y: nat, monthIndex: nat, day: int)
    requires day >= 1
    ensures JsDate(y, monthIndex, day).year >= 100
  {
    JsDateFacts(y, monthIndex, day);
    DayNumberOrder(JsDate(y, monthIndex, day), JsFirstOfMonth(y, monthIndex));
  }

  // ---------------------------------------------------------------------
  // Nights and price of a booking

  /** computeNights: 0 when a date is empty, NaN (None) when one does not parse, else at least 1. */
  function ComputeNights(checkIn: string, checkOut: string): (r: Option<int>)
    ensures checkIn == "" || checkOut == "" ==> r == Some(0)
    ensures checkIn != "" && checkOut != "" && (ParseLocal(checkIn).None? || ParseLocal(checkOut).None?) ==> r == None
    ensures checkIn != "" && checkOut != "" && ParseLocal(checkIn).Some? && ParseLocal(checkOut).Some? ==>
              r.Some? && r.value >= 1
              && (DayNumber(ParseLocal(checkIn).value) < DayNumber(ParseLocal(checkOut).value) ==>
                    r.value == DayNumber(ParseLocal(checkOut).value) - DayNumber(ParseLocal(checkIn).value))
              && (DayNumber(ParseLocal(checkOut).value) <= DayNumber(ParseLocal(checkIn).value) ==> r == Some(1))
  {
    if checkIn == "" || checkOut == "" then Some(0)
    else
      var start, end := ParseLocal(checkIn), ParseLocal(checkOut);
      if start.None? || end.None? then None
      else
        var diff := DayNumber(end.value) - DayNumber(start.value);
        Some(if diff < 1 then 1 else diff)
  }

  /** What computeTotalCost returns: 0 for an empty or unparseable date, else the price of the nights. */
  function BookingCost(checkIn: string, checkOut: string): int {
    if checkIn == "" || checkOut == "" then 0
    else
      var start, end := ParseLocal(checkIn), ParseLocal(checkOut);
      if start.None? || end.None? then 0 else StayCost(start.value, end.value)
  }

  /** computeTotalCost: parse both dates, then the night-by-night loop. */
  method ComputeTotalCost(checkIn: string, checkOut: string) returns (total: int)
    ensures total == BookingCost(checkIn, checkOut)
  {
    if checkIn == "" || checkOut == "" {
      return 0;
    }
    var start, end := ParseLocal(checkIn), ParseLocal(checkOut);
    if start.None? || end.None? {
      return 0;
    }
    total := AccommodationCost(start.value, end.value);
  }

  /** The admin page and the booking calendar agree on the nights of a stay. */
  lemma NightsAgreeWithCalendar(a: Date, b: Date)
    requires Dates.Valid(a) && Dates.Valid(b) && a.year >= 100 && b.year >= 100
    ensures ComputeNights(FormatDate(a), FormatDate(b)) == Some(CalendarView.Nights(Some(CalendarView.Range(a, b))))
  {
    ParseFormatRoundTrip(a);
    ParseFormatRoundTrip(b);
  }

  /** The admin page and the booking calendar agree on the price of a stay. */
  lemma CostAgreesWithCalendar(a: Date, b: Date)
    requires Dates.Valid(a) && Dates.Valid(b) && a.year >= 100 && b.year >= 100
    ensures BookingCost(FormatDate(a), FormatDate(b)) == StayCost(a, b)
  {
    ParseFormatRoundTrip(a);
    ParseFormatRoundTrip(b);
  }

  // ---------------------------------------------------------------------
  // Search

  /** `toLowerCase` on ASCII letters. */
  function LowerChar(c: char): char {
    if 'A' <= c <= 'Z' then (c as int + 32) as char else c
  }

  function Lower(s: string): string {
    if |s| == 0 then "" else [LowerChar(s[0])] + Lower(s[1..])
  }

  /** `s.includes(t)`: t occurs in s. */
  predicate Contains(s: string, t: string) {
    if t <= s then true else if |s| == 0 then false else Contains(s[1..], t)
  }

  /** The search term matches the lower-cased name or e-mail, a missing one read as "". */
  predicate Matches(b: Booking, term: string) {
    var needle := Lower(term);
    Contains(Lower(b.userName.GetOr("")), needle) || Contains(Lower(b.userEmail.GetOr("")), needle)
  }

  /** filteredBookings: the bookings the search term matches, in list order. */
  function FilterBookings(bookings: seq<Booking>, term: string): (r: seq<Booking>)
    ensures |r| <= |bookings|
  {
    if |bookings| == 0 then []
    else (if Matches(bookings[0], term) then [bookings[0]] else []) + FilterBookings(bookings[1..], term)
  }

  /** `includes` is substring search: t occurs in s iff it is a prefix of some suffix. */
  lemma {:induction false} ContainsExactly(s: string, t: string)
    ensures Contains(s, t) <==> exists i :: 0 <= i <= |s| && t <= s[i..]
  {
    if t <= s {
      assert t <= s[0..];
    } else if |s| > 0 {
      ContainsExactly(s[1..], t);
      if Contains(s[1..], t) {
        var i :| 0 <= i <= |s[1..]| && t <= s[1..][i..];
        assert s[1..][i..] == s[i + 1..];
      }
      if exists i :: 0 <= i <= |s| && t <= s[i..] {
        var i :| 0 <= i <= |s| && t <= s[i..];
        assert i > 0;
        assert s[1..][i - 1..] == s[i..];
      }
    }
  }

  /** The filter keeps a booking iff the term matches it. */
  lemma {:induction false} FilterMembership(bookings: seq<Booking>, term: string, b: Booking)
    ensures b in FilterBookings(bookings, term) <==> b in bookings && Matches(b, term)
  {
    if |bookings| > 0 {
      FilterMembership(bookings[1..], term, b);
      assert bookings == [bookings[0]] + bookings[1..];
    }
  }

  /** Filtering distributes over concatenation, so it keeps the list order. */
  lemma {:induction false} FilterAppend(xs: seq<Booking>, ys: seq<Booking>, term: string)
    ensures FilterBookings(xs + ys, term) == FilterBookings(xs, term) + FilterBookings(ys, term)
  {
    if |xs| > 0 {
      assert (xs + ys)[1..] == xs[1..] + ys;
      FilterAppend(xs[1..], ys, term);
    } else {
      assert xs + ys == ys;
    }
  }

  /** An empty search term keeps every booking. */
  lemma {:induction false} EmptyTermKeepsAll(bookings: seq<Booking>)
    ensures FilterBookings(bookings, "") == bookings
  {
    if |bookings| > 0 {
      EmptyTermKeepsAll(bookings[1..]);
      assert Contains(Lower(bookings[0].userName.GetOr("")), Lower(""));
    }
  }

  /** Lower-casing twice is lower-casing once. */
  lemma {:induction false} LowerIdempotent(s: string)
    ensures Lower(Lower(s)) == Lower(s)
  {
    if |s| > 0 {
      LowerIdempotent(s[1..]);
      assert Lower(s)[1..] == Lower(s[1..]);
    }
  }

  /** The search is case-insensitive in the term. */
  lemma CaseInsensitiveTerm(b: Booking, term: string)
    ensures Matches(b, term) <==> Matches(b, Lower(term))
  {
    LowerIdempotent(term);
  }

  // ---------------------------------------------------------------------
  // The action menu of a booking

  datatype MenuAction = Approve | Reject | RequestPayment | MarkPaymentReceived | Confirm | CompleteStay | Edit | Delete

  /** The status a menu action sends to updateStatus (handleApprove … handleConfirm), if any. */
  function StatusSentBy(a: MenuAction): Option<BookingStatus> {
    match a
    case Approve => Some(Approved)
    case Reject => Some(Rejected)
    case RequestPayment => Some(PaymentRequested)
    case MarkPaymentReceived => Some(PaymentReceived)
    case Confirm => Some(Confirmed)
    case _ => None
  }

  /** `!booking.stayCompletedAt`: absent or 0. */
  predicate StayNotCompleted(b: Booking) {
    b.stayCompletedAt.None? || b.stayCompletedAt.value == 0
  }

  /** The menu items shown for a booking: the next step of its status, then Edit and Delete. */
  function MenuActions(b: Booking): (actions: seq<MenuAction>)
    ensures |actions| >= 2 && actions[|actions| - 2..] == [Edit, Delete]
  {
    var steps :=
      match b.status
      case Pending => [Approve, Reject]
      case Approved => [RequestPayment]
      case PaymentRequested => [MarkPaymentReceived]
      case PaymentReceived => [Confirm]
      case Confirmed => if StayNotCompleted(b) then [CompleteStay] else []
      case Rejected => [];
    steps + [Edit, Delete]
  }

  /** How far along the approval flow a status is; rejection is the alternative to approval. */
  function Stage(s: BookingStatus): nat {
    match s
    case Pending => 0
    case Approved => 1
    case Rejected => 1
    case PaymentRequested => 2
    case PaymentReceived => 3
    case Confirmed => 4
  }

  /** Every status change the menu offers moves exactly one stage forward, and never out of a rejection. */
  lemma MenuForwardOnly(b: Booking, a: MenuAction)
    requires a in MenuActions(b) && StatusSentBy(a).Some?
    ensures b.status != Rejected && b.status != Confirmed
    ensures Stage(StatusSentBy(a).value) == Stage(b.status) + 1
  {
  }

  /** The menu offers exactly these items per status. */
  lemma MenuPerStatus(b: Booking)
    ensures b.status == Rejected ==> MenuActions(b) == [Edit, Delete]
    ensures b.status == Pending ==> MenuActions(b) == [Approve, Reject, Edit, Delete]
    ensures CompleteStay in MenuActions(b) <==> b.status == Confirmed && StayNotCompleted(b)
    ensures Approve in MenuActions(b) <==> b.status == Pending
    ensures Confirm in MenuActions(b) <==> b.status == PaymentReceived
    ensures b.status == Approved ==> MenuActions(b) == [RequestPayment, Edit, Delete]
    ensures b.status == PaymentRequested ==> MenuActions(b) == [MarkPaymentReceived, Edit, Delete]
    ensures b.status == PaymentReceived ==> MenuActions(b) == [Confirm, Edit, Delete]
    ensures b.status == Confirmed ==>
              MenuActions(b) == (if StayNotCompleted(b) then [CompleteStay, Edit, Delete] else [Edit, Delete])
  {
    match b.status
    case Pending =>
    case Approved =>
    case Rejected =>
    case PaymentRequested =>
    case PaymentReceived =>
    case Confirmed =>
  }

  // ---------------------------------------------------------------------
  // Blocking dates

  /** isBlocked: the date's record is blocked or has nothing available; no record is not blocked. */
  predicate IsBlocked(view: map<string, AV.DayStatus>, date: string) {
    date in view && (view[date].blocked || view[date].available == 0)
  }

  /**
   * handleBlockDate: with a date selected, write `available = 0` for it. The
   * selected date is a YYYY-MM-DD string; "" stands for no selection (null
   * and "" are both falsy).
   */
  method HandleBlockDate(table: AV.AvailabilityTable, settings: SettingsTable, selectedDate: string,
                         adminKey: Option<string>) returns (r: Option<Outcome<Error>>)
    requires table.Valid()
    modifies table
    ensures table.Valid()
    ensures selectedDate == "" ==> r == None && table.days == old(table.days)
    ensures selectedDate != "" && GuardRefuses(settings.record, adminKey) ==>
              r == Some(Fail(Forbidden)) && table.days == old(table.days)
    ensures selectedDate != "" && !GuardRefuses(settings.record, adminKey) ==>
              r == Some(Pass)
              && table.days == old(table.days)[selectedDate := AV.Upserted(old(table.days), selectedDate, 0)]
  {
    r := None;
    if selectedDate != "" {
      var outcome := table.SetDateAvailability(settings, selectedDate, 0, adminKey);
      r := Some(outcome);
    }
  }

  /** handleUnblockDate: with a date selected, write the configured capacity for it. */
  method HandleUnblockDate(table: AV.AvailabilityTable, settings: SettingsTable, selectedDate: string,
                           adminKey: Option<string>) returns (r: Option<Outcome<Error>>)
    requires table.Valid()
    modifies table
    ensures table.Valid()
    ensures selectedDate == "" ==> r == None && table.days == old(table.days)
    ensures selectedDate != "" && GuardRefuses(settings.record, adminKey) ==>
              r == Some(Fail(Forbidden)) && table.days == old(table.days)
    ensures selectedDate != "" && !GuardRefuses(settings.record, adminKey) ==>
              var max := AV.GetSettings(settings.record).maxCapacity;
              r == Some(Pass)
              && table.days == old(table.days)[selectedDate := AV.Upserted(old(table.days), selectedDate, max)]
  {
    r := None;
    if selectedDate != "" {
      var max := AV.GetSettings(settings.record).maxCapacity;
      var outcome := table.SetDateAvailability(settings, selectedDate, max, adminKey);
      r := Some(outcome);
    }
  }

  /**
   * After blocking, the month view shows the date blocked; after unblocking
   * with a non-zero capacity it shows it free; other dates keep their state.
   */
  lemma BlockUnblockShown(days: map<string, Availability>, d: Date, available: int, other: Date)
    requires Dates.Valid(d) && d.year >= 0 && Dates.Valid(other) && other.year >= 0 && other != d
    ensures var date := FormatDate(d);
            var after := days[date := AV.Upserted(days, date, available)];
            && (IsBlocked(AV.MonthView(after, d.year, d.month), date) <==> available == 0)
            && (IsBlocked(AV.MonthView(after, other.year, other.month), FormatDate(other))
                <==> IsBlocked(AV.MonthView(days, other.year, other.month), FormatDate(other)))
  {
    var date := FormatDate(d);
    var after := days[date := AV.Upserted(days, date, available)];
    AV.MonthViewOfDate(after, d.year, d.month, d);
    AV.MonthViewOfDate(after, other.year, other.month, other);
    AV.MonthViewOfDate(days, other.year, other.month, other);
    FormatDateNonNegInjective(d, other);
  }

  /** Distinct dates with non-negative fields have distinct YYYY-MM-DD forms. */
  lemma FormatDateNonNegInjective(a: Date, b: Date)
    requires a.year >= 0 && a.month >= 0 && a.day >= 0 && b.year >= 0 && b.month >= 0 && b.day >= 0
    requires a != b
    ensures FormatDate(a) != FormatDate(b)
  {
    SplitFormatDate(a);
    SplitFormatDate(b);
    if FormatDate(a) == FormatDate(b) {
      DigitsValueNatStr(a.year);
      DigitsValueNatStr(b.year);
      DigitsValuePad2(a.month);
      DigitsValuePad2(b.month);
      DigitsValuePad2(a.day);
      DigitsValuePad2(b.day);
    }
  }

  // ---------------------------------------------------------------------
  // The edit dialog

  /** The check-out after an edit: check-in + 1 day when it would not be after the check-in. */
  function AdjustedCheckOut(checkIn: string, checkOut: string): string {
    var di, dout := ParseLocal(checkIn), ParseLocal(checkOut);
    if di.Some? && dout.Some? && DayNumber(dout.value) <= DayNumber(di.value) then FormatDate(NextDay(di.value))
    else checkOut
  }

  /** The check-in field's onChange. */
  function EditCheckIn(b: Booking, newIn: string): (c: Booking)
    ensures c == b.(checkIn := newIn, checkOut := c.checkOut)
  {
    b.(checkIn := newIn, checkOut := AdjustedCheckOut(newIn, b.checkOut))
  }

  /** The check-out field's onChange. */
  function EditCheckOut(b: Booking, newOut: string): (c: Booking)
    ensures c == b.(checkOut := c.checkOut)
  {
    b.(checkOut := AdjustedCheckOut(b.checkIn, newOut))
  }

  /**
   * When both dates parse, the adjusted check-out parses to a day after the
   * check-in: the typed one if it already was, else the day after the
   * check-in. A check-out that was already later is kept as typed.
   */
  lemma AdjustedCheckOutAfter(checkIn: string, checkOut: string)
    requires ParseLocal(checkIn).Some? && ParseLocal(checkOut).Some?
    ensures var out := ParseLocal(AdjustedCheckOut(checkIn, checkOut));
            out.Some? && DayNumber(ParseLocal(checkIn).value) < DayNumber(out.value)
    ensures DayNumber(ParseLocal(checkIn).value) < DayNumber(ParseLocal(checkOut).value) ==>
              AdjustedCheckOut(checkIn, checkOut) == checkOut
    ensures DayNumber(ParseLocal(checkOut).value) <= DayNumber(ParseLocal(checkIn).value) ==>
              ParseLocal(AdjustedCheckOut(checkIn, checkOut)) == Some(NextDay(ParseLocal(checkIn).value))
  {
    var di, dout := ParseLocal(checkIn).value, ParseLocal(checkOut).value;
    if DayNumber(dout) <= DayNumber(di) {
      ParsedYear(checkIn);
      NextDayFacts(di);
      DayNumberOrder(di, NextDay(di));
      ParseFormatRoundTrip(NextDay(di));
    }
  }

  /** After either edit, the booking's check-out lies after its check-in whenever both parse. */
  lemma EditsKeepCheckOutAfterCheckIn(b: Booking, s: string)
    ensures var c := EditCheckIn(b, s);
            ParseLocal(c.checkIn).Some? && ParseLocal(b.checkOut).Some? ==>
              ParseLocal(c.checkOut).Some? && DayNumber(ParseLocal(c.checkIn).value) < DayNumber(ParseLocal(c.checkOut).value)
    ensures var c := EditCheckOut(b, s);
            ParseLocal(c.checkIn).Some? && ParseLocal(s).Some? ==>
              ParseLocal(c.checkOut).Some? && DayNumber(ParseLocal(c.checkIn).value) < DayNumber(ParseLocal(c.checkOut).value)
  {
    if ParseLocal(s).Some? && ParseLocal(b.checkOut).Some? {
      AdjustedCheckOutAfter(s, b.checkOut);
    }
    if ParseLocal(b.checkIn).Some? && ParseLocal(s).Some? {
      AdjustedCheckOutAfter(b.checkIn, s);
    }
  }
}
