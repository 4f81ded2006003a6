# Sibon lodge booking: a verified model

Sibon is a small lodge-booking application. Owners and registered users of the lodge's bungalows request stays on a calendar. The application prices each night by South African season: 8300 per peak night, 4600 per off-peak night. Guests can add boma (outdoor dinner) evenings at 350 each. An administrator approves, prices and confirms the requests and blocks dates.

The backend is three Convex tables:
- bookings;
- per-date availability;
- one global settings record, holding the capacity and an admin key.

The admin key is trust-on-first-use. The first caller of `setAdminKey` fixes it. From then on every admin mutation demands that key.

This project models in Dafny:
- the server's tables and mutations;
- the season calendar that decides what is peak;
- the sequential logic of the four pages and components: the booking calendar, the admin page, the boma picker and the booking form.

It also proves what these promise.

## Modelling choices

- **Dates** are `(year, month, day)` triples (`Dates.Date`), ordered by a proleptic-Gregorian day number. `DayOfWeek` is JavaScript's `getDay()`. The other date functions:
  - `NextDay`, `PrevDay` and `AddDays` model `setDate(getDate() ± k)`.
  - `JsDate(y, monthIndex, day)` models `new Date(y, monthIndex, day)`. It covers month and day overflow and the reading of years 0 to 99 as 1900 to 1999.
- **Text dates** are YYYY-MM-DD strings: the `full-date` of section 5.6 of RFC 3339 for four-digit years. The year is written as `getFullYear` gives it, without padding. `DateText.FormatDate` builds them. `DateText.ParseLocal` models the `split("-").map(Number)` parser, with `Number` defined for "" and digit strings.
- **The season calendar** (`Holidays`):
  - `PublicHolidays`, `SchoolHolidays` and `PeakSeasonDates` are specification functions. The source's loops are methods proved equal to them.
  - Holiday dates are kept as triples. `DateText.FormatDateInjective` shows that testing a string for membership in the source's string set means the same thing.
- **The tables** are classes:
  - `AdminKeys.SettingsTable` holds the one settings record as an `Option`.
  - `Availability.AvailabilityTable` holds a `map` from date string to record.
  - `Bookings.BookingTable` holds a `map` from id to row, plus the next id.
- **Booking ids** are natural numbers allocated in creation order. Mutations return `Outcome`/`Result` values where the server throws. No exception unwinds.
- **`Date.now()`** is the `now` parameter, in integer milliseconds. The page's "today" is a `today` parameter.
- **UI state** is a class where the page keeps state and updates it:
  - the calendar's `currentDate`, `tempStart` and selection (`CalendarView.CalendarState`);
  - the booking form (`BookingForm.BookingFormState`).

  Pure helpers are functions.
- **The calendar's season test** is a parameter `isPeak` of the cell functions. The page passes `Holidays.IsPeakSeason`, and `GenerateCalendarDays` is stated with exactly that argument.

## Model

| member | source | states |
|---|---|---|
| AdminKeys.StoredKey | convex/admin.ts:38 | a non-empty stored key is exactly the key held by an existing settings record |
| AdminKeys.IsConfigured | convex/admin.ts:4-12 | configured iff a settings record exists and holds a non-empty key |
| AdminKeys.GuardRefuses | convex/bookings.ts:88-89 | the guard refuses when a key is stored and the supplied key is absent or another one; `GuardExactly` and `MissingKeyRefused` characterise it |
| AdminKeys.VerifyAdminKey | convex/admin.ts:31-42 | verification succeeds iff a record exists, its key is the supplied key, and that key is non-empty; false when no key is stored |
| AdminKeys.SettingsTable.SetAdminKey | convex/admin.ts:15-29 | once a key is configured the call fails with "Admin key already set" and changes nothing; otherwise the key is patched into the existing record or a record `{adminKey, maxCapacity: 16}` is inserted |
| AdminKeys.SetAdminKeyEffect | convex/admin.ts:22-27 | after a successful setAdminKey(k), k verifies, the system is configured, and no other key verifies; the capacity is kept, or set to 16 on insert; an empty k leaves the system unconfigured |
| AdminKeys.GuardExactly | convex/bookings.ts:88-89 | the admin guard lets a call through iff no key is configured or the supplied key verifies |
| AdminKeys.MissingKeyRefused | convex/availability.ts:54-55 | a call without a key is refused exactly when a key is configured |
| AdminKeys.ConfiguredGuard | convex/bookings.ts:115-116 | once configured, only the stored key itself passes the guard |
| Availability.GetSettings | convex/availability.ts:4-13 | an existing record is returned exactly as stored, key included; with no record, capacity 16 and no key |
| Availability.SetMaxCapacity | convex/availability.ts:15-30 | a refused guard gives Forbidden and leaves settings unchanged; otherwise only maxCapacity is replaced, or a record without a key is inserted |
| Availability.WithCapacityKeepsKey | convex/availability.ts:24-28 | setting the capacity sets it and keeps the stored admin key and the configured state |
| Availability.Upserted | convex/availability.ts:49-65 | the written record has the new available, blocked iff available is 0, and keeps an existing record's seasonType (none on insert) |
| Availability.AvailabilityTable.SetDateAvailability | convex/availability.ts:46-67 | a refused guard gives Forbidden and changes no record; otherwise the date's record is upserted; the invariant "blocked iff available == 0" is kept for every record |
| Availability.UpsertOnlyTouchesDate | convex/availability.ts:57-65 | an upsert leaves every other date's presence and record unchanged |
| Availability.AvailabilityTable.GetMonthAvailability | convex/availability.ts:32-44 | the loop collects exactly the stored records whose date starts with the month prefix, mapped to {available, blocked} |
| Availability.MonthViewOfDate | convex/availability.ts:36-42 | a date's status is in a month's view iff the date is stored and lies in that year and month |
| Bookings.FirstRecentStay | convex/bookings.ts:35-41 | the first booking of the bungalow that is confirmed with a truthy stayCompletedAt later than now − 365 days; none exactly when there is no such booking |
| Bookings.CreateCheck | convex/bookings.ts:27-55 | cooldown error iff some booking of the bungalow is a recent completed stay; otherwise the active-booking error iff some booking of the bungalow is not rejected; success iff no booking of the bungalow is active |
| Bookings.DaysAgo | convex/bookings.ts:45 | whole days since the stay was completed, rounded down; `CooldownDays` bounds it within the year |
| Bookings.DaysRemaining | convex/bookings.ts:44 | days left of the 365-day cooldown, rounded up; `CooldownDays` shows it adds up with DaysAgo to 365 |
| Bookings.NewBooking | convex/bookings.ts:57-69 | the row createBooking inserts; `NewBookingFacts` states its fields |
| Bookings.CooldownDays | convex/bookings.ts:44-45 | Math.floor days ago plus Math.ceil days remaining is 365; within the year, 0 ≤ days ago < 365 and 1 ≤ days remaining ≤ 365 |
| Bookings.CooldownReport | convex/bookings.ts:43-46 | the cooldown error's two day counts add up to 365 |
| Bookings.ConfirmedBlocks | convex/bookings.ts:49-55 | a confirmed booking of the bungalow makes every new request fail, however old its completed stay |
| Bookings.RejectedDoNotBlock | convex/bookings.ts:49-55 | when every booking of the bungalow is rejected, the request passes |
| Bookings.BookingTable.CreateBooking | convex/bookings.ts:15-72 | a failed check returns its error with the table unchanged; otherwise exactly one row, NewBooking(req, now), is added under the next id and that id is returned |
| Bookings.NewBookingFacts | convex/bookings.ts:57-69 | the inserted row is pending, created at now, has userId bungalow + "-" + userType, is active, and has no workflow stamps |
| Bookings.CreateLeavesOneActive | convex/bookings.ts:49-69 | after a successful create, the new row is the bungalow's only active booking, and any later request fails with the active-booking error |
| Bookings.WithStatus | convex/bookings.ts:118-129 | the new status is set; exactly the matching paymentRequestedAt / paymentReceivedAt / confirmedAt stamp becomes now; every other field and stamp is as before |
| Bookings.WithStatusStamps | convex/bookings.ts:118-127 | pending, approved and rejected only change the status |
| Bookings.BookingTable.UpdateStatus | convex/bookings.ts:97-131 | Forbidden on a refused guard, NotFound on a missing id, and the table unchanged in both; otherwise any of the six statuses is written through WithStatus to that row alone |
| Bookings.Patched | convex/bookings.ts:93 | exactly the supplied checkIn, checkOut, guests and notes replace the row's; every other field is kept |
| Bookings.BookingTable.UpdateBooking | convex/bookings.ts:74-95 | Forbidden or NotFound leave the table unchanged; otherwise only that row is patched with the supplied fields |
| Bookings.BookingTable.CompleteStay | convex/bookings.ts:134-155 | Forbidden, NotFound and NotConfirmed leave the table unchanged; a confirmed row gets stayCompletedAt := now and nothing else changes |
| Bookings.CompleteStayStartsCooldown | convex/bookings.ts:151-153 | completing a confirmed stay at now makes every request for the bungalow within the next 365 days fail with the cooldown error |
| Bookings.BookingTable.Remove | convex/bookings.ts:157-168 | after the guard, the row is deleted whatever its status; the other rows are untouched |
| Bookings.InsertByRecency | convex/bookings.ts:7-11 | inserting an id into a newest-first list gives a newest-first list holding exactly one more id |
| Bookings.Listing | convex/bookings.ts:7-11 | the ids below n that are rows, each once, ordered by createdAt descending with ties by later creation |
| Bookings.BookingTable.List | convex/bookings.ts:4-13 | list returns every booking of the table, newest first |
| Dates.JsDateFacts | src/utils/southAfricanHolidays.ts:84 | `new Date(y, monthIndex, day)` is always a real calendar day, day − 1 days after the first of its month |
| Dates.JsDateOfValid | src/utils/southAfricanHolidays.ts:84 | on a real day of a year from 100 on, `new Date(y, m − 1, d)` is that very day |
| Dates.AddDaysFacts | src/utils/southAfricanHolidays.ts:63-66 | `setDate(getDate() + k)` moves a real date exactly k days along the day numbering |
| Dates.DayNumberOrder | src/components/Calendar.tsx:46 | comparing JavaScript dates by time orders them exactly as the calendar does |
| DateText.SplitFormatDate | src/pages/Admin.tsx:36 | splitting a formatted date on "-" gives its year, padded month and padded day |
| DateText.FormatDate | src/pages/Admin.tsx:43-48 | the YYYY-MM-DD text of a date; `SplitFormatDate`, `ParseFormatRoundTrip` and `FormatDateInjective` state its properties |
| DateText.ParseLocal | src/pages/Admin.tsx:39-42 | whatever parseLocal yields is a real calendar date, and it yields the Invalid Date (none) exactly when the year piece is not a number |
| DateText.ParseFormatRoundTrip | src/pages/Admin.tsx:39-48 | parseLocal reads back every zero-padded date that toISO/formatDate produces: toISO(parseLocal(s)) == s |
| DateText.FormatDateInjective | src/utils/southAfricanHolidays.ts:121-126 | distinct real dates have distinct YYYY-MM-DD strings, so string-set membership is date membership |
| DateText.MonthPrefixOfDate | convex/availability.ts:37-40 | a formatted date starts with `${year}-${pad2(month)}-` iff it lies in that month |
| Holidays.ComputusAgrees | src/utils/southAfricanHolidays.ts:27-43 | from year 0 on, the JavaScript remainders of the Computus equal the Euclidean ones |
| Holidays.EasterDate | src/utils/southAfricanHolidays.ts:27-43 | getEasterDate's `new Date(year, month - 1, day)` is always a real calendar date; `EasterInSpring` and `EasterIsSunday` say which |
| Holidays.EasterInSpring | src/utils/southAfricanHolidays.ts:27-43 | Easter is a real date of its own year between March 22 and April 25 |
| Holidays.EasterIsSunday | src/utils/southAfricanHolidays.ts:27-43 | the computed Easter is always a Sunday |
| Holidays.GoodFridayFacts | src/utils/southAfricanHolidays.ts:63-64 | Good Friday is a Friday, exactly two days before Easter, between March 20 and April 23 |
| Holidays.FamilyDayFacts | src/utils/southAfricanHolidays.ts:65-66 | Family Day is a Monday, exactly one day after Easter, between March 23 and April 26 |
| Holidays.GetPublicHolidays | src/utils/southAfricanHolidays.ts:58-93 | the method builds exactly the PublicHolidays list |
| Holidays.FixedHolidays | src/utils/southAfricanHolidays.ts:81-90 | the forEach pushes one entry per kept template, in template order |
| Holidays.FixedHoliday | src/utils/southAfricanHolidays.ts:82-89 | one template contributes nothing for the Easter names, else its date in the year |
| Holidays.PublicHolidayList | src/utils/southAfricanHolidays.ts:58-93 | the public list is Good Friday, Family Day and the ten fixed holidays, in that order (12 entries); the fixed April 18 and 21 templates are skipped |
| Holidays.PublicHolidayDates | src/utils/southAfricanHolidays.ts:58-93 | a date is a public holiday of the year iff it is Good Friday, Family Day or one of the ten fixed dates of that year |
| Holidays.PublicHolidays | src/utils/southAfricanHolidays.ts:58-93 | the public list as getPublicHolidays returns it; `PublicHolidayList` and `PublicHolidayDates` state its contents |
| Holidays.GetSchoolHolidays | src/utils/southAfricanHolidays.ts:96-119 | the method builds exactly the SchoolHolidays list |
| Holidays.SchoolWindows | src/utils/southAfricanHolidays.ts:99-116 | the forEach appends the kept days of each window, window by window |
| Holidays.KeptWindowDays | src/utils/southAfricanHolidays.ts:107-115 | the day loop yields exactly the window walk, keeping the days the year filter admits |
| Holidays.WindowWalkMembers | src/utils/southAfricanHolidays.ts:107-108 | the walk holds exactly the real days from start to end, both included, that the year filter keeps |
| Holidays.SchoolHolidayDates | src/utils/southAfricanHolidays.ts:46-55 | the school holidays of year y are exactly the days of y in Jan 1–15, Mar 25–Apr 5, Jun 24–Jul 14 and Sep 23–Oct 2 |
| Holidays.SchoolHolidays | src/utils/southAfricanHolidays.ts:96-119 | the school list as getSchoolHolidays returns it; `SchoolHolidayDates` states its dates |
| Holidays.DaysInMonthJsIsLength | src/utils/southAfricanHolidays.ts:142 | `new Date(year, month + 1, 0).getDate()` is the length of the month |
| Holidays.AddWeekendDaysOfMonth | src/utils/southAfricanHolidays.ts:143-149 | the inner loop adds its month's weekend days to the set |
| Holidays.AddWeekendDates | src/utils/southAfricanHolidays.ts:141-150 | the month loop adds every weekend day of the year to the set |
| Holidays.WeekendDatesMembers | src/utils/southAfricanHolidays.ts:141-150 | the weekend loops collect exactly the Fridays, Saturdays and Sundays of the year |
| Holidays.AddHolidayDates | src/utils/southAfricanHolidays.ts:134 | forEach(add) adds exactly the holiday dates to the set |
| Holidays.DatesOfMembers | src/utils/southAfricanHolidays.ts:138 | a date is in the added set iff some holiday of the list has it |
| Holidays.GetPeakSeasonDates | src/utils/southAfricanHolidays.ts:129-153 | the method builds the union of public, school and weekend dates |
| Holidays.PeakSeasonMembers | src/utils/southAfricanHolidays.ts:129-153 | the peak set of year y holds exactly the days of y that are Good Friday, Family Day, a fixed public holiday, in a school window, or a weekend day |
| Holidays.PeakSeasonDates | src/utils/southAfricanHolidays.ts:129-153 | the union of public, school and weekend dates; `PeakSeasonMembers` states its members |
| Holidays.IsPeakSeason | src/utils/southAfricanHolidays.ts:156-161 | membership in the peak set of the date's own year; `IsPeakSeasonExactly` states when it holds |
| Holidays.IsPeakSeasonExactly | src/utils/southAfricanHolidays.ts:156-161 | isPeakSeason(d) holds iff d is one of those days of its own year |
| Holidays.ChristmasIsPeak | src/utils/southAfricanHolidays.ts:22 | December 25 is always peak season |
| Holidays.FirstOn | src/utils/southAfricanHolidays.ts:169 | `find` returns the first holiday on the date, or none exactly when no holiday is on it |
| Holidays.HolidayNameFound | src/utils/southAfricanHolidays.ts:164-172 | a name is found iff the date is a public or school holiday; a public holiday's name wins, and without one the first school holiday on the date names it |
| Holidays.HolidayName | src/utils/southAfricanHolidays.ts:164-172 | the name of the first public, then school, holiday on the date; `HolidayNameFound` states which |
| Pricing.NightRate | src/components/Calendar.tsx:228-229 | a night costs 8300 iff it is peak season, else 4600 |
| Pricing.AccommodationCost | src/components/Calendar.tsx:222-233 | the while loop over the half-open range [start, end) sums the night rates: the result is StayCost |
| Pricing.StayNightsFacts | src/components/Calendar.tsx:226-231 | the loop visits the consecutive days start … end − 1, one per day of difference, none when end ≤ start |
| Pricing.CostBounds | src/components/Calendar.tsx:226-231 | n nights cost between 4600·n and 8300·n |
| Pricing.StayCostBounds | src/components/Calendar.tsx:219-234 | for n = max(0, end − start) nights, 4600·n ≤ cost ≤ 8300·n, and a stay that does not end after its start costs 0 |
| CalendarView.Ordered | src/components/Calendar.tsx:74-83 | the two clicks become a range with start ≤ end, made of the two clicks, swapped iff the second click is earlier |
| CalendarView.Padding | src/components/Calendar.tsx:110 | the Monday-based padding is 0..6 and the first day's weekday is padding + 1 modulo 7 |
| CalendarView.DayCell | src/components/Calendar.tsx:124-139 | a past day has 0 available; otherwise the stored available, else maxCapacity; the season is the stored override, else peak or off-peak from the season test for non-past days, none for past days |
| CalendarView.PastCellUnavailable | src/components/Calendar.tsx:129-130 | a day before today is shown with nothing available |
| CalendarView.Nights | src/components/Calendar.tsx:206-216 | 0 without a range, otherwise max(1, day difference): the difference when it is positive, exactly 1 when the end is not after the start |
| CalendarView.OneDaySelection | src/components/Calendar.tsx:206-234 | a one-day selection shows 1 night but its accommodation costs 0 |
| CalendarView.CalendarState.constructor | src/components/Calendar.tsx:30-34 | the calendar opens on the first of today's month with nothing selected |
| CalendarView.FirstOfTodaysMonth | src/components/Calendar.tsx:31 | `new Date(today.getFullYear(), today.getMonth(), 1)` is the first of today's month |
| CalendarView.CalendarState.GoToPreviousMonth | src/components/Calendar.tsx:36-42 | steps to the previous month's first unless it is before the first of today's month; the selection is untouched and the shown month stays in the navigable window |
| CalendarView.CalendarState.GoToNextMonth | src/components/Calendar.tsx:44-50 | steps to the next month's first unless it is after maxDate; the selection is untouched and the shown month stays in the navigable window |
| CalendarView.NavigableMonths | src/components/Calendar.tsx:34-50 | a first of the month passes both navigation checks iff it is today's month or one of the 23 after it |
| CalendarView.MaxDate | src/components/Calendar.tsx:34 | `new Date(year + 2, month, 0)` is always a real calendar date; `UpperBound` shows it admits exactly the 23 months after today's |
| CalendarView.ClickedDate | src/components/Calendar.tsx:56 | the clicked cell's `new Date(year, month, day)` is always a real calendar date |
| CalendarView.CalendarState.SelectDay | src/components/Calendar.tsx:52-94 | other months' cells, unavailable cells and past days change nothing; a first click selects that one day and remembers it; a second click selects the ordered range and clears the pending click; the selection always starts no earlier than today |
| CalendarView.OneDaySelected | src/components/Calendar.tsx:152-157 | after a first click, exactly the clicked day is shown selected |
| CalendarView.RangeEnds | src/components/Calendar.tsx:159-169 | the range's start and end days are selected days; a day is both iff the range is that single day |
| CalendarView.PaddingLoop | src/components/Calendar.tsx:112-118 | the countdown loop yields the padding cells: the last days of the previous month, greyed, with maxCapacity |
| CalendarView.MonthLoop | src/components/Calendar.tsx:123-140 | the day loop yields one DayCell per day 1 … daysInMonth, in order |
| CalendarView.MonthBounds | src/components/Calendar.tsx:103-109 | the month's first day, its length and the previous month's last day, as the JavaScript dates give them |
| CalendarView.CalendarState.GenerateCalendarDays | src/components/Calendar.tsx:97-143 | the grid is the padding cells followed by the month's cells, with the season from isPeakSeason |
| CalendarView.GridCells | src/components/Calendar.tsx:110-140 | grid length is padding + days in month; padding cells are greyed with maxCapacity; day i sits at index padding + i − 1 |
| CalendarView.GridColumn | src/components/Calendar.tsx:110 | day i falls in the column of its weekday, Monday first |
| CalendarView.CalendarState.CalculateTotalCost | src/components/Calendar.tsx:219-234 | 0 without a selection, else the price of the selection's nights |
| CalendarView.CalendarState.TotalCost | src/components/Calendar.tsx:236-237 | accommodation cost plus boma cost |
| AdminPage.FormatDisplayDate | src/pages/Admin.tsx:34-38 | "" is displayed as "" and nothing else is |
| AdminPage.DisplayOfFormatDate | src/pages/Admin.tsx:34-38 | YYYY-MM-DD is displayed as DD/MM/YYYY |
| AdminPage.ParsedYear | src/pages/Admin.tsx:39-42 | every date parseLocal yields has a year of at least 100 |
| AdminPage.ComputeNights | src/pages/Admin.tsx:50-58 | 0 when a date is empty, NaN when one does not parse, otherwise max(1, day difference): the difference when it is positive, exactly 1 when check-out is on or before check-in |
| AdminPage.NightsAgreeWithCalendar | src/pages/Admin.tsx:50-58 | for formatted dates the admin page's nights equal the booking calendar's |
| AdminPage.ComputeTotalCost | src/pages/Admin.tsx:60-72 | 0 for an empty date, else the half-open 8300/4600 sum over the parsed dates |
| AdminPage.BookingCost | src/pages/Admin.tsx:60-72 | what computeTotalCost yields; `CostAgreesWithCalendar` shows it is the calendar's StayCost |
| AdminPage.CostAgreesWithCalendar | src/pages/Admin.tsx:60-72 | for formatted dates the admin page's price equals the calendar's StayCost |
| AdminPage.FilterBookings | src/pages/Admin.tsx:97-101 | filtering never lengthens the list |
| AdminPage.FilterMembership | src/pages/Admin.tsx:97-101 | a booking is kept iff it is listed and the lower-cased term occurs in its lower-cased name or e-mail, a missing one read as "" |
| AdminPage.FilterAppend | src/pages/Admin.tsx:97 | filtering distributes over concatenation, so the list order is kept |
| AdminPage.EmptyTermKeepsAll | src/pages/Admin.tsx:100 | an empty term keeps every booking |
| AdminPage.ContainsExactly | src/pages/Admin.tsx:100 | `includes` holds iff the term is a prefix of some suffix |
| AdminPage.LowerIdempotent | src/pages/Admin.tsx:100 | lower-casing twice is lower-casing once |
| AdminPage.CaseInsensitiveTerm | src/pages/Admin.tsx:100 | the search does not depend on the case of the term |
| AdminPage.MenuActions | src/pages/Admin.tsx:508-556 | every menu ends with Edit and Delete |
| AdminPage.MenuPerStatus | src/pages/Admin.tsx:508-550 | the exact menu of every status: pending offers approve and reject, approved request payment, payment_requested mark payment received, payment_received confirm, confirmed complete stay while the stay is not completed, rejected only edit and delete; complete stay iff confirmed and not completed; approve iff pending; confirm iff payment received |
| AdminPage.MenuForwardOnly | src/pages/Admin.tsx:508-550 | every status the menu sends is exactly one stage after the booking's, and none is offered from rejected or confirmed |
| AdminPage.HandleBlockDate | src/pages/Admin.tsx:256-262 | with a date selected, setDateAvailability(date, 0) runs through the guard; without one nothing changes |
| AdminPage.HandleUnblockDate | src/pages/Admin.tsx:264-271 | with a date selected, setDateAvailability(date, maxCapacity) runs through the guard; without one nothing changes |
| AdminPage.BlockUnblockShown | src/pages/Admin.tsx:412 | after writing available for a date, the month view shows it blocked iff available is 0, and every other date as before |
| AdminPage.IsBlocked | src/pages/Admin.tsx:412 | a date is blocked iff it has a record that is blocked or has nothing available; `BlockUnblockShown` ties it to the handlers |
| AdminPage.EditCheckIn | src/pages/Admin.tsx:619-630 | the check-in edit changes only checkIn and checkOut |
| AdminPage.EditCheckOut | src/pages/Admin.tsx:640-650 | the check-out edit changes only checkOut |
| AdminPage.AdjustedCheckOutAfter | src/pages/Admin.tsx:624-628 | when both dates parse, the check-out is kept if it is after the check-in and becomes check-in + 1 day otherwise; either way it is after the check-in |
| AdminPage.AdjustedCheckOut | src/pages/Admin.tsx:624-628 | the check-out after a check-in edit; `AdjustedCheckOutAfter` states that it is after the check-in |
| AdminPage.EditsKeepCheckOutAfterCheckIn | src/pages/Admin.tsx:619-650 | after either edit, check-out is after check-in whenever both parse |
| Boma.AvailableDates | src/components/BomaBooking.tsx:15-24 | the loop lists the consecutive nights from check-in (included) to check-out (excluded), ascending |
| Boma.Insert | src/components/BomaBooking.tsx:30 | the inserted list holds the old dates plus the new one |
| Boma.InsertSorted | src/components/BomaBooking.tsx:30 | inserting into a sorted list keeps it sorted |
| Boma.Sort | src/components/BomaBooking.tsx:30 | `sort()` returns a sorted permutation of its input |
| Boma.SortedUnique | src/components/BomaBooking.tsx:30 | two sorted lists with the same elements are equal, so the sort's result is determined |
| Boma.Remove | src/components/BomaBooking.tsx:28 | the filter removes every occurrence of the date and keeps every other one |
| Boma.RemoveSorted | src/components/BomaBooking.tsx:28 | removing a date keeps a sorted list sorted |
| Boma.RemoveAppend | src/components/BomaBooking.tsx:28 | removal distributes over concatenation, so the other dates keep their order |
| Boma.ToggleMembership | src/components/BomaBooking.tsx:26-32 | a toggle flips the membership of the date and of no other date |
| Boma.Toggle | src/components/BomaBooking.tsx:26-32 | toggleDate removes a selected date or adds an unselected one and sorts; `ToggleMembership`, `ToggleSorted` and `ToggleTwice` state its effect |
| Boma.ToggleSorted | src/components/BomaBooking.tsx:28-31 | adding yields a sorted list; removing keeps a sorted list sorted |
| Boma.ToggleNoDuplicates | src/components/BomaBooking.tsx:27-31 | a toggle never introduces a duplicate |
| Boma.ToggleTwice | src/components/BomaBooking.tsx:26-32 | toggling the same date twice restores a sorted duplicate-free selection |
| Boma.RemoveThenAdd | src/components/BomaBooking.tsx:26-32 | removing a selected date and adding it back restores the selection |
| Boma.AddThenRemove | src/components/BomaBooking.tsx:26-32 | adding an unselected date and removing it again restores the selection |
| Boma.BomaCost | src/components/BomaBooking.tsx:34 | the boma price is a non-negative multiple of 350, and 0 exactly for an empty selection |
| Boma.BomaCostPerDate | src/components/BomaBooking.tsx:34 | for a duplicate-free selection, the boma price is 350 per distinct selected date |
| Boma.ToggleCost | src/components/BomaBooking.tsx:26-34 | a toggle changes the price by exactly one boma night up or down |
| Boma.BlockedDateUnchanged | src/components/BomaBooking.tsx:88-93 | a click on a date whose bomaBlocked is true changes nothing; any other click toggles |
| Boma.OnDateClick | src/components/BomaBooking.tsx:88-93 | the day picker's click: ignored on a bomaBlocked date, else a toggle, as `BlockedDateUnchanged` states |
| Boma.LexTotal | src/components/BomaBooking.tsx:30 | the string order is total |
| Boma.LexTransitive | src/components/BomaBooking.tsx:30 | the string order is transitive |
| Boma.LexAntisymmetric | src/components/BomaBooking.tsx:30 | the string order is antisymmetric |
| BookingForm.DeriveDates | src/components/BookingForm.tsx:48-74 | both manual dates, when both are set, are used as given |
| BookingForm.DerivedDatesParse | src/components/BookingForm.tsx:54-73 | otherwise the selection's days are sent as YYYY-MM-DD and read back exactly, or else today and tomorrow are sent |
| BookingForm.DisplayFormatsAgree | src/components/BookingForm.tsx:41-46 | the form's DD/MM/YYYY of a date equals the admin page's display of its YYYY-MM-DD |
| BookingForm.FormatDDMMYYYY | src/components/BookingForm.tsx:41-46 | the form's DD/MM/YYYY text; `DisplayFormatsAgree` shows it is the admin page's display |
| BookingForm.BookingFormState.constructor | src/components/BookingForm.tsx:76 | the form opens empty, for an owner, not submitting |
| BookingForm.BookingFormState.HandleSubmit | src/components/BookingForm.tsx:76-108 | an empty name or bungalow number is reported and createBooking is not called; otherwise the request goes to createBooking, and on success notes are cleared and the success dialog opens; it runs only while not submitting, since the submit button is disabled during a submission, and submitting is false afterwards in every case |
| BookingForm.SubmittedRow | src/components/BookingForm.tsx:88-95 | the submitted row carries the name, no e-mail, notes undefined exactly when the notes are empty, and the derived user id |

## Left out

- Rendering. JSX, CSS classes, toasts, dialogs, `localStorage` and the query loading states (`useQuery` returning undefined) are not modelled. `src/pages/SignUp.tsx`, `src/components/BookingHeader.tsx`, `src/pages/Index.tsx` and `src/main.tsx` are not part of this model.
- The Convex runtime. Index mechanics, `.unique()` throwing on duplicate records, generated ids and the read-then-insert race between concurrent `createBooking` calls are not modelled. The tables are in-memory maps with at most one record per date and one settings record.
- Clock and timezone:
  - `Date.now()` and today are parameters.
  - `isPeakSeason` parses its string as UTC with `new Date(dateStr)`. The model takes the year of the date triple, and `CalendarView` calls it on the triple directly.
  - The booking form's fallback uses `toISOString`, which is modelled as the local YYYY-MM-DD of today and tomorrow.
  - DST, `setHours(0, 0, 0, 0)` and `Math.round` of millisecond differences become whole-day differences of day numbers.
- date-fns `format` in the boma picker is modelled as the same YYYY-MM-DD formatter.
- `DateText.ParseLocal`: `Number` is modelled for "" and plain digit strings only. Signs, spaces, decimals and exponents are read as NaN.
- `AdminPage.Lower`: `toLowerCase` is modelled on ASCII letters only. `Boma.LexLe`: JavaScript's default sort compares UTF-16 code units; the model compares characters, which is the same order on the ASCII dates it is used on.
- `CalendarView.DayCell`: the `typeof dayData === 'number'` branch of the source has no model; the page always passes records.
- The admin page's own month grid (Sunday-first) and its month navigation are not modelled. Its blocked test `IsBlocked` and the block and unblock handlers are.
- `Holidays.ComputusAgrees`: the JavaScript remainders are shown equal to the Euclidean ones only for years from 0 on. `EasterDate` uses the Euclidean form.
- `Holidays.EasterInSpring`, `Holidays.EasterIsSunday`, `Holidays.PublicHolidayList` and the other characterisations need a year from 100 on. `Holidays.SchoolHolidayDates`, `Holidays.PeakSeasonMembers` and `Holidays.IsPeakSeasonExactly` need 101 or later, because `new Date(y, …)` reads years 0 to 99 as 1900 to 1999.
- `Bookings.DaysAgo` and `Bookings.DaysRemaining`: the cooldown message text is not built. Its two numbers are carried in the `Cooldown` error.
- `Bookings.BookingTable.Remove`: on a missing id Convex's `delete` throws. The model returns NotFound and changes nothing.
- `AdminPage.FilterBookings`: its own contract bounds only the length. `AdminPage.FilterMembership` and `AdminPage.FilterAppend` state which bookings are kept and in what order.
- `Boma.ToggleTwice` restores the list only for a sorted, duplicate-free selection. Other lists come back sorted: the second toggle re-sorts them.
- Numbers are unbounded integers. No floating point arises in the modelled computations.

## Behaviour worth knowing

The model follows the code in each of these cases.

- The summer school window is configured as December 15 to January 15 (southAfricanHolidays.ts:47). `startYear` is the previous year, while the day filter keeps only days of the queried year (or the next). So each year's list holds only January 1–15. December 15–31 are peak only as public holidays or weekends (`Holidays.SchoolHolidayDates`).
- The admin page's menu offers each booking only the next step of the approval flow. The server's `updateStatus` accepts any of the six statuses from any status, so another client can move a booking backwards or skip steps (`AdminPage.MenuForwardOnly`, `Bookings.BookingTable.UpdateStatus`).
- The availability record's `seasonType` is commented as season pricing (schema.ts:38). Pricing consults only `isPeakSeason`, so a stored `seasonType` colours the calendar cell but does not change the price (`CalendarView.DayCell` vs `Pricing.NightRate`).
- `getSettings` is a public query, and the value it returns includes the admin key (`Availability.GetSettings`).
- `setAdminKey("")` succeeds, yet leaves the system unconfigured and the guard open (`AdminKeys.SetAdminKeyEffect`).
- A confirmed booking stays active, so it blocks new requests for its bungalow even after its cooldown year (`Bookings.ConfirmedBlocks`).
