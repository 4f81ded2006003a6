/**
 * The booking request form (src/components/BookingForm.tsx): which
 * check-in and check-out it submits, the guards and argument shaping of
 * its submit handler, and its DD/MM/YYYY display of dates.
 */
module BookingForm {
  import opened Wrappers
  import opened Schema
  import opened Dates
  import opened DateText
  import opened Bookings
  import CalendarView
  import AdminPage

  /** formatDDMMYYYY of a Date: zero-padded day and month, then the year. */
  function FormatDDMMYYYY(d: Date): string {
    Pad2(IntStr(d.day)) + "/" + Pad2(IntStr(d.month)) + "/" + IntStr(d.year)
  }

  /** The check-in and check-out the form shows and submits. */
  datatype StayDates = StayDates(checkIn: string, checkOut: string)

  /**
   * The useMemo: both manual dates when both are set; else the calendar's
   * selection in YYYY-MM-DD; else today and tomorrow.
   */
  function DeriveDates(manualCheckIn: string, manualCheckOut: string, selected: Option<CalendarView.Range>, today: Date)
    : (r: StayDates)
    ensures manualCheckIn != "" && manualCheckOut != "" ==> r == StayDates(manualCheckIn, manualCheckOut)
  {
    if manualCheckIn != "" && manualCheckOut != "" then StayDates(manualCheckIn, manualCheckOut)
    else if selected.Some? then StayDates(FormatDate(selected.value.start), FormatDate(selected.value.end))
    else StayDates(FormatDate(today), FormatDate(NextDay(today)))
  }

  /** The createBooking arguments of a submission: empty notes become undefined, the name is the user name. */
  function FormRequest(checkIn: string, checkOut: string, name: string, bungalowNumber: string, userType: UserType,
                       notes: string): BookingRequest
  {
    BookingRequest(checkIn, checkOut, bungalowNumber, userType, if notes == "" then None else Some(notes), None, Some(name))
  }

  /** What a submission ends in: one of the two form errors, a created booking, or the server's error. */
  datatype SubmitResult = MissingName | MissingBungalow | Submitted(id: nat) | Failed(error: Error)

  /** The form's state. */
  class BookingFormState {
    var notes: string
    var name: string
    var bungalowNumber: string
    var userType: UserType
    var submitting: bool
    var successOpen: bool

    /** The form opens empty, for an owner. */
    constructor()
      ensures notes == "" && name == "" && bungalowNumber == "" && userType == Owner
      ensures !submitting && !successOpen
    {
      notes := "";
      name := "";
      bungalowNumber := "";
      userType := Owner;
      submitting := false;
      successOpen := false;
    }

    /**
     * handleSubmit: a missing name or bungalow number is reported without
     * calling createBooking; otherwise the request is sent, and on success
     * the notes are cleared and the success dialog opens. Either way the
     * form is no longer submitting afterwards. The submit button is
     * disabled while a submission is in flight, so the handler only runs
     * when the form is not submitting.
     */
    method HandleSubmit(table: BookingTable, checkIn: string, checkOut: string, now: int) returns (r: SubmitResult)
      requires table.Valid() && !submitting
      modifies this, table
      ensures table.Valid()
      ensures name == old(name) && bungalowNumber == old(bungalowNumber) && userType == old(userType)
      ensures !submitting
      ensures old(name) == "" ==>
                r == MissingName && unchanged(table) && notes == old(notes) && successOpen == old(successOpen)
      ensures old(name) != "" && old(bungalowNumber) == "" ==>
                r == MissingBungalow && unchanged(table) && notes == old(notes) && successOpen == old(successOpen)
      ensures old(name) != "" && old(bungalowNumber) != "" ==>
                var req := FormRequest(checkIn, checkOut, old(name), old(bungalowNumber), old(userType), old(notes));
                var check := CreateCheck(old(table.rows), old(table.nextId), old(bungalowNumber), now);
                if check.Fail? then
                  && r == Failed(check.error)
                  && table.rows == old(table.rows) && table.nextId == old(table.nextId)
                  && notes == old(notes) && successOpen == old(successOpen)
                else
                  && r == Submitted(old(table.nextId))
                  && table.rows == old(table.rows)[old(table.nextId) := NewBooking(req, now)]
                  && table.nextId == old(table.nextId) + 1
                  && notes == "" && successOpen
    {
      if name == "" {
        return MissingName;
      }
      if bungalowNumber == "" {
        return MissingBungalow;
      }
      submitting := true;
      var req := FormRequest(checkIn, checkOut, name, bungalowNumber, userType, notes);
      var outcome := table.CreateBooking(req, now);
      if outcome.Ok? {
        notes := "";
        successOpen := true;
        r := Submitted(outcome.value);
      } else {
        r := Failed(outcome.error);
      }
      submitting := false;
    }
  }

  // ---------------------------------------------------------------------
  // Lemmas

  /** The form's DD/MM/YYYY of a date is the admin page's formatDDMMYYYY of its YYYY-MM-DD string. */
  lemma DisplayFormatsAgree(d: Date)
    requires d.year >= 0 && d.month >= 0 && d.day >= 0
    ensures FormatDDMMYYYY(d) == AdminPage.FormatDisplayDate(FormatDate(d))
  {
    AdminPage.DisplayOfFormatDate(d);
  }

  /**
   * Without both manual dates the form submits real dates: the calendar's
   * selection read back exactly, or a one-night stay from today.
   */
  lemma DerivedDatesParse(manualCheckIn: string, manualCheckOut: string, selected: Option<CalendarView.Range>, today: Date)
    requires manualCheckIn == "" || manualCheckOut == ""
    requires selected.Some? ==> Valid(selected.value.start) && Valid(selected.value.end)
                                && selected.value.start.year >= 100 && selected.value.end.year >= 100
    requires Valid(today) && today.year >= 100
    ensures var r := DeriveDates(manualCheckIn, manualCheckOut, selected, today);
            if selected.Some? then
              ParseLocal(r.checkIn) == Some(selected.value.start) && ParseLocal(r.checkOut) == Some(selected.value.end)
            else
              ParseLocal(r.checkIn) == Some(today) && ParseLocal(r.checkOut) == Some(NextDay(today))
              && DayNumber(NextDay(today)) == DayNumber(today) + 1
  {
    if selected.Some? {
      ParseFormatRoundTrip(selected.value.start);
      ParseFormatRoundTrip(selected.value.end);
    } else {
      NextDayFacts(today);
      DayNumberOrder(today, NextDay(today));
      ParseFormatRoundTrip(today);
      ParseFormatRoundTrip(NextDay(today));
    }
  }

  /**
   * The row a successful submission inserts: pending, carrying the form's
   * name, no notes exactly when the notes were empty, and the user id
   * derived from bungalow and user type.
   */
  lemma SubmittedRow(checkIn: string, checkOut: string, name: string, bungalowNumber: string, userType: UserType,
                     notes: string, now: int)
    ensures var b := NewBooking(FormRequest(checkIn, checkOut, name, bungalowNumber, userType, notes), now);
            && b.status == Pending && b.userName == Some(name) && b.userEmail == None
            && (b.notes == None <==> notes == "") && (b.notes.Some? ==> b.notes.value == notes)
            && b.checkIn == checkIn && b.checkOut == checkOut && b.bungalowNumber == Some(bungalowNumber)
            && WellFormed(b) && b.userId == bungalowNumber + "-" + UserTypeName(userType)
  {
  }
}
