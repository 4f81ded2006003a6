/**
 * The bookings table and its mutations (convex/bookings.ts). Rows are kept
 * under consecutive ids in creation order; `now` stands for Date.now() in
 * milliseconds. Creating a booking is open to everyone; every other
 * mutation first runs the admin-key guard of AdminKeys.
 */
module Bookings {
  import opened Wrappers
  import opened Schema
  import opened AdminKeys

  const DayMs := 24 * 60 * 60 * 1000
  const YearMs := 365 * DayMs

  // ---------------------------------------------------------------------
  // The checks of createBooking

  predicate OfBungalow(b: Booking, bungalow: string) {
    b.bungalowNumber == Some(bungalow)
  }

  /** A confirmed booking whose stay was completed (a truthy stamp) less than 365 days before now. */
  predicate RecentStay(b: Booking, now: int) {
    && b.status == Confirmed
    && b.stayCompletedAt.Some? && b.stayCompletedAt.value != 0
    && b.stayCompletedAt.value > now - YearMs
  }

  /** Pending, approved, payment requested, payment received or confirmed: every status but rejected. */
  predicate IsActive(b: Booking) {
    b.status in {Pending, Approved, PaymentRequested, PaymentReceived, Confirmed}
  }

  /** Whole days since the stay was completed, `Math.floor`. */
  function DaysAgo(completedAt: int, now: int): int {
    (now - completedAt) / DayMs
  }

  /** Days left of the 365-day cooldown, `Math.ceil`. */
  function DaysRemaining(completedAt: int, now: int): int {
    -((-(YearMs - (now - completedAt))) / DayMs)
  }

  /**
   * The first booking of the bungalow with a recent stay among ids lo..hi-1
   * (`find` over the by-bungalow index, which lists in creation order).
   */
  function FirstRecentStay(rows: map<nat, Booking>, bungalow: string, now: int, lo: nat, hi: nat): (r: Option<nat>)
    decreases hi - lo
    ensures r.Some? ==> && lo <= r.value < hi && r.value in rows
                        && OfBungalow(rows[r.value], bungalow) && RecentStay(rows[r.value], now)
    ensures r.Some? ==>
              forall j :: lo <= j < r.value && j in rows && OfBungalow(rows[j], bungalow) ==> !RecentStay(rows[j], now)
    ensures r.None? ==>
              forall j :: lo <= j < hi && j in rows && OfBungalow(rows[j], bungalow) ==> !RecentStay(rows[j], now)
  {
    if lo >= hi then None
    else if lo in rows && OfBungalow(rows[lo], bungalow) && RecentStay(rows[lo], now) then Some(lo)
    else FirstRecentStay(rows, bungalow, now, lo + 1, hi)
  }

  predicate HasActive(rows: map<nat, Booking>, bungalow: string) {
    exists id :: id in rows && OfBungalow(rows[id], bungalow) && IsActive(rows[id])
  }

  /**
   * The validation of createBooking: the cooldown error for the first recent
   * stay, else the active-booking error, else success.
   */
  function CreateCheck(rows: map<nat, Booking>, nextId: nat, bungalow: string, now: int): (r: Outcome<Error>)
    requires forall id :: id in rows ==> id < nextId
    ensures (r.Fail? && r.error.Cooldown?)
            <==> exists id :: id in rows && OfBungalow(rows[id], bungalow) && RecentStay(rows[id], now)
    ensures r == Fail(ActiveBookingExists)
            <==> && (forall id :: id in rows && OfBungalow(rows[id], bungalow) ==> !RecentStay(rows[id], now))
                 && HasActive(rows, bungalow)
    ensures r == Pass <==> !HasActive(rows, bungalow)
  {
    var recent := FirstRecentStay(rows, bungalow, now, 0, nextId);
    if recent.Some? then
      var completedAt := rows[recent.value].stayCompletedAt.value;
      Fail(Cooldown(DaysAgo(completedAt, now), DaysRemaining(completedAt, now)))
    else if HasActive(rows, bungalow) then Fail(ActiveBookingExists)
    else Pass
  }

  /** The arguments of createBooking. */
  datatype BookingRequest = BookingRequest(
    checkIn: string,
    checkOut: string,
    bungalowNumber: string,
    userType: UserType,
    notes: Option<string>,
    userEmail: Option<string>,
    userName: Option<string>)

  /** The row createBooking inserts. */
  function NewBooking(req: BookingRequest, now: int): Booking {
    Booking(
      userId := req.bungalowNumber + "-" + UserTypeName(req.userType),
      userEmail := req.userEmail,
      userName := req.userName,
      bungalowNumber := Some(req.bungalowNumber),
      userType := Some(req.userType),
      checkIn := req.checkIn,
      checkOut := req.checkOut,
      guests := None,
      status := Pending,
      notes := req.notes,
      createdAt := now,
      stayCompletedAt := None,
      paymentRequestedAt := None,
      paymentReceivedAt := None,
      confirmedAt := None)
  }

  /** A row's user id is its bungalow number, a dash and its user type. */
  predicate WellFormed(b: Booking) {
    && b.bungalowNumber.Some? && b.userType.Some?
    && b.userId == b.bungalowNumber.value + "-" + UserTypeName(b.userType.value)
  }

  // ---------------------------------------------------------------------
  // The row updates of the admin mutations

  /** updateStatus: set the status and stamp the matching workflow time with now. */
  function WithStatus(b: Booking, status: BookingStatus, now: int): (c: Booking)
    ensures c.status == status
    ensures c.paymentRequestedAt == if status == PaymentRequested then Some(now) else b.paymentRequestedAt
    ensures c.paymentReceivedAt == if status == PaymentReceived then Some(now) else b.paymentReceivedAt
    ensures c.confirmedAt == if status == Confirmed then Some(now) else b.confirmedAt
    ensures c.(status := b.status, paymentRequestedAt := b.paymentRequestedAt,
               paymentReceivedAt := b.paymentReceivedAt, confirmedAt := b.confirmedAt) == b
  {
    var c := b.(status := status);
    if status == PaymentRequested then c.(paymentRequestedAt := Some(now))
    else if status == PaymentReceived then c.(paymentReceivedAt := Some(now))
    else if status == Confirmed then c.(confirmedAt := Some(now))
    else c
  }

  /** The optional fields updateBooking may patch. */
  datatype BookingPatch = BookingPatch(
    checkIn: Option<string>,
    checkOut: Option<string>,
    guests: Option<int>,
    notes: Option<string>)

  /** updateBooking: overwrite exactly the supplied fields. */
  function Patched(b: Booking, p: BookingPatch): (c: Booking)
    ensures c.checkIn == p.checkIn.GetOr(b.checkIn) && c.checkOut == p.checkOut.GetOr(b.checkOut)
    ensures c.guests == (if p.guests.Some? then p.guests else b.guests)
    ensures c.notes == (if p.notes.Some? then p.notes else b.notes)
    ensures c.(checkIn := b.checkIn, checkOut := b.checkOut, guests := b.guests, notes := b.notes) == b
  {
    b.(checkIn := p.checkIn.GetOr(b.checkIn),
       checkOut := p.checkOut.GetOr(b.checkOut),
       guests := if p.guests.Some? then p.guests else b.guests,
       notes := if p.notes.Some? then p.notes else b.notes)
  }

  // ---------------------------------------------------------------------
  // list: newest first

  /** `by_createdAt` descending: a later creation time first, ties by the later insertion. */
  predicate Newer(rows: map<nat, Booking>, a: nat, b: nat)
    requires a in rows && b in rows
  {
    rows[a].createdAt > rows[b].createdAt || (rows[a].createdAt == rows[b].createdAt && a > b)
  }

  predicate NewestFirst(rows: map<nat, Booking>, s: seq<nat>)
    requires forall i :: 0 <= i < |s| ==> s[i] in rows
  {
    forall i, j :: 0 <= i < j < |s| ==> Newer(rows, s[i], s[j])
  }

  /** Insert the id x, newer than no id of s by number, into the newest-first list s. */
  function InsertByRecency(rows: map<nat, Booking>, x: nat, s: seq<nat>): (t: seq<nat>)
    requires x in rows && forall i :: 0 <= i < |s| ==> s[i] in rows && s[i] < x
    requires NewestFirst(rows, s)
    ensures |t| == |s| + 1
    ensures forall y :: y in t <==> y == x || y in s
    ensures forall i :: 0 <= i < |t| ==> t[i] in rows
    ensures NewestFirst(rows, t)
  {
    if |s| == 0 then [x]
    else if Newer(rows, x, s[0]) then [x] + s
    else
      var rest := InsertByRecency(rows, x, s[1..]);
      assert Newer(rows, s[0], x);
      forall k | 0 <= k < |rest|
        ensures Newer(rows, s[0], rest[k])
      {
        assert rest[k] in rest;
        if rest[k] != x {
          assert rest[k] in s[1..];
          var j :| 0 <= j < |s[1..]| && s[1..][j] == rest[k];
          assert s[j + 1] == rest[k];
        }
      }
      [s[0]] + rest
  }

  /** The ids below n, newest first. */
  function Listing(rows: map<nat, Booking>, n: nat): (ids: seq<nat>)
    ensures forall i :: 0 <= i < |ids| ==> ids[i] in rows && ids[i] < n
    ensures forall id :: id in ids <==> id in rows && id < n
    ensures NewestFirst(rows, ids)
  {
    if n == 0 then []
    else
      var s := Listing(rows, n - 1);
      if n - 1 in rows then InsertByRecency(rows, n - 1, s) else s
  }

  // ---------------------------------------------------------------------
  // The table

  class BookingTable {
    var rows: map<nat, Booking>
    var nextId: nat

    /** Ids are allocated below nextId, and every row carries its derived user id. */
    ghost predicate Valid()
      reads this
    {
      forall id :: id in rows ==> id < nextId && WellFormed(rows[id])
    }

    constructor()
      ensures Valid() && rows == map[] && nextId == 0
    {
      rows := map[];
      nextId := 0;
    }

    /** list: every booking exactly once, newest first. */
    function List(): (ids: seq<nat>)
      reads this
      requires Valid()
      ensures forall id :: id in ids <==> id in rows
      ensures forall i :: 0 <= i < |ids| ==> ids[i] in rows
      ensures NewestFirst(rows, ids)
    {
      Listing(rows, nextId)
    }

    /** createBooking: cooldown check, active-booking check, then insert a pending row. */
    method CreateBooking(req: BookingRequest, now: int) returns (r: Result<nat, Error>)
      requires Valid()
      modifies this
      ensures Valid()
      ensures var check := CreateCheck(old(rows), old(nextId), req.bungalowNumber, now);
              check.Fail? ==> r == Err(check.error) && rows == old(rows) && nextId == old(nextId)
      ensures CreateCheck(old(rows), old(nextId), req.bungalowNumber, now) == Pass ==>
                && r == Ok(old(nextId))
                && rows == old(rows)[old(nextId) := NewBooking(req, now)]
                && nextId == old(nextId) + 1
    {
      var check := CreateCheck(rows, nextId, req.bungalowNumber, now);
      if check.Fail? {
        return Err(check.error);
      }
      r := Ok(nextId);
      rows := rows[nextId := NewBooking(req, now)];
      nextId := nextId + 1;
    }

    /** updateStatus: guard, then set any of the six statuses with its stamp. */
    method UpdateStatus(settings: SettingsTable, id: nat, status: BookingStatus,
                        adminKey: Option<string>, now: int) returns (r: Outcome<Error>)
      requires Valid()
      modifies this
      ensures Valid() && nextId == old(nextId)
      ensures GuardRefuses(settings.record, adminKey) ==> r == Fail(Forbidden) && rows == old(rows)
      ensures !GuardRefuses(settings.record, adminKey) && id !in old(rows) ==>
                r == Fail(NotFound) && rows == old(rows)
      ensures !GuardRefuses(settings.record, adminKey) && id in old(rows) ==>
                r == Pass && rows == old(rows)[id := WithStatus(old(rows)[id], status, now)]
    {
      if GuardRefuses(settings.record, adminKey) {
        return Fail(Forbidden);
      }
      if id !in rows {
        return Fail(NotFound);
      }
      rows := rows[id := WithStatus(rows[id], status, now)];
      return Pass;
    }

    /** updateBooking: guard, existence check, then patch the supplied fields. */
    method UpdateBooking(settings: SettingsTable, id: nat, patch: BookingPatch,
                         adminKey: Option<string>) returns (r: Outcome<Error>)
      requires Valid()
      modifies this
      ensures Valid() && nextId == old(nextId)
      ensures GuardRefuses(settings.record, adminKey) ==> r == Fail(Forbidden) && rows == old(rows)
      ensures !GuardRefuses(settings.record, adminKey) && id !in old(rows) ==>
                r == Fail(NotFound) && rows == old(rows)
      ensures !GuardRefuses(settings.record, adminKey) && id in old(rows) ==>
                r == Pass && rows == old(rows)[id := Patched(old(rows)[id], patch)]
    {
      if GuardRefuses(settings.record, adminKey) {
        return Fail(Forbidden);
      }
      if id !in rows {
        return Fail(NotFound);
      }
      rows := rows[id := Patched(rows[id], patch)];
      return Pass;
    }

    /** completeStay: guard, existence, confirmed status, then stamp stayCompletedAt. */
    method CompleteStay(settings: SettingsTable, id: nat, adminKey: Option<string>, now: int)
      returns (r: Outcome<Error>)
      requires Valid()
      modifies this
      ensures Valid() && nextId == old(nextId)
      ensures GuardRefuses(settings.record, adminKey) ==> r == Fail(Forbidden) && rows == old(rows)
      ensures !GuardRefuses(settings.record, adminKey) && id !in old(rows) ==>
                r == Fail(NotFound) && rows == old(rows)
      ensures !GuardRefuses(settings.record, adminKey) && id in old(rows) && old(rows)[id].status != Confirmed ==>
                r == Fail(NotConfirmed) && rows == old(rows)
      ensures !GuardRefuses(settings.record, adminKey) && id in old(rows) && old(rows)[id].status == Confirmed ==>
                r == Pass && rows == old(rows)[id := old(rows)[id].(stayCompletedAt := Some(now))]
    {
      if GuardRefuses(settings.record, adminKey) {
        return Fail(Forbidden);
      }
      if id !in rows {
        return Fail(NotFound);
      }
      if rows[id].status != Confirmed {
        return Fail(NotConfirmed);
      }
      rows := rows[id := rows[id].(stayCompletedAt := Some(now))];
      return Pass;
    }

    /** remove: guard, then delete the row whatever its status. */
    method Remove(settings: SettingsTable, id: nat, adminKey: Option<string>) returns (r: Outcome<Error>)
      requires Valid()
      modifies this
      ensures Valid() && nextId == old(nextId)
      ensures GuardRefuses(settings.record, adminKey) ==> r == Fail(Forbidden) && rows == old(rows)
      ensures !GuardRefuses(settings.record, adminKey) && id !in old(rows) ==>
                r == Fail(NotFound) && rows == old(rows)
      ensures !GuardRefuses(settings.record, adminKey) && id in old(rows) ==>
                r == Pass && rows == old(rows) - {id}
    {
      if GuardRefuses(settings.record, adminKey) {
        return Fail(Forbidden);
      }
      if id !in rows {
        return Fail(NotFound);
      }
      rows := rows - {id};
      return Pass;
    }
  }

  // ---------------------------------------------------------------------
  // Lemmas

  /** In the cooldown message, days ago plus days remaining is always 365. */
  lemma CooldownDays(completedAt: int, now: int)
    ensures DaysAgo(completedAt, now) + DaysRemaining(completedAt, now) == 365
    ensures 0 <= now - completedAt < YearMs ==>
              0 <= DaysAgo(completedAt, now) < 365 && 1 <= DaysRemaining(completedAt, now) <= 365
  {
    var x := now - completedAt;
    var q, s := x / DayMs, x % DayMs;
    assert x == q * DayMs + s && 0 <= s < DayMs;
    assert -(YearMs - x) == (q - 365) * DayMs + s;
    assert (-(YearMs - x)) / DayMs == q - 365;
  }

  /** The cooldown error reports the first recent stay, and its two day counts add up to 365. */
  lemma CooldownReport(rows: map<nat, Booking>, nextId: nat, bungalow: string, now: int)
    requires forall id :: id in rows ==> id < nextId
    requires CreateCheck(rows, nextId, bungalow, now).Fail?
    requires CreateCheck(rows, nextId, bungalow, now).error.Cooldown?
    ensures var e := CreateCheck(rows, nextId, bungalow, now).error;
            e.daysAgo + e.daysRemaining == 365
  {
    var recent := FirstRecentStay(rows, bungalow, now, 0, nextId);
    CooldownDays(rows[recent.value].stayCompletedAt.value, now);
  }

  /** A confirmed booking blocks new requests for its bungalow, however long ago the stay was. */
  lemma ConfirmedBlocks(rows: map<nat, Booking>, nextId: nat, bungalow: string, now: int, id: nat)
    requires forall i :: i in rows ==> i < nextId
    requires id in rows && OfBungalow(rows[id], bungalow) && rows[id].status == Confirmed
    ensures CreateCheck(rows, nextId, bungalow, now).Fail?
  {
    assert IsActive(rows[id]);
  }

  /** Only rejected bookings (and bookings of other bungalows) leave the way open. */
  lemma RejectedDoNotBlock(rows: map<nat, Booking>, nextId: nat, bungalow: string, now: int)
    requires forall i :: i in rows ==> i < nextId
    requires forall i :: i in rows && OfBungalow(rows[i], bungalow) ==> rows[i].status == Rejected
    ensures CreateCheck(rows, nextId, bungalow, now) == Pass
  {
  }

  /**
   * A successful createBooking leaves exactly one active booking for the
   * bungalow, the new one, and a second request is then refused with the
   * active-booking error whenever it comes.
   */
  lemma CreateLeavesOneActive(rows: map<nat, Booking>, nextId: nat, req: BookingRequest, now: int, later: int)
    requires forall i :: i in rows ==> i < nextId
    requires CreateCheck(rows, nextId, req.bungalowNumber, now) == Pass
    ensures var after := rows[nextId := NewBooking(req, now)];
            && (forall id ::
                  (id in after && OfBungalow(after[id], req.bungalowNumber) && IsActive(after[id])) <==> id == nextId)
            && CreateCheck(after, nextId + 1, req.bungalowNumber, later) == Fail(ActiveBookingExists)
  {
    var after := rows[nextId := NewBooking(req, now)];
    forall id | id in after && OfBungalow(after[id], req.bungalowNumber)
      ensures !RecentStay(after[id], later)
    {
      if id != nextId {
        assert !IsActive(rows[id]);
      }
    }
    assert IsActive(after[nextId]);
  }

  /** The row inserted by createBooking is pending, unstamped and well formed. */
  lemma NewBookingFacts(req: BookingRequest, now: int)
    ensures var b := NewBooking(req, now);
            && b.status == Pending && b.createdAt == now && WellFormed(b)
            && OfBungalow(b, req.bungalowNumber) && IsActive(b) && !RecentStay(b, now)
            && b.stayCompletedAt.None? && b.paymentRequestedAt.None?
            && b.paymentReceivedAt.None? && b.confirmedAt.None?
  {
  }

  /**
   * completeStay starts the cooldown: for the rest of the year a new
   * request for the bungalow gets the cooldown error.
   */
  lemma CompleteStayStartsCooldown(rows: map<nat, Booking>, nextId: nat, id: nat, bungalow: string,
                                   now: int, later: int)
    requires forall i :: i in rows ==> i < nextId
    requires id in rows && rows[id].status == Confirmed && OfBungalow(rows[id], bungalow)
    requires now != 0 && later < now + YearMs
    ensures var after := rows[id := rows[id].(stayCompletedAt := Some(now))];
            var check := CreateCheck(after, nextId, bungalow, later);
            check.Fail? && check.error.Cooldown?
  {
    var after := rows[id := rows[id].(stayCompletedAt := Some(now))];
    assert RecentStay(after[id], later);
  }

  /** updateStatus stamps at most one workflow time, and none for pending, approved or rejected. */
  lemma WithStatusStamps(b: Booking, status: BookingStatus, now: int)
    ensures var c := WithStatus(b, status, now);
            status in {Pending, Approved, Rejected} ==> c == b.(status := status)
  {
  }
}
