/**
 * Per-date availability and the capacity setting (convex/availability.ts).
 * The availability table holds one record per YYYY-MM-DD date; the
 * settings record is the one of AdminKeys. Writes pass the admin-key guard
 * first and change nothing when it refuses.
 */
module Availability {
  import opened Wrappers
  import opened Schema
  import opened AdminKeys
  import opened Dates
  import opened DateText

  /** getSettings: the stored value, or `{maxCapacity: 16}` when there is no record. */
  function GetSettings(s: Option<Settings>): (v: Settings)
    ensures v.maxCapacity == (if s.Some? then s.value.maxCapacity else DefaultCapacity)
    ensures s.Some? ==> v == s.value
    ensures s.None? ==> v.adminKey == None
    ensures forall k :: VerifyAdminKey(s, k) ==> v.adminKey == Some(k)
  {
    if s.Some? then s.value else Settings(DefaultCapacity, None)
  }

  /** The settings record after setMaxCapacity(c): patched, or inserted without a key. */
  function WithCapacity(s: Option<Settings>, c: int): Option<Settings> {
    if s.Some? then Some(s.value.(maxCapacity := c)) else Some(Settings(c, None))
  }

  /** setMaxCapacity: guard, then replace only maxCapacity (inserting the record if absent). */
  method SetMaxCapacity(settings: SettingsTable, maxCapacity: int, adminKey: Option<string>)
    returns (r: Outcome<Error>)
    modifies settings
    ensures GuardRefuses(old(settings.record), adminKey) ==>
              r == Fail(Forbidden) && settings.record == old(settings.record)
    ensures !GuardRefuses(old(settings.record), adminKey) ==>
              r == Pass && settings.record == WithCapacity(old(settings.record), maxCapacity)
  {
    if GuardRefuses(settings.record, adminKey) {
      return Fail(Forbidden);
    }
    settings.record := WithCapacity(settings.record, maxCapacity);
    return Pass;
  }

  /** What getMonthAvailability reports for one date. */
  datatype DayStatus = DayStatus(available: int, blocked: bool)

  function StatusOf(a: Availability): DayStatus {
    DayStatus(a.available, a.blocked)
  }

  /** The record setDateAvailability leaves for a date: patched if present, else inserted. */
  function Upserted(days: map<string, Availability>, date: string, available: int): (a: Availability)
    ensures a.available == available
    ensures a.blocked <==> available == 0
    ensures a.seasonType == (if date in days then days[date].seasonType else None)
  {
    var blocked := available == 0;
    if date in days then days[date].(available := available, blocked := blocked)
    else Availability(available, blocked, None)
  }

  /** The stored records whose date starts with the month's prefix, with their status. */
  function MonthView(days: map<string, Availability>, year: int, month: int): map<string, DayStatus> {
    map date | date in days && MonthPrefix(year, month) <= date :: StatusOf(days[date])
  }

  /** The availability table, keyed by date. */
  class AvailabilityTable {
    var days: map<string, Availability>

    /** Every stored record is blocked exactly when nothing is available. */
    ghost predicate Valid()
      reads this
    {
      forall date :: date in days ==> (days[date].blocked <==> days[date].available == 0)
    }

    constructor()
      ensures Valid() && days == map[]
    {
      days := map[];
    }

    /** setDateAvailability: guard, then upsert the date's record with blocked := (available == 0). */
    method SetDateAvailability(settings: SettingsTable, date: string, available: int, adminKey: Option<string>)
      returns (r: Outcome<Error>)
      requires Valid()
      modifies this
      ensures Valid()
      ensures GuardRefuses(settings.record, adminKey) ==> r == Fail(Forbidden) && days == old(days)
      ensures !GuardRefuses(settings.record, adminKey) ==>
                r == Pass && days == old(days)[date := Upserted(old(days), date, available)]
    {
      if GuardRefuses(settings.record, adminKey) {
        return Fail(Forbidden);
      }
      days := days[date := Upserted(days, date, available)];
      return Pass;
    }

    /** getMonthAvailability: collect the records of the month into a dictionary by date. */
    method GetMonthAvailability(year: int, month: int) returns (byDate: map<string, DayStatus>)
      ensures byDate == MonthView(days, year, month)
    {
      var prefix := MonthPrefix(year, month);
      var pending := days.Keys;
      byDate := map[];
      while pending != {}
        invariant pending <= days.Keys
        invariant byDate == map date | date in days && date !in pending && prefix <= date :: StatusOf(days[date])
        decreases pending
      {
        var date :| date in pending;
        if prefix <= date {
          byDate := byDate[date := StatusOf(days[date])];
        }
        pending := pending - {date};
      }
    }
  }

  // ---------------------------------------------------------------------
  // Lemmas

  /** setMaxCapacity sets the capacity and keeps the stored key, whatever it was. */
  lemma WithCapacityKeepsKey(s: Option<Settings>, c: int)
    ensures GetSettings(WithCapacity(s, c)).maxCapacity == c
    ensures StoredKey(WithCapacity(s, c)) == StoredKey(s)
    ensures IsConfigured(WithCapacity(s, c)) <==> IsConfigured(s)
  {
  }

  /** An upsert changes the record of its own date and no other. */
  lemma UpsertOnlyTouchesDate(days: map<string, Availability>, date: string, available: int, other: string)
    requires other != date
    ensures var after := days[date := Upserted(days, date, available)];
            (other in after <==> other in days) && (other in days ==> after[other] == days[other])
  {
  }

  /** A month's view holds a date's status exactly when the date is stored and lies in that month. */
  lemma MonthViewOfDate(days: map<string, Availability>, year: int, month: int, d: Date)
    requires Valid(d) && d.year >= 0
    requires year >= 0 && month >= 0
    ensures var v := MonthView(days, year, month);
            && (FormatDate(d) in v <==> FormatDate(d) in days && d.year == year && d.month == month)
            && (FormatDate(d) in v ==> v[FormatDate(d)] == StatusOf(days[FormatDate(d)]))
  {
    MonthPrefixOfDate(d, year, month);
  }
}
