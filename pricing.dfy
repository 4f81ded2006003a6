/**
 * The accommodation price of a stay, shared by the booking calendar and
 * the admin page: every night from check-in (inclusive) to check-out
 * (exclusive) costs 8300 in peak season and 4600 otherwise.
 */
module Pricing {
  import opened Dates
  import opened Holidays

  const PeakNightRate := 8300
  const OffPeakNightRate := 4600

  /** The price of the night that starts on d. */
  function NightRate(d: Date): (r: int)
    ensures r == PeakNightRate <==> IsPeakSeason(d)
    ensures r == OffPeakNightRate <==> !IsPeakSeason(d)
  {
    if IsPeakSeason(d) then PeakNightRate else OffPeakNightRate
  }

  /** The nights a loop `while (current < end) { …; current.setDate(current.getDate() + 1) }` visits from d on. */
  function StayNights(d: Date, end: Date): seq<Date>
    requires Valid(d) && Valid(end)
    decreases DayNumber(end) - DayNumber(d)
  {
    if DayNumber(d) >= DayNumber(end) then []
    else
      NextDayFacts(d);
      [d] + StayNights(NextDay(d), end)
  }

  /** The sum of the night rates. */
  function CostOf(nights: seq<Date>): int {
    if |nights| == 0 then 0 else NightRate(nights[0]) + CostOf(nights[1..])
  }

  /** The accommodation cost of the stay from start to end. */
  function StayCost(start: Date, end: Date): int
    requires Valid(start) && Valid(end)
  {
    CostOf(StayNights(start, end))
  }

  /** calculateTotalCost / computeTotalCost: the loop that adds up the night rates. */
  method AccommodationCost(start: Date, end: Date) returns (total: int)
    requires Valid(start) && Valid(end)
    ensures total == StayCost(start, end)
  {
    total := 0;
    var current := start;
    while DayNumber(current) < DayNumber(end)
      invariant Valid(current)
      invariant total + StayCost(current, end) == StayCost(start, end)
      decreases DayNumber(end) - DayNumber(current)
    {
      NextDayFacts(current);
      total := total + NightRate(current);
      current := NextDay(current);
    }
  }

  // ---------------------------------------------------------------------
  // Lemmas

  /** The nights are the consecutive days start, start + 1, …, end - 1, one per day of difference. */
  lemma {:induction false} StayNightsFacts(d: Date, end: Date)
    requires Valid(d) && Valid(end)
    ensures |StayNights(d, end)| == if DayNumber(d) < DayNumber(end) then DayNumber(end) - DayNumber(d) else 0
    ensures forall i :: 0 <= i < |StayNights(d, end)| ==>
              Valid(StayNights(d, end)[i]) && DayNumber(StayNights(d, end)[i]) == DayNumber(d) + i
    decreases DayNumber(end) - DayNumber(d)
  {
    if DayNumber(d) < DayNumber(end) {
      NextDayFacts(d);
      StayNightsFacts(NextDay(d), end);
      var s := StayNights(d, end);
      assert s == [d] + StayNights(NextDay(d), end);
      forall i | 0 <= i < |s|
        ensures Valid(s[i]) && DayNumber(s[i]) == DayNumber(d) + i
      {
        if i > 0 {
          assert s[i] == StayNights(NextDay(d), end)[i - 1];
        }
      }
    }
  }

  /** Every night costs between the off-peak and the peak rate. */
  lemma {:induction false} CostBounds(nights: seq<Date>)
    ensures OffPeakNightRate * |nights| <= CostOf(nights) <= PeakNightRate * |nights|
  {
    if |nights| > 0 {
      CostBounds(nights[1..]);
    }
  }

  /**
   * For n nights, 4600·n <= cost <= 8300·n, and a stay whose end is not
   * after its start costs nothing.
   */
  lemma StayCostBounds(start: Date, end: Date)
    requires Valid(start) && Valid(end)
    ensures var n := if DayNumber(start) < DayNumber(end) then DayNumber(end) - DayNumber(start) else 0;
            OffPeakNightRate * n <= StayCost(start, end) <= PeakNightRate * n
    ensures DayNumber(end) <= DayNumber(start) ==> StayCost(start, end) == 0
  {
    StayNightsFacts(start, end);
    CostBounds(StayNights(start, end));
  }
}
