/**
 * The boma extra (src/components/BomaBooking.tsx): the nights of the stay on
 * which the boma can be booked, the toggling of selected YYYY-MM-DD dates
 * with JavaScript's default string sort, its price, and the guard that
 * keeps blocked dates from being toggled.
 */
module Boma {
  import opened Wrappers
  import opened Dates
  import opened Pricing

  const BomaNightRate := 350

  /** availableDates: the nights from check-in (included) to check-out (excluded), the loop of the component. */
  method AvailableDates(checkIn: Date, checkOut: Date) returns (dates: seq<Date>)
    requires Valid(checkIn) && Valid(checkOut)
    ensures dates == StayNights(checkIn, checkOut)
  {
    dates := [];
    var current := checkIn;
    while DayNumber(current) < DayNumber(checkOut)
      invariant Valid(current)
      invariant dates + StayNights(current, checkOut) == StayNights(checkIn, checkOut)
      decreases DayNumber(checkOut) - DayNumber(current)
    {
      NextDayFacts(current);
      assert StayNights(current, checkOut) == [current] + StayNights(NextDay(current), checkOut);
      dates := dates + [current];
      current := NextDay(current);
    }
  }

  // ---------------------------------------------------------------------
  // String order of `Array.prototype.sort()`

  /** a sorts no later than b: character-by-character comparison, a prefix first. */
  predicate LexLe(a: string, b: string) {
    if |a| == 0 then true
    else if |b| == 0 then false
    else if a[0] != b[0] then a[0] < b[0]
    else LexLe(a[1..], b[1..])
  }

  predicate Sorted(s: seq<string>) {
    forall i, j :: 0 <= i < j < |s| ==> LexLe(s[i], s[j])
  }

  /** No date occurs twice. */
  ghost predicate NoDuplicates(s: seq<string>) {
    forall y :: multiset(s)[y] <= 1
  }

  lemma {:induction false} LexReflexive(a: string)
    ensures LexLe(a, a)
  {
    if |a| > 0 {
      LexReflexive(a[1..]);
    }
  }

  lemma {:induction false} LexTotal(a: string, b: string)
    ensures LexLe(a, b) || LexLe(b, a)
  {
    if |a| > 0 && |b| > 0 && a[0] == b[0] {
      LexTotal(a[1..], b[1..]);
    }
  }

  lemma {:induction false} LexAntisymmetric(a: string, b: string)
    requires LexLe(a, b) && LexLe(b, a)
    ensures a == b
  {
    if |a| > 0 && |b| > 0 {
      LexAntisymmetric(a[1..], b[1..]);
      assert a == [a[0]] + a[1..];
      assert b == [b[0]] + b[1..];
    }
  }

  lemma {:induction false} LexTransitive(a: string, b: string, c: string)
    requires LexLe(a, b) && LexLe(b, c)
    ensures LexLe(a, c)
  {
    if |a| > 0 && |b| > 0 && |c| > 0 && a[0] == b[0] && b[0] == c[0] {
      LexTransitive(a[1..], b[1..], c[1..]);
    }
  }

  // ---------------------------------------------------------------------
  // Sorting and filtering

  /** Insert x into a list before the first element it does not sort after. */
  function Insert(x: string, s: seq<string>): (r: seq<string>)
    ensures multiset(r) == multiset(s) + multiset{x}
  {
    if |s| == 0 then [x]
    else if LexLe(x, s[0]) then [x] + s
    else
      assert s == [s[0]] + s[1..];
      [s[0]] + Insert(x, s[1..])
  }

  /** Inserting into a sorted list keeps it sorted. */
  lemma {:induction false} InsertSorted(x: string, s: seq<string>)
    requires Sorted(s)
    ensures Sorted(Insert(x, s))
  {
    if |s| > 0 {
      var r := Insert(x, s);
      if LexLe(x, s[0]) {
        forall j | 0 < j < |r| ensures LexLe(r[0], r[j]) {
          if j > 1 {
            LexTransitive(x, s[0], s[j - 1]);
          }
        }
      } else {
        var rest := Insert(x, s[1..]);
        SortedTail(s);
        InsertSorted(x, s[1..]);
        LexTotal(x, s[0]);
        assert r == [s[0]] + rest;
        forall j | 0 < j < |r| ensures LexLe(r[0], r[j]) {
          assert r[j] in multiset(rest);
          if r[j] != x {
            assert r[j] in s[1..];
            SortedHeadLeast(s, r[j]);
          }
        }
      }
    }
  }

  /** `.sort()`: an insertion sort into string order. */
  function Sort(s: seq<string>): (r: seq<string>)
    ensures multiset(r) == multiset(s)
    ensures Sorted(r)
  {
    if |s| == 0 then []
    else
      assert s == [s[0]] + s[1..];
      InsertSorted(s[0], Sort(s[1..]));
      Insert(s[0], Sort(s[1..]))
  }

  /** `.filter((d) => d !== x)`: every occurrence of x removed, the rest in order. */
  function Remove(s: seq<string>, x: string): (r: seq<string>)
    ensures multiset(r) == multiset(s)[x := 0]
  {
    if |s| == 0 then []
    else
      assert s == [s[0]] + s[1..];
      (if s[0] == x then [] else [s[0]]) + Remove(s[1..], x)
  }

  /** Removing a date keeps a sorted list sorted. */
  lemma {:induction false} RemoveSorted(s: seq<string>, x: string)
    requires Sorted(s)
    ensures Sorted(Remove(s, x))
  {
    if |s| > 0 {
      var rest := Remove(s[1..], x);
      RemoveSorted(s[1..], x);
      if s[0] != x {
        var r := [s[0]] + rest;
        assert Remove(s, x) == r;
        forall j | 0 < j < |r| ensures LexLe(r[0], r[j]) {
          assert r[j] in multiset(rest);
          var k :| 0 <= k < |s[1..]| && s[1..][k] == r[j];
          assert s[k + 1] == r[j];
        }
      }
    }
  }

  /** toggleDate: remove the date when it is selected, else add it and sort. */
  function Toggle(selected: seq<string>, x: string): seq<string> {
    if x in selected then Remove(selected, x) else Sort(selected + [x])
  }

  /** The boma price: 350 per selected date. */
  function BomaCost(selected: seq<string>): (cost: int)
    ensures cost >= 0 && cost % BomaNightRate == 0
    ensures cost == 0 <==> selected == []
  {
    |selected| * BomaNightRate
  }

  /** A selection without duplicates holds as many distinct dates as entries. */
  lemma {:induction false} DistinctDates(s: seq<string>)
    requires NoDuplicates(s)
    ensures |set x | x in s| == |s|
  {
    if s != [] {
      var t := s[1..];
      assert s == [s[0]] + t;
      assert multiset(s) == multiset{s[0]} + multiset(t);
      assert NoDuplicates(t) by {
        forall y ensures multiset(t)[y] <= 1 {
          assert multiset(s)[y] <= 1;
        }
      }
      assert multiset(s)[s[0]] <= 1;
      assert s[0] !in t;
      DistinctDates(t);
      assert (set x | x in s) == (set x | x in t) + {s[0]};
    }
  }

  /** For a duplicate-free selection, the boma price is 350 per distinct selected date. */
  lemma BomaCostPerDate(selected: seq<string>)
    requires NoDuplicates(selected)
    ensures BomaCost(selected) == BomaNightRate * |set x | x in selected|
  {
    DistinctDates(selected);
  }

  /** `availability?.[dateStr]?.bomaBlocked`: true only when the record says so. */
  predicate IsBomaBlocked(availability: map<string, Option<bool>>, date: string) {
    date in availability && availability[date] == Some(true)
  }

  /** A click on a date: ignored when the date is blocked, else a toggle. */
  function OnDateClick(selected: seq<string>, availability: map<string, Option<bool>>, date: string): seq<string> {
    if IsBomaBlocked(availability, date) then selected else Toggle(selected, date)
  }

  // ---------------------------------------------------------------------
  // Lemmas

  /** The head of a sorted list sorts no later than any of its elements. */
  lemma SortedHeadLeast(a: seq<string>, y: string)
    requires Sorted(a) && y in a
    ensures LexLe(a[0], y)
  {
    var i :| 0 <= i < |a| && a[i] == y;
    if i == 0 {
      LexReflexive(y);
    }
  }

  lemma SortedTail(a: seq<string>)
    requires Sorted(a) && |a| > 0
    ensures Sorted(a[1..])
  {
    forall i, j | 0 <= i < j < |a| - 1 ensures LexLe(a[1..][i], a[1..][j]) {
      assert a[1..][i] == a[i + 1] && a[1..][j] == a[j + 1];
    }
  }

  lemma MultisetCancel(x: string, p: multiset<string>, q: multiset<string>)
    requires multiset{x} + p == multiset{x} + q
    ensures p == q
  {
    forall y ensures p[y] == q[y] {
      assert (multiset{x} + p)[y] == (multiset{x} + q)[y];
    }
  }

  /** Two sorted lists with the same elements are the same list, so the sort's result is determined. */
  lemma {:induction false} SortedUnique(a: seq<string>, b: seq<string>)
    requires Sorted(a) && Sorted(b) && multiset(a) == multiset(b)
    ensures a == b
    decreases |a|
  {
    if |a| == 0 {
      assert |b| == |multiset(b)|;
    } else {
      assert a[0] in multiset(b);
      assert b[0] in multiset(a);
      SortedHeadLeast(b, a[0]);
      SortedHeadLeast(a, b[0]);
      LexAntisymmetric(a[0], b[0]);
      assert a == [a[0]] + a[1..];
      assert b == [b[0]] + b[1..];
      MultisetCancel(a[0], multiset(a[1..]), multiset(b[1..]));
      SortedTail(a);
      SortedTail(b);
      SortedUnique(a[1..], b[1..]);
    }
  }

  /** A toggle flips the membership of x and of nothing else. */
  lemma ToggleMembership(selected: seq<string>, x: string, y: string)
    ensures x in Toggle(selected, x) <==> x !in selected
    ensures y != x ==> (y in Toggle(selected, x) <==> y in selected)
  {
    var r := Toggle(selected, x);
    assert x in multiset(r) <==> x !in selected;
    assert y != x ==> (y in multiset(r) <==> y in multiset(selected));
  }

  /** Adding a date yields a sorted list; removing one keeps a sorted list sorted. */
  lemma ToggleSorted(selected: seq<string>, x: string)
    ensures x !in selected ==> Sorted(Toggle(selected, x))
    ensures Sorted(selected) ==> Sorted(Toggle(selected, x))
  {
    if x in selected && Sorted(selected) {
      RemoveSorted(selected, x);
    }
  }

  /** Removing a date keeps the other dates in their order: removal distributes over concatenation. */
  lemma {:induction false} RemoveAppend(s: seq<string>, t: seq<string>, x: string)
    ensures Remove(s + t, x) == Remove(s, x) + Remove(t, x)
  {
    if |s| > 0 {
      assert (s + t)[1..] == s[1..] + t;
      RemoveAppend(s[1..], t, x);
    } else {
      assert s + t == t;
    }
  }

  /** A toggle never introduces a duplicate: a date is only added when it is absent. */
  lemma ToggleNoDuplicates(selected: seq<string>, x: string)
    requires NoDuplicates(selected)
    ensures NoDuplicates(Toggle(selected, x))
  {
    var r := Toggle(selected, x);
    if x !in selected {
      assert multiset(selected)[x] == 0;
      assert multiset(r) == multiset(selected) + multiset{x};
    }
  }

  /** Removing a selected date and adding it again restores the list. */
  lemma RemoveThenAdd(selected: seq<string>, x: string)
    requires Sorted(selected) && NoDuplicates(selected) && x in selected
    ensures Toggle(Toggle(selected, x), x) == selected
  {
    var once := Remove(selected, x);
    assert x !in multiset(once);
    var twice := Sort(once + [x]);
    assert multiset(selected)[x] == 1 by {
      assert x in multiset(selected);
    }
    assert multiset(twice) == multiset(once) + multiset{x};
    assert multiset(twice) == multiset(selected);
    SortedUnique(twice, selected);
  }

  /** Adding an unselected date and removing it again restores the list. */
  lemma AddThenRemove(selected: seq<string>, x: string)
    requires Sorted(selected) && x !in selected
    ensures Toggle(Toggle(selected, x), x) == selected
  {
    var once := Sort(selected + [x]);
    assert x in multiset(once);
    var twice := Remove(once, x);
    assert multiset(selected)[x] == 0;
    assert multiset(once) == multiset(selected) + multiset{x};
    assert multiset(twice) == multiset(selected);
    RemoveSorted(once, x);
    SortedUnique(twice, selected);
  }

  /** Toggling the same date twice restores a sorted list without duplicates. */
  lemma ToggleTwice(selected: seq<string>, x: string)
    requires Sorted(selected) && NoDuplicates(selected)
    ensures Toggle(Toggle(selected, x), x) == selected
  {
    if x in selected {
      RemoveThenAdd(selected, x);
    } else {
      AddThenRemove(selected, x);
    }
  }

  /** Toggling a date of a duplicate-free selection changes the price by one boma night. */
  lemma ToggleCost(selected: seq<string>, x: string)
    requires NoDuplicates(selected)
    ensures BomaCost(Toggle(selected, x)) == BomaCost(selected) + (if x in selected then -BomaNightRate else BomaNightRate)
  {
    var r := Toggle(selected, x);
    if x in selected {
      assert multiset(selected) == multiset(r) + multiset{x} by {
        assert x in multiset(selected);
        assert multiset(selected)[x] == 1;
      }
      assert |multiset(selected)| == |multiset(r)| + 1;
    } else {
      assert |multiset(r)| == |multiset(selected)| + 1;
    }
  }

  /** A blocked date cannot be toggled; an unblocked one toggles. */
  lemma BlockedDateUnchanged(selected: seq<string>, availability: map<string, Option<bool>>, date: string)
    ensures IsBomaBlocked(availability, date) ==> OnDateClick(selected, availability, date) == selected
    ensures !IsBomaBlocked(availability, date) ==> OnDateClick(selected, availability, date) == Toggle(selected, date)
  {
  }
}
