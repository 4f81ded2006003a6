/**
 * The textual forms of dates used across the application: the
 * "YYYY-MM-DD" text built with `${year}-${pad2(month)}-${pad2(day)}`
 * (the full-date of section 5.6 of RFC 3339 for four-digit years; the
 * year is written as getFullYear gives it, unpadded), the `split("-").map(Number)`
 * parser `parseLocal`, and the "DD/MM/YYYY" display forms.
 */
module DateText {
  import opened Wrappers
  import opened Dates

  predicate IsDigit(c: char) { '0' <= c <= '9' }

  predicate AllDigits(s: string) { forall i :: 0 <= i < |s| ==> IsDigit(s[i]) }

  function DigitChar(n: int): (c: char)
    requires 0 <= n < 10
    ensures IsDigit(c)
  {
    (n + '0' as int) as char
  }

  /** Decimal notation of a natural number, without leading zeros (`String(n)`). */
  function NatStr(n: nat): (s: string)
    ensures |s| > 0 && AllDigits(s)
  {
    if n < 10 then [DigitChar(n)] else NatStr(n / 10) + [DigitChar(n % 10)]
  }

  /** `String(i)` for an integer. */
  function IntStr(i: int): string {
    if i < 0 then "-" + NatStr(-i) else NatStr(i)
  }

  /** `padStart(2, "0")`. */
  function Pad2(s: string): (r: string)
    ensures |r| >= 2
  {
    if |s| == 0 then "00" else if |s| == 1 then "0" + s else s
  }

  /** The value of a string of decimal digits (leading zeros allowed). */
  function DigitsValue(s: string): nat
    requires AllDigits(s)
  {
    if |s| == 0 then 0 else DigitsValue(s[..|s| - 1]) * 10 + (s[|s| - 1] as int - '0' as int)
  }

  /**
   * `Number(s)` on the strings the model covers: "" is 0, a plain digit
   * string is its value, anything else is NaN (None).
   */
  function NumberOf(s: string): Option<int> {
    if AllDigits(s) then Some(DigitsValue(s)) else None
  }

  /** `s.split(c)`: the pieces between occurrences of c, always at least one. */
  function Split(s: string, c: char): (parts: seq<string>)
    ensures |parts| >= 1
  {
    if |s| == 0 then [""]
    else
      var rest := Split(s[1..], c);
      if s[0] == c then [""] + rest else [[s[0]] + rest[0]] + rest[1..]
  }

  /** formatDate / toISO / date-fns "yyyy-MM-dd": the YYYY-MM-DD form of a date. */
  function FormatDate(d: Date): string {
    IntStr(d.year) + "-" + Pad2(IntStr(d.month)) + "-" + Pad2(IntStr(d.day))
  }

  /**
   * parseLocal: split on dashes, read each part as a number and build a
   * local date from year, month and day. A missing or non-numeric month or
   * day, and a zero one, fall back to 1; a non-numeric year yields an
   * invalid date (None).
   */
  function ParseLocal(s: string): (r: Option<Date>)
    ensures r.Some? ==> Valid(r.value)
    ensures r.None? <==> NumberOf(Split(s, '-')[0]).None?
  {
    var parts := Split(s, '-');
    var y := NumberOf(parts[0]);
    var m := if |parts| > 1 then NumberOf(parts[1]) else None;
    var d := if |parts| > 2 then NumberOf(parts[2]) else None;
    if y.None? then None
    else
      var month := if m.None? || m.value == 0 then 1 else m.value;
      var day := if d.None? || d.value == 0 then 1 else d.value;
      JsDateFacts(y.value, month - 1, day);
      Some(JsDate(y.value, month - 1, day))
  }

  // ---------------------------------------------------------------------
  // Lemmas: the parser reads back what the formatter writes

  lemma {:induction false} DigitsValueNatStr(n: nat)
    ensures DigitsValue(NatStr(n)) == n
  {
    if n >= 10 {
      var s := NatStr(n);
      assert s[..|s| - 1] == NatStr(n / 10);
      DigitsValueNatStr(n / 10);
    }
  }

  lemma {:induction false} DigitsValueLeadingZero(s: string)
    requires AllDigits(s)
    ensures AllDigits("0" + s) && DigitsValue("0" + s) == DigitsValue(s)
    decreases |s|
  {
    if |s| > 0 {
      var t := "0" + s;
      assert t[..|t| - 1] == "0" + s[..|s| - 1];
      DigitsValueLeadingZero(s[..|s| - 1]);
    }
  }

  lemma DigitsValuePad2(n: nat)
    ensures AllDigits(Pad2(NatStr(n))) && DigitsValue(Pad2(NatStr(n))) == n
  {
    DigitsValueNatStr(n);
    if |NatStr(n)| == 1 {
      DigitsValueLeadingZero(NatStr(n));
    }
  }

  lemma {:induction false} SplitNoSeparator(a: string, c: char)
    requires forall i :: 0 <= i < |a| ==> a[i] != c
    ensures Split(a, c) == [a]
  {
    if |a| > 0 {
      SplitNoSeparator(a[1..], c);
      assert [a[0]] + a[1..] == a;
    }
  }

  lemma {:induction false} SplitAt(a: string, c: char, b: string)
    requires forall i :: 0 <= i < |a| ==> a[i] != c
    ensures Split(a + [c] + b, c) == [a] + Split(b, c)
  {
    if |a| > 0 {
      var s := a + [c] + b;
      assert s[0] == a[0];
      assert s[1..] == a[1..] + [c] + b;
      SplitAt(a[1..], c, b);
      assert [a[0]] + a[1..] == a;
    } else {
      assert (a + [c] + b)[1..] == b;
    }
  }

  lemma NoDashInDigits(s: string)
    requires AllDigits(s)
    ensures forall i :: 0 <= i < |s| ==> s[i] != '-'
  {
  }

  /** Three dash-free pieces joined by dashes split back into those pieces. */
  lemma SplitThree(a: string, b: string, c: string)
    requires forall i :: 0 <= i < |a| ==> a[i] != '-'
    requires forall i :: 0 <= i < |b| ==> b[i] != '-'
    requires forall i :: 0 <= i < |c| ==> c[i] != '-'
    ensures Split(a + "-" + b + "-" + c, '-') == [a, b, c]
  {
    var tail := b + ['-'] + c;
    assert a + "-" + b + "-" + c == a + ['-'] + tail;
    SplitAt(a, '-', tail);
    SplitAt(b, '-', c);
    SplitNoSeparator(c, '-');
  }

  /** The three pieces of a formatted date. */
  lemma SplitFormatDate(d: Date)
    requires d.year >= 0 && d.month >= 0 && d.day >= 0
    ensures Split(FormatDate(d), '-') ==
              [NatStr(d.year), Pad2(NatStr(d.month)), Pad2(NatStr(d.day))]
  {
    var y, m, dd := NatStr(d.year), Pad2(NatStr(d.month)), Pad2(NatStr(d.day));
    assert FormatDate(d) == y + "-" + m + "-" + dd;
    DigitsValuePad2(d.month);
    DigitsValuePad2(d.day);
    NoDashInDigits(y);
    NoDashInDigits(m);
    NoDashInDigits(dd);
    SplitThree(y, m, dd);
  }

  /** toISO(parseLocal(s)) == s for every zero-padded date s = FormatDate(d). */
  lemma ParseFormatRoundTrip(d: Date)
    requires Valid(d) && d.year >= 100
    ensures ParseLocal(FormatDate(d)) == Some(d)
  {
    SplitFormatDate(d);
    DigitsValueNatStr(d.year);
    DigitsValuePad2(d.month);
    DigitsValuePad2(d.day);
    JsDateOfValid(d.year, d.month - 1, d.day);
  }

  /** Distinct dates have distinct YYYY-MM-DD forms. */
  lemma FormatDateInjective(a: Date, b: Date)
    requires Valid(a) && Valid(b) && a.year >= 100 && b.year >= 100
    requires FormatDate(a) == FormatDate(b)
    ensures a == b
  {
    ParseFormatRoundTrip(a);
    ParseFormatRoundTrip(b);
  }

  /** The prefix `${year}-${pad2(month)}-` shared by the dates of one month. */
  function MonthPrefix(year: int, month: int): string {
    IntStr(year) + "-" + Pad2(IntStr(month)) + "-"
  }

  /** The first two pieces of a string that starts with a month's prefix. */
  lemma SplitMonthPrefix(year: nat, month: nat, rest: string)
    ensures Split(MonthPrefix(year, month) + rest, '-')
            == [NatStr(year), Pad2(NatStr(month))] + Split(rest, '-')
  {
    var a, b := NatStr(year), Pad2(NatStr(month));
    DigitsValuePad2(month);
    NoDashInDigits(a);
    NoDashInDigits(b);
    assert MonthPrefix(year, month) + rest == a + ['-'] + (b + ['-'] + rest);
    SplitAt(a, '-', b + ['-'] + rest);
    SplitAt(b, '-', rest);
  }

  /** A formatted date starts with a month's prefix exactly when it lies in that month. */
  lemma MonthPrefixOfDate(d: Date, year: int, month: int)
    requires d.year >= 0 && d.month >= 0 && d.day >= 0
    requires year >= 0 && month >= 0
    ensures MonthPrefix(year, month) <= FormatDate(d) <==> d.year == year && d.month == month
  {
    var p := MonthPrefix(year, month);
    var s := FormatDate(d);
    if d.year == year && d.month == month {
      assert s == p + Pad2(IntStr(d.day));
    }
    if p <= s {
      var rest := s[|p|..];
      assert s == p + rest;
      SplitMonthPrefix(year, month, rest);
      SplitFormatDate(d);
      assert Split(s, '-')[0] == NatStr(year) && Split(s, '-')[1] == Pad2(NatStr(month));
      DigitsValueNatStr(d.year);
      DigitsValueNatStr(year);
      DigitsValuePad2(d.month);
      DigitsValuePad2(month);
    }
  }
}
