/** Full dates (section 5.6 of RFC 3339) as calendar/validation.go accepts them, and the calendar
    behind them: comparing the strings is comparing the days. */
module Dates {
  import opened Wrappers
  import opened Text

  datatype Date = Date(year: nat, month: nat, day: nat)

  predicate Leap(y: nat) { y % 4 == 0 && (y % 100 != 0 || y % 400 == 0) }

  function DaysIn(y: nat, m: nat): nat {
    if m == 2 then (if Leap(y) then 29 else 28)
    else if m == 4 || m == 6 || m == 9 || m == 11 then 30 else 31
  }

  predicate ValidDate(d: Date) {
    d.year <= 9999 && 1 <= d.month <= 12 && 1 <= d.day <= DaysIn(d.year, d.month)
  }

  // ----- The text

  predicate Digit(c: char) { '0' <= c <= '9' }

  predicate Digits(s: string) { forall i :: 0 <= i < |s| ==> Digit(s[i]) }

  function Value(c: char): nat
    requires Digit(c)
  {
    c as int - '0' as int
  }

  function Two(s: string): (n: nat)
    requires |s| == 2 && Digits(s)
    ensures n < 100
  {
    10 * Value(s[0]) + Value(s[1])
  }

  function Four(s: string): nat
    requires |s| == 4 && Digits(s)
  {
    100 * Two(s[..2]) + Two(s[2..])
  }

  // time.Parse with the layout 2006-01-02
  function ParseDate(s: string): (r: Option<Date>)
    ensures r.Some? ==> ValidDate(r.value)
  {
    if |s| == 10 && s[4] == '-' == s[7] && Digits(s[..4]) && Digits(s[5..7]) && Digits(s[8..]) then
      var d := Date(Four(s[..4]), Two(s[5..7]), Two(s[8..]));
      if ValidDate(d) then Some(d) else None
    else None
  }

  function Char(n: nat): (c: char)
    requires n < 10
    ensures Digit(c) && Value(c) == n
  {
    ('0' as int + n) as char
  }

  function Pad2(n: nat): (s: string)
    requires n < 100
    ensures |s| == 2 && Digits(s) && Two(s) == n
  {
    [Char(n / 10), Char(n % 10)]
  }

  function Pad4(n: nat): (s: string)
    requires n < 10000
    ensures |s| == 4 && Digits(s) && Four(s) == n
  {
    var s := Pad2(n / 100) + Pad2(n % 100);
    assert s[..2] == Pad2(n / 100) && s[2..] == Pad2(n % 100);
    s
  }

  function FormatDate(d: Date): string
    requires ValidDate(d)
  {
    Pad4(d.year) + "-" + Pad2(d.month) + "-" + Pad2(d.day)
  }

  // The accepted texts are exactly the printed dates, so the code's second check, that printing
  // the parsed date gives the text back, can never fail.
  lemma PrintedDateParses(d: Date)
    requires ValidDate(d)
    ensures ParseDate(FormatDate(d)) == Some(d)
  {
    var s := FormatDate(d);
    assert s[..4] == Pad4(d.year) && s[5..7] == Pad2(d.month) && s[8..] == Pad2(d.day);
  }

  lemma ParsedDatePrints(s: string)
    requires ParseDate(s).Some?
    ensures FormatDate(ParseDate(s).value) == s
  {
    hide Pad2, Pad4, Two, Four, DaysIn;
    PadTwo(s[5..7]);
    PadTwo(s[8..]);
    PadFour(s[..4]);
    assert s == s[..4] + "-" + s[5..7] + "-" + s[8..];
  }

  lemma PadFour(s: string)
    requires |s| == 4 && Digits(s)
    ensures Pad4(Four(s)) == s
  {
    PadTwo(s[..2]);
    PadTwo(s[2..]);
    assert Four(s) / 100 == Two(s[..2]) && Four(s) % 100 == Two(s[2..]);
    assert s == s[..2] + s[2..];
  }

  lemma PadTwo(s: string)
    requires |s| == 2 && Digits(s)
    ensures Pad2(Two(s)) == s
  {}

  // ----- Order

  predicate Before(a: Date, b: Date) {
    a.year < b.year
    || (a.year == b.year && (a.month < b.month || (a.month == b.month && a.day < b.day)))
  }

  lemma {:induction false} LessConcat(a: string, x: string, b: string, y: string)
    requires |a| == |b|
    ensures Less(a + x, b + y) <==> Less(a, b) || (a == b && Less(x, y))
  {
    if a == "" {
      assert a + x == x && b + y == y;
    } else {
      assert (a + x)[1..] == a[1..] + x && (b + y)[1..] == b[1..] + y;
      LessConcat(a[1..], x, b[1..], y);
      assert a == [a[0]] + a[1..] && b == [b[0]] + b[1..];
    }
  }

  lemma {:induction false} LessTwo(a: string, b: string)
    requires |a| == 2 == |b| && Digits(a) && Digits(b)
    ensures Less(a, b) <==> Two(a) < Two(b)
    ensures a == b <==> Two(a) == Two(b)
  {
    assert a == [a[0]] + [a[1]] && b == [b[0]] + [b[1]];
    LessConcat([a[0]], [a[1]], [b[0]], [b[1]]);
  }

  lemma {:induction false} LessFour(a: string, b: string)
    requires |a| == 4 == |b| && Digits(a) && Digits(b)
    ensures Less(a, b) <==> Four(a) < Four(b)
    ensures a == b <==> Four(a) == Four(b)
  {
    assert a == a[..2] + a[2..] && b == b[..2] + b[2..];
    LessConcat(a[..2], a[2..], b[..2], b[2..]);
    LessTwo(a[..2], b[..2]);
    LessTwo(a[2..], b[2..]);
  }

  // Go's string comparison of two accepted texts compares the dates.
  lemma {:induction false} TextOrder(s: string, t: string)
    requires ParseDate(s).Some? && ParseDate(t).Some?
    ensures Less(s, t) <==> Before(ParseDate(s).value, ParseDate(t).value)
  {
    var sy, sm, sd := s[..4], s[5..7], s[8..];
    var ty, tm, td := t[..4], t[5..7], t[8..];
    assert s == sy + ("-" + (sm + ("-" + sd))) && t == ty + ("-" + (tm + ("-" + td)));
    LessConcat(sy, "-" + (sm + ("-" + sd)), ty, "-" + (tm + ("-" + td)));
    LessConcat("-", sm + ("-" + sd), "-", tm + ("-" + td));
    LessConcat(sm, "-" + sd, tm, "-" + td);
    LessConcat("-", sd, "-", td);
    LessFour(sy, ty);
    LessTwo(sm, tm);
    LessTwo(sd, td);
    LessTotal("-", "-");
  }

  // ----- Days

  function DaysBeforeYear(y: nat): nat {
    if y == 0 then 0 else DaysBeforeYear(y - 1) + if Leap(y - 1) then 366 else 365
  }

  // 365 days a year, and one for each leap year of the Gregorian calendar before it, year 0 included.
  lemma {:induction false} YearsInDays(y: nat)
    ensures DaysBeforeYear(y) == 365 * y + (y + 3) / 4 - (y + 99) / 100 + (y + 399) / 400
  {
    if y > 0 {
      var n := y - 1;
      YearsInDays(n);
      hide Leap, One;
      assert (y + 3) / 4 == (n + 3) / 4 + One(n % 4 == 0) by { NextMultiple(n, 4); }
      assert (y + 99) / 100 == (n + 99) / 100 + One(n % 100 == 0) by { NextMultiple(n, 100); }
      assert (y + 399) / 400 == (n + 399) / 400 + One(n % 400 == 0) by { NextMultiple(n, 400); }
      assert DaysBeforeYear(y) == DaysBeforeYear(n) + 365 + One(Leap(n)) by { YearGrows(n); }
      LeapIsCounted(n);
    }
  }

  lemma {:induction false} YearGrows(y: nat)
    ensures DaysBeforeYear(y + 1) == DaysBeforeYear(y) + 365 + One(Leap(y))
  {}

  // Counting in steps of k: the count grows after each multiple of k.
  lemma NextMultiple(n: nat, k: nat)
    requires k > 0
    ensures (n + k) / k == (n + k - 1) / k + One(n % k == 0)
  {
    var q, r := n / k, n % k;
    assert n == k * q + r;
    Quotient(n + k, k, q + 1, r);
    if r == 0 { Quotient(n + k - 1, k, q, k - 1); } else { Quotient(n + k - 1, k, q + 1, r - 1); }
  }

  lemma Quotient(x: nat, k: nat, q: nat, r: nat)
    requires x == k * q + r && r < k
    ensures x / k == q
  {
    var p := x / k;
    assert x == k * p + x % k;
    if p < q { ProductGrows(p + 1, q, k); } else if p > q { ProductGrows(q + 1, p, k); }
  }

  function One(b: bool): nat { if b then 1 else 0 }

  lemma LeapIsCounted(y: nat)
    ensures One(Leap(y)) == One(y % 4 == 0) - One(y % 100 == 0) + One(y % 400 == 0)
  {
    if y % 400 == 0 { DividesToo(y, 4, 100); }
    if y % 100 == 0 { DividesToo(y, 25, 4); }
  }

  lemma DividesToo(y: nat, a: nat, b: nat)
    requires a > 0 && b > 0 && y % (a * b) == 0
    ensures y % b == 0
  {
    var q := y / (a * b);
    assert y == b * (a * q);
    Quotient(y, b, a * q, 0);
  }

  function DaysBeforeMonth(y: nat, m: nat): nat
    requires m >= 1
  {
    if m == 1 then 0 else DaysBeforeMonth(y, m - 1) + DaysIn(y, m - 1)
  }

  // Days since 0000-01-01.
  function DayNumber(d: Date): nat
    requires ValidDate(d)
  {
    DaysBeforeYear(d.year) + DaysBeforeMonth(d.year, d.month) + d.day - 1
  }

  lemma {:induction false} YearLength(y: nat)
    ensures DaysBeforeMonth(y, 12) + 31 == if Leap(y) then 366 else 365
  {
    var february := DaysIn(y, 2);
    assert DaysBeforeMonth(y, 1) == 0 && DaysBeforeMonth(y, 2) == 31;
    assert DaysBeforeMonth(y, 3) == 31 + february;
    assert DaysBeforeMonth(y, 4) == 62 + february;
    assert DaysBeforeMonth(y, 5) == 92 + february;
    assert DaysBeforeMonth(y, 6) == 123 + february;
    assert DaysBeforeMonth(y, 7) == 153 + february;
    assert DaysBeforeMonth(y, 8) == 184 + february;
    assert DaysBeforeMonth(y, 9) == 215 + february;
    assert DaysBeforeMonth(y, 10) == 245 + february;
    assert DaysBeforeMonth(y, 11) == 276 + february;
  }

  lemma {:induction false} MonthsFit(y: nat, m: nat, n: nat)
    requires 1 <= m <= n <= 12
    ensures m < n ==> DaysBeforeMonth(y, m) + DaysIn(y, m) <= DaysBeforeMonth(y, n)
    decreases n
  {
    if m < n { MonthsFit(y, m, n - 1); }
  }

  lemma {:induction false} YearsFit(x: nat, y: nat)
    requires x < y
    ensures DaysBeforeYear(x) + (if Leap(x) then 366 else 365) <= DaysBeforeYear(y)
  {
    if x < y - 1 { YearsFit(x, y - 1); }
  }

  lemma WithinYear(d: Date)
    requires ValidDate(d)
    ensures DaysBeforeMonth(d.year, d.month) + d.day <= if Leap(d.year) then 366 else 365
  {
    YearLength(d.year);
    MonthsFit(d.year, d.month, 12);
  }

  lemma BeforeIsEarlier(a: Date, b: Date)
    requires ValidDate(a) && ValidDate(b) && Before(a, b)
    ensures DayNumber(a) < DayNumber(b)
  {
    if a.year < b.year {
      WithinYear(a);
      YearsFit(a.year, b.year);
    } else if a.month < b.month {
      MonthsFit(a.year, a.month, b.month);
    }
  }

  // String order, date order and day order are one order on accepted texts.
  lemma {:induction false} TextOrderIsDayOrder(s: string, t: string)
    requires ParseDate(s).Some? && ParseDate(t).Some?
    ensures Less(s, t) <==> DayNumber(ParseDate(s).value) < DayNumber(ParseDate(t).value)
    ensures s == t <==> DayNumber(ParseDate(s).value) == DayNumber(ParseDate(t).value)
  {
    var a, b := ParseDate(s).value, ParseDate(t).value;
    TextOrder(s, t);
    if Before(a, b) { BeforeIsEarlier(a, b); }
    if Before(b, a) { BeforeIsEarlier(b, a); }
    if a == b { ParsedDatePrints(s); ParsedDatePrints(t); }
  }

  // The next day on the calendar.
  function Tomorrow(d: Date): Date {
    if d.day < DaysIn(d.year, d.month) then d.(day := d.day + 1)
    else if d.month < 12 then Date(d.year, d.month + 1, 1)
    else Date(d.year + 1, 1, 1)
  }

  // DayNumber counts days: it starts at zero and every step of the calendar adds one.
  lemma DayNumberCountsDays(d: Date)
    requires ValidDate(d) && ValidDate(Tomorrow(d))
    ensures DayNumber(Tomorrow(d)) == DayNumber(d) + 1
    ensures DayNumber(Date(0, 1, 1)) == 0
  {
    YearLength(d.year);
  }
}
