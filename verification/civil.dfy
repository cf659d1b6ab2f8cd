/** Proleptic-Gregorian civil dates and the rollover arithmetic that
    JavaScript's `Date` performs in `setDate` and `setMonth`: an out-of-range
    day-of-month or month is not an error but spills into the neighbouring
    month or year. Day numbers count days from 0001-01-01. */
module Civil {
  import opened Decimal
  import opened Arith

  /** A calendar date; `month` is 1-based (JavaScript's `getMonth() + 1`). */
  datatype Date = Date(year: int, month: int, day: int)

  /** A civil wall-clock date and time, to the minute. */
  datatype DateTime = DateTime(date: Date, hour: int, minute: int)

  predicate IsLeapYear(y: int) {
    y % 4 == 0 && (y % 100 != 0 || y % 400 == 0)
  }

  function YearLength(y: int): int {
    if IsLeapYear(y) then 366 else 365
  }

  function DaysInMonth(y: int, m: int): (n: int)
    requires 1 <= m <= 12
    ensures 28 <= n <= 31
  {
    if m == 2 then (if IsLeapYear(y) then 29 else 28)
    else if m == 4 || m == 6 || m == 9 || m == 11 then 30
    else 31
  }

  predicate ValidDate(d: Date) {
    1 <= d.month <= 12 && 1 <= d.day <= DaysInMonth(d.year, d.month)
  }

  predicate ValidDateTime(t: DateTime) {
    ValidDate(t.date) && 0 <= t.hour < 24 && 0 <= t.minute < 60
  }

  /** Days from 0001-01-01 to January 1st of year y. */
  function DaysBeforeYear(y: int): int {
    var z := y - 1;
    365 * z + z / 4 - z / 100 + z / 400
  }

  /** Days from January 1st to the first of month m in year y. */
  function DaysBeforeMonth(y: int, m: int): int
    requires 1 <= m <= 12
  {
    var common :=
      if m == 1 then 0 else if m == 2 then 31 else if m == 3 then 59
      else if m == 4 then 90 else if m == 5 then 120 else if m == 6 then 151
      else if m == 7 then 181 else if m == 8 then 212 else if m == 9 then 243
      else if m == 10 then 273 else if m == 11 then 304 else 334;
    common + if m > 2 && IsLeapYear(y) then 1 else 0
  }

  /** The day number of day-of-month k of month m in year y, where k may lie
      outside the month: the arithmetic of MakeDay in ECMAScript. */
  function RawDayNumber(y: int, m: int, k: int): int
    requires 1 <= m <= 12
  {
    DaysBeforeYear(y) + DaysBeforeMonth(y, m) + k - 1
  }

  function DayNumber(d: Date): int
    requires 1 <= d.month <= 12
  {
    RawDayNumber(d.year, d.month, d.day)
  }

  /** `getDay()`: 0 is Sunday. 0001-01-01 (day number 0) was a Monday. */
  function Weekday(d: Date): (w: int)
    requires 1 <= d.month <= 12
    ensures 0 <= w < 7
  {
    (DayNumber(d) + 1) % 7
  }

  function NextMonth(y: int, m: int): (r: (int, int))
    requires 1 <= m <= 12
    ensures 1 <= r.1 <= 12
  {
    if m == 12 then (y + 1, 1) else (y, m + 1)
  }

  function PrevMonth(y: int, m: int): (r: (int, int))
    requires 1 <= m <= 12
    ensures 1 <= r.1 <= 12
  {
    if m == 1 then (y - 1, 12) else (y, m - 1)
  }

  /** Rolls an out-of-range day-of-month k into the neighbouring months
      until it names a real date, the way `new Date(y, m - 1, k)` does. */
  function Normalize(y: int, m: int, k: int): (r: Date)
    requires 1 <= m <= 12
    ensures ValidDate(r)
    ensures 1 <= k <= DaysInMonth(y, m) ==> r == Date(y, m, k)
    decreases if k < 1 then 1 else 0, if k < 1 then -k else k
  {
    if k < 1 then
      var p := PrevMonth(y, m);
      Normalize(p.0, p.1, k + DaysInMonth(p.0, p.1))
    else if k > DaysInMonth(y, m) then
      var n := NextMonth(y, m);
      Normalize(n.0, n.1, k - DaysInMonth(y, m))
    else
      Date(y, m, k)
  }

  /** `d.setDate(d.getDate() + n)`. */
  function AddDays(d: Date, n: int): (r: Date)
    requires 1 <= d.month <= 12
    ensures ValidDate(r)
  {
    Normalize(d.year, d.month, d.day + n)
  }

  /** `d.setMonth(d.getMonth() + n)`: the month index carries into the year
      and the day-of-month is kept, rolling over when the month is short. */
  function AddMonths(d: Date, n: int): (r: Date)
    requires 1 <= d.month <= 12
    ensures ValidDate(r)
  {
    var index := d.month - 1 + n;
    Normalize(d.year + index / 12, index % 12 + 1, d.day)
  }

  // ---------------------------------------------------------------------
  // Day-number arithmetic

  /** Between y - 1 and y, the floor quotient by k grows by one exactly
      when k divides y. */
  lemma QuotientStep(y: int, k: int)
    requires k > 0
    ensures y / k - (y - 1) / k == if y % k == 0 then 1 else 0
  {
    var q, r := (y - 1) / k, (y - 1) % k;
    if r + 1 < k {
      DivModUnique(y, k, q, r + 1);
    } else {
      DivModUnique(y, k, q + 1, 0);
    }
  }

  lemma YearStep(y: int)
    ensures DaysBeforeYear(y + 1) == DaysBeforeYear(y) + YearLength(y)
  {
    QuotientStep(y, 4);
    QuotientStep(y, 100);
    QuotientStep(y, 400);
    if y % 400 == 0 {
      DivModUnique(y, 100, (y / 400) * 4, 0);
      DivModUnique(y, 4, (y / 400) * 100, 0);
    } else if y % 100 == 0 {
      DivModUnique(y, 4, (y / 100) * 25, 0);
    }
  }

  lemma MonthStep(y: int, m: int)
    requires 1 <= m <= 12
    ensures m < 12 ==> DaysBeforeMonth(y, m + 1) == DaysBeforeMonth(y, m) + DaysInMonth(y, m)
    ensures m == 12 ==> DaysBeforeMonth(y, m) + DaysInMonth(y, m) == YearLength(y)
  {
  }

  /** The first day of the following month is one day after the last day of
      this one. */
  lemma NextMonthStart(y: int, m: int)
    requires 1 <= m <= 12
    ensures var n := NextMonth(y, m);
      RawDayNumber(n.0, n.1, 1) == RawDayNumber(y, m, DaysInMonth(y, m) + 1)
  {
    MonthStep(y, m);
    if m == 12 {
      YearStep(y);
    }
  }

  /** Normalizing keeps the day number: the date it returns is the day the
      overflowing day-of-month denotes. */
  lemma {:induction false} NormalizeDayNumber(y: int, m: int, k: int)
    requires 1 <= m <= 12
    ensures DayNumber(Normalize(y, m, k)) == RawDayNumber(y, m, k)
    decreases if k < 1 then 1 else 0, if k < 1 then -k else k
  {
    if k < 1 {
      var p := PrevMonth(y, m);
      NormalizeDayNumber(p.0, p.1, k + DaysInMonth(p.0, p.1));
      NextMonthStart(p.0, p.1);
      assert NextMonth(p.0, p.1) == (y, m);
      assert Normalize(y, m, k) == Normalize(p.0, p.1, k + DaysInMonth(p.0, p.1));
    } else if k > DaysInMonth(y, m) {
      var n := NextMonth(y, m);
      NormalizeDayNumber(n.0, n.1, k - DaysInMonth(y, m));
      NextMonthStart(y, m);
      assert Normalize(y, m, k) == Normalize(n.0, n.1, k - DaysInMonth(y, m));
    }
  }

  lemma {:induction false} DaysBeforeYearIncreasing(a: int, b: int)
    requires a < b
    ensures DaysBeforeYear(a) + 365 * (b - a) <= DaysBeforeYear(b)
    decreases b - a
  {
    YearStep(b - 1);
    if a < b - 1 {
      DaysBeforeYearIncreasing(a, b - 1);
    }
  }

  lemma DateWithinYear(d: Date)
    requires ValidDate(d)
    ensures DaysBeforeYear(d.year) <= DayNumber(d) < DaysBeforeYear(d.year) + YearLength(d.year)
  {
    MonthStep(d.year, d.month);
    if d.month < 12 {
      MonthStep(d.year, 12);
      assert DaysBeforeMonth(d.year, d.month + 1) <= DaysBeforeMonth(d.year, 12);
    }
  }

  /** Lexicographic order on dates. */
  predicate DateBefore(a: Date, b: Date) {
    a.year < b.year ||
    (a.year == b.year && (a.month < b.month || (a.month == b.month && a.day < b.day)))
  }

  /** Day numbers order valid dates as the calendar does. */
  lemma DayNumberMonotone(a: Date, b: Date)
    requires ValidDate(a) && ValidDate(b) && DateBefore(a, b)
    ensures DayNumber(a) < DayNumber(b)
  {
    DateWithinYear(a);
    DateWithinYear(b);
    if a.year < b.year {
      YearStep(a.year);
      if a.year + 1 < b.year {
        DaysBeforeYearIncreasing(a.year + 1, b.year);
      }
    } else if a.month < b.month {
      MonthStep(a.year, a.month);
      assert DaysBeforeMonth(a.year, a.month + 1) <= DaysBeforeMonth(a.year, b.month);
    }
  }

  /** Two valid dates with the same day number are the same date. */
  lemma DayNumberInjective(a: Date, b: Date)
    requires ValidDate(a) && ValidDate(b) && DayNumber(a) == DayNumber(b)
    ensures a == b
  {
    if DateBefore(a, b) {
      DayNumberMonotone(a, b);
    } else if DateBefore(b, a) {
      DayNumberMonotone(b, a);
    }
  }

  /** Stepping by n days moves the day number by exactly n. */
  lemma AddDaysDayNumber(d: Date, n: int)
    requires ValidDate(d)
    ensures DayNumber(AddDays(d, n)) == DayNumber(d) + n
  {
    NormalizeDayNumber(d.year, d.month, d.day + n);
  }

  /** Stepping by n days and then by k days is stepping by n + k days. */
  lemma AddDaysAdd(d: Date, n: int, k: int)
    requires ValidDate(d)
    ensures AddDays(AddDays(d, n), k) == AddDays(d, n + k)
  {
    var e := AddDays(d, n);
    AddDaysDayNumber(d, n);
    AddDaysDayNumber(e, k);
    AddDaysDayNumber(d, n + k);
    DayNumberInjective(AddDays(e, k), AddDays(d, n + k));
  }

  /** The weekday advances by one per day, cyclically. */
  lemma AddDaysWeekday(d: Date, n: int)
    requires ValidDate(d)
    ensures Weekday(AddDays(d, n)) == (Weekday(d) + n) % 7
  {
    AddDaysDayNumber(d, n);
    var a := DayNumber(d) + 1;
    var r := (a % 7 + n) % 7;
    DivModUnique(a + n, 7, a / 7 + (a % 7 + n) / 7, r);
  }

  /** `new Date(y, m, d)` for a real date leaves it alone; for a day past
      the end of the month by less than a month's length, it lands in the
      following month. */
  lemma NormalizeOverflow(y: int, m: int, k: int)
    requires 1 <= m <= 12
    requires DaysInMonth(y, m) < k <= DaysInMonth(y, m) + 28
    ensures var n := NextMonth(y, m);
      Normalize(y, m, k) == Date(n.0, n.1, k - DaysInMonth(y, m))
  {
    var n := NextMonth(y, m);
    assert 28 <= DaysInMonth(n.0, n.1);
  }

  /** A day-of-month of zero or less, by less than a month, lands in the
      previous month. */
  lemma NormalizeUnderflow(y: int, m: int, k: int)
    requires 1 <= m <= 12
    requires -28 < k < 1
    ensures var p := PrevMonth(y, m);
      Normalize(y, m, k) == Date(p.0, p.1, k + DaysInMonth(p.0, p.1))
  {
  }

  // ---------------------------------------------------------------------
  // The YYYY-MM-DD key used to match dates

  /** `getDateString`: the year as `String(getFullYear())`, then month and
      day each padded to two digits. */
  function DateString(d: Date): string {
    IntToString(d.year) + MonthDaySuffix(d.month, d.day)
  }

  /** The `-MM-DD` part of a date string. */
  function MonthDaySuffix(month: int, day: int): string {
    "-" + PadStart2(IntToString(month)) + "-" + PadStart2(IntToString(day))
  }

  /** Where the two padded numbers sit in a `-MM-DD` suffix. */
  lemma SuffixLayout(mm: string, dd: string)
    requires |mm| == 2 && |dd| == 2
    ensures var s := "-" + mm + "-" + dd;
      |s| == 6 && s[1] == mm[0] && s[2] == mm[1] && s[4] == dd[0] && s[5] == dd[1]
  {
  }

  /** For a real month and day the suffix is six characters long. */
  lemma MonthDaySuffixLength(m: int, d: int)
    requires 1 <= m <= 12 && 1 <= d <= 31
    ensures |MonthDaySuffix(m, d)| == 6
  {
    TwoDigits(m);
    TwoDigits(d);
  }

  /** For real months and days the suffix determines them. */
  lemma MonthDaySuffixInjective(m1: int, d1: int, m2: int, d2: int)
    requires 1 <= m1 <= 12 && 1 <= d1 <= 31 && 1 <= m2 <= 12 && 1 <= d2 <= 31
    requires MonthDaySuffix(m1, d1) == MonthDaySuffix(m2, d2)
    ensures m1 == m2 && d1 == d2
  {
    var mm1, dd1 := PadStart2(IntToString(m1)), PadStart2(IntToString(d1));
    var mm2, dd2 := PadStart2(IntToString(m2)), PadStart2(IntToString(d2));
    TwoDigits(m1);
    TwoDigits(d1);
    TwoDigits(m2);
    TwoDigits(d2);
    SuffixLayout(mm1, dd1);
    SuffixLayout(mm2, dd2);
  }

  /** Two concatenations with equally long tails are equal only part by
      part. */
  lemma ConcatInjective(a1: string, b1: string, a2: string, b2: string)
    requires |b1| == |b2| && a1 + b1 == a2 + b2
    ensures a1 == a2 && b1 == b2
  {
    assert a1 == (a1 + b1)[..|a1|];
    assert a2 == (a2 + b2)[..|a2|];
    assert b1 == (a1 + b1)[|a1|..];
    assert b2 == (a2 + b2)[|a2|..];
  }

  /** The date string of a valid date determines the date: matching date
      strings is matching dates. */
  lemma DateStringInjective(a: Date, b: Date)
    requires ValidDate(a) && ValidDate(b)
    ensures DateString(a) == DateString(b) <==> a == b
  {
    if DateString(a) == DateString(b) {
      var ya, yb := IntToString(a.year), IntToString(b.year);
      var sa, sb := MonthDaySuffix(a.month, a.day), MonthDaySuffix(b.month, b.day);
      MonthDaySuffixLength(a.month, a.day);
      MonthDaySuffixLength(b.month, b.day);
      ConcatInjective(ya, sa, yb, sb);
      MonthDaySuffixInjective(a.month, a.day, b.month, b.day);
      IntToStringInjective(a.year, b.year);
    }
  }

  // ---------------------------------------------------------------------
  // Date-time order

  /** Chronological order of civil date-times; for valid values it is the
      order of the instants they denote (see DateTimeBeforeIsInstantOrder). */
  predicate DateTimeBefore(a: DateTime, b: DateTime) {
    DateBefore(a.date, b.date) ||
    (a.date == b.date && (a.hour < b.hour || (a.hour == b.hour && a.minute < b.minute)))
  }

  /** Minutes since 0001-01-01T00:00. */
  function MinuteNumber(t: DateTime): int
    requires 1 <= t.date.month <= 12
  {
    DayNumber(t.date) * 1440 + t.hour * 60 + t.minute
  }

  /** Comparing date-times field by field agrees with comparing the
      instants they denote, as `new Date(a) - new Date(b)` does. */
  lemma DateTimeBeforeIsInstantOrder(a: DateTime, b: DateTime)
    requires ValidDateTime(a) && ValidDateTime(b)
    ensures DateTimeBefore(a, b) <==> MinuteNumber(a) < MinuteNumber(b)
  {
    if DateBefore(a.date, b.date) {
      DayNumberMonotone(a.date, b.date);
    } else if DateBefore(b.date, a.date) {
      DayNumberMonotone(b.date, a.date);
    } else {
      assert a.date == b.date;
    }
  }
}
