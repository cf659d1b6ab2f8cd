/** The month view: the 42 days the grid shows, the activities of one day
    in time order, and what one day cell displays. */
module Calendar {
  import opened Seqs
  import opened Civil
  import opened Schedule
  import opened Holidays

  // ---------------------------------------------------------------------
  // Time order

  /** The comparator `new Date(a.datetime) - new Date(b.datetime) < 0`. */
  predicate Earlier(a: Activity, b: Activity) {
    DateTimeBefore(a.datetime, b.datetime)
  }

  predicate SortedByTime(s: seq<Activity>) {
    forall i, j :: 0 <= i < j < |s| ==> !Earlier(s[j], s[i])
  }

  /** Places x before the first element that is not earlier than it. */
  function Insert(x: Activity, s: seq<Activity>): (r: seq<Activity>)
    ensures multiset(r) == multiset(s) + multiset{x}
    ensures SortedByTime(s) ==> SortedByTime(r)
  {
    if s == [] || !Earlier(s[0], x) then
      assert SortedByTime(s) ==> SortedByTime([x] + s) by {
        if SortedByTime(s) {
          InFrontSorted(x, s);
        }
      }
      [x] + s
    else
      var t := Insert(x, s[1..]);
      assert s == [s[0]] + s[1..];
      assert SortedByTime(s) ==> SortedByTime([s[0]] + t) by {
        if SortedByTime(s) {
          BehindSorted(s[0], x, s[1..], t);
        }
      }
      [s[0]] + t
  }

  /** An element at or before everything in a sorted list can go in front. */
  lemma PrependSorted(y: Activity, t: seq<Activity>)
    requires SortedByTime(t)
    requires forall j :: 0 <= j < |t| ==> !Earlier(t[j], y)
    ensures SortedByTime([y] + t)
  {
    var r := [y] + t;
    forall i, j | 0 <= i < j < |r|
      ensures !Earlier(r[j], r[i])
    {
      assert r[j] == t[j - 1];
      if i > 0 {
        assert r[i] == t[i - 1];
      }
    }
  }

  /** The first case of the insertion keeps the list sorted. */
  lemma InFrontSorted(x: Activity, s: seq<Activity>)
    requires SortedByTime(s)
    requires s == [] || !Earlier(s[0], x)
    ensures SortedByTime([x] + s)
  {
    forall j | 0 <= j < |s|
      ensures !Earlier(s[j], x)
    {
      if j > 0 {
        DateTimeOrder(s[j].datetime, s[0].datetime, x.datetime);
      }
    }
    PrependSorted(x, s);
  }

  /** The second case: the head stays in front of the sorted insertion into
      the rest, whose elements are the rest's and x, all at or after it. */
  lemma BehindSorted(y: Activity, x: Activity, rest: seq<Activity>, t: seq<Activity>)
    requires SortedByTime([y] + rest)
    requires Earlier(y, x)
    requires SortedByTime(t)
    requires multiset(t) == multiset(rest) + multiset{x}
    ensures SortedByTime([y] + t)
  {
    var s := [y] + rest;
    forall j | 0 <= j < |t|
      ensures !Earlier(t[j], y)
    {
      assert t[j] in multiset(t);
      if t[j] == x {
        DateTimeAsymmetric(y.datetime, x.datetime);
      } else {
        assert t[j] in multiset(rest);
        var k :| 0 <= k < |rest| && rest[k] == t[j];
        assert s[0] == y && s[k + 1] == t[j];
      }
    }
    PrependSorted(y, t);
  }

  /** `.sort((a, b) => new Date(a.datetime) - new Date(b.datetime))`: an
      insertion sort, which keeps activities at the same instant in their
      stored order as the stable `Array.prototype.sort` does. */
  function SortByTime(s: seq<Activity>): (r: seq<Activity>)
    ensures SortedByTime(r)
    ensures multiset(r) == multiset(s)
  {
    if s == [] then []
    else
      assert s == [s[0]] + s[1..];
      Insert(s[0], SortByTime(s[1..]))
  }

  lemma DateTimeAsymmetric(a: DateTime, b: DateTime)
    requires DateTimeBefore(a, b)
    ensures !DateTimeBefore(b, a) && a != b
  {
  }

  /** If a is not earlier than b and b not earlier than c, a is not earlier
      than c: the order is total, so "not earlier" is "at or after". */
  lemma DateTimeOrder(a: DateTime, b: DateTime, c: DateTime)
    requires !DateTimeBefore(a, b) && !DateTimeBefore(b, c)
    ensures !DateTimeBefore(a, c)
  {
  }

  /** The activities at one date-time. */
  function AtTime(t: DateTime): Activity -> bool {
    (a: Activity) => a.datetime == t
  }

  /** One step of the insertion. */
  lemma InsertStep(x: Activity, s: seq<Activity>)
    ensures Insert(x, s) == if s == [] || !Earlier(s[0], x) then [x] + s else [s[0]] + Insert(x, s[1..])
  {
  }

  /** An element that does not pass along with x can be put in front of
      both sides of a filter equation about x. */
  lemma ConsPastFilter<T>(y: T, x: T, u: seq<T>, v: seq<T>, p: T -> bool)
    requires Filter(u, p) == (if p(x) then [x] else []) + Filter(v, p)
    requires !(p(y) && p(x))
    ensures Filter([y] + u, p) == (if p(x) then [x] else []) + Filter([y] + v, p)
  {
    var fu, fv := Filter(u, p), Filter(v, p);
    FilterCons(y, u, p);
    FilterCons(y, v, p);
    if p(x) {
      assert Filter([y] + u, p) == [] + fu == fu;
      assert Filter([y] + v, p) == [] + fv == fv;
    } else {
      assert fu == [] + fv == fv;
    }
  }

  lemma {:induction false} InsertAtTime(x: Activity, s: seq<Activity>, t: DateTime)
    ensures Filter(Insert(x, s), AtTime(t)) == (if x.datetime == t then [x] else []) + Filter(s, AtTime(t))
  {
    var p := AtTime(t);
    InsertStep(x, s);
    if s == [] || !Earlier(s[0], x) {
      FilterCons(x, s, p);
    } else {
      InsertAtTime(x, s[1..], t);
      DateTimeAsymmetric(s[0].datetime, x.datetime);
      ConsPastFilter(s[0], x, Insert(x, s[1..]), s[1..], p);
      assert s == [s[0]] + s[1..];
    }
  }

  /** The sort is stable: the activities at any one instant appear in the
      order they are stored in. */
  lemma {:induction false} SortStable(s: seq<Activity>, t: DateTime)
    ensures Filter(SortByTime(s), AtTime(t)) == Filter(s, AtTime(t))
  {
    if s != [] {
      SortStable(s[1..], t);
      InsertAtTime(s[0], SortByTime(s[1..]), t);
    }
  }

  // ---------------------------------------------------------------------
  // One day's activities

  /** The activities whose start date has this date string. */
  function OnDate(d: Date): Activity -> bool {
    (a: Activity) => DateString(a.datetime.date) == DateString(d)
  }

  /** `getActivitiesForDate`: the filtered activities that start on the
      day, earliest first. */
  function ActivitiesForDate(acts: seq<Activity>, filter: string, d: Date): seq<Activity> {
    SortByTime(Filter(Filtered(acts, filter), OnDate(d)))
  }

  /** A day holds exactly the stored activities that pass the category
      filter and start on it, each as often as it is stored, in time order. */
  lemma ActivitiesForDateSelects(acts: seq<Activity>, filter: string, d: Date)
    ensures SortedByTime(ActivitiesForDate(acts, filter, d))
    ensures forall a ::
      multiset(ActivitiesForDate(acts, filter, d))[a] ==
      (if (filter == AllCategories || a.category == filter) && DateString(a.datetime.date) == DateString(d)
       then multiset(acts)[a] else 0)
  {
    var r := ActivitiesForDate(acts, filter, d);
    FilteredSelects(acts, filter);
    forall a: Activity
      ensures multiset(r)[a] ==
        (if (filter == AllCategories || a.category == filter) && DateString(a.datetime.date) == DateString(d)
         then multiset(acts)[a] else 0)
    {
      FilterMultiset(Filtered(acts, filter), OnDate(d), a);
    }
  }

  /** For real dates, matching date strings is being on the same day. */
  lemma OnDateIsSameDay(a: Activity, d: Date)
    requires ValidDate(a.datetime.date) && ValidDate(d)
    ensures OnDate(d)(a) <==> a.datetime.date == d
  {
    DateStringInjective(a.datetime.date, d);
  }

  // ---------------------------------------------------------------------
  // The grid

  /** The Sunday on or before the first of the month: `setDate(getDate() -
      firstDay.getDay())`. */
  function GridStart(year: int, month: int): (r: Date)
    requires 1 <= month <= 12
    ensures ValidDate(r)
  {
    var first := Date(year, month, 1);
    AddDays(first, -Weekday(first))
  }

  /** Cell i's date: the start date moved on by i days. */
  function GridDate(year: int, month: int, i: int): (r: Date)
    requires 1 <= month <= 12
    ensures ValidDate(r)
  {
    AddDays(GridStart(year, month), i)
  }

  /** The grid starts on a Sunday no more than six days before the first of
      the month. */
  lemma GridStartsOnSunday(year: int, month: int)
    requires 1 <= month <= 12
    ensures Weekday(GridStart(year, month)) == 0
    ensures DayNumber(GridStart(year, month)) == DayNumber(Date(year, month, 1)) - Weekday(Date(year, month, 1))
    ensures 0 <= DayNumber(Date(year, month, 1)) - DayNumber(GridStart(year, month)) < 7
  {
    var first := Date(year, month, 1);
    var w := Weekday(first);
    assert GridStart(year, month) == AddDays(first, -w);
    AddDaysDayNumber(first, -w);
    AddDaysWeekday(first, -w);
    assert (w + -w) % 7 == 0;
  }

  /** The cells are consecutive days, and cell i falls on weekday i mod 7,
      so every row runs Sunday to Saturday. */
  lemma GridConsecutive(year: int, month: int, i: int)
    requires 1 <= month <= 12 && 0 <= i
    ensures DayNumber(GridDate(year, month, i)) == DayNumber(GridStart(year, month)) + i
    ensures GridDate(year, month, i + 1) == AddDays(GridDate(year, month, i), 1)
    ensures Weekday(GridDate(year, month, i)) == i % 7
  {
    var s := GridStart(year, month);
    GridStartsOnSunday(year, month);
    AddDaysDayNumber(s, i);
    AddDaysAdd(s, i, 1);
    AddDaysWeekday(s, i);
  }

  /** Every day of the month has a cell: day k sits in cell w + k - 1,
      where w is the weekday of the first, and that is below 42. */
  lemma GridCoversMonth(year: int, month: int, day: int)
    requires 1 <= month <= 12 && 1 <= day <= DaysInMonth(year, month)
    ensures var i := Weekday(Date(year, month, 1)) + day - 1;
      0 <= i < 42 && GridDate(year, month, i) == Date(year, month, day)
  {
    var first := Date(year, month, 1);
    var w := Weekday(first);
    var i := w + day - 1;
    GridStartsOnSunday(year, month);
    GridConsecutive(year, month, i);
    var g := GridDate(year, month, i);
    assert DayNumber(g) == DayNumber(GridStart(year, month)) + i;
    assert DayNumber(Date(year, month, day)) == DayNumber(first) + day - 1;
    DayNumberInjective(g, Date(year, month, day));
  }

  /** The days before January 1st to a month differ by at most one between
      two years. */
  lemma DaysBeforeMonthAcrossYears(a: int, b: int, m: int)
    requires 1 <= m <= 12
    ensures -1 <= DaysBeforeMonth(a, m) - DaysBeforeMonth(b, m) <= 1
  {
  }

  /** `date.getMonth() === currentMonthNum` compares months only, but no
      grid day has the viewed month in another year: a cell is in the
      viewed month exactly when its date is in the viewed year and month. */
  lemma GridMonthIsViewedMonth(year: int, month: int, i: int)
    requires 1 <= month <= 12 && 0 <= i < 42
    ensures var g := GridDate(year, month, i);
      g.month == month ==> g.year == year
  {
    var g := GridDate(year, month, i);
    var first := Date(year, month, 1);
    GridStartsOnSunday(year, month);
    GridConsecutive(year, month, i);
    if g.month == month && g.year != year {
      DaysBeforeMonthAcrossYears(g.year, year, month);
      if g.year > year {
        DaysBeforeYearIncreasing(year, g.year);
      } else {
        DaysBeforeYearIncreasing(g.year, year);
      }
      assert false;
    }
  }

  // ---------------------------------------------------------------------
  // One cell

  /** What a day cell shows: its date, whether it is in the viewed month,
      whether it is today, its holiday, the activities listed and the count
      on the `+N` badge, if any. */
  datatype Cell = Cell(date: Date, inMonth: bool, isToday: bool, holiday: Option<Holiday>,
                       shown: seq<Activity>, more: Option<int>)

  /** How many activities a cell lists: 2 beside a holiday, else 3. */
  function ListLimit(holiday: Option<Holiday>): int {
    if holiday.Some? then 2 else 3
  }

  /** A cell for a date, given the viewed month, today's date, that day's
      activities and its holiday. */
  function MakeCell(date: Date, month: int, today: Date, dayActs: seq<Activity>,
                    holiday: Option<Holiday>): Cell
  {
    var limit := ListLimit(holiday);
    Cell(date, date.month == month, DateString(date) == DateString(today), holiday,
      dayActs[..Min(|dayActs|, limit)],
      if |dayActs| > limit then Some(|dayActs| - limit) else None)
  }

  /** A cell lists the first min(n, limit) of its n activities and shows a
      `+(n - limit)` badge exactly when some are left out, so the listed and
      the counted ones add up to n. */
  lemma CellTruncation(date: Date, month: int, today: Date, dayActs: seq<Activity>,
                       holiday: Option<Holiday>)
    ensures var c := MakeCell(date, month, today, dayActs, holiday);
      var limit := ListLimit(holiday);
      |c.shown| == Min(|dayActs|, limit) &&
      c.shown == dayActs[..|c.shown|] &&
      (c.more.Some? <==> |dayActs| > limit) &&
      |c.shown| + (if c.more.Some? then c.more.value else 0) == |dayActs|
  {
  }

  /** For a real date and a real today, the cell is marked today exactly
      when it is today's date. */
  lemma CellToday(date: Date, month: int, today: Date, dayActs: seq<Activity>,
                  holiday: Option<Holiday>)
    requires ValidDate(date) && ValidDate(today)
    ensures MakeCell(date, month, today, dayActs, holiday).isToday <==> date == today
  {
    DateStringInjective(date, today);
  }

  /** Cell i of the grid for the viewed month. */
  function CellAt(acts: seq<Activity>, filter: string, holidays: map<int, seq<Holiday>>,
                  year: int, month: int, today: Date, i: int): Cell
    requires 1 <= month <= 12
  {
    var date := GridDate(year, month, i);
    MakeCell(date, month, today, ActivitiesForDate(acts, filter, date), HolidayFor(holidays, date))
  }

  /** Appending cell |cells| to a correct prefix of the grid gives a longer
      correct prefix. */
  lemma GridPrefixGrows(acts: seq<Activity>, filter: string, holidays: map<int, seq<Holiday>>,
                        year: int, month: int, today: Date, cells: seq<Cell>, c: Cell)
    requires 1 <= month <= 12
    requires forall k :: 0 <= k < |cells| ==> cells[k] == CellAt(acts, filter, holidays, year, month, today, k)
    requires c == CellAt(acts, filter, holidays, year, month, today, |cells|)
    ensures forall k :: 0 <= k < |cells| + 1 ==>
      (cells + [c])[k] == CellAt(acts, filter, holidays, year, month, today, k)
  {
  }

  /** The facts about a whole grid of cells: real, consecutive dates from
      a Sunday at most six days before the first, and `inMonth` marking the
      days of the viewed year and month. */
  lemma GridCells(acts: seq<Activity>, filter: string, holidays: map<int, seq<Holiday>>,
                  year: int, month: int, today: Date, cells: seq<Cell>)
    requires 1 <= month <= 12
    requires |cells| == 42
    requires forall i :: 0 <= i < 42 ==> cells[i] == CellAt(acts, filter, holidays, year, month, today, i)
    ensures ValidDate(cells[0].date) && Weekday(cells[0].date) == 0
    ensures 0 <= DayNumber(Date(year, month, 1)) - DayNumber(cells[0].date) < 7
    ensures forall i :: 0 <= i < 41 ==>
      ValidDate(cells[i].date) && cells[i + 1].date == AddDays(cells[i].date, 1)
    ensures forall i :: 0 <= i < 42 ==>
      (cells[i].inMonth <==> cells[i].date.year == year && cells[i].date.month == month)
  {
    var start := GridStart(year, month);
    GridStartsOnSunday(year, month);
    forall i | 0 <= i < 42
      ensures cells[i].date == GridDate(year, month, i)
      ensures i < 41 ==> cells[i + 1].date == AddDays(cells[i].date, 1)
      ensures cells[i].inMonth <==> cells[i].date.year == year && cells[i].date.month == month
    {
      GridConsecutive(year, month, i);
      GridMonthIsViewedMonth(year, month, i);
    }
    AddDaysDayNumber(start, 0);
    DayNumberInjective(cells[0].date, start);
  }
}
