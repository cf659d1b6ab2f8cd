/** Recurring series: how `createRecurringActivities` steps the start
    date-time for each instance, the activities it builds, and the preview
    the form shows before they are created. */
module Recurrence {
  import opened Arith
  import opened Seqs
  import opened Civil
  import opened Schedule

  /** The date of instance i (counted from 0): `setDate(getDate() + i)` for
      daily, `setDate(getDate() + 7 * i)` for weekly, `setMonth(getMonth() +
      i)` for monthly, each rolling over as the native `Date` does; any other
      frequency matches no case and keeps the start date. */
  function StepDate(start: Date, f: Frequency, i: int): (r: Date)
    requires 1 <= start.month <= 12
    ensures f.Other? ==> r == start
    ensures !f.Other? ==> ValidDate(r)
  {
    match f
    case Daily => AddDays(start, i)
    case Weekly => AddDays(start, 7 * i)
    case Monthly => AddMonths(start, i)
    case Other(_) => start
  }

  /** Instance i's date-time: the stepped date at the start's time of day. */
  function Step(start: DateTime, f: Frequency, i: int): DateTime
    requires 1 <= start.date.month <= 12
  {
    DateTime(StepDate(start.date, f, i), start.hour, start.minute)
  }

  /** The activity pushed at iteration i, `now` being what `Date.now()`
      returned in that iteration: the draft's fields, id `now + i`, and the
      series fields (index i + 1 of count). */
  function Instance(base: Draft, f: Frequency, count: int, recurringId: int, now: int, i: int): Activity
    requires 1 <= base.datetime.date.month <= 12
  {
    Activity(now + i, base.title, base.category, Step(base.datetime, f, i),
      base.duration, base.notes, base.createdAt,
      Some(SeriesInfo(recurringId, i + 1, count, f)))
  }

  /** The number of iterations of `for (let i = 0; i < count; i++)`. */
  function Iterations(count: int): nat {
    if count < 0 then 0 else count
  }

  /** Everything `createRecurringActivities` appends, in order; `clock`
      holds the reading of `Date.now()` taken in each iteration. */
  function Series(base: Draft, f: Frequency, count: int, recurringId: int, clock: seq<int>): (r: seq<Activity>)
    requires 1 <= base.datetime.date.month <= 12
    requires |clock| == Iterations(count)
    ensures |r| == Iterations(count)
  {
    seq(Iterations(count), i requires 0 <= i < |clock| => Instance(base, f, count, recurringId, clock[i], i))
  }

  /** The `recurringIndex` of an activity, 0 for one outside any series. */
  function SeriesIndex(a: Activity): int {
    if a.series.Some? then a.series.value.index else 0
  }

  // ---------------------------------------------------------------------
  // What a series holds

  /** The indexes of a series run 1, 2, ..., count in order, without gaps. */
  lemma SeriesIndexesDense(base: Draft, f: Frequency, count: int, recurringId: int, clock: seq<int>)
    requires 1 <= base.datetime.date.month <= 12
    requires |clock| == Iterations(count)
    ensures Map(Series(base, f, count, recurringId, clock), SeriesIndex) == Range(1, count)
  {
    var r := Series(base, f, count, recurringId, clock);
    var m := Map(r, SeriesIndex);
    assert |m| == |Range(1, count)|;
    forall i | 0 <= i < |m|
      ensures m[i] == Range(1, count)[i]
    {
      assert r[i] == Instance(base, f, count, recurringId, clock[i], i);
    }
  }

  /** Every member belongs to the series, records its size and frequency,
      carries the draft's own fields, has as id the clock reading of its
      iteration plus its iteration number, and as date-time the start
      stepped by its iteration number. */
  lemma SeriesMembersShare(base: Draft, f: Frequency, count: int, recurringId: int, clock: seq<int>)
    requires 1 <= base.datetime.date.month <= 12
    requires |clock| == Iterations(count)
    ensures var r := Series(base, f, count, recurringId, clock);
      forall i :: 0 <= i < |r| ==>
        InSeries(r[i], recurringId) &&
        r[i].series.value.total == count && r[i].series.value.frequency == f &&
        r[i].title == base.title && r[i].category == base.category &&
        r[i].duration == base.duration && r[i].notes == base.notes &&
        r[i].createdAt == base.createdAt &&
        r[i].datetime.hour == base.datetime.hour && r[i].datetime.minute == base.datetime.minute
    ensures var r := Series(base, f, count, recurringId, clock);
      forall i :: 0 <= i < |r| ==> r[i].id == clock[i] + i
    ensures var r := Series(base, f, count, recurringId, clock);
      forall i :: 0 <= i < |r| ==> r[i].datetime == Step(base.datetime, f, i)
  {
  }

  /** With a clock that never goes back, the ids of a series strictly
      increase, so no two members share an id. */
  lemma SeriesIdsIncrease(base: Draft, f: Frequency, count: int, recurringId: int, clock: seq<int>)
    requires 1 <= base.datetime.date.month <= 12
    requires |clock| == Iterations(count)
    requires forall i, j :: 0 <= i <= j < |clock| ==> clock[i] <= clock[j]
    ensures var r := Series(base, f, count, recurringId, clock);
      forall i, j :: 0 <= i < j < |r| ==> r[i].id < r[j].id
  {
  }

  /** Deleting the series a creation made removes exactly what it added:
      if no stored activity belonged to that series before, deleting it
      restores the stored list. */
  lemma {:induction false} DeleteUndoesCreate(acts: seq<Activity>, base: Draft, f: Frequency,
                                              count: int, recurringId: int, clock: seq<int>)
    requires 1 <= base.datetime.date.month <= 12
    requires |clock| == Iterations(count)
    ensures WithoutSeries(acts + Series(base, f, count, recurringId, clock), recurringId)
         == WithoutSeries(acts, recurringId)
    ensures (forall i :: 0 <= i < |acts| ==> !InSeries(acts[i], recurringId)) ==>
      WithoutSeries(acts + Series(base, f, count, recurringId, clock), recurringId) == acts
  {
    var r := Series(base, f, count, recurringId, clock);
    FilterConcat(acts, r, NotInSeries(recurringId));
    assert forall i :: 0 <= i < |r| ==> !NotInSeries(recurringId)(r[i]) by {
      SeriesMembersShare(base, f, count, recurringId, clock);
    }
    FilterDropsAll(r, NotInSeries(recurringId));
    if forall i :: 0 <= i < |acts| ==> !InSeries(acts[i], recurringId) {
      FilterKeepsAll(acts, NotInSeries(recurringId));
    }
  }

  /** A series of activities in a category the store holds keeps every
      stored activity pointing at a stored category. */
  lemma SeriesKeepsReferences(acts: seq<Activity>, cats: seq<Category>, base: Draft, f: Frequency,
                              count: int, recurringId: int, clock: seq<int>)
    requires 1 <= base.datetime.date.month <= 12
    requires |clock| == Iterations(count)
    requires References(acts, cats)
    requires HasCategoryId(cats, base.category)
    ensures References(acts + Series(base, f, count, recurringId, clock), cats)
  {
    var s := acts + Series(base, f, count, recurringId, clock);
    forall i | 0 <= i < |s|
      ensures HasCategoryId(cats, s[i].category)
    {
      if i < |acts| {
        assert s[i] == acts[i];
      }
    }
  }

  // ---------------------------------------------------------------------
  // How the date is stepped

  /** Daily instance i falls i days after the start, weekly instance i
      falls 7 * i days after it on the same weekday. */
  lemma DailyAndWeeklySteps(start: Date, i: int)
    requires ValidDate(start)
    ensures DayNumber(StepDate(start, Daily, i)) == DayNumber(start) + i
    ensures DayNumber(StepDate(start, Weekly, i)) == DayNumber(start) + 7 * i
    ensures Weekday(StepDate(start, Weekly, i)) == Weekday(start)
  {
    AddDaysDayNumber(start, i);
    AddDaysDayNumber(start, 7 * i);
    AddDaysWeekday(start, 7 * i);
    var w := Weekday(start);
    DivModUnique(w + 7 * i, 7, i, w);
  }

  /** Consecutive daily instances are consecutive days. */
  lemma DailyConsecutive(start: Date, i: int)
    requires ValidDate(start)
    ensures StepDate(start, Daily, i + 1) == AddDays(StepDate(start, Daily, i), 1)
  {
    AddDaysAdd(start, i, 1);
  }

  /** Monthly instance i lies in the month i months after the start's, on
      the start's day of month when that month has it; otherwise the
      surplus days spill into the following month (so 31 January plus one
      month is 3 March in a common year). */
  lemma MonthlyStep(start: Date, i: int)
    requires ValidDate(start)
    ensures var k := start.year * 12 + start.month - 1 + i;
      var y, m := k / 12, k % 12 + 1;
      var t := StepDate(start, Monthly, i);
      (start.day <= DaysInMonth(y, m) ==> t == Date(y, m, start.day)) &&
      (start.day > DaysInMonth(y, m) ==>
        t == Date(NextMonth(y, m).0, NextMonth(y, m).1, start.day - DaysInMonth(y, m)))
  {
    var index := start.month - 1 + i;
    var k := start.year * 12 + index;
    DivModUnique(k, 12, start.year + index / 12, index % 12);
    var y, m := k / 12, k % 12 + 1;
    if start.day > DaysInMonth(y, m) {
      NormalizeOverflow(y, m, start.day);
    }
  }

  /** The unclamped month step, on the example the source's behaviour is
      known for: a series starting 31 January 2025 continues on 3 March. */
  lemma MonthlyFromJanuary31()
    ensures StepDate(Date(2025, 1, 31), Monthly, 1) == Date(2025, 3, 3)
  {
    MonthlyStep(Date(2025, 1, 31), 1);
    assert DaysInMonth(2025, 2) == 28;
  }

  /** Daily stepping crosses month ends: 31 January 2025 is followed by
      1 February. */
  lemma DailyFromJanuary31()
    ensures StepDate(Date(2025, 1, 31), Daily, 1) == Date(2025, 2, 1)
  {
    NormalizeOverflow(2025, 1, 32);
  }

  // ---------------------------------------------------------------------
  // The preview

  /** What `updateRecurringPreview` shows: nothing when the series box is
      unchecked, a request for a date when none is entered, else the total,
      the first dates and how many more there are. */
  datatype Preview = Cleared | NeedDate | Listing(total: int, dates: seq<DateTime>, more: Option<int>)

  /** The preview for the form's state; `datetime` is None when the field
      is empty. Its loop runs `Math.min(count, 5)` times with the stepping
      the series itself uses. */
  method RecurringPreview(isRecurring: bool, datetime: Option<DateTime>, f: Frequency, count: int)
    returns (p: Preview)
    requires datetime.Some? ==> 1 <= datetime.value.date.month <= 12
    ensures !isRecurring ==> p == Cleared
    ensures isRecurring && datetime.None? ==> p == NeedDate
    ensures isRecurring && datetime.Some? ==>
      p.Listing? && p.total == count &&
      |p.dates| == Iterations(Min(count, 5)) &&
      (forall i :: 0 <= i < |p.dates| ==> p.dates[i] == Step(datetime.value, f, i)) &&
      p.more == (if count > 5 then Some(count - 5) else None)
  {
    if !isRecurring {
      return Cleared;
    }
    if datetime.None? {
      return NeedDate;
    }
    var start := datetime.value;
    var dates: seq<DateTime> := [];
    var i := 0;
    while i < Min(count, 5)
      invariant 0 <= i <= Iterations(Min(count, 5))
      invariant |dates| == i
      invariant forall j :: 0 <= j < i ==> dates[j] == Step(start, f, j)
    {
      dates := dates + [Step(start, f, i)];
      i := i + 1;
    }
    var more := if count > 5 then Some(count - 5) else None;
    p := Listing(count, dates, more);
  }

  /** The previewed dates are those of the first (at most five) activities
      the series will hold. */
  lemma PreviewMatchesSeries(base: Draft, f: Frequency, count: int, recurringId: int, clock: seq<int>, i: int)
    requires 1 <= base.datetime.date.month <= 12
    requires |clock| == Iterations(count)
    requires 0 <= i < Iterations(Min(count, 5))
    ensures i < |Series(base, f, count, recurringId, clock)|
    ensures Series(base, f, count, recurringId, clock)[i].datetime == Step(base.datetime, f, i)
  {
  }
}
