/** The scheduler object: the activity and category lists it owns, the
    holiday table, the category filter, and the operations that change
    them or read the month grid from them. */
module Store {
  import opened Seqs
  import opened Civil
  import opened Schedule
  import opened Categories
  import opened Recurrence
  import opened Holidays
  import opened Calendar

  class Scheduler {
    var activities: seq<Activity>
    var categories: seq<Category>
    /** Holiday lists by year, as cached from the holiday service or the
        fallback list. */
    var holidays: map<int, seq<Holiday>>
    var currentFilter: string

    /** Starts from the stored values, each replaced by its default when
        nothing is stored, with every category selected. */
    constructor(storedActivities: Option<seq<Activity>>, storedCategories: Option<seq<Category>>,
                storedHolidays: Option<map<int, seq<Holiday>>>)
      ensures activities == (if storedActivities.Some? then storedActivities.value else [])
      ensures categories == (if storedCategories.Some? then storedCategories.value else DefaultCategories())
      ensures holidays == (if storedHolidays.Some? then storedHolidays.value else map[])
      ensures currentFilter == AllCategories
    {
      activities := if storedActivities.Some? then storedActivities.value else [];
      categories := if storedCategories.Some? then storedCategories.value else DefaultCategories();
      holidays := if storedHolidays.Some? then storedHolidays.value else map[];
      currentFilter := AllCategories;
    }

    /** `getFilteredActivities`. */
    function FilteredActivities(): (r: seq<Activity>)
      reads this
      ensures |r| <= |activities|
      ensures forall i :: 0 <= i < |r| ==>
        r[i] in activities && (currentFilter == AllCategories || r[i].category == currentFilter)
      ensures currentFilter == AllCategories ==> r == activities
    {
      Filtered(activities, currentFilter)
    }

    /** `createRecurringActivities`: pushes the count instances of the
        series in index order; with a count below one it pushes nothing.
        `clock[i]` is what `Date.now()` returns in iteration i. */
    method CreateRecurringActivities(base: Draft, f: Frequency, count: int, recurringId: int, clock: seq<int>)
      requires 1 <= base.datetime.date.month <= 12
      requires |clock| == Iterations(count)
      modifies this`activities
      ensures activities == old(activities) + Series(base, f, count, recurringId, clock)
      ensures (References(old(activities), categories) &&
               HasCategoryId(categories, base.category)) ==>
        References(activities, categories)
    {
      ghost var series := Series(base, f, count, recurringId, clock);
      var i := 0;
      while i < count
        invariant 0 <= i <= Iterations(count)
        invariant activities == old(activities) + series[..i]
      {
        activities := activities + [Instance(base, f, count, recurringId, clock[i], i)];
        i := i + 1;
        assert series[..i] == series[..i - 1] + [series[i - 1]];
      }
      assert series[..i] == series;
      if References(old(activities), categories) &&
         HasCategoryId(categories, base.category) {
        SeriesKeepsReferences(old(activities), categories, base, f, count, recurringId, clock);
      }
    }

    /** `deleteActivity`: when confirmed, drops every activity with the id. */
    method DeleteActivity(id: int, confirmed: bool)
      modifies this`activities
      ensures activities == if confirmed then WithoutActivity(old(activities), id) else old(activities)
      ensures References(old(activities), categories) ==> References(activities, categories)
    {
      if confirmed {
        if References(activities, categories) {
          SelectionKeepsReferences(activities, categories, NotId(id));
        }
        activities := WithoutActivity(activities, id);
      }
    }

    /** `deleteRecurringSeries`: reports the count and title its
        confirmation names, and when confirmed drops the series. */
    method DeleteRecurringSeries(recurringId: int, confirmed: bool) returns (size: nat, title: string)
      modifies this`activities
      ensures size == |SeriesMembers(old(activities), recurringId)|
      ensures title == SeriesTitle(old(activities), recurringId)
      ensures activities ==
        if confirmed then WithoutSeries(old(activities), recurringId) else old(activities)
      ensures confirmed ==> |activities| == |old(activities)| - size
      ensures References(old(activities), categories) ==> References(activities, categories)
    {
      size := |SeriesMembers(activities, recurringId)|;
      title := SeriesTitle(activities, recurringId);
      if confirmed {
        SeriesSplit(activities, recurringId);
        if References(activities, categories) {
          SelectionKeepsReferences(activities, categories, NotInSeries(recurringId));
        }
        activities := WithoutSeries(activities, recurringId);
      }
    }

    /** `addCategory`: appends the new category unless the name is refused;
        no two categories then have names that agree ignoring case. */
    method AddCategory(rawName: string, color: string) returns (outcome: AddOutcome)
      modifies this`categories
      ensures outcome == NewCategory(old(categories), rawName, color)
      ensures categories ==
        if outcome.Added? then old(categories) + [outcome.category] else old(categories)
      ensures DistinctNames(old(categories)) ==> DistinctNames(categories)
      ensures References(activities, old(categories)) ==> References(activities, categories)
    {
      outcome := NewCategory(categories, rawName, color);
      if outcome.Added? {
        if DistinctNames(categories) {
          AddKeepsNamesDistinct(categories, rawName, color);
        }
        if References(activities, categories) {
          AppendKeepsReferences(activities, categories, outcome.category);
        }
        categories := categories + [outcome.category];
      }
    }

    /** `deleteCategory`: with activities in the category and no
        confirmation nothing changes; otherwise those activities and the
        category go, and a filter on it falls back to all categories. */
    method DeleteCategory(id: string, confirmed: bool) returns (count: nat)
      modifies this`activities, this`categories, this`currentFilter
      ensures count == CountInCategory(old(activities), id)
      ensures count > 0 && !confirmed ==>
        activities == old(activities) && categories == old(categories) &&
        currentFilter == old(currentFilter)
      ensures count == 0 || confirmed ==>
        activities == WithoutCategory(old(activities), id) &&
        categories == WithoutCategoryEntry(old(categories), id) &&
        currentFilter == (if old(currentFilter) == id then AllCategories else old(currentFilter))
      ensures References(old(activities), old(categories)) ==> References(activities, categories)
      ensures DistinctNames(old(categories)) ==> DistinctNames(categories)
    {
      count := CountInCategory(activities, id);
      if DistinctNames(categories) {
        DeleteKeepsNamesDistinct(categories, id);
      }
      if References(activities, categories) {
        CascadeKeepsReferences(activities, categories, id);
      }
      if count > 0 {
        if !confirmed {
          return;
        }
        activities := WithoutCategory(activities, id);
      } else {
        CascadeOfUnusedCategory(activities, id);
      }
      categories := WithoutCategoryEntry(categories, id);
      if currentFilter == id {
        currentFilter := AllCategories;
      }
    }

    /** The day cells of `renderCalendar` for the viewed year and month,
        today being `today`: 42 consecutive days from the Sunday on or
        before the first, each holding its own activities and holiday. */
    method RenderCalendar(year: int, month: int, today: Date) returns (cells: seq<Cell>)
      requires 1 <= month <= 12
      ensures |cells| == 42
      ensures forall i :: 0 <= i < 42 ==>
        cells[i] == CellAt(activities, currentFilter, holidays, year, month, today, i)
      ensures ValidDate(cells[0].date) && Weekday(cells[0].date) == 0
      ensures 0 <= DayNumber(Date(year, month, 1)) - DayNumber(cells[0].date) < 7
      ensures forall i :: 0 <= i < 41 ==>
        ValidDate(cells[i].date) && cells[i + 1].date == AddDays(cells[i].date, 1)
      ensures forall i :: 0 <= i < 42 ==>
        (cells[i].inMonth <==> cells[i].date.year == year && cells[i].date.month == month)
    {
      var start := GridStart(year, month);
      cells := [];
      for i := 0 to 42
        invariant |cells| == i
        invariant forall k :: 0 <= k < i ==>
          cells[k] == CellAt(activities, currentFilter, holidays, year, month, today, k)
      {
        var date := AddDays(start, i);
        var dayActivities := ActivitiesForDate(activities, currentFilter, date);
        var holiday := HolidayFor(holidays, date);
        var c := MakeCell(date, month, today, dayActivities, holiday);
        GridPrefixGrows(activities, currentFilter, holidays, year, month, today, cells, c);
        cells := cells + [c];
      }
      GridCells(activities, currentFilter, holidays, year, month, today, cells);
    }
  }
}
