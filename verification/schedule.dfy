/** The records the scheduler keeps, and the order-preserving selections it
    makes over its activity list: the category filter and the three
    deletions (one activity, one series, one category's activities). */
module Schedule {
  import opened Seqs
  import opened Civil

  datatype Frequency = Daily | Weekly | Monthly | Other(name: string)

  /** The recurrence fields of an activity that belongs to a series;
      `isRecurring` is `series.Some?`. */
  datatype SeriesInfo = SeriesInfo(recurringId: int, index: int, total: int, frequency: Frequency)

  /** What the activity form supplies: every field of an activity but its
      id. `datetime` is the civil date-time the form holds; `duration` is
      the minute count, absent when left blank. */
  datatype Draft = Draft(
    title: string, category: string, datetime: DateTime,
    duration: Option<int>, notes: string, createdAt: string)

  datatype Activity = Activity(
    id: int, title: string, category: string, datetime: DateTime,
    duration: Option<int>, notes: string, createdAt: string,
    series: Option<SeriesInfo>)

  datatype Category = Category(id: string, name: string, color: string)

  /** The filter value that selects every category. */
  const AllCategories: string := "all"

  // ---------------------------------------------------------------------
  // Selections

  function HasCategory(id: string): Activity -> bool {
    (a: Activity) => a.category == id
  }

  function NotCategory(id: string): Activity -> bool {
    (a: Activity) => a.category != id
  }

  function NotId(id: int): Activity -> bool {
    (a: Activity) => a.id != id
  }

  predicate InSeries(a: Activity, recurringId: int) {
    a.series.Some? && a.series.value.recurringId == recurringId
  }

  function NotInSeries(recurringId: int): Activity -> bool {
    (a: Activity) => !InSeries(a, recurringId)
  }

  function InSeriesOf(recurringId: int): Activity -> bool {
    (a: Activity) => InSeries(a, recurringId)
  }

  function NotCategoryId(id: string): Category -> bool {
    (c: Category) => c.id != id
  }

  /** `getFilteredActivities`: every activity for the filter 'all', else
      those of the filter's category. */
  function Filtered(acts: seq<Activity>, filter: string): (r: seq<Activity>)
    ensures |r| <= |acts|
    ensures forall i :: 0 <= i < |r| ==>
      r[i] in acts && (filter == AllCategories || r[i].category == filter)
  {
    if filter == AllCategories then acts else Filter(acts, HasCategory(filter))
  }

  /** The `activities.filter(activity => activity.id !== id)` of
      `deleteActivity`. */
  function WithoutActivity(acts: seq<Activity>, id: int): (r: seq<Activity>)
    ensures forall i :: 0 <= i < |r| ==> r[i] in acts && r[i].id != id
  {
    Filter(acts, NotId(id))
  }

  /** The filter of `deleteRecurringSeries`. An activity outside every series
      has no `recurringId`, which never equals the one given. */
  function WithoutSeries(acts: seq<Activity>, recurringId: int): (r: seq<Activity>)
    ensures forall i :: 0 <= i < |r| ==> r[i] in acts && !InSeries(r[i], recurringId)
  {
    Filter(acts, NotInSeries(recurringId))
  }

  /** The members of a series, as `deleteRecurringSeries` collects them for
      its confirmation message. */
  function SeriesMembers(acts: seq<Activity>, recurringId: int): (r: seq<Activity>)
    ensures forall i :: 0 <= i < |r| ==> r[i] in acts && InSeries(r[i], recurringId)
  {
    Filter(acts, InSeriesOf(recurringId))
  }

  /** The title the confirmation names: the first member's, or "this
      series" when there is none or it is empty (`?.title || ...`). */
  function SeriesTitle(acts: seq<Activity>, recurringId: int): (r: string)
    ensures r != []
    ensures r == "this series" || exists a :: a in acts && InSeries(a, recurringId) && a.title == r
    ensures forall k ::
      (0 <= k < |acts| && InSeries(acts[k], recurringId) &&
       (forall j :: 0 <= j < k ==> !InSeries(acts[j], recurringId))) ==>
      r == (if acts[k].title != "" then acts[k].title else "this series")
    ensures (forall k :: 0 <= k < |acts| ==> !InSeries(acts[k], recurringId)) ==> r == "this series"
  {
    FilterFirst(acts, InSeriesOf(recurringId));
    var members := SeriesMembers(acts, recurringId);
    if members != [] && members[0].title != "" then members[0].title else "this series"
  }

  /** The cascade of `deleteCategory`: the activities of other categories. */
  function WithoutCategory(acts: seq<Activity>, id: string): (r: seq<Activity>)
    ensures forall i :: 0 <= i < |r| ==> r[i] in acts && r[i].category != id
  {
    Filter(acts, NotCategory(id))
  }

  /** How many activities reference the category. */
  function CountInCategory(acts: seq<Activity>, id: string): (n: nat)
    ensures n <= |acts|
  {
    |Filter(acts, HasCategory(id))|
  }

  /** The category list without the deleted category. */
  function WithoutCategoryEntry(cats: seq<Category>, id: string): (r: seq<Category>)
    ensures forall i :: 0 <= i < |r| ==> r[i] in cats && r[i].id != id
  {
    Filter(cats, NotCategoryId(id))
  }

  // ---------------------------------------------------------------------
  // What the selections keep

  /** The filter 'all' is the identity; any other filter keeps exactly the
      activities of that category, each as often as it occurs, in order. */
  lemma FilteredSelects(acts: seq<Activity>, filter: string)
    ensures filter == AllCategories ==> Filtered(acts, filter) == acts
    ensures forall a ::
      multiset(Filtered(acts, filter))[a] ==
      (if filter == AllCategories || a.category == filter then multiset(acts)[a] else 0)
  {
    forall a {
      FilterMultiset(acts, HasCategory(filter), a);
    }
  }

  /** Deleting an activity removes every activity with that id and nothing
      else. */
  lemma DeleteActivityExactly(acts: seq<Activity>, id: int)
    ensures forall a ::
      multiset(WithoutActivity(acts, id))[a] ==
      (if a.id == id then 0 else multiset(acts)[a])
  {
    forall a {
      FilterMultiset(acts, NotId(id), a);
    }
  }

  /** Deleting a series removes every member of that series and nothing
      else; activities outside any series always stay. */
  lemma DeleteSeriesExactly(acts: seq<Activity>, recurringId: int)
    ensures forall a ::
      multiset(WithoutSeries(acts, recurringId))[a] ==
      (if InSeries(a, recurringId) then 0 else multiset(acts)[a])
  {
    forall a {
      FilterMultiset(acts, NotInSeries(recurringId), a);
    }
  }

  /** The cascade removes exactly the category's activities: as many as
      CountInCategory reports, and all others survive. */
  lemma CascadeExactly(acts: seq<Activity>, id: string)
    ensures forall a ::
      multiset(WithoutCategory(acts, id))[a] ==
      (if a.category == id then 0 else multiset(acts)[a])
    ensures |WithoutCategory(acts, id)| == |acts| - CountInCategory(acts, id)
  {
    forall a {
      FilterMultiset(acts, NotCategory(id), a);
    }
    CountSplit(acts, id);
  }

  lemma {:induction false} CountSplit(acts: seq<Activity>, id: string)
    ensures |Filter(acts, HasCategory(id))| + |Filter(acts, NotCategory(id))| == |acts|
  {
    if acts != [] {
      CountSplit(acts[1..], id);
    }
  }

  /** The count the series confirmation shows is the number of activities
      the deletion removes. */
  lemma {:induction false} SeriesSplit(acts: seq<Activity>, recurringId: int)
    ensures |SeriesMembers(acts, recurringId)| + |WithoutSeries(acts, recurringId)| == |acts|
  {
    if acts != [] {
      SeriesSplit(acts[1..], recurringId);
    }
  }

  /** With no activity in the category there is nothing to cascade. */
  lemma CascadeOfUnusedCategory(acts: seq<Activity>, id: string)
    requires CountInCategory(acts, id) == 0
    ensures WithoutCategory(acts, id) == acts
  {
    CountSplit(acts, id);
    FilterKeepsAllBySize(acts, NotCategory(id));
  }

  /** A filter that keeps as many elements as it was given keeps them all. */
  lemma {:induction false} FilterKeepsAllBySize<T>(s: seq<T>, p: T -> bool)
    requires |Filter(s, p)| == |s|
    ensures Filter(s, p) == s
  {
    if s != [] {
      assert |Filter(s[1..], p)| <= |s| - 1;
      FilterKeepsAllBySize(s[1..], p);
    }
  }

  /** Every activity names a category the store holds. */
  predicate References(acts: seq<Activity>, cats: seq<Category>) {
    forall i :: 0 <= i < |acts| ==> HasCategoryId(cats, acts[i].category)
  }

  /** Some category has this id. */
  predicate HasCategoryId(cats: seq<Category>, id: string) {
    exists j :: 0 <= j < |cats| && cats[j].id == id
  }

  /** The cascade keeps referential integrity: once a category and its
      activities are both gone, every remaining activity still names a
      remaining category. */
  lemma CascadeKeepsReferences(acts: seq<Activity>, cats: seq<Category>, id: string)
    requires References(acts, cats)
    ensures References(WithoutCategory(acts, id), WithoutCategoryEntry(cats, id))
  {
    var acts', cats' := WithoutCategory(acts, id), WithoutCategoryEntry(cats, id);
    forall i | 0 <= i < |acts'|
      ensures HasCategoryId(cats', acts'[i].category)
    {
      var a := acts'[i];
      var k :| 0 <= k < |acts| && acts[k] == a;
      var j :| 0 <= j < |cats| && cats[j].id == a.category;
      assert cats[j] in cats';
      var j' :| 0 <= j' < |cats'| && cats'[j'] == cats[j];
    }
  }

  /** Keeping only some activities never breaks a reference. */
  lemma SelectionKeepsReferences(acts: seq<Activity>, cats: seq<Category>, p: Activity -> bool)
    requires References(acts, cats)
    ensures References(Filter(acts, p), cats)
  {
    var s := Filter(acts, p);
    forall i | 0 <= i < |s|
      ensures HasCategoryId(cats, s[i].category)
    {
      var k :| 0 <= k < |acts| && acts[k] == s[i];
    }
  }

  /** Adding a category never breaks a reference. */
  lemma AppendKeepsReferences(acts: seq<Activity>, cats: seq<Category>, c: Category)
    requires References(acts, cats)
    ensures References(acts, cats + [c])
  {
    forall i | 0 <= i < |acts|
      ensures HasCategoryId(cats + [c], acts[i].category)
    {
      assert HasCategoryId(cats, acts[i].category);
      var j :| 0 <= j < |cats| && cats[j].id == acts[i].category;
      assert (cats + [c])[j] == cats[j];
    }
  }
}
