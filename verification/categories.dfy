/** `addCategory`: the checks a new category name passes before it is
    appended, and the id it is given. */
module Categories {
  import opened Text
  import opened Schedule
  import opened Seqs

  /** The five categories a store starts with when none are stored. */
  function DefaultCategories(): (r: seq<Category>)
    ensures |r| == 5
  {
    [ Category("fitness", "Fitness & Yoga", "#28a745"),
      Category("meals", "Meals", "#ffc107"),
      Category("study", "Study", "#17a2b8"),
      Category("exam", "Exams", "#dc3545"),
      Category("travel", "Travel", "#6f42c1") ]
  }

  /** `categories.some(cat => cat.name.toLowerCase() === name.toLowerCase())`. */
  function NameTaken(cats: seq<Category>, name: string): (b: bool)
    ensures b <==> exists i :: 0 <= i < |cats| && ToLower(cats[i].name) == ToLower(name)
  {
    if cats == [] then false
    else if ToLower(cats[0].name) == ToLower(name) then true
    else
      var b := NameTaken(cats[1..], name);
      assert b ==> exists i :: 0 <= i < |cats| && ToLower(cats[i].name) == ToLower(name) by {
        if b {
          var i :| 0 <= i < |cats[1..]| && ToLower(cats[1..][i].name) == ToLower(name);
          assert cats[i + 1] == cats[1..][i];
        }
      }
      assert (exists i :: 0 <= i < |cats| && ToLower(cats[i].name) == ToLower(name)) ==> b by {
        if exists i :: 0 <= i < |cats| && ToLower(cats[i].name) == ToLower(name) {
          var i :| 0 <= i < |cats| && ToLower(cats[i].name) == ToLower(name);
          assert i != 0;
          assert cats[1..][i - 1] == cats[i];
        }
      }
      b
  }

  /** Why a name was refused, or the category that was made. */
  datatype AddOutcome = EmptyName | DuplicateName | Added(category: Category)

  /** The decision `addCategory` takes on the raw input name and colour: a
      name that trims to nothing is refused, so is one that some category
      already has ignoring case; otherwise the category is the trimmed name
      under its slug id. */
  function NewCategory(cats: seq<Category>, rawName: string, color: string): (r: AddOutcome)
    ensures r == EmptyName <==> Trim(rawName) == []
    ensures r == DuplicateName <==> Trim(rawName) != [] && NameTaken(cats, Trim(rawName))
    ensures r.Added? ==>
      r.category.name == Trim(rawName) && r.category.color == color &&
      r.category.id == Slug(r.category.name)
  {
    var name := Trim(rawName);
    if name == [] then EmptyName
    else if NameTaken(cats, name) then DuplicateName
    else Added(Category(Slug(name), name, color))
  }

  /** No two categories have names that agree ignoring case. */
  predicate DistinctNames(cats: seq<Category>) {
    forall i, j :: 0 <= i < j < |cats| ==> ToLower(cats[i].name) != ToLower(cats[j].name)
  }

  /** Deleting a category entry keeps the names of the others distinct
      ignoring case. */
  lemma DeleteKeepsNamesDistinct(cats: seq<Category>, id: string)
    requires DistinctNames(cats)
    ensures DistinctNames(WithoutCategoryEntry(cats, id))
  {
    var rel := (x: Category, y: Category) => ToLower(x.name) != ToLower(y.name);
    FilterKeepsPairwise(cats, NotCategoryId(id), rel);
    var r := WithoutCategoryEntry(cats, id);
    forall i, j | 0 <= i < j < |r|
      ensures ToLower(r[i].name) != ToLower(r[j].name)
    {
      assert rel(r[i], r[j]);
    }
  }

  /** No two categories share an id. */
  predicate DistinctIds(cats: seq<Category>) {
    forall i, j :: 0 <= i < j < |cats| ==> cats[i].id != cats[j].id
  }

  /** Adding keeps names distinct ignoring case: the duplicate check is the
      invariant's guard. */
  lemma AddKeepsNamesDistinct(cats: seq<Category>, rawName: string, color: string)
    requires DistinctNames(cats)
    requires NewCategory(cats, rawName, color).Added?
    ensures DistinctNames(cats + [NewCategory(cats, rawName, color).category])
  {
    var c := NewCategory(cats, rawName, color).category;
    var s := cats + [c];
    forall i, j | 0 <= i < j < |s|
      ensures ToLower(s[i].name) != ToLower(s[j].name)
    {
      if j == |cats| {
        assert s[i] == cats[i];
        assert !NameTaken(cats, c.name);
      }
    }
  }

  /** Adding keeps ids distinct exactly when no category already holds the
      new slug; the name check alone does not rule that out. */
  lemma AddKeepsIdsDistinct(cats: seq<Category>, rawName: string, color: string)
    requires DistinctIds(cats)
    requires NewCategory(cats, rawName, color).Added?
    ensures var c := NewCategory(cats, rawName, color).category;
      DistinctIds(cats + [c]) <==> !HasCategoryId(cats, c.id)
  {
    var c := NewCategory(cats, rawName, color).category;
    var s := cats + [c];
    if HasCategoryId(cats, c.id) {
      var i :| 0 <= i < |cats| && cats[i].id == c.id;
      assert s[i].id == s[|cats|].id;
    } else {
      forall i, j | 0 <= i < j < |s|
        ensures s[i].id != s[j].id
      {
        if j == |cats| {
          assert s[i] == cats[i];
        }
      }
    }
  }

  /** Names whose first letters differ ignoring case differ ignoring case. */
  lemma DistinctByFirstLetter(cats: seq<Category>)
    requires forall i :: 0 <= i < |cats| ==> cats[i].name != []
    requires forall i, j :: 0 <= i < j < |cats| ==>
      LowerChar(cats[i].name[0]) != LowerChar(cats[j].name[0])
    ensures DistinctNames(cats)
  {
    forall i, j | 0 <= i < j < |cats|
      ensures ToLower(cats[i].name) != ToLower(cats[j].name)
    {
      assert ToLower(cats[i].name)[0] != ToLower(cats[j].name)[0];
    }
  }

  /** The starting categories satisfy both invariants. */
  lemma DefaultsDistinct()
    ensures DistinctNames(DefaultCategories())
    ensures DistinctIds(DefaultCategories())
  {
    var d := DefaultCategories();
    assert d[0].name[0] == 'F' && d[1].name[0] == 'M' && d[2].name[0] == 'S' &&
           d[3].name[0] == 'E' && d[4].name[0] == 'T';
    DistinctByFirstLetter(d);
  }

  /** Names that differ only in case or surrounding blanks are refused, so
      "  study " cannot be added next to the default "Study". */
  lemma DuplicateIgnoresCaseAndBlanks(color: string)
    ensures NewCategory(DefaultCategories(), "  study ", color) == DuplicateName
  {
    TrimStudy();
    StudyTaken();
  }

  lemma TrimStudy()
    ensures Trim("  study ") == "study"
  {
    var s := "  study ";
    assert s[0] == ' ' && s[1] == ' ' && s[2] == 's' && !IsJsWhitespace('s');
    assert LeadingEnd(s, 0) == 2;
    assert s[7] == ' ' && s[6] == 'y' && !IsJsWhitespace('y');
    assert TrailingStart(s, 2, 8) == 7;
    assert s[2..7] == "study";
  }

  lemma StudyTaken()
    ensures NameTaken(DefaultCategories(), "study")
  {
    var d := DefaultCategories();
    assert ToLower(d[2].name) == "study";
    assert ToLower("study") == "study";
  }
}
