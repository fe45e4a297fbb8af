/**
 * The two filter boxes above the task table and the row filter they install
 * on the table's sorter: a category filter on column 2 and a status filter
 * on column 5, combined with AND. Filtering removes rows but never reorders
 * them (sorting by column headers is outside the model).
 */
module TableFilter {
  import opened Optional
  import opened JavaLang
  import opened Statuses
  import opened Categories
  import opened Tasks
  import opened TableModel

  /** An entry of the status box: the string "All" or one of the statuses. */
  datatype StatusChoice = AnyStatus | OnlyStatus(status: Status)

  /** The status box holds "All" followed by `Status.values()`, in order. */
  const StatusChoices: seq<StatusChoice> :=
    [AnyStatus] + seq(|Values|, i requires 0 <= i < |Values| => OnlyStatus(Values[i]))

  /** What the status box shows for an entry. */
  function ChoiceText(c: StatusChoice): string {
    match c
    case AnyStatus => "All"
    case OnlyStatus(s) => Label(s)
  }

  /** The status box holds "All", then the four statuses in declaration order, showing five different texts. */
  lemma StatusChoiceTextsDistinct()
    ensures |StatusChoices| == 5 && StatusChoices[0] == AnyStatus
    ensures forall i :: 0 <= i < |Values| ==> StatusChoices[i + 1] == OnlyStatus(Values[i])
    ensures forall i, j :: 0 <= i < j < |StatusChoices| ==> ChoiceText(StatusChoices[i]) != ChoiceText(StatusChoices[j])
  {
    ValuesAreTheFourConstants();
  }

  /** The extra first entry of the category box. */
  const AllCategory: Category := Category("All")

  /** The entries of the category box after it is rebuilt: the "All" entry, then the category list in order. */
  function CategoryChoices(categories: seq<Category>): (r: seq<Category>)
    ensures |r| == |categories| + 1 && r[0] == AllCategory && r[1..] == categories
  {
    [AllCategory] + categories
  }

  /**
   * The category box's selection after it is rebuilt: the entry selected
   * before, if an equal entry is still offered, otherwise the first entry
   * (adding the first item to an empty box selects it).
   */
  function Reselect(previous: Option<Category>, choices: seq<Category>): (r: Category)
    requires |choices| > 0
    ensures r in choices
    ensures previous.Some? && previous.value in choices ==> r == previous.value
    ensures (previous.None? || previous.value !in choices) ==> r == choices[0]
  {
    if previous.Some? && previous.value in choices then previous.value else choices[0]
  }

  /** Rebuilding keeps the selected category while it exists and falls back to "All" once it is deleted. */
  lemma ReselectAfterRebuild(previous: Category, categories: seq<Category>)
    ensures previous in categories ==> Reselect(Some(previous), CategoryChoices(categories)) == previous
    ensures previous !in categories && previous != AllCategory ==>
              Reselect(Some(previous), CategoryChoices(categories)) == AllCategory
  {
  }

  /** The category filter is installed only for a selected category whose name is not "all" in any letter case. */
  predicate CategoryFilterApplies(selected: Option<Category>) {
    selected.Some? && !EqualsIgnoreCase("All", selected.value.name)
  }

  /** A filter's test on one cell: its string is exactly the selected text. */
  predicate MatchesExactly(literal: string, c: Cell)
    ensures MatchesExactly(literal, c) ==> MatchesAsWritten(literal, c)
  {
    CellString(c) == Some(literal)
  }

  /** Whether a task's row passes the installed filters. */
  predicate Passes(task: TaskData, category: Option<Category>, status: StatusChoice) {
    && (CategoryFilterApplies(category) ==> MatchesExactly(category.value.name, CellOf(task, CategoryColumn)))
    && (status.OnlyStatus? ==> MatchesExactly(Label(status.status), CellOf(task, StatusColumn)))
  }

  /**
   * The model indices of the passing rows among the first `n`, in model
   * order: the sorter's view-to-model index map.
   */
  function ViewToModelPrefix(rows: seq<TaskData>, n: nat, category: Option<Category>, status: StatusChoice): (r: seq<nat>)
    requires n <= |rows|
    ensures forall j :: 0 <= j < |r| ==> r[j] < n && Passes(rows[r[j]], category, status)
    ensures forall j, j' :: 0 <= j < j' < |r| ==> r[j] < r[j']
    ensures forall k :: 0 <= k < n && Passes(rows[k], category, status) ==> k in r
    ensures |r| <= n
  {
    if n == 0 then []
    else
      var earlier := ViewToModelPrefix(rows, n - 1, category, status);
      if Passes(rows[n - 1], category, status) then earlier + [n - 1] else earlier
  }

  /** The view-to-model index map for the whole list. */
  function ViewToModel(rows: seq<TaskData>, category: Option<Category>, status: StatusChoice): (r: seq<nat>)
    ensures forall j :: 0 <= j < |r| ==> r[j] < |rows| && Passes(rows[r[j]], category, status)
    ensures forall j, j' :: 0 <= j < j' < |r| ==> r[j] < r[j']
    ensures forall k :: 0 <= k < |rows| && Passes(rows[k], category, status) ==> k in r
  {
    ViewToModelPrefix(rows, |rows|, category, status)
  }

  /** The tasks the table shows, top to bottom. */
  function VisibleRows(rows: seq<TaskData>, category: Option<Category>, status: StatusChoice): (r: seq<TaskData>)
    ensures var v := ViewToModel(rows, category, status);
            |r| == |v| && forall j :: 0 <= j < |r| ==> r[j] == rows[v[j]]
    ensures forall t :: t in r ==> Passes(t, category, status)
    ensures forall k :: 0 <= k < |rows| && Passes(rows[k], category, status) ==> rows[k] in r
  {
    var v := ViewToModel(rows, category, status);
    var r := seq(|v|, j requires 0 <= j < |v| => rows[v[j]]);
    assert forall k :: 0 <= k < |rows| && Passes(rows[k], category, status) ==> rows[k] in r by {
      forall k | 0 <= k < |rows| && Passes(rows[k], category, status) ensures rows[k] in r {
        PickedRowIsListed(rows, v, r, k);
      }
    }
    r
  }

  /** Picking the rows at the indices `v`: the row at any index in `v` is among the picked ones. */
  lemma PickedRowIsListed<T>(rows: seq<T>, v: seq<nat>, r: seq<T>, k: nat)
    requires |r| == |v| && forall j :: 0 <= j < |v| ==> v[j] < |rows| && r[j] == rows[v[j]]
    requires k in v
    ensures k < |rows| && rows[k] in r
  {
    var j :| 0 <= j < |v| && v[j] == k;
    assert r[j] == rows[k];
  }

  /** `[0, 1, ..., n - 1]`. */
  function Range(n: nat): (r: seq<nat>)
    ensures |r| == n && forall j :: 0 <= j < n ==> r[j] == j
  {
    seq(n, j => j)
  }

  /** When every row passes, the view-to-model map is the identity. */
  lemma {:induction false} AllPassingIsIdentity(rows: seq<TaskData>, n: nat, category: Option<Category>, status: StatusChoice)
    requires n <= |rows|
    requires forall i :: 0 <= i < |rows| ==> Passes(rows[i], category, status)
    ensures ViewToModelPrefix(rows, n, category, status) == Range(n)
  {
    if n > 0 {
      AllPassingIsIdentity(rows, n - 1, category, status);
      assert Range(n - 1) + [n - 1] == Range(n);
    }
  }

  /** With no category filter and "All" statuses, the table shows every task in model order. */
  lemma NoFilterShowsEverything(rows: seq<TaskData>, category: Option<Category>)
    requires !CategoryFilterApplies(category)
    ensures ViewToModel(rows, category, AnyStatus) == Range(|rows|)
    ensures VisibleRows(rows, category, AnyStatus) == rows
  {
    AllPassingIsIdentity(rows, |rows|, category, AnyStatus);
  }

  /** Filtering the visible rows again with the same selection shows the same rows. */
  lemma FilterIsIdempotent(rows: seq<TaskData>, category: Option<Category>, status: StatusChoice)
    ensures VisibleRows(VisibleRows(rows, category, status), category, status) == VisibleRows(rows, category, status)
  {
    var w := VisibleRows(rows, category, status);
    AllPassingIsIdentity(w, |w|, category, status);
  }

  /** A row is shown exactly when it passes both filters. */
  lemma ShownIffPasses(rows: seq<TaskData>, category: Option<Category>, status: StatusChoice, k: int)
    requires 0 <= k < |rows|
    ensures k in ViewToModel(rows, category, status) <==> Passes(rows[k], category, status)
  {
  }

  /** The status filter selects exactly the tasks in the chosen status (the labels are distinct). */
  lemma StatusFilterIsStatusEquality(task: TaskData, s: Status)
    ensures Passes(task, None, OnlyStatus(s)) <==> task.status == s
  {
    FilteredColumnStrings(task);
    LabelInjective(task.status, s);
  }

  /** An installed category filter selects exactly the tasks of that category. */
  lemma CategoryFilterIsCategoryEquality(task: TaskData, c: Category)
    requires CategoryFilterApplies(Some(c))
    ensures Passes(task, Some(c), AnyStatus) <==> task.category == c
  {
    FilteredColumnStrings(task);
  }

  /** The two filters are combined with AND. */
  lemma FiltersAreConjoined(task: TaskData, category: Option<Category>, status: StatusChoice)
    ensures Passes(task, category, status) <==> Passes(task, category, AnyStatus) && Passes(task, None, status)
  {
  }

  /** A category called "all" in any letter case never filters, so its own tasks cannot be singled out. */
  lemma AllNamedCategoryShowsEverything(rows: seq<TaskData>, name: string)
    requires |name| == 3 && name[0] in "aA" && name[1] in "lL" && name[2] in "lL"
    ensures VisibleRows(rows, Some(Category(name)), AnyStatus) == rows
  {
    EqualsIgnoreCaseAll(name);
    NoFilterShowsEverything(rows, Some(Category(name)));
  }

  // ---------------------------------------------------------------------
  // The filter as the code writes it: RowFilter.regexFilter with the
  // pattern "^" + Pattern.quote(text) + "$", which the sorter tests with
  // Matcher.find() on the cell string. The quoted part matches the text
  // literally, but `$` (no MULTILINE flag) also matches just before a line
  // terminator that ends the input.

  /** The line terminators of java.util.regex (no UNIX_LINES flag). */
  predicate IsLineTerminator(c: char) {
    c == '\n' || c == '\r' || c == '\U{0085}' || c == '\U{2028}' || c == '\U{2029}'
  }

  /** Whether `$` matches at position `i` of `text`. */
  predicate EndAnchorAt(text: string, i: nat)
    requires i <= |text|
  {
    || i == |text|
    || (i == |text| - 1 && IsLineTerminator(text[i]) && !(text[i] == '\n' && i > 0 && text[i - 1] == '\r'))
    || (i + 2 == |text| && text[i] == '\r' && text[i + 1] == '\n')
  }

  /** Whether the anchored, quoted pattern for `literal` is found in `text`. */
  predicate AnchoredLiteralFound(literal: string, text: string) {
    |literal| <= |text| && text[..|literal|] == literal && EndAnchorAt(text, |literal|)
  }

  /** A filter's test on one cell, as written. */
  predicate MatchesAsWritten(literal: string, c: Cell)
    ensures MatchesAsWritten(literal, c) ==>
              && CellString(c).Some?
              && var text := CellString(c).value;
                 |literal| <= |text| <= |literal| + 2 && text[..|literal|] == literal
  {
    CellString(c).Some? && AnchoredLiteralFound(literal, CellString(c).value)
  }

  /** `Passes`, with each exact test replaced by the regex test the code installs. */
  predicate PassesAsWritten(task: TaskData, category: Option<Category>, status: StatusChoice) {
    && (CategoryFilterApplies(category) ==> MatchesAsWritten(category.value.name, CellOf(task, CategoryColumn)))
    && (status.OnlyStatus? ==> MatchesAsWritten(Label(status.status), CellOf(task, StatusColumn)))
  }

  /** Whether the last character of `text` is a line terminator. */
  predicate EndsInLineTerminator(text: string) {
    text != [] && IsLineTerminator(text[|text| - 1])
  }

  /** On a text that does not end in a line terminator, the regex test is string equality. */
  lemma AnchoredFoundIsEqualityWithoutTrailingTerminator(literal: string, text: string)
    requires !EndsInLineTerminator(text)
    ensures AnchoredLiteralFound(literal, text) <==> text == literal
  {
    if AnchoredLiteralFound(literal, text) {
      assert |literal| == |text|;
      assert text == text[..|literal|];
    }
  }

  /** The two versions agree on every task whose category name does not end in a line terminator; so the status filter is always exact. */
  lemma AsWrittenAgreesWithoutTrailingTerminator(task: TaskData, category: Option<Category>, status: StatusChoice)
    requires !EndsInLineTerminator(task.category.name)
    ensures PassesAsWritten(task, category, status) <==> Passes(task, category, status)
  {
    FilteredColumnStrings(task);
    if category.Some? {
      AnchoredFoundIsEqualityWithoutTrailingTerminator(category.value.name, task.category.name);
    }
    if status.OnlyStatus? {
      assert !EndsInLineTerminator(Label(task.status));
      AnchoredFoundIsEqualityWithoutTrailingTerminator(Label(status.status), Label(task.status));
    }
  }

  /**
   * A category named "GUI" followed by U+2028 survives `trim()`, so Manage
   * Categories can create it; selecting "GUI" in the category box then also
   * shows that category's tasks, which the corrected test does not.
   */
  lemma TrailingTerminatorSlipsThrough(task: TaskData)
    requires task.category == Category("GUI\U{2028}")
    ensures Trim("GUI\U{2028}") == "GUI\U{2028}"
    ensures PassesAsWritten(task, Some(Category("GUI")), AnyStatus)
    ensures !Passes(task, Some(Category("GUI")), AnyStatus)
  {
    GuiFilterApplies();
    FilteredColumnStrings(task);
    var cell := CellOf(task, CategoryColumn);
    assert CellString(cell) == Some("GUI\U{2028}");
    DollarMatchesBeforeLineSeparator();
    assert MatchesAsWritten("GUI", cell);
    assert !MatchesExactly("GUI", cell) by {
      assert |"GUI\U{2028}"| != |"GUI"|;
    }
    LineSeparatorSurvivesTrim();
  }

  /** "GUI" is not a spelling of "all", so selecting it installs the category filter. */
  lemma GuiFilterApplies()
    ensures CategoryFilterApplies(Some(Category("GUI")))
  {
    EqualsIgnoreCaseAll("GUI");
    assert "GUI"[0] !in "aA";
  }

  /** `String.trim` strips only characters up to U+0020, so a trailing U+2028 stays. */
  lemma LineSeparatorSurvivesTrim()
    ensures Trim("GUI\U{2028}") == "GUI\U{2028}"
  {
    TrimOfUnpadded("GUI\U{2028}");
  }

  /** `^\QGUI\E$` is found in "GUI" followed by U+2028: `$` matches before the final terminator. */
  lemma DollarMatchesBeforeLineSeparator()
    ensures AnchoredLiteralFound("GUI", "GUI\U{2028}")
  {
    var text := "GUI\U{2028}";
    assert text[..3] == "GUI";
  }
}
