# Project To-Do List: a Dafny model of the task registry

The application is a Swing window for managing a group's project tasks. It holds three ordered lists in memory:

- the task list (`taskList`);
- the category list (`categoryList`);
- the group-member list (`memberList`), whose first entry is the group leader.

The window's event handlers are the only logic in the program. This project models them and proves what they guarantee. The handlers modelled are:

- Save in the Add Task / Update Task dialog;
- Delete Task;
- Add and Delete in Manage Categories;
- Add Member and Delete Selected in Manage Group Members;
- View Workload;
- the category and status filters above the table;
- the rebuild of the category filter box;
- the sample data the window starts with.

The model also covers the entities the handlers use: the mutable `Task` record, `GroupMember` with its class-sensitive `equals`, the `Status` enumeration with its display labels, and the eight-column table model.

The modules follow the source files:

| module | file | models |
|---|---|---|
| `Optional` | optional.dfy | a reference that may be null |
| `JavaLang` | java_lang.dfy | `int` wrap-around, `String.trim`, `String.equalsIgnoreCase`, `String.hashCode`, `Objects.hash` |
| `Statuses` | status.dfy | Status.java |
| `Priorities`, `Categories` | priority.dfy, category.dfy | the two classes whose sources are not shown (assumed, see below) |
| `Members` | group_member.dfy | GroupMember.java, plus GroupLeader as a class tag |
| `Tasks` | task.dfy | Task.java, as a `class` with eight fields and one setter per field |
| `TableModel` | task_table_model.dfy | TaskTableModel.java |
| `TableFilter` | table_filter.dfy | `applyTableFilters`, `updateCategoryComboBoxes` and the status box |
| `RegistrySpec` | registry_spec.dfy | the handlers as functions on list contents, and their properties |
| `TaskRegistry` | registry.dfy | the `Registry` class: the three lists as fields, and each handler as a method that changes them in place |

Each `Registry` method is proved against a function of `RegistrySpec`. The method's `ensures` states that its outcome and the new list contents are what that function computes from the old contents. The properties the program promises are then proved as lemmas about those functions:

- guards that leave the state unchanged;
- appending at the end and keeping the order;
- no task referring to a removed category or member;
- workload counts that add up to the number of tasks.

Every method also preserves `Registry.Valid()`. Under `Valid()`, no task object is listed twice, neither list holds equal entries, and every task's category and assignee are listed.

Inputs from outside the program are parameters:

- dialog answers: the text an input dialog returns (`None` for Cancel), the Yes/No of a confirmation, and the selected list entry or table row;
- the date: `LocalDate.now()` is a `today` parameter, and `LocalDate.parse` is the form's `parsedDueDate`, where `None` stands for a `DateTimeParseException`.

Dates are kept as an epoch-day count.

Where the code and its written description disagree, the model follows the code:

- Delete in Manage Categories asks for no confirmation.
- Manage Group Members tests "assigned to a task" before "is the leader", so deleting a leader who has tasks is refused as in use.
- There is no clamping of progress to 0..100 anywhere in the code. Only the spinner's bounds keep it in range. `SaveNewKeepsProgressInRange` and `SaveExistingKeepsProgressInRange` prove that the range holds as long as the spinner's value is in range.
- With an empty category list, Save of a new task would throw an `IndexOutOfBoundsException` from `categoryList.get(0)`. The model reports this as the outcome `NoCategory` and changes nothing, as the exception does.

## Model

| member | source | states |
|---|---|---|
| `JavaLang.Wrap32` | GroupMember.java:35-38 | the result is an `int` congruent to the exact value modulo 2^32, and equals it when the value already fits |
| `JavaLang.TrimStart` | ToDoListApplicatonFrame.java:321 | the result is a suffix of the input, everything dropped is a character up to U+0020, and the result does not start with one |
| `JavaLang.TrimEnd` | ToDoListApplicatonFrame.java:321 | the result is a prefix of the input, everything dropped is a character up to U+0020, and the result does not end with one |
| `JavaLang.Trim` | ToDoListApplicatonFrame.java:321-322 | the result is the input with a run of characters up to U+0020 stripped from each end; a non-empty result neither starts nor ends with such a character, and the result is empty iff every character of the input is one |
| `JavaLang.TrimIdempotent` | ToDoListApplicatonFrame.java:321 | trimming twice gives the same as trimming once |
| `JavaLang.TrimOfUnpadded` | ToDoListApplicatonFrame.java:207-208 | a string with nothing to strip at either end is its own trimmed form |
| `JavaLang.EqualsIgnoreCaseAll` | ToDoListApplicatonFrame.java:158 | `"All".equalsIgnoreCase(name)` holds iff the name is "all" in one of its eight letter-case spellings |
| `JavaLang.EqualsIgnoreCase` | ToDoListApplicatonFrame.java:158 | `equalsIgnoreCase` for a non-null argument: equal lengths and, position by position, equal characters, equal upper case, or equal lower case of the upper case (ASCII letters); no contract of its own, its use is stated by `JavaLang.EqualsIgnoreCaseAll` |
| `JavaLang.StringHashCode` | GroupMember.java:35-38 | `String.hashCode()`: h = 31 * h + c over the characters, wrapped to `int` by `JavaLang.Wrap32`; no contract of its own, its use is stated by `Members.HashCodeAgreesWithEquals` |
| `JavaLang.ObjectsHash1` | GroupMember.java:35-38 | `Objects.hash(x)` of one non-null value: 31 + the value's hash, wrapped to `int`; no contract of its own, its use is stated by `Members.HashCodeIgnoresClass` |
| `Statuses.Ordinal` | Status.java:13-16 | each constant sits at its ordinal in `Status.values()` |
| `Statuses.Label` | Status.java:24-27 | `toString()` returns the display name of each constant; no contract of its own, the names are stated by `Statuses.LabelTable` and their distinctness by `Statuses.LabelInjective` |
| `Statuses.ValuesAreTheFourConstants` | Status.java:13-16 | there are exactly four statuses, in the order NOT_STARTED, IN_PROGRESS, COMPLETED, ON_HOLD, each once, and every status is among them |
| `Statuses.LabelTable` | Status.java:13-27 | `toString` gives "Not started", "In Progress", "Completed" and "On hold" |
| `Statuses.LabelInjective` | Status.java:13-16 | two statuses have equal labels iff they are the same status |
| `Statuses.LabelIsNotAll` | Status.java:13-16 | no label is the "All" entry that the status box lists first |
| `Members.NewMember` | GroupMember.java:14-16 | `new GroupMember(name)` keeps the name, with the plain class; stated by `Members.NameRoundTrip` |
| `Members.NewLeader` | ToDoListApplicatonFrame.java:40 | `new GroupLeader(name)`, assumed to keep the name with the leader class; stated by `Members.NameRoundTrip` |
| `Members.GetName` | GroupMember.java:18-20 | `getName()` returns the stored name; stated by `Members.NameRoundTrip` |
| `Members.ToString` | GroupMember.java:22-25 | `toString()` returns the stored name; stated by `Members.NameRoundTrip` |
| `Members.Equals` | GroupMember.java:27-33 | `equals` holds iff the argument is non-null and is the same member value: same runtime class and same name |
| `Members.HashCode` | GroupMember.java:35-38 | `Objects.hash(name)`; no contract of its own, stated by `Members.HashCodeAgreesWithEquals` and `Members.HashCodeIgnoresClass` |
| `Members.NameRoundTrip` | GroupMember.java:14-25 | `getName()` and `toString()` both give back the name passed to the member's or the leader's constructor |
| `Members.EqualsIsValueEquality` | GroupMember.java:28-33 | `equals` on a non-null argument holds iff both the runtime class and the name agree |
| `Members.EqualsNullIsFalse` | GroupMember.java:29 | `equals(null)` is false |
| `Members.LeaderIsNotPlainMember` | GroupMember.java:29 | a leader never equals a plain member, in either direction, even with the same name |
| `Members.EqualsIsEquivalence` | GroupMember.java:28-33 | `equals` is reflexive, symmetric and transitive |
| `Members.HashCodeAgreesWithEquals` | GroupMember.java:35-38 | equal members have equal hash codes |
| `Members.HashCodeIgnoresClass` | GroupMember.java:35-38 | the hash code depends on the name only: a leader and a plain member of the same name hash alike but are not equal |
| `Tasks.PlusDays` | ToDoListApplicatonFrame.java:44-47 | `LocalDate.plusDays(n)`: the result lies exactly n days after the given date, so a positive n gives a later date |
| `Tasks.Task.constructor` | Task.java:16-25 | the six arguments are stored as given; status is NOT_STARTED and progress 0 whatever the arguments |
| `Tasks.Task.Data` | Task.java:28-51 | the eight getters at once: the current values of the eight fields; the setters' contracts are stated in terms of it |
| `Tasks.Task.SetTitle` | Task.java:28-29 | the title becomes the argument and the other seven fields keep their values, so `getTitle` afterwards returns it |
| `Tasks.Task.SetDescription` | Task.java:31-32 | the description becomes the argument; nothing else changes |
| `Tasks.Task.SetDueDate` | Task.java:34-35 | the due date becomes the argument; nothing else changes |
| `Tasks.Task.SetPriority` | Task.java:37-38 | the priority becomes the argument; nothing else changes |
| `Tasks.Task.SetCategory` | Task.java:40-41 | the category becomes the argument; nothing else changes |
| `Tasks.Task.SetStatus` | Task.java:43-44 | the status becomes the argument; nothing else changes |
| `Tasks.Task.SetProgressPercent` | Task.java:47-48 | the progress becomes the argument, any `int`, not clamped; nothing else changes |
| `Tasks.Task.SetAssignedTo` | Task.java:50-51 | the assignee becomes the argument, possibly null; nothing else changes |
| `TableModel.ColumnCount` | TaskTableModel.java:16-18 | `getColumnCount()`, the length of the name array; stated by `TableModel.ColumnLayout` |
| `TableModel.RowCount` | TaskTableModel.java:21-23 | `getRowCount()`, the size of the shared list; stated by `TableModel.RowCountIsListSize` |
| `TableModel.ColumnName` | TaskTableModel.java:26-28 | `getColumnName(column)` for an existing column; stated by `TableModel.ColumnLayout` |
| `TableModel.CellOf` | TaskTableModel.java:34-47 | the cell of a task is null exactly for a column outside 0..7 |
| `TableModel.ValueAt` | TaskTableModel.java:31-48 | `getValueAt(row, column)` on an existing row is null exactly for a column outside 0..7; the columns' contents are stated by `TableModel.FieldColumns` and `TableModel.NameColumns` |
| `TableModel.CellString` | ToDoListApplicatonFrame.java:159-166 | the string a row filter reads from a cell; only text cells and status cells have one |
| `TableModel.ColumnLayout` | TaskTableModel.java:9-28 | there are always 8 columns, named Title, Description, Category, Due Date, Priority, Status, Assigned To, Progress (%) in that order |
| `TableModel.RowCountIsListSize` | TaskTableModel.java:7-23 | the row count is the size of the list as it is now, and grows with it |
| `TableModel.FieldColumns` | TaskTableModel.java:34-44 | columns 0, 1, 3, 4, 5 and 7 give the task's title, description, due date, priority, status and progress |
| `TableModel.NameColumns` | TaskTableModel.java:36-42 | column 2 is the category's name; column 6 is the assignee's name, or "Unassigned" when there is none |
| `TableModel.OutOfRangeColumnIsNull` | TaskTableModel.java:45-46 | every column index outside 0..7 gives null |
| `TableModel.AssigneeColumnLosesIdentity` | TaskTableModel.java:41-42 | column 6 cannot tell an unassigned task from one assigned to a member called "Unassigned", nor a leader from a plain member of the same name |
| `TableModel.FilteredColumnStrings` | TaskTableModel.java:36-39 | the strings the filters test are the category name (column 2) and the status label (column 5) |
| `TableFilter.StatusChoiceTextsDistinct` | ToDoListApplicatonFrame.java:93-97 | the status box holds five entries, "All" and then `Status.values()` in order, and they show five different texts |
| `TableFilter.ChoiceText` | ToDoListApplicatonFrame.java:94-96 | what the status box shows: "All" or the status's label; stated by `TableFilter.StatusChoiceTextsDistinct` |
| `TableFilter.CategoryChoices` | ToDoListApplicatonFrame.java:465-467 | the rebuilt category box holds an "All" entry followed by the category list, in order |
| `TableFilter.Reselect` | ToDoListApplicatonFrame.java:468-470 | after the rebuild, the previous selection is kept if an equal entry is still offered, otherwise the first entry is selected; the selection is always an offered entry |
| `TableFilter.ReselectAfterRebuild` | ToDoListApplicatonFrame.java:463-471 | a selected category stays selected while it exists and the selection falls back to "All" once it is deleted |
| `TableFilter.CategoryFilterApplies` | ToDoListApplicatonFrame.java:157-158 | the category filter is installed for a selected category whose name is not "all" in any letter case; stated by `TableFilter.NoFilterShowsEverything` and `TableFilter.AllNamedCategoryShowsEverything` |
| `TableFilter.Passes` | ToDoListApplicatonFrame.java:153-170 | the intended row filter: exact match of the category name when a category filter applies, and of the status label when a status is selected; stated by `TableFilter.CategoryFilterIsCategoryEquality`, `TableFilter.StatusFilterIsStatusEquality` and `TableFilter.FiltersAreConjoined` |
| `TableFilter.MatchesExactly` | ToDoListApplicatonFrame.java:159-166 | the intended include test of one filter, that the cell's string is the selected text; every cell it accepts is also accepted by the regex test as written |
| `TableFilter.ViewToModelPrefix` | ToDoListApplicatonFrame.java:153-170 | among the first n rows, the shown model indices are exactly those of the passing rows, in increasing model order |
| `TableFilter.ViewToModel` | ToDoListApplicatonFrame.java:153-170 | the table shows exactly the passing tasks, in model order, with no reordering |
| `TableFilter.VisibleRows` | ToDoListApplicatonFrame.java:153-170 | the table shows, top to bottom, the task at each model index of `TableFilter.ViewToModel`: every shown task passes, every passing task is shown, and they appear in model order |
| `TableFilter.PickedRowIsListed` | ToDoListApplicatonFrame.java:169 | the row at any picked model index is among the shown rows |
| `TableFilter.AllPassingIsIdentity` | ToDoListApplicatonFrame.java:169 | when every row passes, the view shows each row once, in model order |
| `TableFilter.NoFilterShowsEverything` | ToDoListApplicatonFrame.java:158-169 | with no category filter and "All" statuses (filter `null`), every task is shown, in model order |
| `TableFilter.FilterIsIdempotent` | ToDoListApplicatonFrame.java:153-170 | filtering the visible rows again with the same selection shows the same rows |
| `TableFilter.ShownIffPasses` | ToDoListApplicatonFrame.java:153-170 | a row is shown iff it passes both filters |
| `TableFilter.StatusFilterIsStatusEquality` | ToDoListApplicatonFrame.java:163-167 | the status filter selects a task iff its status is the chosen one |
| `TableFilter.CategoryFilterIsCategoryEquality` | ToDoListApplicatonFrame.java:157-160 | an installed category filter selects a task iff its category is the chosen one |
| `TableFilter.FiltersAreConjoined` | ToDoListApplicatonFrame.java:169 | a task passes iff it passes the category filter alone and the status filter alone |
| `TableFilter.AllNamedCategoryShowsEverything` | ToDoListApplicatonFrame.java:158 | selecting a category called "all" in any letter case installs no filter, so every task is shown |
| `TableFilter.IsLineTerminator` | ToDoListApplicatonFrame.java:159 | the line terminators of `java.util.regex` without UNIX_LINES: LF, CR, U+0085, U+2028, U+2029 |
| `TableFilter.EndAnchorAt` | ToDoListApplicatonFrame.java:159 | where `$` without MULTILINE matches: at the end of the input, before a final line terminator, or before a final CR LF |
| `TableFilter.AnchoredLiteralFound` | ToDoListApplicatonFrame.java:159 | `^` + `Pattern.quote(literal)` + `$` is found: the text starts with the literal and `$` matches right after it; stated by `TableFilter.AnchoredFoundIsEqualityWithoutTrailingTerminator` |
| `TableFilter.MatchesAsWritten` | ToDoListApplicatonFrame.java:159-166 | the include test of one regex filter as written: an accepted cell's string starts with the literal and has at most two characters after it |
| `TableFilter.PassesAsWritten` | ToDoListApplicatonFrame.java:153-170 | the row filter as the code installs it, with each test the anchored regex; stated by `TableFilter.AsWrittenAgreesWithoutTrailingTerminator` and `TableFilter.TrailingTerminatorSlipsThrough` |
| `TableFilter.AnchoredFoundIsEqualityWithoutTrailingTerminator` | ToDoListApplicatonFrame.java:159-166 | on a cell string that does not end in a line terminator, the anchored quoted pattern is found iff the string equals the literal |
| `TableFilter.AsWrittenAgreesWithoutTrailingTerminator` | ToDoListApplicatonFrame.java:153-170 | the regex filter as written and exact matching agree on every task whose category name does not end in a line terminator; the status filter always agrees |
| `TableFilter.TrailingTerminatorSlipsThrough` | ToDoListApplicatonFrame.java:159 | a category "GUI" followed by U+2028 survives `trim()`, and the regex filter for "GUI" passes its tasks although exact matching does not |
| `TableFilter.LineSeparatorSurvivesTrim` | ToDoListApplicatonFrame.java:426-427 | `trim()` leaves a trailing U+2028 in place |
| `TableFilter.DollarMatchesBeforeLineSeparator` | ToDoListApplicatonFrame.java:159 | `^\QGUI\E$` is found in "GUI" followed by U+2028 |
| `TableFilter.GuiFilterApplies` | ToDoListApplicatonFrame.java:158-159 | selecting the category "GUI" installs the category filter, since "GUI" is no spelling of "all" |
| `RegistrySpec.SaveNew` | ToDoListApplicatonFrame.java:321-346 | Add Task's Save: an empty trimmed title, an empty category list, or a date that does not parse each changes nothing and names its outcome. Otherwise exactly one task is appended at the end, the earlier tasks keep their order, and the new task holds the trimmed title and description, the chosen fields, and status NOT_STARTED |
| `RegistrySpec.SaveExisting` | ToDoListApplicatonFrame.java:321-346 | Update Task's Save: an empty trimmed title changes nothing. A date that does not parse leaves the task with only its new trimmed title and description, so the due date and the rest are unchanged. Otherwise every dialog field, the status included, is written. No other task changes |
| `RegistrySpec.UpdatedRow` | ToDoListApplicatonFrame.java:328-339 | the fields Save writes into an edited task: title and description, then, if the date parses, the other dialog fields and the status; stated through `RegistrySpec.SaveExisting` |
| `RegistrySpec.SaveNewIgnoresStatus` | ToDoListApplicatonFrame.java:336-340 | the dialog's status choice has no effect on an added task |
| `RegistrySpec.SaveNewKeepsIntegrity` | ToDoListApplicatonFrame.java:327-337 | when the dialog's boxes offer only listed entries, adding a task keeps every category and assignee listed |
| `RegistrySpec.SaveExistingKeepsIntegrity` | ToDoListApplicatonFrame.java:328-339 | updating a task keeps every category and assignee listed, and the update dialog's category box is never empty |
| `RegistrySpec.SaveNewKeepsProgressInRange` | ToDoListApplicatonFrame.java:288 | with the spinner's value in 0..100, adding a task keeps every progress in 0..100 |
| `RegistrySpec.SaveExistingKeepsProgressInRange` | ToDoListApplicatonFrame.java:288 | with the spinner's value in 0..100, updating a task keeps every progress in 0..100 |
| `RegistrySpec.EnteredName` | ToDoListApplicatonFrame.java:206-208 | the input is taken iff it is not null and not blank after trimming, and then it is the trimmed text |
| `RegistrySpec.AppendIfAbsent` | ToDoListApplicatonFrame.java:209-214 | the element is appended at the end iff no equal element is present; otherwise the list is unchanged |
| `RegistrySpec.AddCategorySpec` | ToDoListApplicatonFrame.java:424-436 | Add... in Manage Categories; stated by `RegistrySpec.AddCategoryAppendsIffAbsent` |
| `RegistrySpec.AddMemberSpec` | ToDoListApplicatonFrame.java:205-216 | Add Member... in Manage Group Members; stated by `RegistrySpec.AddMemberAppendsIffAbsent` |
| `RegistrySpec.AddCategoryAppendsIffAbsent` | ToDoListApplicatonFrame.java:424-436 | a trimmed non-empty name is appended as a category iff no equal category exists; in every other case the list is unchanged |
| `RegistrySpec.AddMemberAppendsIffAbsent` | ToDoListApplicatonFrame.java:205-216 | a trimmed non-empty name is appended as a plain member iff no equal member exists; in every other case the list is unchanged |
| `RegistrySpec.LeaderNameIsNoDuplicate` | ToDoListApplicatonFrame.java:208-210 | a plain member may be added under the leader's name, because equality sees the class |
| `RegistrySpec.PlainMemberAfterLeader` | ToDoListApplicatonFrame.java:209-210 | a plain member is absent from a list holding only the leader of the same name, so it is appended after the leader |
| `RegistrySpec.AppendIfAbsentKeepsDistinct` | ToDoListApplicatonFrame.java:209-210 | appending only what is absent keeps a list free of equal entries |
| `RegistrySpec.RemoveAt` | ToDoListApplicatonFrame.java:265 | `List.remove(int)` drops the element at the index and shifts the later ones down, keeping their order |
| `RegistrySpec.FirstIndex` | ToDoListApplicatonFrame.java:244 | the index of the first element equal to the argument |
| `RegistrySpec.RemoveFirst` | ToDoListApplicatonFrame.java:244 | `List.remove(Object)` removes the first equal element, or nothing when there is none |
| `RegistrySpec.RemoveFirstOfDistinct` | ToDoListApplicatonFrame.java:244 | in a list without equal entries, removing an element removes it entirely and keeps every other element |
| `RegistrySpec.CategoryInUse` | ToDoListApplicatonFrame.java:441 | some task's category equals the selected one; used by `RegistrySpec.DeleteCategorySpec` |
| `RegistrySpec.MemberAssigned` | ToDoListApplicatonFrame.java:227-228 | the selected member `equals` some task's assignee; used by `RegistrySpec.DeleteMemberSpec` |
| `RegistrySpec.DeleteCategorySpec` | ToDoListApplicatonFrame.java:438-452 | no selection and "in use by a task" each leave the list unchanged. Otherwise the category is removed, with no confirmation |
| `RegistrySpec.DeleteMemberSpec` | ToDoListApplicatonFrame.java:219-247 | no selection, "assigned to a task" (tested first), "is the leader" and a No answer each leave the list unchanged. Only a Yes for an unassigned plain member removes it |
| `RegistrySpec.DeleteTaskSpec` | ToDoListApplicatonFrame.java:259-271 | no selected row or a No answer changes nothing; a Yes removes exactly the task at the model index |
| `RegistrySpec.DeleteCategoryKeepsIntegrity` | ToDoListApplicatonFrame.java:441-447 | a listed category is deleted iff no task uses it; afterwards it is gone and no task refers to a missing category |
| `RegistrySpec.DeleteMemberKeepsIntegrity` | ToDoListApplicatonFrame.java:227-246 | a listed member is deleted iff the answer is Yes, it is a plain member, and no task is assigned to it. Afterwards it is gone and no task refers to a missing member |
| `RegistrySpec.LeaderIsNeverDeleted` | ToDoListApplicatonFrame.java:227-239 | the leader is never deleted, whatever the confirmation says; a leader with tasks is refused as in use |
| `RegistrySpec.DeleteTaskKeepsIntegrity` | ToDoListApplicatonFrame.java:265 | deleting task k leaves the tasks before and after it in order and keeps every reference valid |
| `RegistrySpec.CountAssigned` | ToDoListApplicatonFrame.java:386-391 | the count is the number of task indices whose assignee equals the member, hence at most the number of tasks |
| `RegistrySpec.CountUnassigned` | ToDoListApplicatonFrame.java:396 | the count is the number of task indices with no assignee, hence at most the number of tasks |
| `RegistrySpec.AssignedIndicesOfPrefix` | ToDoListApplicatonFrame.java:386-391 | the tasks assigned to a member are those among all but the last, plus the last if it is assigned to the member |
| `RegistrySpec.UnassignedIndicesOfPrefix` | ToDoListApplicatonFrame.java:396 | the unassigned tasks are those among all but the last, plus the last if it is unassigned |
| `RegistrySpec.WorkloadOf` | ToDoListApplicatonFrame.java:390-394 | one line per member, in member-list order, with the member's name and the number of tasks whose assignee equals it |
| `RegistrySpec.OccurrencesInDistinct` | ToDoListApplicatonFrame.java:386-391 | in a list without equal members, an assignee matches one line if it is listed and none otherwise |
| `RegistrySpec.SumCountsOfOneMoreTask` | ToDoListApplicatonFrame.java:386-394 | one more task adds, to the summed member counts, the number of members equal to its assignee |
| `RegistrySpec.WorkloadAccountsForEveryTask` | ToDoListApplicatonFrame.java:386-397 | when every assignee is listed once, the member counts plus the unassigned count equal the number of tasks |
| `RegistrySpec.ZeroCountsSumToZero` | ToDoListApplicatonFrame.java:392-393 | lines whose counts are all zero sum to zero |
| `RegistrySpec.SampleRows` | ToDoListApplicatonFrame.java:38-53 | the sample data holds four tasks, each due after today |
| `RegistrySpec.SampleIsConsistent` | ToDoListApplicatonFrame.java:38-53 | the sample lists have no equal entries, every sample task's category and assignee are listed, and every progress is in 0..100 |
| `RegistrySpec.SampleWorkload` | ToDoListApplicatonFrame.java:384-397 | on the sample, the leader has 0 tasks, Alice 2 and Bob 1, and 1 task is unassigned |
| `TaskRegistry.WriteForm` | ToDoListApplicatonFrame.java:328-334 | the Save writes in order. After the title and description, a date that does not parse stops the writing; otherwise the due date, priority, category, assignee and progress are written too. The result says whether the date parsed |
| `TaskRegistry.WriteUpdate` | ToDoListApplicatonFrame.java:328-339 | the writes into an edited task, the status last, leave it as `SaveExisting` describes |
| `TaskRegistry.SampleTasks` | ToDoListApplicatonFrame.java:44-52 | four fresh, distinct tasks whose fields are the sample's, after the two progress and status updates |
| `TaskRegistry.Registry.Sample` | ToDoListApplicatonFrame.java:38-53 | `initializeData()`: the sample categories, the leader and two members, and the four sample tasks, in a valid state |
| `TaskRegistry.Registry.SaveTask` | ToDoListApplicatonFrame.java:319-347 | Save changes the task list as `SaveNew` or `SaveExisting` say. An added task is a fresh object at the end, and the category and member lists are unchanged. The registry stays valid |
| `TaskRegistry.Registry.SaveNewTask` | ToDoListApplicatonFrame.java:327-337 | the Add Task half of Save agrees with `SaveNew`, appends a fresh object only when Saved, and keeps the registry valid |
| `TaskRegistry.Registry.SaveExistingTask` | ToDoListApplicatonFrame.java:327-340 | the Update Task half of Save writes into the listed task object exactly what `SaveExisting` says, and keeps the registry valid |
| `TaskRegistry.Registry.AppendTask` | ToDoListApplicatonFrame.java:337 | `taskList.add` appends the object at the end, and its fields as the last row; nothing else changes |
| `TaskRegistry.Registry.DeleteTask` | ToDoListApplicatonFrame.java:259-271 | Delete Task changes the task list as `DeleteTaskSpec` says and keeps the registry valid |
| `TaskRegistry.Registry.AddCategory` | ToDoListApplicatonFrame.java:424-436 | Add... changes the category list as `AddCategorySpec` says and nothing else |
| `TaskRegistry.Registry.DeleteCategory` | ToDoListApplicatonFrame.java:438-452 | Delete changes the category list as `DeleteCategorySpec` says and nothing else; a deleted category is no longer listed |
| `TaskRegistry.Registry.AddMember` | ToDoListApplicatonFrame.java:205-216 | Add Member... changes the member list as `AddMemberSpec` says and nothing else |
| `TaskRegistry.Registry.DeleteMember` | ToDoListApplicatonFrame.java:219-247 | Delete Selected changes the member list as `DeleteMemberSpec` says and nothing else; a deleted member is no longer listed |
| `TaskRegistry.Registry.Workload` | ToDoListApplicatonFrame.java:384-397 | the loop over the member list produces `WorkloadOf` the current tasks, and the unassigned count |
| `TaskRegistry.Registry.WorkloadCoversAllTasks` | ToDoListApplicatonFrame.java:386-397 | in a valid registry the report accounts for every task exactly once |
| `TaskRegistry.SampleCategoryFilter` | ToDoListApplicatonFrame.java:153-160 | on the sample, the "GUI" filter shows the first and the last task |
| `TaskRegistry.SampleStatusFilter` | ToDoListApplicatonFrame.java:163-167 | on the sample, the "Completed" filter with category "All" shows only the third task |

## Left out

- Presentation is not modelled: layout, fonts, dialogs, the dialogs' own list models, the row-colouring renderer, and `fireTableDataChanged`. They change nothing in the three lists.
- `TableModel.ColumnName` and `TableModel.ValueAt` require an existing column or row. A `JTable` asks only for columns and rows inside its model, so the index-out-of-range exceptions Java's `getColumnName` and `getValueAt` would throw otherwise are not modelled.
- Sorting by column headers is library behaviour and is not modelled. The view is the filtered list in model order, and the selected row's model index is a parameter.
- The text formatting of the workload report is not modelled. The report is its lines without the text around them.
- `main` and `SwingUtilities.invokeLater` are event-loop threading. Each handler is modelled as an atomic step.
- The clock and date parsing are not modelled. `LocalDate.now()` is a parameter, and `LocalDate.parse` is an optional date on the form.
- Case-insensitive comparison covers ASCII letters only. No category or status text of the program needs more.
- `String.hashCode` is modelled on characters, which matches Java for the Basic Multilingual Plane only. Supplementary characters, which are two UTF-16 units in Java, are not modelled.
- Category.java, Priority.java and GroupLeader.java are not part of this model. Their behaviour is assumed:
  - a category is a name whose `equals` compares names;
  - a priority is one of LOW, MEDIUM, HIGH;
  - a leader is a `GroupMember` subclass that adds nothing but its class.
- A task whose category is null is not modelled. The dialog's category box is never empty when a task exists, because the task's own category is listed.
- Update Task with no row selected only shows a message. It changes nothing, so it has no member.
- `TaskRegistry.Registry.Sample` runs the four setters before it lists the tasks, whereas the code lists the tasks first. The four task objects are distinct, so the final state is the same.
- The dialog's initial selections (ToDoListApplicatonFrame.java:299-315) are not modelled. The form carries the values the widgets hold when Save is pressed.

## Findings

| source | as written | input that shows it | evidently intended | confidence | as-written member | corrected member |
|---|---|---|---|---|---|---|
| ToDoListApplicatonFrame.java:159 | The category filter is `regexFilter("^" + Pattern.quote(name) + "$", 2)`. Without MULTILINE, `$` also matches just before a line terminator that ends the cell string. `trim()` strips only characters up to U+0020, so a category name can end in U+0085, U+2028 or U+2029 | Add a category "GUI" followed by U+2028, give a task that category, then select "GUI" in the category filter: that task is shown too | The filter shows exactly the tasks whose category name equals the selected name | medium, not executed | `TableFilter.TrailingTerminatorSlipsThrough` (on `TableFilter.PassesAsWritten`) | `TableFilter.Passes`, with `TableFilter.CategoryFilterIsCategoryEquality` and `TableFilter.AsWrittenAgreesWithoutTrailingTerminator` |
