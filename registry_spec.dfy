/**
 * What the main window's event handlers do to the three lists, stated on
 * values: `rows` is the task list's contents, one `TaskData` per task, in
 * list order. The `TaskRegistry` class performs these steps in place and is
 * proved to agree with the functions here.
 */
module RegistrySpec {
  import opened Optional
  import opened JavaLang
  import opened Statuses
  import opened Priorities
  import opened Categories
  import opened Members
  import opened Tasks

  predicate Distinct<T(==)>(s: seq<T>) {
    forall i, j :: 0 <= i < j < |s| ==> s[i] != s[j]
  }

  /** Every task's category is in the category list and every assignee is in the member list. */
  predicate Integrity(rows: seq<TaskData>, categories: seq<Category>, members: seq<Member>) {
    forall i :: 0 <= i < |rows| ==>
      rows[i].category in categories && (rows[i].assignedTo.Some? ==> rows[i].assignedTo.value in members)
  }

  /** Every task's progress lies in 0..100, the range of the dialog's spinner. */
  predicate ProgressInRange(rows: seq<TaskData>) {
    forall i :: 0 <= i < |rows| ==> 0 <= rows[i].progressPercent <= 100
  }

  // ---------------------------------------------------------------------
  // Save in the task dialog

  /**
   * The task dialog's widgets when Save is pressed. `parsedDueDate` is what
   * `LocalDate.parse` makes of the trimmed date text: None when it throws
   * DateTimeParseException. `category` is the category box's selection,
   * None only when the box is empty; `assignee` is the member box's
   * selection, None for no one.
   */
  datatype TaskForm = TaskForm(
    titleText: string,
    descriptionText: string,
    parsedDueDate: Option<Date>,
    priority: Priority,
    category: Option<Category>,
    assignee: Option<Member>,
    progress: Int32,
    status: Status)

  /** The dialog's boxes offer only entries of the current lists, and the category box is empty only when the list is. */
  predicate FormOffers(form: TaskForm, categories: seq<Category>, members: seq<Member>) {
    && (form.category.None? <==> categories == [])
    && (form.category.Some? ==> form.category.value in categories)
    && (form.assignee.Some? ==> form.assignee.value in members)
  }

  /**
   * How Save ends: the task is saved; or "Title cannot be empty."; or the
   * uncaught IndexOutOfBoundsException of `categoryList.get(0)` when a task
   * is added with no category defined; or "Invalid date format.".
   */
  datatype SaveOutcome = Saved | EmptyTitle | NoCategory | BadDate

  /** Save in the Add Task dialog: validate, build the new task, append it. */
  function SaveNew(rows: seq<TaskData>, categories: seq<Category>, form: TaskForm): (r: (SaveOutcome, seq<TaskData>))
    requires categories != [] ==> form.category.Some?
    ensures r.0 == EmptyTitle <==> Trim(form.titleText) == []
    ensures r.0 == NoCategory <==> Trim(form.titleText) != [] && categories == []
    ensures r.0 == BadDate <==> Trim(form.titleText) != [] && categories != [] && form.parsedDueDate.None?
    ensures r.0 != Saved ==> r.1 == rows
    ensures r.0 == Saved ==> |r.1| == |rows| + 1 && r.1[..|rows|] == rows
    ensures r.0 == Saved ==>
              r.1[|rows|] == TaskData(Trim(form.titleText), Trim(form.descriptionText), form.parsedDueDate.value,
                                      form.priority, form.category.value, NotStarted, form.progress, form.assignee)
  {
    var title := Trim(form.titleText);
    if title == [] then (EmptyTitle, rows)
    else if categories == [] then (NoCategory, rows)
    else if form.parsedDueDate.None? then (BadDate, rows)
    else
      var task := TaskData(title, Trim(form.descriptionText), form.parsedDueDate.value, form.priority,
                           form.category.value, NotStarted, form.progress, form.assignee);
      (Saved, rows + [task])
  }

  /**
   * Save in the Update Task dialog for the task at index `k`. The fields are
   * written in order, and a date that does not parse stops the writing after
   * the title and the description. (The category box of an update dialog is
   * never empty: the task's own category is in the list.)
   */
  function SaveExisting(rows: seq<TaskData>, k: nat, form: TaskForm): (r: (SaveOutcome, seq<TaskData>))
    requires k < |rows|
    requires form.category.Some?
    ensures r.0 == EmptyTitle <==> Trim(form.titleText) == []
    ensures r.0 == BadDate <==> Trim(form.titleText) != [] && form.parsedDueDate.None?
    ensures r.0 != NoCategory
    ensures |r.1| == |rows| && forall i :: 0 <= i < |rows| && i != k ==> r.1[i] == rows[i]
    ensures r.0 == EmptyTitle ==> r.1 == rows
    ensures r.0 == BadDate ==>
              r.1[k] == rows[k].(title := Trim(form.titleText), description := Trim(form.descriptionText))
    ensures r.0 == Saved ==>
              r.1[k] == TaskData(Trim(form.titleText), Trim(form.descriptionText), form.parsedDueDate.value,
                                 form.priority, form.category.value, form.status, form.progress, form.assignee)
  {
    if Trim(form.titleText) == [] then (EmptyTitle, rows)
    else (if form.parsedDueDate.None? then BadDate else Saved, rows[k := UpdatedRow(rows[k], form)])
  }

  /**
   * What Save writes into an existing task: the trimmed title and
   * description, then, if the date parses, the other dialog fields and the
   * status.
   */
  function UpdatedRow(row: TaskData, form: TaskForm): TaskData
    requires form.category.Some?
  {
    var written := row.(title := Trim(form.titleText), description := Trim(form.descriptionText));
    if form.parsedDueDate.None? then written
    else
      written.(dueDate := form.parsedDueDate.value, priority := form.priority, category := form.category.value,
               assignedTo := form.assignee, progressPercent := form.progress, status := form.status)
  }

  /** The status box of the dialog has no effect when a task is added. */
  lemma SaveNewIgnoresStatus(rows: seq<TaskData>, categories: seq<Category>, form: TaskForm, s: Status)
    requires categories != [] ==> form.category.Some?
    ensures SaveNew(rows, categories, form) == SaveNew(rows, categories, form.(status := s))
  {
  }

  /** Adding a task keeps every category and assignee in its list. */
  lemma SaveNewKeepsIntegrity(rows: seq<TaskData>, categories: seq<Category>, members: seq<Member>, form: TaskForm)
    requires Integrity(rows, categories, members) && FormOffers(form, categories, members)
    ensures Integrity(SaveNew(rows, categories, form).1, categories, members)
  {
    var r := SaveNew(rows, categories, form);
    if r.0 == Saved {
      forall i | 0 <= i < |r.1|
        ensures r.1[i].category in categories && (r.1[i].assignedTo.Some? ==> r.1[i].assignedTo.value in members)
      {
        if i < |rows| {
          assert r.1[i] == r.1[..|rows|][i] == rows[i];
        }
      }
    }
  }

  /** Updating a task keeps every category and assignee in its list. */
  lemma SaveExistingKeepsIntegrity(rows: seq<TaskData>, k: nat, categories: seq<Category>, members: seq<Member>, form: TaskForm)
    requires k < |rows|
    requires Integrity(rows, categories, members) && FormOffers(form, categories, members)
    ensures form.category.Some?
    ensures Integrity(SaveExisting(rows, k, form).1, categories, members)
  {
    assert rows[k].category in categories;
  }

  /** With the spinner's value in 0..100, adding a task keeps every progress in 0..100. */
  lemma SaveNewKeepsProgressInRange(rows: seq<TaskData>, categories: seq<Category>, form: TaskForm)
    requires ProgressInRange(rows) && 0 <= form.progress <= 100
    requires categories != [] ==> form.category.Some?
    ensures ProgressInRange(SaveNew(rows, categories, form).1)
  {
    var r := SaveNew(rows, categories, form);
    if r.0 == Saved {
      forall i | 0 <= i < |r.1| ensures 0 <= r.1[i].progressPercent <= 100 {
        if i < |rows| {
          assert r.1[i] == r.1[..|rows|][i] == rows[i];
        }
      }
    }
  }

  /** With the spinner's value in 0..100, updating a task keeps every progress in 0..100. */
  lemma SaveExistingKeepsProgressInRange(rows: seq<TaskData>, k: nat, form: TaskForm)
    requires ProgressInRange(rows) && 0 <= form.progress <= 100
    requires k < |rows| && form.category.Some?
    ensures ProgressInRange(SaveExisting(rows, k, form).1)
  {
  }

  // ---------------------------------------------------------------------
  // Add Member... and Add... in the two manage dialogs

  /** How an Add ends: appended, blank or cancelled input (nothing happens), or the "already exists" warning. */
  datatype AddOutcome = Added | Blank | Duplicate

  /** The trimmed text an input dialog returned; None when it was cancelled (null) or blank. */
  function EnteredName(input: Option<string>): (r: Option<string>)
    ensures r.Some? <==> input.Some? && Trim(input.value) != []
    ensures r.Some? ==> r.value == Trim(input.value)
  {
    if input.Some? && Trim(input.value) != [] then Some(Trim(input.value)) else None
  }

  /** `if (!list.contains(x)) list.add(x)`. */
  function AppendIfAbsent<T(==)>(list: seq<T>, x: T): (r: (AddOutcome, seq<T>))
    ensures r.0 != Blank
    ensures r.0 == Added <==> x !in list
    ensures r.0 == Added ==> r.1 == list + [x]
    ensures r.0 == Duplicate ==> r.1 == list
  {
    if x in list then (Duplicate, list) else (Added, list + [x])
  }

  function AddCategorySpec(categories: seq<Category>, input: Option<string>): (AddOutcome, seq<Category>) {
    match EnteredName(input)
    case None => (Blank, categories)
    case Some(name) => AppendIfAbsent(categories, Category(name))
  }

  function AddMemberSpec(members: seq<Member>, input: Option<string>): (AddOutcome, seq<Member>) {
    match EnteredName(input)
    case None => (Blank, members)
    case Some(name) => AppendIfAbsent(members, NewMember(name))
  }

  /** A trimmed, non-empty name is appended at the end exactly when no equal category exists; otherwise nothing changes. */
  lemma AddCategoryAppendsIffAbsent(categories: seq<Category>, input: Option<string>)
    ensures var r := AddCategorySpec(categories, input);
            && (r.0 == Added <==> EnteredName(input).Some? && Category(EnteredName(input).value) !in categories)
            && (r.0 == Added ==> r.1 == categories + [Category(Trim(input.value))])
            && (r.0 != Added ==> r.1 == categories)
  {
  }

  /**
   * A trimmed, non-empty name is appended as a plain member exactly when no
   * equal member exists (equality sees the class, so the leader's name is
   * not taken); otherwise nothing changes.
   */
  lemma AddMemberAppendsIffAbsent(members: seq<Member>, input: Option<string>)
    ensures var r := AddMemberSpec(members, input);
            && (r.0 == Added <==> EnteredName(input).Some? && NewMember(EnteredName(input).value) !in members)
            && (r.0 == Added ==> r.1 == members + [NewMember(Trim(input.value))])
            && (r.0 != Added ==> r.1 == members)
  {
  }

  /** A plain member may be added under the leader's name. */
  lemma LeaderNameIsNoDuplicate(name: string)
    requires name != [] && !IsTrimmable(name[0]) && !IsTrimmable(name[|name| - 1])
    ensures AddMemberSpec([NewLeader(name)], Some(name)) == (Added, [NewLeader(name), NewMember(name)])
  {
    TrimOfUnpadded(name);
    assert EnteredName(Some(name)) == Some(name);
    assert AddMemberSpec([NewLeader(name)], Some(name)) == AppendIfAbsent([NewLeader(name)], NewMember(name));
    PlainMemberAfterLeader(name);
  }

  /** A plain member is absent from a list holding only the leader of the same name, so it is appended after it. */
  lemma PlainMemberAfterLeader(name: string)
    ensures AppendIfAbsent([NewLeader(name)], NewMember(name)) == (Added, [NewLeader(name), NewMember(name)])
  {
    assert NewMember(name) !in [NewLeader(name)];
    assert [NewLeader(name)] + [NewMember(name)] == [NewLeader(name), NewMember(name)];
  }

  /** Appending only what is absent keeps a list free of duplicates. */
  lemma AppendIfAbsentKeepsDistinct<T>(list: seq<T>, x: T)
    requires Distinct(list)
    ensures Distinct(AppendIfAbsent(list, x).1)
  {
  }

  // ---------------------------------------------------------------------
  // Removal from a list

  /** `List.remove(int)`. */
  function RemoveAt<T>(s: seq<T>, k: nat): (r: seq<T>)
    requires k < |s|
    ensures |r| == |s| - 1
    ensures forall i :: 0 <= i < k ==> r[i] == s[i]
    ensures forall i :: k <= i < |r| ==> r[i] == s[i + 1]
  {
    s[..k] + s[k + 1..]
  }

  /** The index of the first element equal to `x`. */
  function FirstIndex<T(==)>(s: seq<T>, x: T): (r: nat)
    requires x in s
    ensures r < |s| && s[r] == x
    ensures forall j :: 0 <= j < r ==> s[j] != x
  {
    if s[0] == x then 0 else 1 + FirstIndex(s[1..], x)
  }

  /** `List.remove(Object)`: removes the first equal element, if there is one. */
  function RemoveFirst<T(==)>(s: seq<T>, x: T): (r: seq<T>)
    ensures x !in s ==> r == s
    ensures x in s ==> r == RemoveAt(s, FirstIndex(s, x))
  {
    if x in s then RemoveAt(s, FirstIndex(s, x)) else s
  }

  /** In a list without duplicates, removing `x` removes it entirely and keeps every other element and the order. */
  lemma {:induction false} RemoveFirstOfDistinct<T>(s: seq<T>, x: T)
    requires Distinct(s) && x in s
    ensures var r := RemoveFirst(s, x);
            && x !in r && Distinct(r) && |r| == |s| - 1
            && forall y :: y != x ==> (y in r <==> y in s)
  {
    var k := FirstIndex(s, x);
    var r := RemoveFirst(s, x);
    forall i | 0 <= i < |r| ensures r[i] != x {
      if i < k { assert r[i] == s[i]; } else { assert r[i] == s[i + 1]; }
    }
    forall i, j | 0 <= i < j < |r| ensures r[i] != r[j] {
      var i' := if i < k then i else i + 1;
      var j' := if j < k then j else j + 1;
      assert r[i] == s[i'] && r[j] == s[j'];
    }
    forall y | y != x ensures y in r <==> y in s {
      if y in s {
        var m :| 0 <= m < |s| && s[m] == y;
        assert m != k;
        if m < k { assert r[m] == y; } else { assert r[m - 1] == y; }
      }
      if y in r {
        var m :| 0 <= m < |r| && r[m] == y;
        if m < k { assert s[m] == y; } else { assert s[m + 1] == y; }
      }
    }
  }

  // ---------------------------------------------------------------------
  // Delete in the two manage dialogs, and Delete Task

  /** How a Delete ends: removed; nothing selected; in use by a task; "Cannot delete the group leader."; or the confirmation was answered No. */
  datatype DeleteOutcome = Deleted | NothingSelected | InUse | LeaderProtected | Declined

  /** Some task's category equals `c`. */
  predicate CategoryInUse(rows: seq<TaskData>, c: Category) {
    exists i :: 0 <= i < |rows| && rows[i].category == c
  }

  /** Some task's assignee is equal to `m` (`m.equals(task.getAssignedTo())`). */
  predicate MemberAssigned(rows: seq<TaskData>, m: Member) {
    exists i :: 0 <= i < |rows| && Equals(m, rows[i].assignedTo)
  }

  /** Delete in Manage Categories: refused while a task uses the category; there is no confirmation. */
  function DeleteCategorySpec(rows: seq<TaskData>, categories: seq<Category>, selected: Option<Category>): (r: (DeleteOutcome, seq<Category>))
    ensures r.0 in {Deleted, NothingSelected, InUse}
    ensures r.0 == NothingSelected <==> selected.None?
    ensures r.0 == InUse <==> selected.Some? && CategoryInUse(rows, selected.value)
    ensures r.0 != Deleted ==> r.1 == categories
    ensures r.0 == Deleted ==> r.1 == RemoveFirst(categories, selected.value)
  {
    match selected
    case None => (NothingSelected, categories)
    case Some(c) =>
      if CategoryInUse(rows, c) then (InUse, categories) else (Deleted, RemoveFirst(categories, c))
  }

  /**
   * Delete Selected in Manage Group Members: refused while a task is
   * assigned to the member (tested first) and for the leader; otherwise
   * removed if the confirmation is answered Yes.
   */
  function DeleteMemberSpec(rows: seq<TaskData>, members: seq<Member>, selected: Option<Member>, confirmed: bool): (r: (DeleteOutcome, seq<Member>))
    ensures r.0 == NothingSelected <==> selected.None?
    ensures r.0 == InUse <==> selected.Some? && MemberAssigned(rows, selected.value)
    ensures r.0 == LeaderProtected <==>
              selected.Some? && !MemberAssigned(rows, selected.value) && selected.value.runtimeClass == GroupLeader
    ensures r.0 == Declined <==>
              selected.Some? && !MemberAssigned(rows, selected.value) && selected.value.runtimeClass != GroupLeader && !confirmed
    ensures r.0 != Deleted ==> r.1 == members
    ensures r.0 == Deleted ==> r.1 == RemoveFirst(members, selected.value)
  {
    match selected
    case None => (NothingSelected, members)
    case Some(m) =>
      if MemberAssigned(rows, m) then (InUse, members)
      else if m.runtimeClass == GroupLeader then (LeaderProtected, members)
      else if !confirmed then (Declined, members)
      else (Deleted, RemoveFirst(members, m))
  }

  /** Delete Task for the model index of the selected row (None: no row selected), after a Yes. */
  function DeleteTaskSpec<T>(tasks: seq<T>, selected: Option<nat>, confirmed: bool): (r: (DeleteOutcome, seq<T>))
    requires selected.Some? ==> selected.value < |tasks|
    ensures r.0 in {Deleted, NothingSelected, Declined}
    ensures r.0 == NothingSelected <==> selected.None?
    ensures r.0 == Declined <==> selected.Some? && !confirmed
    ensures r.0 != Deleted ==> r.1 == tasks
    ensures r.0 == Deleted ==> r.1 == RemoveAt(tasks, selected.value)
  {
    match selected
    case None => (NothingSelected, tasks)
    case Some(k) => if confirmed then (Deleted, RemoveAt(tasks, k)) else (Declined, tasks)
  }

  /** A category can be deleted exactly when no task uses it; afterwards no task refers to it and the lists stay consistent. */
  lemma DeleteCategoryKeepsIntegrity(rows: seq<TaskData>, categories: seq<Category>, members: seq<Member>, c: Category)
    requires Integrity(rows, categories, members) && Distinct(categories) && c in categories
    ensures var r := DeleteCategorySpec(rows, categories, Some(c));
            && (r.0 == Deleted <==> forall i :: 0 <= i < |rows| ==> rows[i].category != c)
            && (r.0 == Deleted ==> c !in r.1 && Distinct(r.1) && Integrity(rows, r.1, members))
  {
    var r := DeleteCategorySpec(rows, categories, Some(c));
    if r.0 == Deleted {
      RemoveFirstOfDistinct(categories, c);
      forall i | 0 <= i < |rows| ensures rows[i].category in r.1 {
        assert rows[i].category != c;
      }
    }
  }

  /** A member can be deleted only when no task is assigned to it and it is no leader; afterwards no task refers to it and the lists stay consistent. */
  lemma DeleteMemberKeepsIntegrity(rows: seq<TaskData>, categories: seq<Category>, members: seq<Member>, m: Member, confirmed: bool)
    requires Integrity(rows, categories, members) && Distinct(members) && m in members
    ensures var r := DeleteMemberSpec(rows, members, Some(m), confirmed);
            && (r.0 == Deleted <==>
                  confirmed && m.runtimeClass == PlainMember && forall i :: 0 <= i < |rows| ==> rows[i].assignedTo != Some(m))
            && (r.0 == Deleted ==> m !in r.1 && Distinct(r.1) && Integrity(rows, categories, r.1))
  {
    var r := DeleteMemberSpec(rows, members, Some(m), confirmed);
    if !MemberAssigned(rows, m) {
      forall i | 0 <= i < |rows| ensures rows[i].assignedTo != Some(m) {
        assert !Equals(m, rows[i].assignedTo);
      }
    } else {
      var i :| 0 <= i < |rows| && Equals(m, rows[i].assignedTo);
      assert rows[i].assignedTo == Some(m);
    }
    if r.0 == Deleted {
      RemoveFirstOfDistinct(members, m);
      forall i | 0 <= i < |rows| && rows[i].assignedTo.Some? ensures rows[i].assignedTo.value in r.1 {
        assert rows[i].assignedTo.value != m;
      }
    }
  }

  /** The leader is never deleted, whatever the answer to the confirmation. */
  lemma LeaderIsNeverDeleted(rows: seq<TaskData>, members: seq<Member>, name: string, confirmed: bool)
    ensures DeleteMemberSpec(rows, members, Some(NewLeader(name)), confirmed) == (
              if MemberAssigned(rows, NewLeader(name)) then InUse else LeaderProtected, members)
  {
  }

  /** Deleting a task keeps the others in order and keeps every reference valid. */
  lemma DeleteTaskKeepsIntegrity(rows: seq<TaskData>, categories: seq<Category>, members: seq<Member>, k: nat)
    requires k < |rows| && Integrity(rows, categories, members)
    ensures var r := DeleteTaskSpec(rows, Some(k), true).1;
            && r == rows[..k] + rows[k + 1..]
            && Integrity(r, categories, members)
  {
    var r := DeleteTaskSpec(rows, Some(k), true).1;
    forall i | 0 <= i < |r|
      ensures r[i].category in categories && (r[i].assignedTo.Some? ==> r[i].assignedTo.value in members)
    {
      if i < k { assert r[i] == rows[i]; } else { assert r[i] == rows[i + 1]; }
    }
  }

  // ---------------------------------------------------------------------
  // View Workload

  /** One line of the workload summary: a member's name and the number of tasks assigned to it. */
  datatype WorkloadLine = WorkloadLine(name: string, count: nat)

  /** The number of tasks whose assignee equals `m`: the size of `m`'s group in `groupingBy(Task::getAssignedTo)`. */
  function CountAssigned(rows: seq<TaskData>, m: Member): (r: nat)
    ensures r <= |rows|
    ensures r == |set i | 0 <= i < |rows| && Equals(m, rows[i].assignedTo)|
  {
    if rows == [] then 0
    else
      var n := CountAssigned(rows[..|rows| - 1], m) + (if Equals(m, rows[|rows| - 1].assignedTo) then 1 else 0);
      AssignedIndicesOfPrefix(rows, m);
      n
  }

  /** The tasks assigned to `m` are those among all but the last, and the last one if it is assigned to `m`. */
  lemma AssignedIndicesOfPrefix(rows: seq<TaskData>, m: Member)
    requires rows != []
    ensures var front := rows[..|rows| - 1];
            |set i | 0 <= i < |rows| && Equals(m, rows[i].assignedTo)| ==
              |set i | 0 <= i < |front| && Equals(m, front[i].assignedTo)|
              + (if Equals(m, rows[|rows| - 1].assignedTo) then 1 else 0)
  {
    var front := rows[..|rows| - 1];
    var all := set i | 0 <= i < |rows| && Equals(m, rows[i].assignedTo);
    var earlier := set i | 0 <= i < |front| && Equals(m, front[i].assignedTo);
    var last: set<int> := if Equals(m, rows[|rows| - 1].assignedTo) then {|rows| - 1} else {};
    assert all == earlier + last;
    assert |rows| - 1 !in earlier;
  }

  /** The number of tasks without an assignee. */
  function CountUnassigned(rows: seq<TaskData>): (r: nat)
    ensures r <= |rows|
    ensures r == |set i | 0 <= i < |rows| && rows[i].assignedTo.None?|
  {
    if rows == [] then 0
    else
      var n := CountUnassigned(rows[..|rows| - 1]) + (if rows[|rows| - 1].assignedTo.None? then 1 else 0);
      UnassignedIndicesOfPrefix(rows);
      n
  }

  /** The unassigned tasks are those among all but the last, and the last one if it is unassigned. */
  lemma UnassignedIndicesOfPrefix(rows: seq<TaskData>)
    requires rows != []
    ensures var front := rows[..|rows| - 1];
            |set i | 0 <= i < |rows| && rows[i].assignedTo.None?| ==
              |set i | 0 <= i < |front| && front[i].assignedTo.None?|
              + (if rows[|rows| - 1].assignedTo.None? then 1 else 0)
  {
    var front := rows[..|rows| - 1];
    var all := set i | 0 <= i < |rows| && rows[i].assignedTo.None?;
    var earlier := set i | 0 <= i < |front| && front[i].assignedTo.None?;
    var last: set<int> := if rows[|rows| - 1].assignedTo.None? then {|rows| - 1} else {};
    assert all == earlier + last;
    assert |rows| - 1 !in earlier;
  }

  /** The per-member lines of the summary, in member-list order. */
  function WorkloadOf(rows: seq<TaskData>, members: seq<Member>): (r: seq<WorkloadLine>)
    ensures |r| == |members|
    ensures forall j :: 0 <= j < |members| ==> r[j] == WorkloadLine(members[j].name, CountAssigned(rows, members[j]))
  {
    if members == [] then []
    else
      var last := members[|members| - 1];
      WorkloadOf(rows, members[..|members| - 1]) + [WorkloadLine(last.name, CountAssigned(rows, last))]
  }

  function SumCounts(lines: seq<WorkloadLine>): nat {
    if lines == [] then 0 else SumCounts(lines[..|lines| - 1]) + lines[|lines| - 1].count
  }

  /** How many members of the list equal the assignee `a`. */
  function Occurrences(members: seq<Member>, a: Option<Member>): nat {
    if members == [] then 0
    else Occurrences(members[..|members| - 1], a) + (if Equals(members[|members| - 1], a) then 1 else 0)
  }

  /** In a list without duplicates, an assignee occurs once if it is listed and not at all otherwise. */
  lemma {:induction false} OccurrencesInDistinct(members: seq<Member>, a: Option<Member>)
    requires Distinct(members)
    ensures Occurrences(members, a) == if a.Some? && a.value in members then 1 else 0
  {
    if members != [] {
      var front := members[..|members| - 1];
      var last := members[|members| - 1];
      assert Distinct(front);
      OccurrencesInDistinct(front, a);
      assert members == front + [last];
      if a.Some? && a.value == last {
        assert last !in front;
      }
      assert a.Some? ==> (a.value in members <==> a.value in front || a.value == last);
    }
  }

  /** Adding one task to the list adds, to the summed member counts, the number of members equal to its assignee. */
  lemma {:induction false} SumCountsOfOneMoreTask(rows: seq<TaskData>, t: TaskData, members: seq<Member>)
    ensures SumCounts(WorkloadOf(rows + [t], members)) == SumCounts(WorkloadOf(rows, members)) + Occurrences(members, t.assignedTo)
  {
    if members != [] {
      var front := members[..|members| - 1];
      var last := members[|members| - 1];
      SumCountsOfOneMoreTask(rows, t, front);
      assert (rows + [t])[..|rows + [t]| - 1] == rows;
      assert CountAssigned(rows + [t], last) == CountAssigned(rows, last) + (if Equals(last, t.assignedTo) then 1 else 0);
      var big := WorkloadOf(rows + [t], members);
      var small := WorkloadOf(rows, members);
      assert big[..|big| - 1] == WorkloadOf(rows + [t], front);
      assert small[..|small| - 1] == WorkloadOf(rows, front);
    }
  }

  /**
   * When every assignee is in the member list and the list has no
   * duplicates, the member counts and the unassigned count add up to the
   * number of tasks.
   */
  lemma {:induction false} WorkloadAccountsForEveryTask(rows: seq<TaskData>, members: seq<Member>)
    requires Distinct(members)
    requires forall i :: 0 <= i < |rows| && rows[i].assignedTo.Some? ==> rows[i].assignedTo.value in members
    ensures SumCounts(WorkloadOf(rows, members)) + CountUnassigned(rows) == |rows|
  {
    if rows == [] {
      var w := WorkloadOf(rows, members);
      assert SumCounts(w) == 0 by { ZeroCountsSumToZero(w); }
    } else {
      var front := rows[..|rows| - 1];
      var t := rows[|rows| - 1];
      assert rows == front + [t];
      WorkloadAccountsForEveryTask(front, members);
      SumCountsOfOneMoreTask(front, t, members);
      OccurrencesInDistinct(members, t.assignedTo);
    }
  }

  lemma {:induction false} ZeroCountsSumToZero(lines: seq<WorkloadLine>)
    requires forall j :: 0 <= j < |lines| ==> lines[j].count == 0
    ensures SumCounts(lines) == 0
  {
    if lines != [] {
      ZeroCountsSumToZero(lines[..|lines| - 1]);
    }
  }

  // ---------------------------------------------------------------------
  // The sample state the window starts with

  const SampleCategories: seq<Category> :=
    [Category("GUI"), Category("System Modeling"), Category("Documentation"), Category("Testing")]

  const SampleMembers: seq<Member> :=
    [NewLeader("Dr. Smith (Leader)"), NewMember("Alice"), NewMember("Bob")]

  /** The four sample tasks, after the two progress and status updates; `today` is `LocalDate.now()`. */
  function SampleRows(today: Date): (r: seq<TaskData>)
    ensures |r| == 4
    ensures forall t :: t in r ==> today.epochDay < t.dueDate.epochDay
  {
    [ TaskData("Design Main Frame", "Design layout using Swing.", PlusDays(today, 5), High,
               Category("GUI"), InProgress, 50, Some(NewMember("Alice"))),
      TaskData("Create Class Diagram", "Draw UML class diagram.", PlusDays(today, 2), High,
               Category("System Modeling"), NotStarted, 0, Some(NewMember("Bob"))),
      TaskData("Write User Manual", "Document user features.", PlusDays(today, 10), Medium,
               Category("Documentation"), Completed, 100, Some(NewMember("Alice"))),
      TaskData("Implement Button Listeners", "Add listeners to UI buttons.", PlusDays(today, 7), Medium,
               Category("GUI"), NotStarted, 0, None) ]
  }

  /** The sample state satisfies the registry's invariants. */
  lemma SampleIsConsistent(today: Date)
    ensures Distinct(SampleCategories) && Distinct(SampleMembers)
    ensures Integrity(SampleRows(today), SampleCategories, SampleMembers)
    ensures ProgressInRange(SampleRows(today))
  {
  }

  /** The sample's workload: the leader has no task, Alice two, Bob one, and one task is unassigned. */
  lemma SampleWorkload(today: Date)
    ensures WorkloadOf(SampleRows(today), SampleMembers) ==
              [WorkloadLine("Dr. Smith (Leader)", 0), WorkloadLine("Alice", 2), WorkloadLine("Bob", 1)]
    ensures CountUnassigned(SampleRows(today)) == 1
  {
    var rows := SampleRows(today);
    var leader, alice, bob := NewLeader("Dr. Smith (Leader)"), NewMember("Alice"), NewMember("Bob");
    var p1, p2, p3 := rows[..1], rows[..2], rows[..3];
    assert p1[..0] == [] && p2[..1] == p1 && p3[..2] == p2 && rows[..3] == p3;
    assert CountAssigned(p1, leader) == 0 && CountAssigned(p1, alice) == 1 && CountAssigned(p1, bob) == 0;
    assert CountAssigned(p2, leader) == 0 && CountAssigned(p2, alice) == 1 && CountAssigned(p2, bob) == 1;
    assert CountAssigned(p3, leader) == 0 && CountAssigned(p3, alice) == 2 && CountAssigned(p3, bob) == 1;
    assert CountUnassigned(p1) == 0 && CountUnassigned(p2) == 0 && CountUnassigned(p3) == 0;
  }
}
