/**
 * The main window's in-memory data and the event handlers that change it:
 * the task list, the category list and the member list, updated in place as
 * the Save, Delete Task, Manage Categories and Manage Group Members handlers
 * do, and the View Workload report computed from them. Dialog answers and
 * selections arrive as parameters.
 */
module TaskRegistry {
  import opened Optional
  import opened JavaLang
  import opened Statuses
  import opened Priorities
  import opened Categories
  import opened Members
  import opened Tasks
  import opened RegistrySpec
  import opened TableFilter

  /**
   * The writes Save makes into `task`, in order: the trimmed title and
   * description, then the due date, which stops the writing when it does not
   * parse, then the priority, category, assignee and progress. The result
   * says whether the date parsed.
   */
  method WriteForm(task: Task, title: string, form: TaskForm) returns (parsed: bool)
    requires form.category.Some?
    modifies task
    ensures parsed <==> form.parsedDueDate.Some?
    ensures !parsed ==> task.Data() == old(task.Data()).(title := title, description := Trim(form.descriptionText))
    ensures parsed ==>
              task.Data() == old(task.Data()).(title := title, description := Trim(form.descriptionText),
                                              dueDate := form.parsedDueDate.value, priority := form.priority,
                                              category := form.category.value, assignedTo := form.assignee,
                                              progressPercent := form.progress)
  {
    task.SetTitle(title);
    task.SetDescription(Trim(form.descriptionText));
    if form.parsedDueDate.None? {
      return false;
    }
    task.SetDueDate(form.parsedDueDate.value);
    task.SetPriority(form.priority);
    task.SetCategory(form.category.value);
    task.SetAssignedTo(form.assignee);
    task.SetProgressPercent(form.progress);
    parsed := true;
  }

  /** Save's writes into the task an Update Task dialog edits; the result says whether the date parsed. */
  method WriteUpdate(task: Task, title: string, form: TaskForm) returns (parsed: bool)
    requires title == Trim(form.titleText) && form.category.Some?
    modifies task
    ensures parsed <==> form.parsedDueDate.Some?
    ensures task.Data() == UpdatedRow(old(task.Data()), form)
  {
    parsed := WriteForm(task, title, form);
    if parsed {
      task.SetStatus(form.status);
    }
  }

  /**
   * The four sample tasks, built from the sample's category and member lists
   * by index, the first and the third then moved on to "In Progress" at 50%
   * and "Completed" at 100%.
   */
  method SampleTasks(today: Date, categoryList: seq<Category>, memberList: seq<Member>)
      returns (design: Task, diagram: Task, manual: Task, listeners: Task)
    requires categoryList == SampleCategories && memberList == SampleMembers
    ensures fresh(design) && fresh(diagram) && fresh(manual) && fresh(listeners)
    ensures design != diagram && design != manual && design != listeners
    ensures diagram != manual && diagram != listeners && manual != listeners
    ensures [design.Data(), diagram.Data(), manual.Data(), listeners.Data()] == SampleRows(today)
  {
    design := new Task("Design Main Frame", "Design layout using Swing.", PlusDays(today, 5), High,
                       categoryList[0], Some(memberList[1]));
    diagram := new Task("Create Class Diagram", "Draw UML class diagram.", PlusDays(today, 2), High,
                        categoryList[1], Some(memberList[2]));
    manual := new Task("Write User Manual", "Document user features.", PlusDays(today, 10), Medium,
                       categoryList[2], Some(memberList[1]));
    listeners := new Task("Implement Button Listeners", "Add listeners to UI buttons.", PlusDays(today, 7), Medium,
                          categoryList[0], None);
    design.SetProgressPercent(50);
    design.SetStatus(InProgress);
    manual.SetProgressPercent(100);
    manual.SetStatus(Completed);
  }

  class Registry {
    var tasks: seq<Task>
    var categories: seq<Category>
    var members: seq<Member>

    /** The task list's contents, in list order. */
    function Rows(): (r: seq<TaskData>)
      reads this, tasks
      ensures |r| == |tasks| && forall i :: 0 <= i < |tasks| ==> r[i] == tasks[i].Data()
    {
      seq(|tasks|, i requires 0 <= i < |tasks| reads this, tasks => tasks[i].Data())
    }

    /**
     * No task object is listed twice, neither list holds two equal entries,
     * and every task's category and assignee are listed.
     */
    ghost predicate Valid()
      reads this, tasks
    {
      && Distinct(tasks)
      && Distinct(categories)
      && Distinct(members)
      && Integrity(Rows(), categories, members)
    }

    /** `initializeData()`: four categories, the leader and two members, four tasks. */
    constructor Sample(today: Date)
      ensures Valid()
      ensures categories == SampleCategories && members == SampleMembers
      ensures Rows() == SampleRows(today)
    {
      var categoryList := [Category("GUI"), Category("System Modeling"), Category("Documentation"), Category("Testing")];
      var memberList := [NewLeader("Dr. Smith (Leader)"), NewMember("Alice"), NewMember("Bob")];
      var design, diagram, manual, listeners := SampleTasks(today, categoryList, memberList);
      tasks, categories, members := [design, diagram, manual, listeners], categoryList, memberList;
      SampleIsConsistent(today);
    }

    /**
     * Save in the task dialog. `target` is the model index of the task being
     * updated, None in the Add Task dialog; `today` is what `LocalDate.now()`
     * gives to the placeholder a new task is built with.
     */
    method SaveTask(target: Option<nat>, form: TaskForm, today: Date) returns (outcome: SaveOutcome)
      requires Valid()
      requires target.Some? ==> target.value < |tasks|
      requires FormOffers(form, categories, members)
      modifies this, if target.Some? && target.value < |tasks| then {tasks[target.value]} else {}
      ensures Valid()
      ensures categories == old(categories) && members == old(members)
      ensures target.None? ==> (outcome, Rows()) == SaveNew(old(Rows()), categories, form)
      ensures target.None? && outcome == Saved ==>
                |tasks| == |old(tasks)| + 1 && tasks[..|old(tasks)|] == old(tasks) && fresh(tasks[|old(tasks)|])
      ensures target.None? && outcome != Saved ==> tasks == old(tasks)
      ensures target.Some? ==> tasks == old(tasks) && (outcome, Rows()) == SaveExisting(old(Rows()), target.value, form)
    {
      var title := Trim(form.titleText);
      if title == [] {
        return EmptyTitle;
      }
      if target.None? {
        outcome := SaveNewTask(title, form, today);
      } else {
        outcome := SaveExistingTask(target.value, title, form);
      }
    }

    /** The Add Task half of Save, once the title has been found non-empty. */
    method SaveNewTask(title: string, form: TaskForm, today: Date) returns (outcome: SaveOutcome)
      requires Valid()
      requires title == Trim(form.titleText) && title != []
      requires FormOffers(form, categories, members)
      modifies this
      ensures Valid()
      ensures categories == old(categories) && members == old(members)
      ensures (outcome, Rows()) == SaveNew(old(Rows()), categories, form)
      ensures outcome == Saved ==>
                |tasks| == |old(tasks)| + 1 && tasks[..|old(tasks)|] == old(tasks) && fresh(tasks[|old(tasks)|])
      ensures outcome != Saved ==> tasks == old(tasks)
    {
      if categories == [] {
        return NoCategory;
      }
      var task := new Task("", "", today, Low, categories[0], None);
      var parsed := WriteForm(task, title, form);
      RowsUnchanged();
      if !parsed {
        return BadDate;
      }
      assert task !in tasks;
      AppendIfAbsentKeepsDistinct(tasks, task);
      AppendTask(task);
      outcome := Saved;
      SaveNewKeepsIntegrity(old(Rows()), categories, members, form);
    }

    /**
     * The Update Task half of Save for the task at index `k`, once the title
     * has been found non-empty. The title and the description are written
     * before the date is parsed, so the task keeps them when the date is
     * rejected.
     */
    method SaveExistingTask(k: nat, title: string, form: TaskForm) returns (outcome: SaveOutcome)
      requires Valid()
      requires k < |tasks|
      requires title == Trim(form.titleText) && title != []
      requires FormOffers(form, categories, members)
      modifies tasks[k]
      ensures Valid()
      ensures (outcome, Rows()) == SaveExisting(old(Rows()), k, form)
    {
      ghost var rows := Rows();
      SaveExistingKeepsIntegrity(rows, k, categories, members, form);
      var task := tasks[k];
      assert task.Data() == rows[k];
      var parsed := WriteUpdate(task, title, form);
      RowsAfterOneWrite(k);
      assert Rows() == rows[k := UpdatedRow(rows[k], form)];
      outcome := if parsed then Saved else BadDate;
    }

    /** `taskList.add(task)` for a task object that is not yet listed. */
    method AppendTask(task: Task)
      requires task !in tasks
      modifies this
      ensures tasks == old(tasks) + [task] && categories == old(categories) && members == old(members)
      ensures Rows() == old(Rows()) + [task.Data()]
    {
      tasks := tasks + [task];
      RowsAfterAppend();
    }

    /** Changing no listed task changes no row. */
    twostate lemma RowsUnchanged()
      requires old(allocated(this)) && unchanged(this)
      requires forall t: Task :: old(allocated(t)) ==> t.Data() == old(t.Data())
      ensures Rows() == old(Rows())
    {
      assert forall i :: 0 <= i < |tasks| ==> tasks[i].Data() == old(tasks[i].Data());
    }

    /** Appending a task object to the list appends its snapshot to the rows. */
    twostate lemma RowsAfterAppend()
      requires old(allocated(this)) && |tasks| > 0 && tasks[..|tasks| - 1] == old(tasks)
      requires forall i :: 0 <= i < |tasks| - 1 ==> unchanged(tasks[i])
      ensures Rows() == old(Rows()) + [tasks[|tasks| - 1].Data()]
    {
      assert forall i :: 0 <= i < |tasks| - 1 ==> tasks[i].Data() == old(tasks[i].Data());
    }

    /** Writing to the task at index `k` alone changes row `k` alone. */
    twostate lemma RowsAfterOneWrite(k: nat)
      requires old(allocated(this)) && unchanged(this)
      requires k < |tasks| && Distinct(tasks)
      requires forall t: Task :: old(allocated(t)) && t != tasks[k] ==> t.Data() == old(t.Data())
      ensures Rows() == old(Rows())[k := tasks[k].Data()]
    {
      forall i | 0 <= i < |tasks| && i != k ensures tasks[i].Data() == old(tasks[i].Data()) {
        assert tasks[i] != tasks[k];
      }
    }

    /** Delete Task, for the model index of the selected row (None: no row selected) and the answer to "Delete this task?". */
    method DeleteTask(selected: Option<nat>, confirmed: bool) returns (outcome: DeleteOutcome)
      requires Valid()
      requires selected.Some? ==> selected.value < |tasks|
      modifies this
      ensures Valid()
      ensures (outcome, tasks) == DeleteTaskSpec(old(tasks), selected, confirmed)
      ensures Rows() == DeleteTaskSpec(old(Rows()), selected, confirmed).1
      ensures categories == old(categories) && members == old(members)
    {
      if selected.None? {
        return NothingSelected;
      }
      if !confirmed {
        return Declined;
      }
      var k := selected.value;
      tasks := tasks[..k] + tasks[k + 1..];
      outcome := Deleted;
      assert Rows() == RemoveAt(old(Rows()), k);
      DeleteTaskKeepsIntegrity(old(Rows()), categories, members, k);
    }

    /** Add... in Manage Categories, with the text the input dialog returned (None: cancelled). */
    method AddCategory(input: Option<string>) returns (outcome: AddOutcome)
      requires Valid()
      modifies this
      ensures Valid()
      ensures (outcome, categories) == AddCategorySpec(old(categories), input)
      ensures tasks == old(tasks) && members == old(members) && Rows() == old(Rows())
    {
      if input.None? || Trim(input.value) == [] {
        return Blank;
      }
      var newCategory := Category(Trim(input.value));
      if newCategory !in categories {
        categories := categories + [newCategory];
        outcome := Added;
      } else {
        outcome := Duplicate;
      }
      AppendIfAbsentKeepsDistinct(old(categories), newCategory);
    }

    /** Delete in Manage Categories, for the selected entry of the dialog's list (None: nothing selected). */
    method DeleteCategory(selected: Option<Category>) returns (outcome: DeleteOutcome)
      requires Valid()
      requires selected.Some? ==> selected.value in categories
      modifies this
      ensures Valid()
      ensures (outcome, categories) == DeleteCategorySpec(Rows(), old(categories), selected)
      ensures tasks == old(tasks) && members == old(members) && Rows() == old(Rows())
      ensures outcome == Deleted ==> selected.value !in categories
    {
      if selected.None? {
        return NothingSelected;
      }
      var c := selected.value;
      if CategoryInUse(Rows(), c) {
        return InUse;
      }
      DeleteCategoryKeepsIntegrity(Rows(), categories, members, c);
      categories := RemoveFirst(categories, c);
      outcome := Deleted;
    }

    /** Add Member... in Manage Group Members, with the text the input dialog returned (None: cancelled). */
    method AddMember(input: Option<string>) returns (outcome: AddOutcome)
      requires Valid()
      modifies this
      ensures Valid()
      ensures (outcome, members) == AddMemberSpec(old(members), input)
      ensures tasks == old(tasks) && categories == old(categories) && Rows() == old(Rows())
    {
      if input.None? || Trim(input.value) == [] {
        return Blank;
      }
      var newMember := NewMember(Trim(input.value));
      if newMember !in members {
        members := members + [newMember];
        outcome := Added;
      } else {
        outcome := Duplicate;
      }
      AppendIfAbsentKeepsDistinct(old(members), newMember);
    }

    /**
     * Delete Selected in Manage Group Members, for the selected entry of the
     * dialog's list (None: nothing selected) and the answer to "Are you sure?".
     */
    method DeleteMember(selected: Option<Member>, confirmed: bool) returns (outcome: DeleteOutcome)
      requires Valid()
      requires selected.Some? ==> selected.value in members
      modifies this
      ensures Valid()
      ensures (outcome, members) == DeleteMemberSpec(Rows(), old(members), selected, confirmed)
      ensures tasks == old(tasks) && categories == old(categories) && Rows() == old(Rows())
      ensures outcome == Deleted ==> selected.value !in members
    {
      if selected.None? {
        return NothingSelected;
      }
      var m := selected.value;
      if MemberAssigned(Rows(), m) {
        return InUse;
      }
      if m.runtimeClass == GroupLeader {
        return LeaderProtected;
      }
      if !confirmed {
        return Declined;
      }
      DeleteMemberKeepsIntegrity(Rows(), categories, members, m, confirmed);
      members := RemoveFirst(members, m);
      outcome := Deleted;
    }

    /**
     * View Workload: one line per member, in member-list order, with the
     * number of tasks assigned to that member, and the number of tasks
     * without an assignee.
     */
    method Workload() returns (report: seq<WorkloadLine>, unassigned: nat)
      ensures report == WorkloadOf(Rows(), members)
      ensures unassigned == CountUnassigned(Rows())
    {
      var rows := Rows();
      report := [];
      var i := 0;
      while i < |members|
        invariant 0 <= i <= |members|
        invariant report == WorkloadOf(rows, members[..i])
      {
        var member := members[i];
        report := report + [WorkloadLine(member.name, CountAssigned(rows, member))];
        i := i + 1;
        assert members[..i][..i - 1] == members[..i - 1];
      }
      assert members[..i] == members;
      unassigned := CountUnassigned(rows);
    }

    /** In a consistent registry the workload report accounts for every task exactly once. */
    lemma WorkloadCoversAllTasks()
      requires Valid()
      ensures SumCounts(WorkloadOf(Rows(), members)) + CountUnassigned(Rows()) == |tasks|
    {
      WorkloadAccountsForEveryTask(Rows(), members);
    }
  }

  /** The filter examples on the sample tasks: "GUI" shows the first and the last task, "Completed" the third. */
  lemma SampleCategoryFilter(today: Date)
    ensures ViewToModel(SampleRows(today), Some(Category("GUI")), AnyStatus) == [0, 3]
  {
    var rows, gui := SampleRows(today), Some(Category("GUI"));
    GuiFilterApplies();
    assert Passes(rows[0], gui, AnyStatus);
    assert !Passes(rows[1], gui, AnyStatus);
    assert !Passes(rows[2], gui, AnyStatus);
    assert Passes(rows[3], gui, AnyStatus);
    assert ViewToModelPrefix(rows, 1, gui, AnyStatus) == [0];
    assert ViewToModelPrefix(rows, 2, gui, AnyStatus) == [0];
    assert ViewToModelPrefix(rows, 3, gui, AnyStatus) == [0];
  }

  lemma SampleStatusFilter(today: Date)
    ensures ViewToModel(SampleRows(today), Some(AllCategory), OnlyStatus(Completed)) == [2]
  {
    var rows, all, done := SampleRows(today), Some(AllCategory), OnlyStatus(Completed);
    EqualsIgnoreCaseAll("All");
    LabelInjective(NotStarted, Completed);
    LabelInjective(InProgress, Completed);
    assert !Passes(rows[0], all, done);
    assert !Passes(rows[1], all, done);
    assert Passes(rows[2], all, done);
    assert !Passes(rows[3], all, done);
    assert ViewToModelPrefix(rows, 1, all, done) == [];
    assert ViewToModelPrefix(rows, 2, all, done) == [];
    assert ViewToModelPrefix(rows, 3, all, done) == [2];
  }
}
