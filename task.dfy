/**
 * A task: a mutable record of eight fields. The constructor takes six of them
 * and sets the status and progress to their defaults; every setter overwrites
 * exactly one field. Java's getters are reads of the fields; `Data()` gives
 * all eight at once as a value.
 */
module Tasks {
  import opened Optional
  import opened JavaLang
  import opened Statuses
  import opened Priorities
  import opened Categories
  import opened Members

  /**
   * A calendar date (`java.time.LocalDate`), kept as its day count from the
   * epoch; parsing and the system clock are outside the model.
   */
  datatype Date = FromEpochDay(epochDay: int)

  /** `LocalDate.plusDays(n)`: the date `n` days after `d` (before it, for negative `n`). */
  function PlusDays(d: Date, n: int): (r: Date)
    ensures r.epochDay - d.epochDay == n
    ensures n > 0 ==> d.epochDay < r.epochDay
  {
    FromEpochDay(d.epochDay + n)
  }

  /** The eight fields of a task as one value; `assignedTo` is None for an unassigned task. */
  datatype TaskData = TaskData(
    title: string,
    description: string,
    dueDate: Date,
    priority: Priority,
    category: Category,
    status: Status,
    progressPercent: Int32,
    assignedTo: Option<Member>)

  class Task {
    var title: string
    var description: string
    var dueDate: Date
    var priority: Priority
    var category: Category
    var status: Status
    var progressPercent: Int32
    var assignedTo: Option<Member>

    /** The current values of all eight fields. */
    function Data(): TaskData
      reads this
    {
      TaskData(title, description, dueDate, priority, category, status, progressPercent, assignedTo)
    }

    /** Stores the six arguments as given; status starts as NOT_STARTED and progress as 0, whatever the arguments. */
    constructor (title: string, description: string, dueDate: Date, priority: Priority,
                 category: Category, assignedTo: Option<Member>)
      ensures Data() == TaskData(title, description, dueDate, priority, category, NotStarted, 0, assignedTo)
    {
      this.title := title;
      this.description := description;
      this.dueDate := dueDate;
      this.priority := priority;
      this.category := category;
      this.assignedTo := assignedTo;
      this.status := NotStarted;
      this.progressPercent := 0;
    }

    method SetTitle(title: string)
      modifies this
      ensures Data() == old(Data()).(title := title)
    {
      this.title := title;
    }

    method SetDescription(description: string)
      modifies this
      ensures Data() == old(Data()).(description := description)
    {
      this.description := description;
    }

    method SetDueDate(dueDate: Date)
      modifies this
      ensures Data() == old(Data()).(dueDate := dueDate)
    {
      this.dueDate := dueDate;
    }

    method SetPriority(priority: Priority)
      modifies this
      ensures Data() == old(Data()).(priority := priority)
    {
      this.priority := priority;
    }

    method SetCategory(category: Category)
      modifies this
      ensures Data() == old(Data()).(category := category)
    {
      this.category := category;
    }

    method SetStatus(status: Status)
      modifies this
      ensures Data() == old(Data()).(status := status)
    {
      this.status := status;
    }

    /** Stores any `int`: there is no clamping to 0..100 here. */
    method SetProgressPercent(progressPercent: Int32)
      modifies this
      ensures Data() == old(Data()).(progressPercent := progressPercent)
    {
      this.progressPercent := progressPercent;
    }

    method SetAssignedTo(assignedTo: Option<Member>)
      modifies this
      ensures Data() == old(Data()).(assignedTo := assignedTo)
    {
      this.assignedTo := assignedTo;
    }
  }
}
