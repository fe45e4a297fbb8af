/**
 * The table model behind the task table: eight fixed columns over the shared
 * task list. The functions take the list's current contents, so every query
 * sees the list as it is at that moment; no copy is kept.
 */
module TableModel {
  import opened Optional
  import opened JavaLang
  import opened Statuses
  import opened Priorities
  import opened Members
  import opened Tasks

  /** What `getValueAt` returns: a string, a date, a priority, a status, an `Integer`, or null. */
  datatype Cell =
    | TextCell(text: string)
    | DateCell(date: Date)
    | PriorityCell(priority: Priority)
    | StatusCell(status: Status)
    | IntCell(number: Int32)
    | NullCell

  const ColumnNames: seq<string> :=
    ["Title", "Description", "Category", "Due Date", "Priority", "Status", "Assigned To", "Progress (%)"]

  /** The column index the category filter reads. */
  const CategoryColumn: nat := 2

  /** The column index the status filter reads. */
  const StatusColumn: nat := 5

  /** The text shown in the assignee column of a task without an assignee. */
  const UnassignedText: string := "Unassigned"

  /** `getColumnCount()`. */
  function ColumnCount(): nat {
    |ColumnNames|
  }

  /** `getRowCount()`: the size of the shared list. */
  function RowCount(rows: seq<TaskData>): nat {
    |rows|
  }

  /** `getColumnName(column)`; Java indexes the name array, so the column must exist. */
  function ColumnName(column: int): string
    requires 0 <= column < ColumnCount()
  {
    ColumnNames[column]
  }

  /** The cell of one task in a given column. */
  function CellOf(task: TaskData, column: int): (r: Cell)
    ensures r == NullCell <==> !(0 <= column < ColumnCount())
  {
    if column == 0 then TextCell(task.title)
    else if column == 1 then TextCell(task.description)
    else if column == 2 then TextCell(task.category.name)
    else if column == 3 then DateCell(task.dueDate)
    else if column == 4 then PriorityCell(task.priority)
    else if column == 5 then StatusCell(task.status)
    else if column == 6 then
      (if task.assignedTo.Some? then TextCell(GetName(task.assignedTo.value)) else TextCell(UnassignedText))
    else if column == 7 then IntCell(task.progressPercent)
    else NullCell
  }

  /** `getValueAt(row, column)`; Java indexes the task list, so the row must exist. */
  function ValueAt(rows: seq<TaskData>, row: int, column: int): (r: Cell)
    requires 0 <= row < |rows|
    ensures r == NullCell <==> !(0 <= column < ColumnCount())
  {
    CellOf(rows[row], column)
  }

  /**
   * The string a row filter compares against: the cell's `toString()`, for
   * the two kinds of cell the filters read (text and status). The other
   * kinds are never filtered and have no string here.
   */
  function CellString(c: Cell): (r: Option<string>)
    ensures r.Some? <==> c.TextCell? || c.StatusCell?
  {
    match c
    case TextCell(t) => Some(t)
    case StatusCell(s) => Some(Label(s))
    case _ => None
  }

  /** There are always eight columns, named in this order. */
  lemma ColumnLayout()
    ensures ColumnCount() == 8
    ensures ColumnName(0) == "Title" && ColumnName(1) == "Description" && ColumnName(2) == "Category"
    ensures ColumnName(3) == "Due Date" && ColumnName(4) == "Priority" && ColumnName(5) == "Status"
    ensures ColumnName(6) == "Assigned To" && ColumnName(7) == "Progress (%)"
  {
  }

  /** The row count is the size of the list it is asked about. */
  lemma RowCountIsListSize(rows: seq<TaskData>, extra: TaskData)
    ensures RowCount(rows) == |rows|
    ensures RowCount(rows + [extra]) == RowCount(rows) + 1
  {
  }

  /** Columns 0, 1, 3, 4, 5 and 7 give the task's own title, description, due date, priority, status and progress. */
  lemma FieldColumns(rows: seq<TaskData>, row: int)
    requires 0 <= row < |rows|
    ensures ValueAt(rows, row, 0) == TextCell(rows[row].title)
    ensures ValueAt(rows, row, 1) == TextCell(rows[row].description)
    ensures ValueAt(rows, row, 3) == DateCell(rows[row].dueDate)
    ensures ValueAt(rows, row, 4) == PriorityCell(rows[row].priority)
    ensures ValueAt(rows, row, 5) == StatusCell(rows[row].status)
    ensures ValueAt(rows, row, 7) == IntCell(rows[row].progressPercent)
  {
  }

  /** Column 2 is the category's name; column 6 the assignee's name, or "Unassigned" when there is none. */
  lemma NameColumns(rows: seq<TaskData>, row: int)
    requires 0 <= row < |rows|
    ensures ValueAt(rows, row, 2) == TextCell(rows[row].category.name)
    ensures rows[row].assignedTo.None? ==> ValueAt(rows, row, 6) == TextCell("Unassigned")
    ensures rows[row].assignedTo.Some? ==> ValueAt(rows, row, 6) == TextCell(rows[row].assignedTo.value.name)
  {
  }

  /** Any column index outside 0..7 gives null. */
  lemma OutOfRangeColumnIsNull(rows: seq<TaskData>, row: int, column: int)
    requires 0 <= row < |rows|
    requires column < 0 || column >= ColumnCount()
    ensures ValueAt(rows, row, column) == NullCell
  {
  }

  /**
   * The assignee column cannot tell an unassigned task from one assigned to
   * a member called "Unassigned", nor a leader from a plain member of the
   * same name.
   */
  lemma AssigneeColumnLosesIdentity(task: TaskData, name: string)
    ensures CellOf(task.(assignedTo := None), 6) == CellOf(task.(assignedTo := Some(NewMember(UnassignedText))), 6)
    ensures CellOf(task.(assignedTo := Some(NewLeader(name))), 6) == CellOf(task.(assignedTo := Some(NewMember(name))), 6)
  {
  }

  /** The filters' view of the two columns they read: the category name and the status label. */
  lemma FilteredColumnStrings(task: TaskData)
    ensures CellString(CellOf(task, CategoryColumn)) == Some(task.category.name)
    ensures CellString(CellOf(task, StatusColumn)) == Some(Label(task.status))
  {
  }
}
