/** The task status enumeration and the display labels its `toString` returns. */
module Statuses {

  datatype Status = NotStarted | InProgress | Completed | OnHold

  /** `Status.values()`, in declaration order. */
  const Values: seq<Status> := [NotStarted, InProgress, Completed, OnHold]

  /** The position of a constant in `Values` (`Status.ordinal()`). */
  function Ordinal(s: Status): (r: nat)
    ensures r < |Values| && Values[r] == s
  {
    match s
    case NotStarted => 0
    case InProgress => 1
    case Completed => 2
    case OnHold => 3
  }

  /** `toString()`: the display name given to each constant. */
  function Label(s: Status): string {
    match s
    case NotStarted => "Not started"
    case InProgress => "In Progress"
    case Completed => "Completed"
    case OnHold => "On hold"
  }

  /** There are exactly four statuses, each listed once, and `Values` lists them in declaration order. */
  lemma ValuesAreTheFourConstants()
    ensures |Values| == 4
    ensures Values == [NotStarted, InProgress, Completed, OnHold]
    ensures forall i, j :: 0 <= i < j < |Values| ==> Values[i] != Values[j]
    ensures forall s: Status :: s in Values
  {
    forall s: Status ensures s in Values {
      assert Values[Ordinal(s)] == s;
    }
  }

  /** The label of each constant. */
  lemma LabelTable()
    ensures Label(NotStarted) == "Not started" && Label(InProgress) == "In Progress"
    ensures Label(Completed) == "Completed" && Label(OnHold) == "On hold"
  {
  }

  /** Two statuses have the same label only if they are the same status. */
  lemma LabelInjective(a: Status, b: Status)
    ensures Label(a) == Label(b) <==> a == b
  {
  }

  /** No label is the "All" entry that the status filter lists before the four statuses. */
  lemma LabelIsNotAll(s: Status)
    ensures Label(s) != "All"
  {
  }
}
