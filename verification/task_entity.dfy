/** The `Task` class of the task store: one record, its validators, its
    record mapping and its two status changes. */
module TaskEntity {
  import opened Outcomes
  import opened Documents
  import Text
  import Dates
  import Validation

  /** The defaults `add_task` and `Task(...)` use. */
  const NoDeadline := "No Deadline"
  const DoneStatus := "Done"
  const NotDoneStatus := "Not done"

  /** A task. Nothing is checked when one is built; `status` is any string:
      `add_task` stores the status it is given unchecked, and a load takes
      whatever the file holds. Only the two status changes write "Done" or
      "Not done" themselves. */
  datatype Task = Task(id: Val, task: string, description: string, deadline: string, status: string)

  const EntryHeader := "Invalid Entry: "
  const Separator := " | "
  const IdMessage := "ID must be a number."
  const TaskMessage := "Task must be a non-empty string."
  const DeadlineMessage := "Date must be in YYYY-MM-DD format."

  /** `validate_id`: the id must be an integer. */
  function ValidateId(id: Val): (r: Option<string>)
    ensures r.None? <==> id.IntV?
    ensures r.Some? ==> r.value == IdMessage
  {
    if !id.IntV? then Some(IdMessage) else None
  }

  /** `validate_task`: the name must not be empty once whitespace is
      stripped. (The name is always a string here, so the `isinstance`
      half of the check never fails.) */
  function ValidateTask(task: string): (r: Option<string>)
    ensures r.None? <==> !Text.IsBlank(task)
    ensures r.Some? ==> r.value == TaskMessage
  {
    Text.StripEmptyIffBlank(task);
    if Text.Strip(task) == [] then Some(TaskMessage) else None
  }

  /** `validate_deadline`: the deadline must be a `YYYY-MM-DD` date. */
  function ValidateDeadline(deadline: string): (r: Option<string>)
    ensures r.None? <==> Dates.ParseDate(deadline).Some?
    ensures r.Some? ==> r.value == DeadlineMessage
  {
    if !Dates.IsDate(deadline) then Some(DeadlineMessage) else None
  }

  /** `validate_all`: all three validators run, in the order id, task,
      deadline, and every failure is reported, joined by " | " after the
      header "Invalid Entry: ". */
  function ValidateAll(t: Task): (r: Verdict)
    ensures r.Valid? <==> t.id.IntV? && !Text.IsBlank(t.task) && Dates.IsDate(t.deadline)
  {
    var x, y, z := ValidateId(t.id), ValidateTask(t.task), ValidateDeadline(t.deadline);
    Validation.ReportThreeValid(EntryHeader, Separator, x, y, z);
    Validation.Report(EntryHeader, Separator, [x, y, z])
  }

  /** The message of every failing combination: each failing validator's
      message appears, in the order id, task, deadline. */
  lemma ValidateAllMessages(t: Task)
    ensures !t.id.IntV? && !Text.IsBlank(t.task) && Dates.IsDate(t.deadline) ==>
              ValidateAll(t) == Invalid(EntryHeader + IdMessage)
    ensures t.id.IntV? && Text.IsBlank(t.task) && Dates.IsDate(t.deadline) ==>
              ValidateAll(t) == Invalid(EntryHeader + TaskMessage)
    ensures t.id.IntV? && !Text.IsBlank(t.task) && !Dates.IsDate(t.deadline) ==>
              ValidateAll(t) == Invalid(EntryHeader + DeadlineMessage)
    ensures !t.id.IntV? && Text.IsBlank(t.task) && Dates.IsDate(t.deadline) ==>
              ValidateAll(t) == Invalid(EntryHeader + IdMessage + Separator + TaskMessage)
    ensures !t.id.IntV? && !Text.IsBlank(t.task) && !Dates.IsDate(t.deadline) ==>
              ValidateAll(t) == Invalid(EntryHeader + IdMessage + Separator + DeadlineMessage)
    ensures t.id.IntV? && Text.IsBlank(t.task) && !Dates.IsDate(t.deadline) ==>
              ValidateAll(t) == Invalid(EntryHeader + TaskMessage + Separator + DeadlineMessage)
    ensures !t.id.IntV? && Text.IsBlank(t.task) && !Dates.IsDate(t.deadline) ==>
              ValidateAll(t) == Invalid(EntryHeader + IdMessage + Separator + TaskMessage + Separator + DeadlineMessage)
  {
    Validation.ReportThree(EntryHeader, Separator, ValidateId(t.id), ValidateTask(t.task), ValidateDeadline(t.deadline));
  }

  /** A task whose deadline is the default never validates, whatever its
      other fields. */
  lemma DefaultDeadlineInvalid(t: Task)
    requires t.deadline == NoDeadline
    ensures ValidateAll(t).Invalid?
  {
    Dates.NoDeadlineIsNotADate();
  }

  const IdKey := "id"
  const TaskKey := "task"
  const DescriptionKey := "description"
  const DeadlineKey := "deadline"
  const StatusKey := "status"

  /** `to_dict`. */
  function ToDict(t: Task): (e: Entry)
    ensures e.Keys == {IdKey, TaskKey, DescriptionKey, DeadlineKey, StatusKey}
    ensures e[IdKey] == t.id
    ensures e[TaskKey] == StrV(t.task) && e[DescriptionKey] == StrV(t.description)
    ensures e[DeadlineKey] == StrV(t.deadline) && e[StatusKey] == StrV(t.status)
  {
    map[IdKey := t.id, TaskKey := StrV(t.task), DescriptionKey := StrV(t.description),
        DeadlineKey := StrV(t.deadline), StatusKey := StrV(t.status)]
  }

  /** `from_dict`: `None` where a key is missing (the `KeyError` case). Extra
      keys are ignored. */
  function FromDict(e: Entry): (r: Option<Task>)
    ensures r.Some? <==>
              IdKey in e && HasText(e, TaskKey) && HasText(e, DescriptionKey)
              && HasText(e, DeadlineKey) && HasText(e, StatusKey)
    ensures r.Some? ==> forall k :: k in ToDict(r.value) ==> k in e && e[k] == ToDict(r.value)[k]
  {
    if IdKey in e && HasText(e, TaskKey) && HasText(e, DescriptionKey)
       && HasText(e, DeadlineKey) && HasText(e, StatusKey)
    then Some(Task(e[IdKey], e[TaskKey].s, e[DescriptionKey].s, e[DeadlineKey].s, e[StatusKey].s))
    else None
  }

  /** `from_dict(to_dict(t))` is `t`, field for field. */
  lemma FromToDict(t: Task)
    ensures FromDict(ToDict(t)) == Some(t)
  {
  }

  /** `mark_done`. */
  function MarkDone(t: Task): (r: Task)
    ensures r.status == DoneStatus
    ensures r.(status := t.status) == t
  {
    t.(status := DoneStatus)
  }

  /** `mark_undone`: a task already "Not done" is left as it is. */
  function MarkUndone(t: Task): (r: Task)
    ensures r.status == NotDoneStatus
    ensures r.(status := t.status) == t
    ensures t.status == NotDoneStatus ==> r == t
  {
    if t.status == NotDoneStatus then t else t.(status := NotDoneStatus)
  }

  /** Marking undone twice is marking undone once. */
  lemma MarkUndoneIdempotent(t: Task)
    ensures MarkUndone(MarkUndone(t)) == MarkUndone(t)
  {
  }
}
