/** The `TaskManager` class: an ordered list of tasks, changed only through
    these operations, each returning the list it leaves behind and what it
    reported (the source prints these reports; see `Outcomes`). */
module TaskManager {
  import opened Outcomes
  import opened Documents
  import opened TaskEntity
  import Lists
  import Persistence
  import Dates

  const DuplicateIdMessage := "This id already exists."
  const TaskNotFoundMessage := "Task not found."
  const NoTaskByIdMessage := "No task by this id."
  const NoNameMatchMessage := "No exisiting task entries with this name."
  const NoDeadlineMatchMessage := "No task entries with this deadline."
  const NoDoneMessage := "No finished tasks."
  const NoNotDoneMessage := "All tasks are completed."
  const NoSuchTaskMessage := "Task doesn't exist."

  /** The key the task list sits under in the file. */
  const ListKey := "tasks"

  predicate HasId(tasks: seq<Task>, id: Val) {
    exists i :: 0 <= i < |tasks| && tasks[i].id == id
  }

  /** No two tasks share an id. */
  predicate UniqueIds(tasks: seq<Task>) {
    forall i, j :: 0 <= i < j < |tasks| ==> tasks[i].id != tasks[j].id
  }

  /** Position `i` holds the first task with id `id`. */
  predicate IsFirstWithId(tasks: seq<Task>, id: Val, i: int) {
    0 <= i < |tasks| && tasks[i].id == id && forall j :: 0 <= j < i ==> tasks[j].id != id
  }

  /** The position of the first task with id `id`, the one
      `next(t for t in self.tasks if t.id == task_id)` picks. */
  function FirstWithId(tasks: seq<Task>, id: Val): (i: nat)
    requires HasId(tasks, id)
    ensures IsFirstWithId(tasks, id, i)
  {
    match Lists.FirstIndex(tasks, (t: Task) => t.id == id)
    case Some(i) => i
  }

  /** `add_task`. A candidate whose id is taken is refused before it is
      validated; otherwise it is appended only if it validates, and the file
      is rewritten. The defaults are those of the source. */
  function AddTask(tasks: seq<Task>, id: Val, task: string, description: string := "",
                   deadline: string := NoDeadline, done: string := NotDoneStatus): (r: Step<Task>)
    ensures r.outcome.Refused? ==> r.items == tasks
    ensures HasId(tasks, id) ==> r.outcome == Refused(DuplicateIdMessage)
    ensures !HasId(tasks, id) && ValidateAll(Task(id, task, description, deadline, done)).Invalid? ==>
              r.outcome == Refused(ValidateAll(Task(id, task, description, deadline, done)).msg)
    ensures r.outcome.Applied? <==> !HasId(tasks, id) && ValidateAll(Task(id, task, description, deadline, done)).Valid?
    ensures r.outcome.Applied? ==>
              && r.outcome.saved
              && r.items == tasks + [Task(id, task, description, deadline, done)]
              && Dates.IsDate(deadline)
  {
    var candidate := Task(id, task, description, deadline, done);
    if HasId(tasks, candidate.id) then Step(tasks, Refused(DuplicateIdMessage))
    else match ValidateAll(candidate)
      case Invalid(m) => Step(tasks, Refused(m))
      case Valid => Step(tasks + [candidate], Applied(true))
  }

  /** An add that leaves the deadline at its default is always refused,
      whatever else it is given, and the list stays as it was. */
  lemma AddWithDefaultDeadlineRefused(tasks: seq<Task>, id: Val, task: string, description: string)
    ensures AddTask(tasks, id, task, description).outcome.Refused?
    ensures AddTask(tasks, id, task, description).items == tasks
  {
    Dates.NoDeadlineIsNotADate();
  }

  /** Adding keeps ids unique. */
  lemma AddTaskKeepsIdsUnique(tasks: seq<Task>, id: Val, task: string, description: string,
                              deadline: string, done: string)
    requires UniqueIds(tasks)
    ensures UniqueIds(AddTask(tasks, id, task, description, deadline, done).items)
  {
  }

  /** How `delete_task`'s `task_object == t` compares two objects: `Task`
      defines no `__eq__`, so `==` is object identity. A stored object is
      named by its position in the list, a newly built one by `Fresh`. */
  datatype ObjectRef = Stored(index: nat) | Fresh

  predicate SameObject(a: ObjectRef, b: ObjectRef) {
    a == b
  }

  /** `delete_task`: builds a new `Task` from the arguments and removes the
      stored task that `==` matches. Since `==` is identity and the new
      object is not in the list, nothing ever matches and nothing is
      removed, even when a stored task has exactly the given fields. */
  function DeleteTask(tasks: seq<Task>, id: Val, task: string, description: string := "",
                      deadline: string := NoDeadline, done: string := NotDoneStatus): (r: Step<Task>)
    ensures r == Step(tasks, Refused(TaskNotFoundMessage))
  {
    var candidate := Fresh;
    var matches := (i: nat) => SameObject(candidate, Stored(i));
    if !exists i :: 0 <= i < |tasks| && matches(i) then Step(tasks, Refused(TaskNotFoundMessage))
    else Step(Lists.RemoveFirstAt(tasks, matches), Applied(true))
  }

  /** `delete_task_by_id`: removes the first task with the id, keeps the
      rest in order, and does NOT rewrite the file. */
  function DeleteTaskById(tasks: seq<Task>, taskId: Val): (r: Step<Task>)
    ensures !HasId(tasks, taskId) ==> r == Step(tasks, Refused(NoTaskByIdMessage))
    ensures HasId(tasks, taskId) ==>
              && r.outcome == Applied(false)
              && |r.items| == |tasks| - 1
              && exists i :: IsFirstWithId(tasks, taskId, i) && r.items == tasks[..i] + tasks[i + 1..]
  {
    if !HasId(tasks, taskId) then Step(tasks, Refused(NoTaskByIdMessage))
    else Step(Lists.RemoveAt(tasks, FirstWithId(tasks, taskId)), Applied(false))
  }

  /** With unique ids, deleting by id removes the one task with that id
      and keeps ids unique. */
  lemma DeleteTaskByIdRemovesId(tasks: seq<Task>, taskId: Val)
    requires UniqueIds(tasks)
    ensures !HasId(DeleteTaskById(tasks, taskId).items, taskId)
    ensures UniqueIds(DeleteTaskById(tasks, taskId).items)
    ensures forall t :: t in tasks && t.id != taskId ==> t in DeleteTaskById(tasks, taskId).items
  {
    if HasId(tasks, taskId) {
      var i := FirstWithId(tasks, taskId);
      var rest := DeleteTaskById(tasks, taskId).items;
      assert rest == Lists.RemoveAt(tasks, i);
      forall t | t in tasks && t.id != taskId
        ensures t in rest
      {
        var k :| 0 <= k < |tasks| && tasks[k] == t;
        if k < i {
          assert rest[k] == t;
        } else {
          assert k > i;
          assert rest[k - 1] == t;
        }
      }
    }
  }

  /** The tests the searches and listings apply to each task. */
  function NameIs(name: string): (p: Task -> bool) {
    (t: Task) => t.task == name
  }

  function DeadlineIs(deadline: string): (p: Task -> bool) {
    (t: Task) => t.deadline == deadline
  }

  function StatusIs(status: string): (p: Task -> bool) {
    (t: Task) => t.status == status
  }

  /** The tasks named `name`, in list order. */
  function Matches(tasks: seq<Task>, name: string): (r: seq<Task>) {
    Lists.Filter(tasks, NameIs(name))
  }

  /** `search_by_task`: the tasks with exactly this name, in list order. */
  function SearchByTask(tasks: seq<Task>, task: string): (r: Result<seq<Task>>)
    ensures r.Err? <==> forall i :: 0 <= i < |tasks| ==> tasks[i].task != task
    ensures r.Err? ==> r.msg == NoNameMatchMessage
    ensures r.Ok? ==> forall i :: 0 <= i < |r.value| ==> r.value[i] in tasks && r.value[i].task == task
    ensures r.Ok? ==> forall i :: 0 <= i < |tasks| && tasks[i].task == task ==> tasks[i] in r.value
  {
    if !exists i :: 0 <= i < |tasks| && tasks[i].task == task then Err(NoNameMatchMessage)
    else Ok(Matches(tasks, task))
  }

  /** `search_by_deadline`: the tasks with exactly this deadline, in list
      order. */
  function SearchByDeadline(tasks: seq<Task>, deadline: string): (r: Result<seq<Task>>)
    ensures r.Err? <==> forall i :: 0 <= i < |tasks| ==> tasks[i].deadline != deadline
    ensures r.Err? ==> r.msg == NoDeadlineMatchMessage
    ensures r.Ok? ==> forall i :: 0 <= i < |r.value| ==> r.value[i] in tasks && r.value[i].deadline == deadline
    ensures r.Ok? ==> forall i :: 0 <= i < |tasks| && tasks[i].deadline == deadline ==> tasks[i] in r.value
  {
    if !exists i :: 0 <= i < |tasks| && tasks[i].deadline == deadline then Err(NoDeadlineMatchMessage)
    else Ok(Lists.Filter(tasks, DeadlineIs(deadline)))
  }

  /** `all_done_tasks`: the tasks whose status is "Done", in list order. */
  function AllDoneTasks(tasks: seq<Task>): (r: Result<seq<Task>>)
    ensures r.Err? <==> forall i :: 0 <= i < |tasks| ==> tasks[i].status != DoneStatus
    ensures r.Err? ==> r.msg == NoDoneMessage
    ensures r.Ok? ==> forall i :: 0 <= i < |r.value| ==> r.value[i] in tasks && r.value[i].status == DoneStatus
    ensures r.Ok? ==> forall i :: 0 <= i < |tasks| && tasks[i].status == DoneStatus ==> tasks[i] in r.value
  {
    if !exists i :: 0 <= i < |tasks| && tasks[i].status == DoneStatus then Err(NoDoneMessage)
    else Ok(Lists.Filter(tasks, StatusIs(DoneStatus)))
  }

  /** `all_not_done_tasks`: the tasks whose status is "Not done", in list
      order. A status other than "Done" and "Not done", which `add_task`
      and a load can store, is in neither listing. */
  function AllNotDoneTasks(tasks: seq<Task>): (r: Result<seq<Task>>)
    ensures r.Err? <==> forall i :: 0 <= i < |tasks| ==> tasks[i].status != NotDoneStatus
    ensures r.Err? ==> r.msg == NoNotDoneMessage
    ensures r.Ok? ==> forall i :: 0 <= i < |r.value| ==> r.value[i] in tasks && r.value[i].status == NotDoneStatus
    ensures r.Ok? ==> forall i :: 0 <= i < |tasks| && tasks[i].status == NotDoneStatus ==> tasks[i] in r.value
  {
    if !exists i :: 0 <= i < |tasks| && tasks[i].status == NotDoneStatus then Err(NoNotDoneMessage)
    else Ok(Lists.Filter(tasks, StatusIs(NotDoneStatus)))
  }

  /** Each search and listing yields exactly its matching tasks, in list
      order, each as often as the list holds it. */
  lemma SearchByTaskSelects(tasks: seq<Task>, name: string)
    ensures SearchByTask(tasks, name).Ok? ==> Lists.Selects(SearchByTask(tasks, name).value, tasks, NameIs(name))
  {
    Lists.FilterSelects(tasks, NameIs(name));
  }

  lemma SearchByDeadlineSelects(tasks: seq<Task>, deadline: string)
    ensures SearchByDeadline(tasks, deadline).Ok? ==>
              Lists.Selects(SearchByDeadline(tasks, deadline).value, tasks, DeadlineIs(deadline))
  {
    Lists.FilterSelects(tasks, DeadlineIs(deadline));
  }

  lemma AllDoneTasksSelects(tasks: seq<Task>)
    ensures AllDoneTasks(tasks).Ok? ==> Lists.Selects(AllDoneTasks(tasks).value, tasks, StatusIs(DoneStatus))
  {
    Lists.FilterSelects(tasks, StatusIs(DoneStatus));
  }

  lemma AllNotDoneTasksSelects(tasks: seq<Task>)
    ensures AllNotDoneTasks(tasks).Ok? ==> Lists.Selects(AllNotDoneTasks(tasks).value, tasks, StatusIs(NotDoneStatus))
  {
    Lists.FilterSelects(tasks, StatusIs(NotDoneStatus));
  }

  /** Searches report matches in insertion order: after a successful add,
      a search finds what it found before, followed by the new task when
      its name matches. */
  lemma SearchAfterAdd(tasks: seq<Task>, id: Val, task: string, description: string,
                       deadline: string, done: string, name: string)
    requires AddTask(tasks, id, task, description, deadline, done).outcome.Applied?
    ensures task == name ==>
              SearchByTask(AddTask(tasks, id, task, description, deadline, done).items, name)
              == Ok(Matches(tasks, name) + [Task(id, task, description, deadline, done)])
    ensures task != name ==>
              SearchByTask(AddTask(tasks, id, task, description, deadline, done).items, name)
              == SearchByTask(tasks, name)
  {
    var c := Task(id, task, description, deadline, done);
    var added := AddTask(tasks, id, task, description, deadline, done).items;
    assert added == tasks + [c];
    SearchAppended(tasks, c, name);
  }

  /** Searching a list with one task appended. */
  lemma SearchAppended(tasks: seq<Task>, c: Task, name: string)
    ensures c.task == name ==> SearchByTask(tasks + [c], name) == Ok(Matches(tasks, name) + [c])
    ensures c.task != name ==> SearchByTask(tasks + [c], name) == SearchByTask(tasks, name)
  {
    var added := tasks + [c];
    var p := NameIs(name);
    Lists.FilterAppend(tasks, [c], p);
    assert Matches(added, name) == Matches(tasks, name) + Lists.Filter([c], p);
    if c.task == name {
      assert added[|tasks|].task == name;
      assert Lists.Filter([c], p) == [c];
      assert Matches(added, name) == Matches(tasks, name) + [c];
      assert SearchByTask(added, name) == Ok(Matches(added, name));
    } else {
      assert Lists.Filter([c], p) == [];
      assert Matches(added, name) == Matches(tasks, name);
      if exists i :: 0 <= i < |tasks| && tasks[i].task == name {
        var i :| 0 <= i < |tasks| && tasks[i].task == name;
        assert added[i] == tasks[i];
      } else {
        forall i | 0 <= i < |added|
          ensures added[i].task != name
        {
          if i < |tasks| {
            assert added[i] == tasks[i];
          }
        }
      }
    }
  }

  /** `mark_task_done`: the first task with the id becomes "Done"; no
      other task and no other field changes. */
  function MarkTaskDone(tasks: seq<Task>, taskId: Val): (r: Step<Task>)
    ensures !HasId(tasks, taskId) ==> r == Step(tasks, Refused(NoSuchTaskMessage))
    ensures HasId(tasks, taskId) ==>
              && r.outcome == Applied(true)
              && |r.items| == |tasks|
              && exists i :: IsFirstWithId(tasks, taskId, i)
                   && r.items[i].status == DoneStatus
                   && r.items[i].(status := tasks[i].status) == tasks[i]
                   && forall j :: 0 <= j < |tasks| && j != i ==> r.items[j] == tasks[j]
  {
    if !HasId(tasks, taskId) then Step(tasks, Refused(NoSuchTaskMessage))
    else
      var i := FirstWithId(tasks, taskId);
      Step(tasks[i := MarkDone(tasks[i])], Applied(true))
  }

  /** `mark_task_undone`: the first task with the id becomes "Not done"; a
      task already "Not done" is left as it is, yet the call still succeeds
      and rewrites the file. */
  function MarkTaskUndone(tasks: seq<Task>, taskId: Val): (r: Step<Task>)
    ensures !HasId(tasks, taskId) ==> r == Step(tasks, Refused(NoSuchTaskMessage))
    ensures HasId(tasks, taskId) ==>
              && r.outcome == Applied(true)
              && |r.items| == |tasks|
              && exists i :: IsFirstWithId(tasks, taskId, i)
                   && r.items[i].status == NotDoneStatus
                   && r.items[i].(status := tasks[i].status) == tasks[i]
                   && forall j :: 0 <= j < |tasks| && j != i ==> r.items[j] == tasks[j]
  {
    if !HasId(tasks, taskId) then Step(tasks, Refused(NoSuchTaskMessage))
    else
      var i := FirstWithId(tasks, taskId);
      Step(tasks[i := MarkUndone(tasks[i])], Applied(true))
  }

  /** Marking a "Not done" task undone changes nothing and still
      succeeds. */
  lemma MarkUndoneOnUndoneKeepsList(tasks: seq<Task>, taskId: Val)
    requires HasId(tasks, taskId)
    requires tasks[FirstWithId(tasks, taskId)].status == NotDoneStatus
    ensures MarkTaskUndone(tasks, taskId) == Step(tasks, Applied(true))
  {
    var i := FirstWithId(tasks, taskId);
    assert tasks[i := MarkUndone(tasks[i])] == tasks;
  }

  /** A task just marked done shows up in the finished listing, and one
      just marked undone in the unfinished listing. */
  lemma MarkedTaskIsListed(tasks: seq<Task>, taskId: Val)
    requires HasId(tasks, taskId)
    ensures
      var i := FirstWithId(tasks, taskId);
      var r := AllDoneTasks(MarkTaskDone(tasks, taskId).items);
      r.Ok? && tasks[i].(status := DoneStatus) in r.value
    ensures
      var i := FirstWithId(tasks, taskId);
      var r := AllNotDoneTasks(MarkTaskUndone(tasks, taskId).items);
      r.Ok? && tasks[i].(status := NotDoneStatus) in r.value
  {
    var i := FirstWithId(tasks, taskId);
    var done := MarkTaskDone(tasks, taskId).items;
    var undone := MarkTaskUndone(tasks, taskId).items;
    assert done[i] == tasks[i].(status := DoneStatus) && done[i].status == DoneStatus;
    assert AllDoneTasks(done).Ok?;
    assert undone[i] == tasks[i].(status := NotDoneStatus) && undone[i].status == NotDoneStatus;
    assert AllNotDoneTasks(undone).Ok?;
  }

  /** Status changes keep ids unique. */
  lemma MarkKeepsIdsUnique(tasks: seq<Task>, taskId: Val)
    requires UniqueIds(tasks)
    ensures UniqueIds(MarkTaskDone(tasks, taskId).items)
    ensures UniqueIds(MarkTaskUndone(tasks, taskId).items)
  {
    var done := MarkTaskDone(tasks, taskId).items;
    var undone := MarkTaskUndone(tasks, taskId).items;
    assert forall i :: 0 <= i < |tasks| ==> done[i].id == tasks[i].id;
    assert forall i :: 0 <= i < |tasks| ==> undone[i].id == tasks[i].id;
  }

  /** `save_to_file`. */
  function SaveTasks(tasks: seq<Task>): (doc: Doc) {
    Persistence.Save(ListKey, tasks, ToDict)
  }

  /** `load_from_file`. */
  function LoadTasks(current: seq<Task>, doc: Doc): (r: Step<Task>) {
    Persistence.Load(current, doc, ListKey, FromDict)
  }

  /** The file after a call: rewritten with the new list exactly when the
      call saved. */
  function FileAfter(file: Doc, r: Step<Task>): (after: Doc) {
    Persistence.FileAfter(file, r, ListKey, ToDict)
  }

  /** Loading what was saved gives back the same tasks, field for field. */
  lemma LoadSavedTasks(current: seq<Task>, tasks: seq<Task>)
    ensures LoadTasks(current, SaveTasks(tasks)) == Step(tasks, Applied(false))
  {
    forall x: Task
      ensures FromDict(ToDict(x)) == Some(x)
    {
      FromToDict(x);
    }
    Persistence.LoadSaved(current, tasks, ListKey, ToDict, FromDict);
  }

  /** After a successful add, reloading the file gives the list the add
      left in memory. */
  lemma ReloadAfterAdd(file: Doc, tasks: seq<Task>, id: Val, task: string, description: string,
                       deadline: string, done: string, current: seq<Task>)
    requires AddTask(tasks, id, task, description, deadline, done).outcome.Applied?
    ensures
      var r := AddTask(tasks, id, task, description, deadline, done);
      LoadTasks(current, FileAfter(file, r)).items == r.items
  {
    var r := AddTask(tasks, id, task, description, deadline, done);
    LoadSavedTasks(current, r.items);
  }

  /** Deleting by id does not reach the file: when the file held the list
      before the delete, reloading brings the deleted task back. */
  lemma ReloadAfterDeleteById(tasks: seq<Task>, taskId: Val, current: seq<Task>)
    requires HasId(tasks, taskId)
    ensures
      var r := DeleteTaskById(tasks, taskId);
      && |r.items| == |tasks| - 1
      && LoadTasks(current, FileAfter(SaveTasks(tasks), r)).items == tasks
  {
    LoadSavedTasks(current, tasks);
  }
}
