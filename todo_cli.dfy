/** The in-memory task list of the command-line version: a dictionary from
    id to task plus the next id to hand out, owned by one `TaskService`. */
module TodoCli {
  import opened Wrappers
  import opened Text

  /** One todo item (the `Task` dataclass of the command-line version). */
  datatype Task = Task(id: int, title: string, description: string, completed: bool)

  const EmptyTitleMessage := "Task title cannot be empty"
  const InvalidIdMessage := "Invalid task ID"

  const UpdatedSuffix := " updated successfully"
  const DeletedSuffix := " deleted successfully"

  /** "Task <id> updated successfully": between the fixed words stands the
      rendering of the task's id, which reads back as that id. */
  function UpdatedMessage(taskId: int): (r: string)
    ensures |r| > 5 + |UpdatedSuffix|
    ensures r[..5] == "Task " && r[|r| - |UpdatedSuffix|..] == UpdatedSuffix
    ensures SignedValue(r[5..|r| - |UpdatedSuffix|]) == taskId
    ensures r[5..|r| - |UpdatedSuffix|] == IntToString(taskId)
  {
    var id := IntToString(taskId);
    var r := "Task " + id + UpdatedSuffix;
    assert r[5..|r| - |UpdatedSuffix|] == id;
    r
  }

  /** "Task <id> deleted successfully": between the fixed words stands the
      rendering of the task's id, which reads back as that id. */
  function DeletedMessage(taskId: int): (r: string)
    ensures |r| > 5 + |DeletedSuffix|
    ensures r[..5] == "Task " && r[|r| - |DeletedSuffix|..] == DeletedSuffix
    ensures SignedValue(r[5..|r| - |DeletedSuffix|]) == taskId
    ensures r[5..|r| - |DeletedSuffix|] == IntToString(taskId)
  {
    var id := IntToString(taskId);
    var r := "Task " + id + DeletedSuffix;
    assert r[5..|r| - |DeletedSuffix|] == id;
    r
  }

  /** The shape every stored title has: non-empty, with no whitespace at
      either end (so stripping it again changes nothing). */
  predicate IsStoredTitle(title: string)
  {
    title != [] && !IsSpace(title[0]) && !IsSpace(title[|title| - 1])
  }

  /** The task with its completion flag flipped and nothing else changed. */
  function Toggled(t: Task): (r: Task)
    ensures r.completed != t.completed
    ensures r.(completed := t.completed) == t
  {
    t.(completed := !t.completed)
  }

  /** Toggling twice restores the task exactly. */
  lemma ToggledTwice(t: Task)
    ensures Toggled(Toggled(t)) == t
  {
  }

  /** The shape of the service state that `TaskService.Valid` demands. */
  predicate WellFormed(tasks: map<int, Task>, nextId: int)
  {
    && 1 <= nextId
    && forall id :: id in tasks ==>
         1 <= id < nextId && tasks[id].id == id && IsStoredTitle(tasks[id].title)
  }

  /** Storing a task with a stripped title under the next id, and moving the
      counter past it, keeps the state well formed. */
  lemma StoreKeepsValid(tasks: map<int, Task>, nextId: int, task: Task)
    requires WellFormed(tasks, nextId)
    requires task.id == nextId && IsStoredTitle(task.title)
    ensures nextId !in tasks
    ensures WellFormed(tasks[nextId := task], nextId + 1)
  {
  }

  /** Rewriting a stored task in place, under the same id and with a
      stripped title, keeps the state well formed. */
  lemma ReplaceKeepsValid(tasks: map<int, Task>, nextId: int, task: Task)
    requires WellFormed(tasks, nextId)
    requires task.id in tasks && IsStoredTitle(task.title)
    ensures WellFormed(tasks[task.id := task], nextId)
  {
  }

  class TaskService {
    var tasks: map<int, Task>
    var nextId: int

    /** Every stored task sits under its own id, every id is below the next
        one to be handed out, and every title is non-empty and stripped. */
    ghost predicate Valid()
      reads this
    {
      WellFormed(tasks, nextId)
    }

    /** A fresh service holds no task and will hand out id 1 first. */
    constructor ()
      ensures Valid()
      ensures tasks == map[] && nextId == 1
    {
      tasks := map[];
      nextId := 1;
    }

    /** The task stored under `taskId`, if any. */
    function GetTask(taskId: int): (r: Option<Task>)
      requires Valid()
      reads this
      ensures r.Some? <==> taskId in tasks
      ensures r.Some? ==> r.value == tasks[taskId] && r.value.id == taskId
    {
      if taskId in tasks then Some(tasks[taskId]) else None
    }

    /** All stored tasks, each exactly once, in increasing id order
        (every stored id lies in 1 .. nextId - 1, so walking that range in
        order visits the sorted keys). */
    method GetAllTasks() returns (r: seq<Task>)
      requires Valid()
      ensures forall i :: 0 <= i < |r| ==> r[i].id in tasks && tasks[r[i].id] == r[i]
      ensures forall id :: id in tasks ==> tasks[id] in r
      ensures forall i, j :: 0 <= i < j < |r| ==> r[i].id < r[j].id
    {
      r := [];
      var id := 1;
      while id < nextId
        invariant 1 <= id <= nextId
        invariant forall i :: 0 <= i < |r| ==> r[i].id in tasks && tasks[r[i].id] == r[i] && r[i].id < id
        invariant forall k :: k in tasks && k < id ==> tasks[k] in r
        invariant forall i, j :: 0 <= i < j < |r| ==> r[i].id < r[j].id
      {
        if id in tasks {
          r := r + [tasks[id]];
        }
        id := id + 1;
      }
    }

    /** Adds a task under the next id with the stripped title, unless the
        title is empty or whitespace only. */
    method AddTask(title: string, description: string) returns (r: Result<int, string>)
      requires Valid()
      modifies this
      ensures Valid()
      ensures r.Failure? <==> IsBlank(title)
      ensures r.Failure? ==>
                r.error == EmptyTitleMessage && tasks == old(tasks) && nextId == old(nextId)
      ensures r.Success? ==>
                && r.value == old(nextId)
                && r.value !in old(tasks)
                && (forall id :: id in old(tasks) ==> id < r.value)
                && tasks == old(tasks)[r.value := Task(r.value, Strip(title), description, false)]
                && nextId == old(nextId) + 1
    {
      var stripped := Strip(title);
      StripEmptyIffBlank(title);
      if title == [] || stripped == [] {
        return Failure(EmptyTitleMessage);
      }
      var taskId := nextId;
      var task := Task(taskId, stripped, description, false);
      StoreKeepsValid(tasks, nextId, task);
      tasks := tasks[taskId := task];
      nextId := nextId + 1;
      return Success(taskId);
    }

    /** Replaces the title (stripped) and/or the description of a stored
        task; a missing id or a blank new title changes nothing. */
    method UpdateTask(taskId: int, title: Option<string>, description: Option<string>)
      returns (r: Result<string, string>)
      requires Valid()
      modifies this
      ensures Valid()
      ensures nextId == old(nextId)
      ensures r.Failure? <==> taskId !in old(tasks) || (title.Some? && IsBlank(title.value))
      ensures taskId !in old(tasks) ==> r == Failure(InvalidIdMessage)
      ensures taskId in old(tasks) && title.Some? && IsBlank(title.value) ==>
                r == Failure(EmptyTitleMessage)
      ensures r.Failure? ==> tasks == old(tasks)
      ensures r.Success? ==>
                && r.value == UpdatedMessage(taskId)
                && var t := old(tasks)[taskId];
                   tasks == old(tasks)[taskId := t.(
                     title := if title.Some? then Strip(title.value) else t.title,
                     description := if description.Some? then description.value else t.description)]
    {
      if taskId !in tasks {
        return Failure(InvalidIdMessage);
      }
      var current := tasks[taskId];
      var newTitle := current.title;
      if title.Some? {
        var stripped := Strip(title.value);
        StripEmptyIffBlank(title.value);
        if stripped == [] {
          return Failure(EmptyTitleMessage);
        }
        newTitle := stripped;
      }
      var newDescription := if description.Some? then description.value else current.description;
      var task := current.(title := newTitle, description := newDescription);
      ReplaceKeepsValid(tasks, nextId, task);
      tasks := tasks[taskId := task];
      return Success(UpdatedMessage(taskId));
    }

    /** Removes the task stored under `taskId`; the id counter is untouched,
        so the id is never handed out again. */
    method DeleteTask(taskId: int) returns (r: Result<string, string>)
      requires Valid()
      modifies this
      ensures Valid()
      ensures nextId == old(nextId)
      ensures r.Failure? <==> taskId !in old(tasks)
      ensures r.Failure? ==> r.error == InvalidIdMessage && tasks == old(tasks)
      ensures r.Success? ==> r.value == DeletedMessage(taskId) && tasks == old(tasks) - {taskId}
    {
      if taskId !in tasks {
        return Failure(InvalidIdMessage);
      }
      tasks := tasks - {taskId};
      return Success(DeletedMessage(taskId));
    }

    /** Flips the completion flag of a stored task and returns its new value. */
    method ToggleTask(taskId: int) returns (r: Option<bool>)
      requires Valid()
      modifies this
      ensures Valid()
      ensures nextId == old(nextId)
      ensures r.None? <==> taskId !in old(tasks)
      ensures r.None? ==> tasks == old(tasks)
      ensures r.Some? ==>
                && r.value == !old(tasks)[taskId].completed
                && tasks == old(tasks)[taskId := Toggled(old(tasks)[taskId])]
    {
      if taskId !in tasks {
        return None;
      }
      var task := Toggled(tasks[taskId]);
      tasks := tasks[taskId := task];
      return Some(task.completed);
    }
  }
}
