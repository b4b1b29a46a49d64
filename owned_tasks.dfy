/** The task service of the web backend: every lookup, change and removal is
    filtered by both the task id and the caller's user id, which comes from
    the verified token and never from the request body. The database table
    is a map from id to row plus the table's auto-increment counter. */
module OwnedTasks {
  import opened Wrappers
  import opened TaskModel
  import opened TaskSchemas

  /** The row `taskId` exists and belongs to `userId`: the filter
      `Task.id == task_id AND Task.user_id == user_id`. */
  predicate OwnedBy(tasks: map<int, Task>, taskId: int, userId: int)
  {
    taskId in tasks && tasks[taskId].userId == userId
  }

  /** A row satisfies the bounds the request schemas put on its fields. */
  predicate RowFits(t: Task)
  {
    TitleValid(t.title) && DescriptionValid(t.description)
  }

  /** How a call made on behalf of `userId` looks to everybody else: rows of
      other owners are neither changed nor removed, no row changes owner,
      and every new row belongs to `userId`. */
  ghost predicate OthersUntouched(before: map<int, Task>, after: map<int, Task>, userId: int)
  {
    && (forall id :: id in before && before[id].userId != userId ==>
          id in after && after[id] == before[id])
    && (forall id :: id in before && id in after ==> after[id].userId == before[id].userId)
    && (forall id :: id in after && id !in before ==> after[id].userId == userId)
  }

  /** Any sequence of calls by one user leaves the other users' rows alone. */
  lemma OthersUntouchedCompose(a: map<int, Task>, b: map<int, Task>, c: map<int, Task>, userId: int)
    requires OthersUntouched(a, b, userId) && OthersUntouched(b, c, userId)
    ensures OthersUntouched(a, c, userId)
  {
  }

  /** The row with its completion flag flipped and its update time set. */
  function Toggled(t: Task, now: nat): (r: Task)
    ensures r.isCompleted != t.isCompleted && r.updatedAt == now
    ensures r.(isCompleted := t.isCompleted, updatedAt := t.updatedAt) == t
  {
    t.(isCompleted := !t.isCompleted, updatedAt := now)
  }

  /** Toggling twice restores every field but the update time. */
  lemma ToggledTwice(t: Task, first: nat, second: nat)
    ensures Toggled(Toggled(t, first), second) == t.(updatedAt := second)
  {
  }

  /** Newest first: creation times never increase along the listing. */
  ghost predicate NewestFirst(s: seq<Task>)
  {
    forall i, j :: 0 <= i < j < |s| ==> s[i].createdAt >= s[j].createdAt
  }

  /** No id occurs twice in the listing. */
  ghost predicate DistinctIds(s: seq<Task>)
  {
    forall i, j :: 0 <= i < j < |s| ==> s[i].id != s[j].id
  }

  /** Places `t` into a listing, after every row at least as new as `t`. */
  function InsertNewestFirst(s: seq<Task>, t: Task): (r: seq<Task>)
    ensures multiset(r) == multiset(s) + multiset{t}
  {
    if s == [] then [t]
    else if t.createdAt > s[0].createdAt then [t] + s
    else
      assert s == [s[0]] + s[1..];
      [s[0]] + InsertNewestFirst(s[1..], t)
  }

  /** The inserted listing holds the old rows and `t`, and nothing else. */
  lemma InsertMembers(s: seq<Task>, t: Task)
    ensures forall x :: x in InsertNewestFirst(s, t) <==> x in s || x == t
  {
    var r := InsertNewestFirst(s, t);
    forall x ensures x in r <==> x in s || x == t {
      assert x in r <==> x in multiset(r);
      assert x in s <==> x in multiset(s);
    }
  }

  /** Insertion keeps a newest-first listing newest first. */
  lemma {:induction false} InsertKeepsNewestFirst(s: seq<Task>, t: Task)
    requires NewestFirst(s)
    ensures NewestFirst(InsertNewestFirst(s, t))
  {
    if s != [] && t.createdAt <= s[0].createdAt {
      var rest := InsertNewestFirst(s[1..], t);
      InsertKeepsNewestFirst(s[1..], t);
      InsertMembers(s[1..], t);
      assert forall j :: 0 <= j < |rest| ==> rest[j] in s[1..] || rest[j] == t;
    }
  }

  /** Insertion of a row whose id is new keeps the ids distinct. */
  lemma {:induction false} InsertKeepsDistinctIds(s: seq<Task>, t: Task)
    requires DistinctIds(s)
    requires forall i :: 0 <= i < |s| ==> s[i].id != t.id
    ensures DistinctIds(InsertNewestFirst(s, t))
  {
    if s != [] && t.createdAt <= s[0].createdAt {
      var rest := InsertNewestFirst(s[1..], t);
      InsertKeepsDistinctIds(s[1..], t);
      InsertMembers(s[1..], t);
      assert forall j :: 0 <= j < |rest| ==> rest[j] in s[1..] || rest[j] == t;
    }
  }

  class TaskStore {
    var tasks: map<int, Task>
    var nextId: int

    /** Every row sits under its own id, below the next id the table will
        hand out, and fits the schema bounds. */
    ghost predicate Valid()
      reads this
    {
      && 1 <= nextId
      && forall id :: id in tasks ==> 1 <= id < nextId && tasks[id].id == id && RowFits(tasks[id])
    }

    constructor ()
      ensures Valid()
      ensures tasks == map[] && nextId == 1
    {
      tasks := map[];
      nextId := 1;
    }

    /** `get_task`: the row only when it exists AND belongs to the caller;
        an absent row and another user's row both give `None`. */
    function GetTask(taskId: int, userId: int): (r: Option<Task>)
      requires Valid()
      reads this
      ensures r.Some? <==> OwnedBy(tasks, taskId, userId)
      ensures r.Some? ==> r.value == tasks[taskId] && r.value.id == taskId && r.value.userId == userId
    {
      if OwnedBy(tasks, taskId, userId) then Some(tasks[taskId]) else None
    }

    /** `list_tasks`: exactly the caller's rows, each once, newest first.
        Rows created at the same instant may come in either order, as with
        the database's `ORDER BY created_at DESC`. */
    method ListTasks(userId: int) returns (r: seq<Task>)
      requires Valid()
      ensures forall i :: 0 <= i < |r| ==> OwnedBy(tasks, r[i].id, userId) && tasks[r[i].id] == r[i]
      ensures forall id :: OwnedBy(tasks, id, userId) ==> tasks[id] in r
      ensures DistinctIds(r)
      ensures NewestFirst(r)
    {
      r := [];
      var id := 1;
      while id < nextId
        invariant 1 <= id <= nextId
        invariant forall i :: 0 <= i < |r| ==>
                    OwnedBy(tasks, r[i].id, userId) && tasks[r[i].id] == r[i] && r[i].id < id
        invariant forall k :: OwnedBy(tasks, k, userId) && k < id ==> tasks[k] in r
        invariant DistinctIds(r)
        invariant NewestFirst(r)
      {
        if OwnedBy(tasks, id, userId) {
          InsertMembers(r, tasks[id]);
          InsertKeepsNewestFirst(r, tasks[id]);
          InsertKeepsDistinctIds(r, tasks[id]);
          ghost var before := r;
          r := InsertNewestFirst(r, tasks[id]);
          assert forall i :: 0 <= i < |r| ==> r[i] in before || r[i] == tasks[id];
        }
        id := id + 1;
      }
    }

    /** `create_task`: a new incomplete row owned by the caller, under a fresh
        id, created and updated at `now`. */
    method CreateTask(userId: int, title: string, description: Option<string>, now: nat)
      returns (t: Task)
      requires Valid()
      requires TitleValid(title) && DescriptionValid(description)
      modifies this
      ensures Valid()
      ensures t == Task(old(nextId), title, description, false, userId, now, now)
      ensures t.id !in old(tasks)
      ensures tasks == old(tasks)[t.id := t]
      ensures nextId == old(nextId) + 1
      ensures GetTask(t.id, userId) == Some(t)
      ensures OthersUntouched(old(tasks), tasks, userId)
    {
      t := Task(nextId, title, description, false, userId, now, now);
      tasks := tasks[nextId := t];
      nextId := nextId + 1;
    }

    /** `update_task`: sets the supplied fields of the caller's row and its
        update time; a row that is absent or someone else's is reported as
        `None` and nothing changes. */
    method UpdateTask(taskId: int, userId: int, title: Option<string>, description: Option<string>, now: nat)
      returns (r: Option<Task>)
      requires Valid()
      requires TaskUpdateValid(TaskUpdate(title, description))
      modifies this
      ensures Valid()
      ensures nextId == old(nextId)
      ensures r.None? <==> !OwnedBy(old(tasks), taskId, userId)
      ensures r.None? ==> tasks == old(tasks)
      ensures r.Some? ==>
                && (var t := old(tasks)[taskId];
                    r.value == t.(title := if title.Some? then title.value else t.title,
                                  description := if description.Some? then description else t.description,
                                  updatedAt := now))
                && tasks == old(tasks)[taskId := r.value]
      ensures OthersUntouched(old(tasks), tasks, userId)
    {
      var found := GetTask(taskId, userId);
      if found.None? {
        return None;
      }
      var task := found.value;
      if title.Some? {
        task := task.(title := title.value);
      }
      if description.Some? {
        task := task.(description := description);
      }
      task := task.(updatedAt := now);
      tasks := tasks[taskId := task];
      return Some(task);
    }

    /** `delete_task`: removes the caller's row and nothing else; `false`
        and no change when the row is absent or someone else's. */
    method DeleteTask(taskId: int, userId: int) returns (deleted: bool)
      requires Valid()
      modifies this
      ensures Valid()
      ensures nextId == old(nextId)
      ensures deleted <==> OwnedBy(old(tasks), taskId, userId)
      ensures deleted ==> tasks == old(tasks) - {taskId}
      ensures !deleted ==> tasks == old(tasks)
      ensures OthersUntouched(old(tasks), tasks, userId)
    {
      var found := GetTask(taskId, userId);
      if found.None? {
        return false;
      }
      tasks := tasks - {taskId};
      return true;
    }

    /** `toggle_task`: flips the completion flag of the caller's row and sets
        its update time; `None` and no change otherwise. */
    method ToggleTask(taskId: int, userId: int, now: nat) returns (r: Option<Task>)
      requires Valid()
      modifies this
      ensures Valid()
      ensures nextId == old(nextId)
      ensures r.None? <==> !OwnedBy(old(tasks), taskId, userId)
      ensures r.None? ==> tasks == old(tasks)
      ensures r.Some? ==>
                r.value == Toggled(old(tasks)[taskId], now) && tasks == old(tasks)[taskId := r.value]
      ensures OthersUntouched(old(tasks), tasks, userId)
    {
      var found := GetTask(taskId, userId);
      if found.None? {
        return None;
      }
      var task := Toggled(found.value, now);
      tasks := tasks[taskId := task];
      return Some(task);
    }
  }
}
