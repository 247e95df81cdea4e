/**
 * `TodoTaskService`: loads a task from the repository, checks it exists, lets
 * the task apply the change or the completion and persists it.
 */
module TodoTaskServices {
  import opened Wrappers
  import opened ValueObjects
  import opened Tasks
  import opened Store
  import Entity

  const TaskNotFound := ArgumentException("Task not found", None)

  /** Every saved task is stored under its own `Id`, below the next
      identity, and keeps the task invariant. */
  ghost predicate ValidStore(store: map<int, TaskState>, nextId: int) {
    && 1 <= nextId
    && forall id | id in store ::
      && 1 <= id < nextId
      && store[id].base.Id == id
      && ValidTask(store[id])
  }

  class TodoTaskService {
    /** The saved tasks, by `Id`. */
    var repository: map<int, TaskState>
    /** The identity the store gives the next task it adds. */
    var nextId: int
    /** Every write made to the repository, oldest first. */
    var calls: seq<Call>

    ghost predicate Valid()
      reads this
    {
      ValidStore(repository, nextId)
    }

    /** A service over the repository it is given: the saved tasks and
        the identity the store gives next. */
    constructor(initial: map<int, TaskState>, next: int)
      requires ValidStore(initial, next)
      ensures Valid()
      ensures repository == initial && nextId == next && calls == []
    {
      repository := initial;
      nextId := next;
      calls := [];
    }

    /** `AddAsync`: the store gives the task the next identity and saves it. */
    method Add(t: TodoTask)
      modifies this, t
      ensures t.State() == old(t.State()).(base := old(t.base).(Id := old(nextId)))
      ensures repository == old(repository)[old(nextId) := t.State()]
      ensures nextId == old(nextId) + 1
      ensures calls == old(calls) + [AddCall(old(nextId))]
    {
      t.base := t.base.(Id := nextId);
      repository := repository[nextId := t.State()];
      calls := calls + [AddCall(nextId)];
      nextId := nextId + 1;
    }

    /** `UpdateAsync`: saves the task under its `Id`. */
    method Persist(t: TodoTask)
      modifies this
      ensures repository == old(repository)[t.base.Id := t.State()]
      ensures nextId == old(nextId)
      ensures calls == old(calls) + [UpdateCall(t.base.Id)]
    {
      repository := repository[t.base.Id := t.State()];
      calls := calls + [UpdateCall(t.base.Id)];
    }

    /** `CreateTaskAsync`: a task `Create` rejects is not added; otherwise
        exactly the created task is added, under a new identity, and
        returned. */
    method CreateTask(request: TodoTaskCreateRequest, now: Entity.Time) returns (r: Result<TodoTask>)
      requires Valid()
      modifies this
      ensures Valid()
      ensures Construct(request, now).Failure? ==>
        && r == Failure(Construct(request, now).error)
        && repository == old(repository) && nextId == old(nextId) && calls == old(calls)
      ensures Construct(request, now).Success? ==>
        && r.Success? && fresh(r.value)
        && old(nextId) !in old(repository)
        && r.value.State() == Construct(request, now).value.(base := r.value.base)
        && r.value.base == Entity.InitWithId(old(nextId), now)
        && repository == old(repository)[old(nextId) := r.value.State()]
        && nextId == old(nextId) + 1
        && calls == old(calls) + [AddCall(old(nextId))]
    {
      var created := TodoTask.Create(request, now);
      if created.Failure? {
        return Failure(created.error);
      }
      var t := created.value;
      Add(t);
      return Success(t);
    }

    /** `GetTaskAsync`: the saved task with this `Id`, or `null`. */
    method GetTask(id: int) returns (r: Option<TodoTask>)
      ensures r.Some? <==> id in repository
      ensures r.Some? ==> fresh(r.value) && r.value.State() == repository[id]
    {
      if id !in repository {
        return None;
      }
      var t := new TodoTask.Restore(repository[id]);
      return Some(t);
    }

    /** `UpdateTaskAsync`: a missing `Id` throws "Task not found"; a change
        the task rejects throws; in both cases nothing is saved, so the
        title `Update` wrote before a description check failed never
        reaches the store. Otherwise the updated task is saved exactly once. */
    method UpdateTask(id: int, request: TodoTaskUpdateRequest, now: Entity.Time) returns (outcome: Outcome)
      requires Valid()
      modifies this
      ensures Valid()
      ensures nextId == old(nextId)
      ensures id !in old(repository) ==>
        outcome == Fail(TaskNotFound) && repository == old(repository) && calls == old(calls)
      ensures id in old(repository) && ApplyUpdate(old(repository)[id], request, now).1.Fail? ==>
        && outcome == ApplyUpdate(old(repository)[id], request, now).1
        && repository == old(repository) && calls == old(calls)
      ensures id in old(repository) && ApplyUpdate(old(repository)[id], request, now).1.Pass? ==>
        && outcome == Pass
        && repository == old(repository)[id := ApplyUpdate(old(repository)[id], request, now).0]
        && calls == old(calls) + [UpdateCall(id)]
    {
      var loaded := GetTask(id);
      if loaded.None? {
        return Fail(TaskNotFound);
      }
      var task := loaded.value;
      ghost var s := task.State();
      outcome := task.Update(request, now);
      if outcome.Fail? {
        return;
      }
      UpdateTouchesOnlyPresentFields(s, request, now);
      Persist(task);
    }

    /** `CompleteTaskAsync`: a missing `Id` throws "Task not found" and a
        completed task throws "Task is already completed", with nothing
        saved; an incomplete task is completed and saved exactly once. */
    method CompleteTask(id: int, now: Entity.Time) returns (outcome: Outcome)
      requires Valid()
      modifies this
      ensures Valid()
      ensures nextId == old(nextId)
      ensures id !in old(repository) ==>
        outcome == Fail(TaskNotFound) && repository == old(repository) && calls == old(calls)
      ensures id in old(repository) && old(repository)[id].isCompleted ==>
        outcome == Fail(AlreadyCompleted) && repository == old(repository) && calls == old(calls)
      ensures id in old(repository) && !old(repository)[id].isCompleted ==>
        && outcome == Pass
        && repository == old(repository)[id := ApplyComplete(old(repository)[id], now).value]
        && repository[id].isCompleted && repository[id].completedAt == Some(now)
        && calls == old(calls) + [UpdateCall(id)]
    {
      var loaded := GetTask(id);
      if loaded.None? {
        return Fail(TaskNotFound);
      }
      var task := loaded.value;
      outcome := task.Complete(now);
      if outcome.Fail? {
        return;
      }
      Persist(task);
    }

    /** `DeleteTaskAsync`: forwards the `Id` with no existence check;
        deleting a missing `Id` changes nothing in the store. */
    method DeleteTask(id: int)
      requires Valid()
      modifies this
      ensures Valid()
      ensures repository == old(repository) - {id}
      ensures nextId == old(nextId)
      ensures calls == old(calls) + [DeleteCall(id)]
    {
      repository := repository - {id};
      calls := calls + [DeleteCall(id)];
    }
  }
}
