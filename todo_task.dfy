/**
 * `TodoTask`: a titled task with optional description, assignee, category,
 * reminder and due date, and a one-way completion state machine
 * (Incomplete -> Completed).
 */
module Tasks {
  import opened Wrappers
  import opened Text
  import opened ValueObjects
  import Entity

  const MaxTitleLength: nat := 50
  const MaxDescriptionLength: nat := 500

  const TitleEmpty := ArgumentException("Title cannot be empty", Some("Title"))
  const TitleTooLong := ArgumentException("Title cannot exceed 50 characters", Some("Title"))
  const DescriptionTooLong := ArgumentException("Description cannot exceed 500 characters", Some("Description"))
  const AlreadyCompleted := InvalidOperationException("Task is already completed")

  /** What a stored title always is: not blank, trimmed, at most 50 long. */
  predicate ValidTitle(title: string) {
    !AllWhite(title) && Trim(title) == title && Utf16Length(title) <= MaxTitleLength
  }

  /** A stored description, when there is one, is trimmed and at most 500 long. */
  predicate ValidDescription(description: Option<string>) {
    description.Some? ==>
      Trim(description.value) == description.value && Utf16Length(description.value) <= MaxDescriptionLength
  }

  /** The value of a task object. */
  datatype TaskState = TaskState(
    base: Entity.Base,
    title: string,
    description: Option<string>,
    assignedTo: int,
    reminderAt: Option<Entity.Time>,
    isCompleted: bool,
    dueDate: Option<Entity.Time>,
    completedAt: Option<Entity.Time>,
    categoryId: int)

  /** The invariant of every task built by `Create`: valid title and
      description, and a completion time exactly when completed. */
  predicate ValidTask(s: TaskState) {
    && ValidTitle(s.title)
    && ValidDescription(s.description)
    && (s.isCompleted <==> s.completedAt.Some?)
  }

  /** The title check run by both `Create` and `Update`: blank titles are
      rejected, then titles whose UNTRIMMED length exceeds 50; a title that
      passes is stored trimmed. */
  function CheckTitle(title: Option<string>): (r: Result<string>)
    ensures r.Success? <==> !IsNullOrWhiteSpace(title) && Utf16Length(title.value) <= MaxTitleLength
    ensures IsNullOrWhiteSpace(title) ==> r == Failure(TitleEmpty)
    ensures r.Failure? && !IsNullOrWhiteSpace(title) ==> r.error == TitleTooLong
    ensures r.Success? ==> r.value == Trim(title.value) && ValidTitle(r.value)
  {
    if IsNullOrWhiteSpace(title) then Failure(TitleEmpty)
    else if Utf16Length(title.value) > MaxTitleLength then Failure(TitleTooLong)
    else
      TrimmedNonBlank(title.value);
      Success(Trim(title.value))
  }

  /** `description?.Length > 500`: a lifted comparison, false for `null`,
      on the UNTRIMMED description. */
  predicate DescriptionExceeds(description: Option<string>) {
    description.Some? && Utf16Length(description.value) > MaxDescriptionLength
  }

  /** A description that passes the length check is valid once trimmed. */
  lemma TrimmedDescriptionValid(description: Option<string>)
    requires !DescriptionExceeds(description)
    ensures ValidDescription(TrimNullable(description))
  {
    if description.Some? {
      Utf16LengthTrim(description.value);
      TrimIdempotent(description.value);
    }
  }

  /** `TodoTask.Create(request)` on values. */
  function Construct(request: TodoTaskCreateRequest, now: Entity.Time): Result<TaskState> {
    match CheckTitle(request.Title)
    case Failure(e) => Failure(e)
    case Success(title) =>
      if DescriptionExceeds(request.Description) then Failure(DescriptionTooLong)
      else Success(TaskState(
        Entity.Init(now),
        title,
        TrimNullable(request.Description),
        request.AssignedTo.GetOr(0),
        request.ReminderAt,
        false,
        request.DueDate,
        None,
        request.CategoryId.GetOr(0)))
  }

  /** `Complete()` on values. */
  function ApplyComplete(s: TaskState, now: Entity.Time): Result<TaskState> {
    if s.isCompleted then Failure(AlreadyCompleted)
    else Success(s.(isCompleted := true, completedAt := Some(now), base := Entity.SetUpdatedAt(s.base, now)))
  }

  /** `Update(request)` on values. It is not atomic: the new state is
      returned with the outcome, because a present title is written before
      the description check can throw. */
  function ApplyUpdate(s: TaskState, request: TodoTaskUpdateRequest, now: Entity.Time): (TaskState, Outcome) {
    var title := if request.HasTitle() then CheckTitle(request.Title) else Success(s.title);
    match title
    case Failure(e) => (s, Fail(e))
    case Success(t) =>
      var titled := s.(title := t);
      if request.HasDescription() && DescriptionExceeds(request.Description) then
        (titled, Fail(DescriptionTooLong))
      else
        (PatchFields(titled, request, now), Pass)
  }

  /** The part of `Update` after the checks: every other present field is
      overwritten and the update time stamped. */
  function PatchFields(s: TaskState, request: TodoTaskUpdateRequest, now: Entity.Time): TaskState {
    s.(
      description := if request.HasDescription() then TrimNullable(request.Description) else s.description,
      assignedTo := if request.HasAssignedTo() then request.AssignedTo.value else s.assignedTo,
      categoryId := if request.HasCategoryId() then request.CategoryId.value else s.categoryId,
      reminderAt := if request.HasReminderAt() then request.ReminderAt else s.reminderAt,
      dueDate := if request.HasDueDate() then request.DueDate else s.dueDate,
      base := Entity.SetUpdatedAt(s.base, now))
  }

  /** `IsOverdue` at the instant `now`. */
  predicate Overdue(s: TaskState, now: Entity.Time) {
    s.dueDate.Some? && !s.isCompleted && now > s.dueDate.value
  }

  /** A task object. */
  class TodoTask {
    var base: Entity.Base
    var Title: string
    var Description: Option<string>
    var AssignedTo: int
    var ReminderAt: Option<Entity.Time>
    var IsCompleted: bool
    var DueDate: Option<Entity.Time>
    var CompletedAt: Option<Entity.Time>
    var CategoryId: int

    ghost predicate Valid()
      reads this
    {
      ValidTask(State())
    }

    function State(): TaskState
      reads this
    {
      TaskState(base, Title, Description, AssignedTo, ReminderAt, IsCompleted, DueDate, CompletedAt, CategoryId)
    }

    /** The assignments of the private constructor `TodoTask(request)` once
        its checks have passed: a new entity base, the already trimmed title
        and description, and the request's other fields. Only `Create` calls
        it. It differs from `Restore`, which sets every property of an
        existing row, its `Id`, timestamps and completion included. */
    constructor Build(title: string, description: Option<string>, request: TodoTaskCreateRequest, now: Entity.Time)
      ensures State() == TaskState(Entity.Init(now), title, description, request.AssignedTo.GetOr(0),
        request.ReminderAt, false, request.DueDate, None, request.CategoryId.GetOr(0))
    {
      base := Entity.Init(now);
      Title := title;
      Description := description;
      DueDate := request.DueDate;
      AssignedTo := request.AssignedTo.GetOr(0);
      ReminderAt := request.ReminderAt;
      CategoryId := request.CategoryId.GetOr(0);
      IsCompleted := false;
      CompletedAt := None;
    }

    /** The parameterless constructor the store uses to materialise a saved
        task, with every property then set from the saved row. */
    constructor Restore(s: TaskState)
      ensures State() == s
    {
      base := s.base;
      Title := s.title;
      Description := s.description;
      AssignedTo := s.assignedTo;
      ReminderAt := s.reminderAt;
      IsCompleted := s.isCompleted;
      DueDate := s.dueDate;
      CompletedAt := s.completedAt;
      CategoryId := s.categoryId;
    }

    /** `TodoTask.Create(request)`: throws on a blank or too long title or a
      too long description, in that order. */
    static method Create(request: TodoTaskCreateRequest, now: Entity.Time) returns (r: Result<TodoTask>)
      ensures r.Success? <==> Construct(request, now).Success?
      ensures r.Failure? ==> r == Failure(Construct(request, now).error)
      ensures r.Success? ==>
        && fresh(r.value)
        && r.value.State() == Construct(request, now).value
        && r.value.Valid()
    {
      if IsNullOrWhiteSpace(request.Title) {
        return Failure(TitleEmpty);
      }
      if Utf16Length(request.Title.value) > MaxTitleLength {
        return Failure(TitleTooLong);
      }
      if DescriptionExceeds(request.Description) {
        return Failure(DescriptionTooLong);
      }
      var t := new TodoTask.Build(Trim(request.Title.value), TrimNullable(request.Description), request, now);
      ConstructValid(request, now);
      return Success(t);
    }

    /** `Complete()`: the one transition of the state machine. */
    method Complete(now: Entity.Time) returns (outcome: Outcome)
      modifies this
      ensures ApplyComplete(old(State()), now).Success? ==>
        outcome == Pass && State() == ApplyComplete(old(State()), now).value
      ensures ApplyComplete(old(State()), now).Failure? ==>
        outcome == Fail(AlreadyCompleted) && State() == old(State())
      ensures old(Valid()) ==> Valid()
    {
      if IsCompleted {
        return Fail(AlreadyCompleted);
      }
      IsCompleted := true;
      CompletedAt := Some(now);
      base := base.(UpdatedAt := Some(now));
      outcome := Pass;
    }

    /** `Update(request)`: each present field is written in turn; a rejected
        title throws before anything changes, a too long description throws
        after a present title has been written. */
    method Update(request: TodoTaskUpdateRequest, now: Entity.Time) returns (outcome: Outcome)
      modifies this
      ensures (State(), outcome) == ApplyUpdate(old(State()), request, now)
      ensures old(Valid()) ==> Valid()
    {
      ghost var s := State();
      ghost var title := if request.HasTitle() then CheckTitle(request.Title) else Success(s.title);
      if request.HasTitle() {
        if IsNullOrWhiteSpace(request.Title) {
          assert title == Failure(TitleEmpty);
          return Fail(TitleEmpty);
        }
        if Utf16Length(request.Title.value) > MaxTitleLength {
          assert title == Failure(TitleTooLong);
          return Fail(TitleTooLong);
        }
        Title := Trim(request.Title.value);
      }
      assert title == Success(Title);
      assert State() == s.(title := Title);
      if request.HasDescription() && DescriptionExceeds(request.Description) {
        outcome := Fail(DescriptionTooLong);
      } else {
        WriteFields(request, now);
        outcome := Pass;
      }
      if ValidTask(s) {
        UpdateKeepsValid(s, request, now);
      }
    }

    /** The writes `Update` makes once its checks have passed. */
    method WriteFields(request: TodoTaskUpdateRequest, now: Entity.Time)
      modifies this
      ensures State() == PatchFields(old(State()), request, now)
    {
      if request.HasDescription() {
        Description := TrimNullable(request.Description);
      }
      if request.HasAssignedTo() {
        AssignedTo := request.AssignedTo.value;
      }
      if request.HasCategoryId() {
        CategoryId := request.CategoryId.value;
      }
      if request.HasReminderAt() {
        ReminderAt := request.ReminderAt;
      }
      if request.HasDueDate() {
        DueDate := request.DueDate;
      }
      base := base.(UpdatedAt := Some(now));
    }

    /** `IsOverdue`, evaluated at the instant `now`. */
    function IsOverdue(now: Entity.Time): (r: bool)
      reads this
      ensures r <==> DueDate.Some? && !IsCompleted && now > DueDate.value
    {
      Overdue(State(), now)
    }
  }

  /** A created task satisfies the invariant, is incomplete, unsaved and
      never updated; absent assignee and category default to 0. */
  lemma ConstructValid(request: TodoTaskCreateRequest, now: Entity.Time)
    ensures Construct(request, now).Success? ==>
      var s := Construct(request, now).value;
      && ValidTask(s)
      && !s.isCompleted && s.completedAt == None
      && s.base == Entity.Init(now)
      && s.title == Trim(request.Title.value)
      && s.description == TrimNullable(request.Description)
      && s.assignedTo == (if request.AssignedTo.Some? then request.AssignedTo.value else 0)
      && s.categoryId == (if request.CategoryId.Some? then request.CategoryId.value else 0)
      && s.dueDate == request.DueDate && s.reminderAt == request.ReminderAt
  {
    if Construct(request, now).Success? {
      TrimmedDescriptionValid(request.Description);
    }
  }

  /** `Create` succeeds exactly when the title is present, its untrimmed
      length is at most 50 and the untrimmed description is at most 500;
      it rejects with "Title cannot be empty" exactly when `HasTitle` is false. */
  lemma ConstructSucceedsIff(request: TodoTaskCreateRequest, now: Entity.Time)
    ensures Construct(request, now).Success? <==>
      && request.HasTitle()
      && Utf16Length(request.Title.value) <= MaxTitleLength
      && !DescriptionExceeds(request.Description)
    ensures Construct(request, now) == Failure(TitleEmpty) <==> !request.HasTitle()
    ensures request.HasTitle() && Utf16Length(request.Title.value) > MaxTitleLength
      ==> Construct(request, now) == Failure(TitleTooLong)
    ensures request.HasTitle() && Utf16Length(request.Title.value) <= MaxTitleLength
      && DescriptionExceeds(request.Description)
      ==> Construct(request, now) == Failure(DescriptionTooLong)
  {
    var checked := CheckTitle(request.Title);
    assert checked.Failure? <==> !request.HasTitle() || Utf16Length(request.Title.value) > MaxTitleLength;
    if !request.HasTitle() {
      assert checked == Failure(TitleEmpty);
    } else {
      assert checked != Failure(TitleEmpty);
      assert Construct(request, now) != Failure(TitleEmpty);
    }
  }

  /** `Complete` is one-shot: it completes an incomplete task, stamping the
      completion and update times; on a completed task it throws, and a
      second call after a successful one always throws. */
  lemma CompleteOneShot(s: TaskState, t1: Entity.Time, t2: Entity.Time)
    ensures !s.isCompleted ==>
      ApplyComplete(s, t1) == Success(s.(
        isCompleted := true, completedAt := Some(t1), base := Entity.SetUpdatedAt(s.base, t1)))
    ensures s.isCompleted ==> ApplyComplete(s, t1) == Failure(AlreadyCompleted)
    ensures ApplyComplete(s, t1).Success? ==>
      ApplyComplete(ApplyComplete(s, t1).value, t2) == Failure(AlreadyCompleted)
  {
  }

  /** Completion keeps the invariant; a completed task is never overdue. */
  lemma CompleteKeepsValid(s: TaskState, now: Entity.Time, later: Entity.Time)
    requires ValidTask(s)
    ensures ApplyComplete(s, now).Success? ==>
      ValidTask(ApplyComplete(s, now).value) && !Overdue(ApplyComplete(s, now).value, later)
  {
  }

  /** `Update` keeps the invariant whether or not it throws, and never
      touches `IsCompleted` or `CompletedAt`, so no operation uncompletes a task. */
  lemma UpdateKeepsValid(s: TaskState, request: TodoTaskUpdateRequest, now: Entity.Time)
    requires ValidTask(s)
    ensures ValidTask(ApplyUpdate(s, request, now).0)
    ensures ApplyUpdate(s, request, now).0.isCompleted == s.isCompleted
    ensures ApplyUpdate(s, request, now).0.completedAt == s.completedAt
  {
    var title := if request.HasTitle() then CheckTitle(request.Title) else Success(s.title);
    if title.Success? {
      assert ValidTitle(title.value);
      var titled := s.(title := title.value);
      assert ValidTask(titled);
      if request.HasDescription() && !DescriptionExceeds(request.Description) {
        TrimmedDescriptionValid(request.Description);
      }
    }
  }

  /** A failed `Update` leaves the task unchanged except, when the title was
      present and valid, its new title; `UpdatedAt` is not stamped. A
      rejected title changes nothing at all. A
      description failure after a present title always keeps the new title. */
  lemma UpdateFailureKeepsAllButTitle(s: TaskState, request: TodoTaskUpdateRequest, now: Entity.Time)
    ensures ApplyUpdate(s, request, now).1.Fail? ==>
      var t := ApplyUpdate(s, request, now).0;
      t.base == s.base && (t == s || t == s.(title := Trim(request.Title.value)))
    ensures ApplyUpdate(s, request, now).1 == Fail(DescriptionTooLong) <==>
      && (!request.HasTitle() || CheckTitle(request.Title).Success?)
      && request.HasDescription() && DescriptionExceeds(request.Description)
    ensures ApplyUpdate(s, request, now).1.Fail? && ApplyUpdate(s, request, now).1 != Fail(DescriptionTooLong) ==>
      ApplyUpdate(s, request, now).0 == s
    ensures ApplyUpdate(s, request, now).1 == Fail(DescriptionTooLong) && request.HasTitle() ==>
      ApplyUpdate(s, request, now).0 == s.(title := Trim(request.Title.value))
  {
  }

  /** `Update` is not atomic: a valid title followed by a 501-character
      description throws, yet the new title stays. */
  lemma UpdateNotAtomic(s: TaskState, now: Entity.Time)
    requires s.title != "New"
    ensures var request := TodoTaskUpdateRequest(Some("New"), Some(seq(501, _ => 'a')), None, None, None, None);
      && ApplyUpdate(s, request, now).1 == Fail(DescriptionTooLong)
      && ApplyUpdate(s, request, now).0.title == "New" != s.title
      && ApplyUpdate(s, request, now).0.base.UpdatedAt == s.base.UpdatedAt
  {
    var title := "New";
    assert !IsWhite(title[0]);
    assert TrimStart(title) == title;
    assert TrimEnd(title) == title;
    Utf16LengthBmp(title);
    Utf16LengthBmp(seq(501, _ => 'a'));
  }

  /** On success each field changes only when its presence predicate holds,
      `Id` and `CreatedAt` stay, and `UpdatedAt` is stamped. */
  lemma UpdateTouchesOnlyPresentFields(s: TaskState, request: TodoTaskUpdateRequest, now: Entity.Time)
    ensures ApplyUpdate(s, request, now).1.Pass? ==>
      var t := ApplyUpdate(s, request, now).0;
      && t.base.Id == s.base.Id && t.base.CreatedAt == s.base.CreatedAt
      && t.base.UpdatedAt == Some(now)
      && t.title == (if request.HasTitle() then Trim(request.Title.value) else s.title)
      && t.description == (if request.HasDescription() then Some(Trim(request.Description.value)) else s.description)
      && t.assignedTo == (if request.HasAssignedTo() then request.AssignedTo.value else s.assignedTo)
      && t.categoryId == (if request.HasCategoryId() then request.CategoryId.value else s.categoryId)
      && t.reminderAt == (if request.HasReminderAt() then request.ReminderAt else s.reminderAt)
      && t.dueDate == (if request.HasDueDate() then request.DueDate else s.dueDate)
      && t.isCompleted == s.isCompleted && t.completedAt == s.completedAt
  {
  }

  /** An all-null patch changes only `UpdatedAt`. */
  lemma EmptyUpdateOnlyStamps(s: TaskState, now: Entity.Time)
    ensures ApplyUpdate(s, EmptyTaskUpdate, now) == (s.(base := Entity.SetUpdatedAt(s.base, now)), Pass)
  {
  }

  /** An empty title is ignored, a white one throws; a `null` description
      keeps the old one, so a description is never cleared back to `null`. */
  lemma TitleAndDescriptionPresence(s: TaskState, white: string, now: Entity.Time)
    ensures ApplyUpdate(s, EmptyTaskUpdate.(Title := Some("")), now)
        == (s.(base := Entity.SetUpdatedAt(s.base, now)), Pass)
    ensures white != [] && AllWhite(white) ==>
        ApplyUpdate(s, EmptyTaskUpdate.(Title := Some(white)), now) == (s, Fail(TitleEmpty))
    ensures ApplyUpdate(s, EmptyTaskUpdate.(Description := Some("")), now).0.description == Some("")
    ensures s.description.Some? ==> forall r :: ApplyUpdate(s, r, now).0.description.Some?
  {
    assert Trim("") == "";
  }

  /** Overdue means a due date has passed on an incomplete task; once
      overdue, a task stays overdue as time goes on until it is completed. */
  lemma OverdueMonotone(s: TaskState, t1: Entity.Time, t2: Entity.Time)
    requires Overdue(s, t1) && t1 <= t2
    ensures Overdue(s, t2)
    ensures ApplyComplete(s, t2).Success? && !Overdue(ApplyComplete(s, t2).value, t2)
  {
  }
}
