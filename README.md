# TodoTasks domain core in Dafny

A model of the domain and application core of TodoTasks, a small task
tracker written in C#. The domain layer has four parts.

- **Entity base.** `Entity` holds `Id`, `CreatedAt` and `UpdatedAt`. Equality is decided by the runtime type and the `Id`.
- **`Category`.** A named, coloured group. Its constructor validates the name, and `Update` applies a partial patch.
- **`TodoTask`.** A task with a title, an optional description, an assignee, a category, a reminder and a due date. It has a one-way completion state machine and a non-atomic `Update`.
- **Request records.** Two partial-update requests and one creation request. Their `Has*` properties decide which fields a patch carries.

Two application services drive these entities: `CategoryService` and
`TodoTaskService`. Each one loads an entity from a repository, throws when it
is missing, lets the entity apply the change and persists the result.

## How the model is built

| file | module | contents |
|---|---|---|
| `wrappers.dfy` | `Wrappers` | `Option`, the two exception kinds, `Outcome` and `Result` |
| `text.dfy` | `Text` | the .NET string operations the domain uses |
| `entity.dfy` | `Entity` | the entity base |
| `value_objects.dfy` | `ValueObjects` | the request records |
| `category.dfy` | `Categories` | `Category` |
| `todo_task.dfy` | `Tasks` | `TodoTask` |
| `store.dfy` | `Store` | the repository's write calls |
| `category_service.dfy` | `CategoryServices` | `CategoryService` |
| `todo_task_service.dfy` | `TodoTaskServices` | `TodoTaskService` |

**Strings.** A string is a `seq<char>`. `Text.IsWhite` is exactly the character set of .NET's `char.IsWhiteSpace`.

**Lengths.** C#'s `string.Length` counts UTF-16 code units, so it is modelled by `Text.Utf16Length`. Every length check is made on the untrimmed string, as the code does.

**Nulls, clock and exceptions.**
- `null` is `Option.None`.
- `DateTime` is an integer number of ticks.
- `DateTime.UtcNow` is the parameter `now`.
- A thrown exception is a returned `Fail` or `Failure` value. It carries its type, the message given to it and, for an `ArgumentException`, the parameter name given to it. Nothing is written after it is thrown.
- .NET appends " (Parameter '…')" to an `ArgumentException`'s `Message`. The model keeps the message and the parameter name as two separate fields. The constructor's name exceptions name `name`, and `Update`'s name `Name`, so the two are different exceptions.

**Inheritance.** Dafny classes cannot inherit from a class. The inherited part of an entity is therefore the value `Entity.Base`, held in the mutable field `base` of `Category` and of `TodoTask`.

**Entity classes.** Each entity class has:
- `State()`, its value;
- a `Valid()` invariant;
- pure specification functions on that value (`Construct`, `ApplyUpdate`, `ApplyComplete`).

Each method that changes an entity states its new `State()` as the specification function of its old one. The properties are proved as lemmas about those functions.

**`TodoTask.Update` is not atomic.** A present, valid title is written before the description length check can throw. The model keeps this: `Tasks.ApplyUpdate` returns the new state together with the outcome.

**Services.** The repository is a map from `Id` to the saved entity value, with these operations:
- the store's identity allocation is the field `nextId`;
- `GetByIdAsync` builds a fresh object from the saved value;
- `AddAsync` gives the object the next identity and saves it;
- `UpdateAsync` saves the object's value under its `Id`;
- `DeleteAsync` removes the `Id`.

The field `calls` logs every write, which is how "persisted exactly once" and "not persisted" are stated. The services mutate the loaded object in place. The store changes only when that object is persisted.

**Code over tests.** Some tests in `tests/TodoTasks.Domain.Tests/Entities/CategoryTests.cs` were written for a different interface: `Category.Create(CategorySaveRequest)` with an enumerated colour. Several of them expect behaviour the code does not have:
- lines 101-111 expect an empty name to be rejected, but the code ignores it;
- lines 137-160 expect a patch without a name to throw, but the code does not;
- lines 164-173 expect a `null` description to clear the description, but the code keeps the old one.

The model follows `Category.cs`. The lemmas `Categories.EmptyNameIgnoredWhiteNameRejected`, `Categories.UpdateFailsIff` and `Categories.DescriptionAndColorPresence` state what the code does in these cases.

## Model

| member | source | states |
|---|---|---|
| Entity.Init | src/TodoTasks.Domain/Entities/Entity.cs:9-12 | a new entity is unsaved (`Id` 0), created now and never updated |
| Entity.InitWithId | src/TodoTasks.Domain/Entities/Entity.cs:14-18 | the identifier constructor sets the given `Id`, created now, never updated, and with `Id` 0 it is the default constructor |
| Entity.SetUpdatedAt | src/TodoTasks.Domain/Entities/Entity.cs:20-23 | stamps `UpdatedAt` with now and keeps `Id` and `CreatedAt` |
| Entity.Equals | src/TodoTasks.Domain/Entities/Entity.cs:25-31 | `null` and non-entities are never equal; entities of another runtime type are never equal |
| Entity.EqualsIff | src/TodoTasks.Domain/Entities/Entity.cs:25-31 | two entities are equal exactly when their runtime types and their `Id`s are equal |
| Entity.EqualsReflexive | src/TodoTasks.Domain/Entities/Entity.cs:25-31 | every entity equals itself |
| Entity.EqualsSymmetric | src/TodoTasks.Domain/Entities/Entity.cs:25-31 | equality does not depend on the side it is asked from |
| Entity.EqualsTransitive | src/TodoTasks.Domain/Entities/Entity.cs:25-31 | equality is transitive |
| Entity.UnsavedEntitiesEqual | src/TodoTasks.Domain/Entities/Entity.cs:9-12 | two unsaved entities of the same type are equal, whatever their creation times |
| Entity.GetHashCode | src/TodoTasks.Domain/Entities/Entity.cs:33 | the hash code is the `Id`, the hash of a 32-bit integer being the integer itself |
| Entity.EqualsHashConsistent | src/TodoTasks.Domain/Entities/Entity.cs:25-33 | equal entities have equal hash codes |
| ValueObjects.CategoryUpdateRequest.HasName | src/TodoTasks.Domain/ValueObjects/CategoryUpdateRequest.cs:9 | a name is present unless it is `null` or empty |
| ValueObjects.CategoryUpdateRequest.HasDescription | src/TodoTasks.Domain/ValueObjects/CategoryUpdateRequest.cs:10 | a description is present unless it is `null` |
| ValueObjects.CategoryUpdateRequest.HasColor | src/TodoTasks.Domain/ValueObjects/CategoryUpdateRequest.cs:11 | a colour is present unless it is `null` or empty |
| ValueObjects.TodoTaskUpdateRequest.HasTitle | src/TodoTasks.Domain/ValueObjects/TodoTaskUpdateRequest.cs:12 | a title is present unless it is `null` or empty |
| ValueObjects.TodoTaskUpdateRequest.HasDescription | src/TodoTasks.Domain/ValueObjects/TodoTaskUpdateRequest.cs:13 | a description is present unless it is `null` |
| ValueObjects.TodoTaskUpdateRequest.HasAssignedTo | src/TodoTasks.Domain/ValueObjects/TodoTaskUpdateRequest.cs:14 | an assignee is present when it has a value |
| ValueObjects.TodoTaskUpdateRequest.HasCategoryId | src/TodoTasks.Domain/ValueObjects/TodoTaskUpdateRequest.cs:15 | a category is present when it has a value |
| ValueObjects.TodoTaskUpdateRequest.HasReminderAt | src/TodoTasks.Domain/ValueObjects/TodoTaskUpdateRequest.cs:16 | a reminder is present when it has a value |
| ValueObjects.TodoTaskUpdateRequest.HasDueDate | src/TodoTasks.Domain/ValueObjects/TodoTaskUpdateRequest.cs:17 | a due date is present when it has a value |
| ValueObjects.TodoTaskCreateRequest.HasTitle | src/TodoTasks.Domain/ValueObjects/TodoTaskCreateRequest.cs:13 | a title is present unless it is `null`, empty or white |
| ValueObjects.CategoryPresence | src/TodoTasks.Domain/ValueObjects/CategoryUpdateRequest.cs:9-11 | an empty name or colour is absent, a white name is present, an empty description is present |
| ValueObjects.HasTitleStricterOnCreate | src/TodoTasks.Domain/ValueObjects/TodoTaskCreateRequest.cs:13 | the creation request's `HasTitle` implies the update request's, and every non-empty white title is absent for creation but present for update |
| Categories.CheckName | src/TodoTasks.Domain/Entities/Category.cs:15-21 | the name check passes exactly for a non-blank name of at most 30 code units before trimming, throws the "empty" exception for a blank name and the "exceed" one otherwise, and a name that passes is stored trimmed and valid |
| Categories.Construct | src/TodoTasks.Domain/Entities/Category.cs:13-24 | the constructor on values: the name check, then a new unsaved category with the trimmed name and description and the given colour |
| Categories.ApplyUpdate | src/TodoTasks.Domain/Entities/Category.cs:26-46 | `Update` on values: a rejected present name fails with nothing changed; otherwise each present field is overwritten and `UpdatedAt` stamped |
| Categories.Category.Build | src/TodoTasks.Domain/Entities/Category.cs:21-23 | the constructor's assignments: a new unsaved base, then the name, description and colour it is given |
| Categories.Category.NewNamed | src/TodoTasks.Domain/Entities/Category.cs:13 | the constructor called with the name alone: on success the category has no description and the colour "#000000" |
| Categories.Category.Restore | src/TodoTasks.Domain/Entities/Category.cs:11 | a category materialised from a saved value has exactly that value |
| Categories.Category.New | src/TodoTasks.Domain/Entities/Category.cs:13-24 | the constructor throws as `Construct` does, naming the parameter `name`; otherwise it returns a fresh category holding `Construct`'s value, which keeps the name invariant; the description defaults to `null` and the colour to "#000000" |
| Categories.Category.SetUpdatedAt | src/TodoTasks.Domain/Entities/Entity.cs:20-23 | only `UpdatedAt` changes |
| Categories.Category.Update | src/TodoTasks.Domain/Entities/Category.cs:26-46 | on success the category becomes `ApplyUpdate` of its old value; a rejected name throws with nothing changed; the name invariant is kept |
| Categories.ConstructValid | src/TodoTasks.Domain/Entities/Category.cs:13-24 | a constructed category has a valid trimmed name, the trimmed description, the given colour, `Id` 0, `CreatedAt` now and no `UpdatedAt` |
| Categories.ConstructSucceedsIff | src/TodoTasks.Domain/Entities/Category.cs:15-19 | construction succeeds exactly for a non-blank name of at most 30 untrimmed code units, and each failure carries its exception |
| Categories.ConstructDefaults | src/TodoTasks.Domain/Entities/Category.cs:13 | with the default arguments, the constructed category has no description and the colour "#000000" |
| Categories.LengthCheckedBeforeTrim | src/TodoTasks.Domain/Entities/Category.cs:18-21 | a 31-character name that trims to 30 is still rejected |
| Categories.UpdateKeepsValidName | src/TodoTasks.Domain/Entities/Category.cs:28-37 | a successful update keeps the name not blank, trimmed and at most 30 long |
| Categories.UpdateFailsIff | src/TodoTasks.Domain/Entities/Category.cs:28-34 | `Update` fails exactly when the patch has a name the name check rejects, with that check's exception naming the parameter `Name`; a name the constructor rejects is rejected with the same message but a different exception |
| Categories.UpdateTouchesOnlyPresentFields | src/TodoTasks.Domain/Entities/Category.cs:26-46 | each field changes only when present, to its (trimmed) new value; `Id` and `CreatedAt` stay; `UpdatedAt` becomes now |
| Categories.EmptyUpdateOnlyStamps | src/TodoTasks.Domain/Entities/Category.cs:26-46 | an all-null patch succeeds and only stamps `UpdatedAt` |
| Categories.EmptyNameIgnoredWhiteNameRejected | src/TodoTasks.Domain/Entities/Category.cs:28-31 | an empty name leaves the name as it was, a white name throws "Category name cannot be empty" |
| Categories.DescriptionAndColorPresence | src/TodoTasks.Domain/Entities/Category.cs:39-43 | a `null` description keeps the old one, so a description is never cleared; an empty description is stored; an empty colour keeps the old colour |
| Tasks.CheckTitle | src/TodoTasks.Domain/Entities/TodoTask.cs:21-25 | the title check passes exactly for a non-blank title of at most 50 untrimmed code units, throws the matching exception otherwise, and a title that passes is stored trimmed and valid |
| Tasks.TrimmedDescriptionValid | src/TodoTasks.Domain/Entities/TodoTask.cs:27-31 | a description within 500 code units is, once trimmed, trimmed and within 500 |
| Tasks.DescriptionExceeds | src/TodoTasks.Domain/Entities/TodoTask.cs:27 | the lifted comparison `Description?.Length > 500`: false for `null`, otherwise the untrimmed length is over 500 |
| Tasks.Overdue | src/TodoTasks.Domain/Entities/TodoTask.cs:88 | `IsOverdue` on values: a due date exists, the task is incomplete and `now` is past the due date |
| Tasks.Construct | src/TodoTasks.Domain/Entities/TodoTask.cs:19-42 | `Create` on values: the title checks, then the description check, then a new unsaved incomplete task |
| Tasks.ApplyComplete | src/TodoTasks.Domain/Entities/TodoTask.cs:44-52 | `Complete` on values: a completed task fails; otherwise the task is completed and stamped at now |
| Tasks.ApplyUpdate | src/TodoTasks.Domain/Entities/TodoTask.cs:54-86 | `Update` on values, returning the new state with the outcome: a rejected title changes nothing, a too long description fails after the title is written, otherwise `PatchFields` |
| Tasks.PatchFields | src/TodoTasks.Domain/Entities/TodoTask.cs:70-85 | the writes after the checks: each present field overwritten and `UpdatedAt` stamped |
| Tasks.TodoTask.Build | src/TodoTasks.Domain/Entities/TodoTask.cs:30-36 | the private constructor's assignments: a new unsaved base, the given title and description, the due date, reminder, assignee and category (0 when absent), and not completed |
| Tasks.TodoTask.Restore | src/TodoTasks.Domain/Entities/TodoTask.cs:17 | a task materialised from a saved value has exactly that value |
| Tasks.TodoTask.Create | src/TodoTasks.Domain/Entities/TodoTask.cs:19-42 | throws as `Construct` does (title checks before the description check); otherwise returns a fresh task holding `Construct`'s value, which keeps the task invariant |
| Tasks.TodoTask.Complete | src/TodoTasks.Domain/Entities/TodoTask.cs:44-52 | an incomplete task becomes `ApplyComplete` of its old value; a completed one throws "Task is already completed" with nothing changed; the invariant is kept |
| Tasks.TodoTask.Update | src/TodoTasks.Domain/Entities/TodoTask.cs:54-86 | the new value and the outcome are exactly `ApplyUpdate`'s, including a title written before a description failure; the invariant is kept |
| Tasks.TodoTask.WriteFields | src/TodoTasks.Domain/Entities/TodoTask.cs:70-85 | after the checks, each present field is written and `UpdatedAt` stamped |
| Tasks.TodoTask.IsOverdue | src/TodoTasks.Domain/Entities/TodoTask.cs:88 | overdue only for an incomplete task with a due date, and exactly when `now` is past the due date |
| Tasks.ConstructValid | src/TodoTasks.Domain/Entities/TodoTask.cs:19-37 | a created task keeps the invariant, is incomplete, unsaved and never updated, holds the trimmed title and description, and defaults a missing assignee or category to 0 |
| Tasks.ConstructSucceedsIff | src/TodoTasks.Domain/Entities/TodoTask.cs:21-28 | creation succeeds exactly when `HasTitle` holds and both untrimmed lengths are within bounds; it fails with "Title cannot be empty" exactly when `HasTitle` is false; each other failure carries its exception |
| Tasks.CompleteOneShot | src/TodoTasks.Domain/Entities/TodoTask.cs:44-52 | completion sets `IsCompleted`, `CompletedAt` and `UpdatedAt`; a completed task throws; completing twice always throws |
| Tasks.CompleteKeepsValid | src/TodoTasks.Domain/Entities/TodoTask.cs:44-52 | completion keeps the invariant, and a completed task is never overdue |
| Tasks.UpdateKeepsValid | src/TodoTasks.Domain/Entities/TodoTask.cs:54-86 | `Update` keeps the invariant whether or not it throws, and never changes `IsCompleted` or `CompletedAt` |
| Tasks.UpdateFailureKeepsAllButTitle | src/TodoTasks.Domain/Entities/TodoTask.cs:56-68 | a failed update changes nothing but possibly the title and does not stamp `UpdatedAt`; it fails on the description exactly when the title passed and the description is too long; such a failure after a present title leaves exactly the new trimmed title; a rejected title changes nothing at all |
| Tasks.UpdateNotAtomic | src/TodoTasks.Domain/Entities/TodoTask.cs:64-68 | a valid title with a 501-character description throws, yet the new title stays |
| Tasks.UpdateTouchesOnlyPresentFields | src/TodoTasks.Domain/Entities/TodoTask.cs:70-85 | on success each field changes only when present, `Id` and `CreatedAt` stay, `UpdatedAt` becomes now and the completion fields are untouched |
| Tasks.EmptyUpdateOnlyStamps | src/TodoTasks.Domain/Entities/TodoTask.cs:54-86 | an all-null patch succeeds and only stamps `UpdatedAt` |
| Tasks.TitleAndDescriptionPresence | src/TodoTasks.Domain/Entities/TodoTask.cs:56-71 | an empty title is ignored, a white title throws with nothing changed, an empty description is stored, a `null` one never clears the old one |
| Tasks.OverdueMonotone | src/TodoTasks.Domain/Entities/TodoTask.cs:88 | once overdue, a task stays overdue as time passes until it is completed, which always succeeds and ends overdueness |
| CategoryServices.CategoryService.constructor | src/TodoTasks.Application/Services/CategoryService.cs:9-12 | a service over the repository it is given, which must keep the store invariant (`ValidStore`), with no writes made |
| CategoryServices.CategoryService.Add | src/TodoTasks.Application/Services/CategoryService.cs:17 | the added category gets the next identity and is saved under it, with one add call logged |
| CategoryServices.CategoryService.Persist | src/TodoTasks.Application/Services/CategoryService.cs:47 | the category's value is saved under its `Id`, with one update call logged |
| CategoryServices.CategoryService.CreateCategory | src/TodoTasks.Application/Services/CategoryService.cs:14-18 | a rejected category adds nothing and writes nothing; otherwise the constructed category is saved once under a new identity and returned, and the store invariant is kept |
| CategoryServices.CategoryService.GetCategory | src/TodoTasks.Application/Services/CategoryService.cs:30-33 | returns the saved category for the `Id`, or `null` when there is none |
| CategoryServices.CategoryService.UpdateCategory | src/TodoTasks.Application/Services/CategoryService.cs:40-48 | a missing `Id` throws "Category not found" and a rejected patch throws, both with nothing saved; otherwise the saved value becomes `ApplyUpdate` of the old one, persisted exactly once |
| CategoryServices.CategoryService.DeleteCategory | src/TodoTasks.Application/Services/CategoryService.cs:20-23 | the `Id` is removed whether or not it exists, with one delete call logged |
| TodoTaskServices.TodoTaskService.constructor | src/TodoTasks.Application/Services/TodoTaskService.cs:10-13 | a service over the repository it is given, which must keep the store invariant (`ValidStore`), with no writes made |
| TodoTaskServices.TodoTaskService.Add | src/TodoTasks.Application/Services/TodoTaskService.cs:18 | the added task gets the next identity and is saved under it, with one add call logged |
| TodoTaskServices.TodoTaskService.Persist | src/TodoTasks.Application/Services/TodoTaskService.cs:42 | the task's value is saved under its `Id`, with one update call logged |
| TodoTaskServices.TodoTaskService.CreateTask | src/TodoTasks.Application/Services/TodoTaskService.cs:15-19 | a task `Create` rejects adds nothing; otherwise exactly the created task is saved once under a new identity and returned, and the store invariant is kept |
| TodoTaskServices.TodoTaskService.GetTask | src/TodoTasks.Application/Services/TodoTaskService.cs:21-24 | returns the saved task for the `Id`, or `null` when there is none |
| TodoTaskServices.TodoTaskService.UpdateTask | src/TodoTasks.Application/Services/TodoTaskService.cs:36-43 | a missing `Id` throws "Task not found" and a rejected patch throws, both with nothing saved (so a title written before a description failure is not saved); otherwise the saved value becomes `ApplyUpdate`'s, persisted exactly once |
| TodoTaskServices.TodoTaskService.CompleteTask | src/TodoTasks.Application/Services/TodoTaskService.cs:45-52 | a missing `Id` throws "Task not found" and a completed task throws "Task is already completed", both with nothing saved; an incomplete task is saved completed at now, exactly once |
| TodoTaskServices.TodoTaskService.DeleteTask | src/TodoTasks.Application/Services/TodoTaskService.cs:54-57 | the `Id` is removed whether or not it exists, with one delete call logged |

## Left out

- The HTTP layer: controllers, the exception middleware, `Program.cs` and dependency-injection wiring are routing and hosting, not domain logic.
- The concrete repositories (SQL Server through EF Core, MongoDB), `AppDbContext` and the migration are storage drivers, and the services are modelled over an abstract store instead. `SqlServerCategoryRepository` throws `NotImplementedException` from `UpdateAsync` and `GetAllAsync`; the abstract store implements every operation.
- Change tracking within one database context is not modelled. An object mutated by a failed `Update` is discarded rather than left tracked for a later save.
- `GetAllCategoriesAsync`, `GetPagedCategoriesAsync`, `GetAllTasksAsync` and `GetTasksByAssigneeAsync` only forward to repository queries. Pagination has no implementation in the code, and `ITodoTaskRepository` declares no `GetByAssignedToAsync`.
- `CategoryServices.CategoryService.CreateCategory`: the service calls `Category.Create(CategorySaveRequest)`, which `Category.cs` does not define, and `CategorySaveRequest` carries an enumerated colour where `Category` stores a string. Creation is therefore modelled through the public constructor `Category(name, description, color)`, with the request's fields as parameters.
- The navigation property `TodoTask.Category` is left out. It is filled in by the object-relational mapper, and no domain code reads it.
- `Tasks.TodoTask.Complete`: the code reads the clock twice, once for `CompletedAt` and once for `UpdatedAt`. The model uses one instant `now` for both.
- `Entity.GetHashCode`: `int.GetHashCode` is the integer itself, and `Id` is never computed with, so 32-bit width is not modelled for any integer field.
- Strings are sequences of Unicode scalar values, so a lone UTF-16 surrogate is not representable. Culture-specific behaviour does not arise, because the domain uses only ordinal operations.
- `async`/`await` is modelled as sequential execution. Concurrent requests against one store are not modelled.
- The store's identity allocation is modelled as a counter `nextId` starting at 1; a database's identity column may skip values.
