/**
 * The request records of the domain: the two partial-update patches and the
 * task creation request, each with its presence predicates.
 */
module ValueObjects {
  import opened Wrappers
  import opened Text
  import Entity

  /** `CategoryUpdateRequest`: every field may be `null`. */
  datatype CategoryUpdateRequest = CategoryUpdateRequest(
    Name: Option<string>,
    Description: Option<string>,
    Color: Option<string>)
  {
    /** `null` and the empty string both count as absent. */
    predicate HasName() { !IsNullOrEmpty(Name) }
    /** Only `null` counts as absent. */
    predicate HasDescription() { Description.Some? }
    /** `null` and the empty string both count as absent. */
    predicate HasColor() { !IsNullOrEmpty(Color) }
  }

  /** `TodoTaskUpdateRequest`: every field may be `null`. */
  datatype TodoTaskUpdateRequest = TodoTaskUpdateRequest(
    Title: Option<string>,
    Description: Option<string>,
    AssignedTo: Option<int>,
    CategoryId: Option<int>,
    ReminderAt: Option<Entity.Time>,
    DueDate: Option<Entity.Time>)
  {
    /** `null` and the empty string count as absent; a white title is present. */
    predicate HasTitle() { !IsNullOrEmpty(Title) }
    predicate HasDescription() { Description.Some? }
    predicate HasAssignedTo() { AssignedTo.Some? }
    predicate HasCategoryId() { CategoryId.Some? }
    predicate HasReminderAt() { ReminderAt.Some? }
    predicate HasDueDate() { DueDate.Some? }
  }

  /** `TodoTaskCreateRequest`. `Title` is a `required` member, which obliges
      callers to assign it, not to assign a non-null value. */
  datatype TodoTaskCreateRequest = TodoTaskCreateRequest(
    Title: Option<string>,
    Description: Option<string>,
    AssignedTo: Option<int>,
    ReminderAt: Option<Entity.Time>,
    DueDate: Option<Entity.Time>,
    CategoryId: Option<int>)
  {
    /** Unlike the update request's, a white title is absent here. */
    predicate HasTitle() { !IsNullOrWhiteSpace(Title) }
  }

  /** The patch that sets nothing. */
  const EmptyCategoryUpdate := CategoryUpdateRequest(None, None, None)
  const EmptyTaskUpdate := TodoTaskUpdateRequest(None, None, None, None, None, None)

  /** An empty name or colour is absent, a white name is present. */
  lemma CategoryPresence(r: CategoryUpdateRequest)
    ensures r.Name == Some("") ==> !r.HasName()
    ensures r.Name.Some? && r.Name.value != [] && AllWhite(r.Name.value) ==> r.HasName()
    ensures r.Color == Some("") ==> !r.HasColor()
    ensures r.Description == Some("") ==> r.HasDescription()
  {
  }

  /** The creation request's `HasTitle` is stricter than the update
      request's: it implies it, and every non-empty white title tells them
      apart. */
  lemma HasTitleStricterOnCreate(title: Option<string>)
    ensures TodoTaskCreateRequest(title, None, None, None, None, None).HasTitle()
        ==> TodoTaskUpdateRequest(title, None, None, None, None, None).HasTitle()
    ensures title.Some? && title.value != [] && AllWhite(title.value) ==>
        && !TodoTaskCreateRequest(title, None, None, None, None, None).HasTitle()
        && TodoTaskUpdateRequest(title, None, None, None, None, None).HasTitle()
  {
  }
}
