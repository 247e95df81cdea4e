/**
 * `CategoryService`: loads a category from the repository, checks it exists,
 * lets the entity apply the change and persists it.
 */
module CategoryServices {
  import opened Wrappers
  import opened ValueObjects
  import opened Categories
  import opened Store
  import Entity

  const CategoryNotFound := ArgumentException("Category not found", None)

  /** Every saved category is stored under its own `Id`, below the next
      identity, and has a valid name. */
  ghost predicate ValidStore(store: map<int, CategoryState>, nextId: int) {
    && 1 <= nextId
    && forall id | id in store ::
      && 1 <= id < nextId
      && store[id].base.Id == id
      && ValidName(store[id].name)
  }

  class CategoryService {
    /** The saved categories, by `Id`. */
    var repository: map<int, CategoryState>
    /** The identity the store gives the next category it adds. */
    var nextId: int
    /** Every write made to the repository, oldest first. */
    var calls: seq<Call>

    ghost predicate Valid()
      reads this
    {
      ValidStore(repository, nextId)
    }

    /** A service over the repository it is given: the saved categorys and
        the identity the store gives next. */
    constructor(initial: map<int, CategoryState>, next: int)
      requires ValidStore(initial, next)
      ensures Valid()
      ensures repository == initial && nextId == next && calls == []
    {
      repository := initial;
      nextId := next;
      calls := [];
    }

    /** `AddAsync`: the store gives the category the next identity and
        saves it. */
    method Add(c: Category)
      modifies this, c
      ensures c.State() == old(c.State()).(base := old(c.base).(Id := old(nextId)))
      ensures repository == old(repository)[old(nextId) := c.State()]
      ensures nextId == old(nextId) + 1
      ensures calls == old(calls) + [AddCall(old(nextId))]
    {
      c.base := c.base.(Id := nextId);
      repository := repository[nextId := c.State()];
      calls := calls + [AddCall(nextId)];
      nextId := nextId + 1;
    }

    /** `UpdateAsync`: saves the category under its `Id`. */
    method Persist(c: Category)
      modifies this
      ensures repository == old(repository)[c.base.Id := c.State()]
      ensures nextId == old(nextId)
      ensures calls == old(calls) + [UpdateCall(c.base.Id)]
    {
      repository := repository[c.base.Id := c.State()];
      calls := calls + [UpdateCall(c.base.Id)];
    }

    /** `CreateCategoryAsync`: a category the constructor rejects is not
        added; otherwise it is added once, under a new identity, and
        returned. */
    method CreateCategory(name: Option<string>, description: Option<string>, color: string, now: Entity.Time)
      returns (r: Result<Category>)
      requires Valid()
      modifies this
      ensures Valid()
      ensures Construct(name, description, color, now).Failure? ==>
        && r == Failure(Construct(name, description, color, now).error)
        && repository == old(repository) && nextId == old(nextId) && calls == old(calls)
      ensures Construct(name, description, color, now).Success? ==>
        && r.Success? && fresh(r.value)
        && old(nextId) !in old(repository)
        && r.value.State() == Construct(name, description, color, now).value.(base := r.value.base)
        && r.value.base == Entity.InitWithId(old(nextId), now)
        && repository == old(repository)[old(nextId) := r.value.State()]
        && nextId == old(nextId) + 1
        && calls == old(calls) + [AddCall(old(nextId))]
    {
      var created := Category.New(now, name, description, color);
      if created.Failure? {
        return Failure(created.error);
      }
      var c := created.value;
      Add(c);
      return Success(c);
    }

    /** `GetCategoryAsync`: the saved category with this `Id`, or `null`. */
    method GetCategory(id: int) returns (r: Option<Category>)
      ensures r.Some? <==> id in repository
      ensures r.Some? ==> fresh(r.value) && r.value.State() == repository[id]
    {
      if id !in repository {
        return None;
      }
      var c := new Category.Restore(repository[id]);
      return Some(c);
    }

    /** `UpdateCategoryAsync`: a missing `Id` throws "Category not found"; a
        change the category rejects throws; in both cases nothing is
        saved. Otherwise the updated category is saved exactly once. */
    method UpdateCategory(id: int, request: CategoryUpdateRequest, now: Entity.Time) returns (outcome: Outcome)
      requires Valid()
      modifies this
      ensures Valid()
      ensures nextId == old(nextId)
      ensures id !in old(repository) ==>
        outcome == Fail(CategoryNotFound) && repository == old(repository) && calls == old(calls)
      ensures id in old(repository) && ApplyUpdate(old(repository)[id], request, now).Failure? ==>
        && outcome == Fail(ApplyUpdate(old(repository)[id], request, now).error)
        && repository == old(repository) && calls == old(calls)
      ensures id in old(repository) && ApplyUpdate(old(repository)[id], request, now).Success? ==>
        && outcome == Pass
        && repository == old(repository)[id := ApplyUpdate(old(repository)[id], request, now).value]
        && calls == old(calls) + [UpdateCall(id)]
    {
      var loaded := GetCategory(id);
      if loaded.None? {
        return Fail(CategoryNotFound);
      }
      var category := loaded.value;
      ghost var s := category.State();
      outcome := category.Update(request, now);
      if outcome.Fail? {
        return;
      }
      UpdateTouchesOnlyPresentFields(s, request, now);
      Persist(category);
    }

    /** `DeleteCategoryAsync`: forwards the `Id` with no existence check;
        deleting a missing `Id` changes nothing in the store. */
    method DeleteCategory(id: int)
      requires Valid()
      modifies this
      ensures Valid()
      ensures repository == old(repository) - {id}
      ensures nextId == old(nextId)
      ensures calls == old(calls) + [DeleteCall(id)]
    {
      repository := repository - {id};
      calls := calls + [DeleteCall(id)];
    }
  }
}
