/**
 * `Category`: a named, coloured group of tasks. Its constructor validates
 * the name; `Update` applies a partial patch, re-validating a present name.
 */
module Categories {
  import opened Wrappers
  import opened Text
  import opened ValueObjects
  import Entity

  const MaxNameLength: nat := 30
  const DefaultColor: string := "#000000"

  /** The parameter the constructor's exceptions name, `nameof(name)`. */
  const ConstructorParam := "name"
  /** The parameter `Update`'s exceptions name, `nameof(request.Name)`. */
  const UpdateParam := "Name"

  function NameEmpty(param: string): Exception {
    ArgumentException("Category name cannot be empty", Some(param))
  }

  function NameTooLong(param: string): Exception {
    ArgumentException("Category name cannot exceed 30 characters", Some(param))
  }

  /** What a stored name always is: not blank, trimmed, at most 30 long. */
  predicate ValidName(name: string) {
    !AllWhite(name) && Trim(name) == name && Utf16Length(name) <= MaxNameLength
  }

  /** The value of a category object. */
  datatype CategoryState = CategoryState(
    base: Entity.Base,
    name: string,
    description: Option<string>,
    color: string)

  /** The name check run by both the constructor and `Update`: blank names
      are rejected, then names whose UNTRIMMED length exceeds 30; a name
      that passes is stored trimmed. The exceptions name the parameter
      `param`. */
  function CheckName(name: Option<string>, param: string): (r: Result<string>)
    ensures r.Success? <==> !IsNullOrWhiteSpace(name) && Utf16Length(name.value) <= MaxNameLength
    ensures IsNullOrWhiteSpace(name) ==> r == Failure(NameEmpty(param))
    ensures r.Failure? && !IsNullOrWhiteSpace(name) ==> r.error == NameTooLong(param)
    ensures r.Success? ==> r.value == Trim(name.value) && ValidName(r.value)
  {
    if IsNullOrWhiteSpace(name) then Failure(NameEmpty(param))
    else if Utf16Length(name.value) > MaxNameLength then Failure(NameTooLong(param))
    else
      TrimmedNonBlank(name.value);
      Success(Trim(name.value))
  }

  /** The constructor `Category(name, description, color)` on values. */
  function Construct(name: Option<string>, description: Option<string>, color: string, now: Entity.Time)
    : Result<CategoryState>
  {
    match CheckName(name, ConstructorParam)
    case Failure(e) => Failure(e)
    case Success(n) => Success(CategoryState(Entity.Init(now), n, TrimNullable(description), color))
  }

  /** `Update(request)` on values: fails, leaving nothing changed, when a
      present name is rejected; otherwise overwrites each present field and
      stamps the update time. */
  function ApplyUpdate(s: CategoryState, request: CategoryUpdateRequest, now: Entity.Time)
    : Result<CategoryState>
  {
    var name := if request.HasName() then CheckName(request.Name, UpdateParam) else Success(s.name);
    match name
    case Failure(e) => Failure(e)
    case Success(n) =>
      Success(CategoryState(
        Entity.SetUpdatedAt(s.base, now),
        n,
        if request.HasDescription() then TrimNullable(request.Description) else s.description,
        if request.HasColor() then request.Color.value else s.color))
  }

  /** A category object. */
  class Category {
    var base: Entity.Base
    var Name: string
    var Description: Option<string>
    var Color: string

    /** The invariant every validated category keeps. */
    ghost predicate Valid()
      reads this
    {
      ValidName(Name)
    }

    function State(): CategoryState
      reads this
    {
      CategoryState(base, Name, Description, Color)
    }

    /** The assignments the public constructor makes once its checks have
        passed: a new entity base and the already trimmed values. Only `New`
        calls it. It differs from `Restore`, which sets every property of an
        existing row, its `Id` and timestamps included. */
    constructor Build(name: string, description: Option<string>, color: string, now: Entity.Time)
      ensures State() == CategoryState(Entity.Init(now), name, description, color)
    {
      base := Entity.Init(now);
      Name := name;
      Description := description;
      Color := color;
    }

    /** The parameterless constructor the store uses to materialise a saved
        category, with every property then set from the saved row. */
    constructor Restore(s: CategoryState)
      ensures State() == s
    {
      base := s.base;
      Name := s.name;
      Description := s.description;
      Color := s.color;
    }

    /** The public constructor: throws on a blank or too long name. The
        description defaults to `null` and the colour to black. */
    static method New(now: Entity.Time, name: Option<string>, description: Option<string> := None,
                      color: string := DefaultColor)
      returns (r: Result<Category>)
      ensures r.Success? <==> Construct(name, description, color, now).Success?
      ensures r.Failure? ==> r == Failure(Construct(name, description, color, now).error)
      ensures r.Success? ==>
        && fresh(r.value)
        && r.value.State() == Construct(name, description, color, now).value
        && r.value.Valid()
    {
      if IsNullOrWhiteSpace(name) {
        return Failure(NameEmpty(ConstructorParam));
      }
      if Utf16Length(name.value) > MaxNameLength {
        return Failure(NameTooLong(ConstructorParam));
      }
      var c := new Category.Build(Trim(name.value), TrimNullable(description), color, now);
      ConstructValid(name, description, color, now);
      return Success(c);
    }

    /** `new Category(name)`: the constructor called with its default
        arguments, which stores no description and the colour "#000000". */
    static method NewNamed(now: Entity.Time, name: Option<string>) returns (r: Result<Category>)
      ensures r.Success? <==> Construct(name, None, DefaultColor, now).Success?
      ensures r.Success? ==>
        && fresh(r.value)
        && r.value.State().description == None
        && r.value.State().color == "#000000"
    {
      r := New(now, name);
      ConstructDefaults(name, now);
    }

    /** `SetUpdatedAt()` of the base class. */
    method SetUpdatedAt(now: Entity.Time)
      modifies this
      ensures State() == old(State()).(base := Entity.SetUpdatedAt(old(base), now))
    {
      base := Entity.SetUpdatedAt(base, now);
    }

    /** `Update(request)`: a rejected name throws before anything changes. */
    method Update(request: CategoryUpdateRequest, now: Entity.Time) returns (outcome: Outcome)
      modifies this
      ensures ApplyUpdate(old(State()), request, now).Success? ==>
        outcome == Pass && State() == ApplyUpdate(old(State()), request, now).value
      ensures ApplyUpdate(old(State()), request, now).Failure? ==>
        outcome == Fail(ApplyUpdate(old(State()), request, now).error) && State() == old(State())
      ensures old(Valid()) ==> Valid()
    {
      ghost var s := State();
      ghost var name := if request.HasName() then CheckName(request.Name, UpdateParam) else Success(s.name);
      if request.HasName() {
        if IsNullOrWhiteSpace(request.Name) {
          assert name == Failure(NameEmpty(UpdateParam));
          return Fail(NameEmpty(UpdateParam));
        }
        if Utf16Length(request.Name.value) > MaxNameLength {
          assert name == Failure(NameTooLong(UpdateParam));
          return Fail(NameTooLong(UpdateParam));
        }
        Name := Trim(request.Name.value);
      }
      assert name == Success(Name);
      if request.HasDescription() {
        Description := TrimNullable(request.Description);
      }
      if request.HasColor() {
        Color := request.Color.value;
      }
      SetUpdatedAt(now);
      outcome := Pass;
      assert State() == ApplyUpdate(s, request, now).value;
      if ValidName(s.name) {
        UpdateKeepsValidName(s, request, now);
      }
    }
  }

  /** A constructed category satisfies the invariant, is unsaved and has
      never been updated; its description is the trimmed one given. */
  lemma ConstructValid(name: Option<string>, description: Option<string>, color: string, now: Entity.Time)
    ensures Construct(name, description, color, now).Success? ==>
      var s := Construct(name, description, color, now).value;
      && ValidName(s.name)
      && s.name == Trim(name.value)
      && s.base.Id == 0 && s.base.CreatedAt == now && s.base.UpdatedAt == None
      && s.description == TrimNullable(description)
      && s.color == color
  {
  }

  /** Construction succeeds exactly for a non-blank name whose untrimmed
      length is at most 30; otherwise it throws the matching exception. */
  lemma ConstructSucceedsIff(name: Option<string>, description: Option<string>, color: string, now: Entity.Time)
    ensures Construct(name, description, color, now).Success?
        <==> !IsNullOrWhiteSpace(name) && Utf16Length(name.value) <= MaxNameLength
    ensures IsNullOrWhiteSpace(name) ==> Construct(name, description, color, now) == Failure(NameEmpty(ConstructorParam))
    ensures !IsNullOrWhiteSpace(name) && Utf16Length(name.value) > MaxNameLength
        ==> Construct(name, description, color, now) == Failure(NameTooLong(ConstructorParam))
  {
  }

  /** Called with the name alone, the constructor stores no description
      and the colour "#000000". */
  lemma ConstructDefaults(name: Option<string>, now: Entity.Time)
    ensures Construct(name, None, DefaultColor, now).Success? ==>
      && Construct(name, None, DefaultColor, now).value.description == None
      && Construct(name, None, DefaultColor, now).value.color == "#000000"
  {
  }

  /** The length is checked before trimming: a name of 31 characters is
      rejected even though it trims to 30. */
  lemma LengthCheckedBeforeTrim()
    ensures var name := [' '] + seq(30, _ => 'a');
      && Utf16Length(Trim(name)) == 30
      && Construct(Some(name), None, DefaultColor, 0) == Failure(NameTooLong(ConstructorParam))
  {
    var a: string := seq(30, _ => 'a');
    var name := [' '] + a;
    assert name[1..] == a;
    assert TrimStart(name) == a;
    assert TrimEnd(a) == a;
    assert Trim(name) == a;
    Utf16LengthBmp(a);
    Utf16LengthBmp(name);
    assert !IsWhite(name[1]);
  }

  /** A successful update keeps the name invariant. */
  lemma UpdateKeepsValidName(s: CategoryState, request: CategoryUpdateRequest, now: Entity.Time)
    requires ValidName(s.name)
    ensures ApplyUpdate(s, request, now).Success? ==> ValidName(ApplyUpdate(s, request, now).value.name)
  {
    if request.HasName() {
      var checked := CheckName(request.Name, UpdateParam);
      assert checked.Success? ==> ValidName(checked.value);
    }
  }

  /** `Update` fails exactly when the patch carries a name that is rejected,
      with the name check's exception; unlike the constructor's, it names
      the parameter `Name`. */
  lemma UpdateFailsIff(s: CategoryState, request: CategoryUpdateRequest, now: Entity.Time)
    ensures ApplyUpdate(s, request, now).Failure?
        <==> request.HasName() && CheckName(request.Name, UpdateParam).Failure?
    ensures ApplyUpdate(s, request, now).Failure? ==>
        && ApplyUpdate(s, request, now).error == CheckName(request.Name, UpdateParam).error
        && ApplyUpdate(s, request, now).error.paramName == Some(UpdateParam)
    ensures request.HasName() && Construct(request.Name, None, DefaultColor, now).Failure? ==>
        ApplyUpdate(s, request, now).Failure?
        && ApplyUpdate(s, request, now).error.message == Construct(request.Name, None, DefaultColor, now).error.message
        && ApplyUpdate(s, request, now).error != Construct(request.Name, None, DefaultColor, now).error
  {
  }

  /** Each field changes only when its presence predicate holds; `Id` and
      `CreatedAt` never change; every successful update stamps `UpdatedAt`. */
  lemma UpdateTouchesOnlyPresentFields(s: CategoryState, request: CategoryUpdateRequest, now: Entity.Time)
    ensures ApplyUpdate(s, request, now).Success? ==>
      var t := ApplyUpdate(s, request, now).value;
      && t.base.Id == s.base.Id && t.base.CreatedAt == s.base.CreatedAt
      && t.base.UpdatedAt == Some(now)
      && (request.HasName() ==> t.name == Trim(request.Name.value))
      && (!request.HasName() ==> t.name == s.name)
      && (request.HasDescription() ==> t.description == Some(Trim(request.Description.value)))
      && (!request.HasDescription() ==> t.description == s.description)
      && (request.HasColor() ==> t.color == request.Color.value)
      && (!request.HasColor() ==> t.color == s.color)
  {
  }

  /** An all-null patch changes only `UpdatedAt`, and does not throw. */
  lemma EmptyUpdateOnlyStamps(s: CategoryState, now: Entity.Time)
    ensures ApplyUpdate(s, EmptyCategoryUpdate, now)
        == Success(s.(base := Entity.SetUpdatedAt(s.base, now)))
  {
  }

  /** An empty name is ignored, not rejected; a white name is rejected. */
  lemma EmptyNameIgnoredWhiteNameRejected(s: CategoryState, name: string, now: Entity.Time)
    ensures ApplyUpdate(s, CategoryUpdateRequest(Some(""), None, None), now)
        == Success(s.(base := Entity.SetUpdatedAt(s.base, now)))
    ensures name != [] && AllWhite(name) ==>
        ApplyUpdate(s, CategoryUpdateRequest(Some(name), None, None), now) == Failure(NameEmpty(UpdateParam))
  {
  }

  /** A `null` description leaves the old one, so it can never be cleared;
      an empty one is stored as empty. An empty colour is ignored. */
  lemma DescriptionAndColorPresence(s: CategoryState, now: Entity.Time)
    ensures ApplyUpdate(s, CategoryUpdateRequest(None, None, Some("")), now).value.description == s.description
    ensures ApplyUpdate(s, CategoryUpdateRequest(None, None, Some("")), now).value.color == s.color
    ensures ApplyUpdate(s, CategoryUpdateRequest(None, Some(""), None), now).value.description == Some("")
    ensures s.description.Some? ==> forall r :: ApplyUpdate(s, r, now).Success? ==>
        ApplyUpdate(s, r, now).value.description.Some?
  {
    assert Trim("") == "";
  }
}
