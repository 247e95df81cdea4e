/**
 * The abstract `Entity` base class: identity, timestamps and identity-based
 * equality. Dafny classes do not inherit from classes, so the inherited
 * state is the value `Base`, held in a mutable field of each entity class.
 */
module Entity {
  import opened Wrappers

  /** A UTC instant (`DateTime`), in ticks. */
  type Time = int

  /** The runtime type of an entity object, as `GetType()` reports it. */
  datatype Kind = CategoryKind | TodoTaskKind

  /** The inherited properties `Id`, `CreatedAt` and `UpdatedAt`. */
  datatype Base = Base(Id: int, CreatedAt: Time, UpdatedAt: Option<Time>)

  /** `Entity()`: not yet saved, created now, never updated. */
  function Init(now: Time): (b: Base)
    ensures b.Id == 0 && b.CreatedAt == now && b.UpdatedAt == None
  {
    Base(0, now, None)
  }

  /** `Entity(int id)`: as `Init`, with a given identifier. */
  function InitWithId(id: int, now: Time): (b: Base)
    ensures b.Id == id && b.CreatedAt == now && b.UpdatedAt == None
    ensures id == 0 ==> b == Init(now)
  {
    Base(id, now, None)
  }

  /** `SetUpdatedAt()`: stamps the update time and nothing else. */
  function SetUpdatedAt(b: Base, now: Time): (r: Base)
    ensures r.UpdatedAt == Some(now)
    ensures r.Id == b.Id && r.CreatedAt == b.CreatedAt
  {
    b.(UpdatedAt := Some(now))
  }

  /** The argument of `Equals(object? obj)`: `null`, an object that is not
      an entity, or an entity of some runtime type. */
  datatype Object = Null | NonEntity | EntityObject(kind: Kind, base: Base)

  /** `Equals`: same runtime type and same `Id`; false for anything that
      is not an entity. */
  function Equals(kind: Kind, self: Base, obj: Object): (r: bool)
    ensures !obj.EntityObject? ==> !r
    ensures obj.EntityObject? && obj.kind != kind ==> !r
  {
    match obj
    case EntityObject(k, other) => k == kind && other.Id == self.Id
    case _ => false
  }

  /** `GetHashCode`: the hash of `Id`, which for a 32-bit integer is the
      integer itself. */
  function GetHashCode(self: Base): int {
    self.Id
  }

  /** Equality is decided by the runtime type and the `Id` alone. */
  lemma EqualsIff(k1: Kind, b1: Base, k2: Kind, b2: Base)
    ensures Equals(k1, b1, EntityObject(k2, b2)) <==> k1 == k2 && b1.Id == b2.Id
  {
  }

  lemma EqualsReflexive(k: Kind, b: Base)
    ensures Equals(k, b, EntityObject(k, b))
  {
  }

  lemma EqualsSymmetric(k1: Kind, b1: Base, k2: Kind, b2: Base)
    ensures Equals(k1, b1, EntityObject(k2, b2)) == Equals(k2, b2, EntityObject(k1, b1))
  {
  }

  lemma EqualsTransitive(k1: Kind, b1: Base, k2: Kind, b2: Base, k3: Kind, b3: Base)
    requires Equals(k1, b1, EntityObject(k2, b2)) && Equals(k2, b2, EntityObject(k3, b3))
    ensures Equals(k1, b1, EntityObject(k3, b3))
  {
  }

  /** Two distinct unsaved entities of one runtime type compare equal,
      whenever they were created. */
  lemma UnsavedEntitiesEqual(k: Kind, t1: Time, t2: Time)
    ensures Equals(k, Init(t1), EntityObject(k, Init(t2)))
  {
  }

  /** Equal entities have equal hash codes. */
  lemma EqualsHashConsistent(k1: Kind, b1: Base, k2: Kind, b2: Base)
    requires Equals(k1, b1, EntityObject(k2, b2))
    ensures GetHashCode(b1) == GetHashCode(b2)
  {
  }
}
