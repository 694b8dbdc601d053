/**
 * The star-system object model: objects identified by a Guid, typed by a
 * type tag, with the extra data of the planet and asteroid-field classes, and
 * the star-system tree seen from outside (lookup, depth and traversal).
 */
module SystemObjects {
  import opened Wrappers

  /** An object's identity. `Guid.Empty` is 0. */
  type Guid = nat

  const EmptyGuid: Guid := 0

  /** A 3D world position or a triple of angles (`Vector3D`). */
  datatype Vector3 = Vector3(x: real, y: real, z: real)

  const Origin := Vector3(0.0, 0.0, 0.0)

  /**
   * The type tag of a system object (`MySystemObjectType`). The members this
   * model's code tests for are PLANET, MOON and ASTEROIDS; every other member
   * of the enum is `OtherType`.
   */
  datatype ObjectType = Planet | Moon | Asteroids | OtherType

  /** The extra fields of the subclass an object is an instance of. */
  datatype Details =
    | Generic
      /** `MySystemPlanet` */
    | PlanetDetails(subtypeId: string, diameter: real, generated: bool)
      /** `MySystemAsteroids`: provider name, `AsteroidSize` min/max, and the cached parent name. */
    | AsteroidDetails(asteroidTypeName: string, sizeMin: int, sizeMax: int, parentName: Option<string>)

  /** A system object (`MySystemObject` and its subclasses). */
  datatype SystemObject = SystemObject(
    id: Guid,
    displayName: string,
    kind: ObjectType,
    center: Vector3,
    parentId: Guid,
    details: Details)

  /**
   * The object's class agrees with its type tag: a PLANET or MOON is a
   * `MySystemPlanet` and an ASTEROIDS object is a `MySystemAsteroids`. The
   * source casts with `as` on the strength of the tag.
   */
  predicate WellTyped(o: SystemObject)
  {
    && ((o.kind == Planet || o.kind == Moon) ==> o.details.PlanetDetails?)
    && (o.kind == Asteroids ==> o.details.AsteroidDetails?)
  }

  /** No element of `s` occurs twice. */
  predicate Distinct<T(==)>(s: seq<T>)
  {
    forall i, j :: 0 <= i < j < |s| ==> s[i] != s[j]
  }

  /** In a sequence without repeats, no element occurs before its own position. */
  lemma NotInPrefix<T>(s: seq<T>, i: nat)
    requires Distinct(s) && i < |s|
    ensures s[i] !in s[..i]
  {
    assert forall j :: 0 <= j < i ==> s[..i][j] == s[j] && s[j] != s[i];
  }

  /** A prefix one longer is the shorter prefix followed by the next element. */
  lemma PrefixSnoc<T>(s: seq<T>, n: nat)
    requires 0 < n <= |s|
    ensures s[..n] == s[..n - 1] + [s[n - 1]]
  {
  }

  /**
   * The committed star system as its users see it: the objects by id, the
   * depth of each (its distance from the centre object) and the order in
   * which `Foreach` visits them.
   */
  datatype StarSystem = StarSystem(objects: map<Guid, SystemObject>, depth: map<Guid, nat>, traversal: seq<Guid>)
  {
    /** Each object is stored under its own id, has a depth, and is visited exactly once. */
    ghost predicate WellFormed()
    {
      && EmptyGuid !in objects
      && (forall id :: id in objects ==> objects[id].id == id && WellTyped(objects[id]))
      && depth.Keys == objects.Keys
      && (forall i :: 0 <= i < |traversal| ==> traversal[i] in objects)
      && (forall id :: id in objects ==> id in traversal)
      && Distinct(traversal)
    }

    /** Each object is stored under its own id. */
    predicate KeyedById()
    {
      forall id :: id in objects ==> objects[id].id == id
    }

    /** `Contains(id)` */
    predicate Contains(id: Guid)
    {
      id in objects
    }

    /** `GetById(id)`: null when the id is not committed. */
    function GetById(id: Guid): (r: Option<SystemObject>)
      ensures r.Some? <==> Contains(id)
      ensures r.Some? ==> r.value == objects[id]
    {
      if id in objects then Some(objects[id]) else None
    }

    /** `GetDepth(id)`: the depth of a committed object, -1 for any other id. */
    function GetDepth(id: Guid): (d: int)
      ensures d >= 0 <==> id in depth
      ensures d < 0 ==> d == -1
    {
      if id in depth then depth[id] else -1
    }
  }
}
