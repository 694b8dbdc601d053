/**
 * The asteroid ring/belt provider (`MyAsteroidRingProvider`): a store that
 * maps an asteroid field's display name to its ring descriptor, the
 * operations that generate, load, save, look up and remove descriptors, and
 * the naming of rings and belts.
 *
 * The random draws, the generator settings, the naming settings and the
 * world's file storage are parameters; the static `Static` field is the
 * explicit `RingProviderSlot` object.
 */
module AsteroidRingProvider {
  import opened Wrappers
  import opened DotNet
  import opened SystemObjects

  /** `TYPE_NAME`, which `GetTypeName()` returns. */
  const TypeName: string := "AsteroidRing"

  /** `IsSystemGeneratable()`: the provider may generate un-parented belts. */
  const SystemGeneratable: bool := true

  /** A ring or belt descriptor (`MySystemRing`): metres and degrees. */
  datatype Ring = Ring(radius: real, center: Vector3, width: real, height: real, angleDegrees: Vector3)

  /** `new MySystemRing()`: every number is zero. */
  const DefaultRing := Ring(0.0, Origin, 0.0, 0.0, Origin)

  /** The shape derived from a resident descriptor (`MyAsteroidObjectShapeRing`). */
  datatype RingShape = RingShape(ring: Ring)

  /** The exceptions the provider's operations can end in. */
  datatype ProviderError =
    | DuplicateName(name: string)   // Dictionary.Add on a key already present
    | IndexOutOfRange               // GREEK_LETTERS indexed with a negative remainder
    | ReadFailed(name: string)      // no descriptor file for the field

  /** Every entry of `before` is still in `after`, with the same descriptor. */
  predicate Extends(before: map<string, Ring>, after: map<string, Ring>)
  {
    forall k :: k in before ==> k in after && after[k] == before[k]
  }

  /** `Dictionary.Add(name, ring)`: refuses a name already present and never overwrites. */
  function Register(rings: map<string, Ring>, name: string, ring: Ring): (r: Result<map<string, Ring>, ProviderError>)
    ensures r.Err? <==> name in rings
    ensures r.Err? ==> r.error == DuplicateName(name)
    ensures r.Ok? ==> r.value.Keys == rings.Keys + {name} && r.value[name] == ring
    ensures r.Ok? ==> Extends(rings, r.value)
  {
    if name in rings then Err(DuplicateName(name)) else Ok(rings[name := ring])
  }

  // ---------------------------------------------------------------------
  // Names
  // ---------------------------------------------------------------------

  /**
   * The naming settings and helpers `GetBeltName` uses: the belt name
   * template (`BeltNameFormat`), the Greek letter table (`GREEK_LETTERS`),
   * the Roman numeral conversion (`ConvertNumberToRoman`) and the
   * placeholder substitution (`SetProperty`, template, property, value).
   */
  datatype BeltNaming = BeltNaming(
    format: string,
    greekLetters: seq<string>,
    toRoman: int -> string,
    setProperty: (string, string, string) -> string)

  /**
   * `(char)('a' + index % 26)` with C#'s truncating `%`: a letter for a
   * non-negative index, and one of the 25 characters below 'a' (or 'a'
   * itself) for a negative one; in both cases the character's distance from
   * 'a' is congruent to the index modulo 26, which with the range pins it.
   */
  function LowerLetter(index: int): (c: char)
    ensures index >= 0 ==> 'a' <= c <= 'z' && c as int == 'a' as int + index % 26
    ensures index < 0 ==> 'a' as int - 25 <= c as int <= 'a' as int
    ensures (c as int - 'a' as int - index) % 26 == 0
    ensures c == 'a' <==> index % 26 == 0
  {
    (('a' as int) + TruncRem(index, 26)) as char
  }

  /** `(char)('A' + index % 26)`, likewise. */
  function UpperLetter(index: int): (c: char)
    ensures index >= 0 ==> 'A' <= c <= 'Z' && c as int == 'A' as int + index % 26
    ensures index < 0 ==> 'A' as int - 25 <= c as int <= 'A' as int
    ensures (c as int - 'A' as int - index) % 26 == 0
    ensures c == 'A' <==> index % 26 == 0
  {
    (('A' as int) + TruncRem(index, 26)) as char
  }

  /**
   * `GREEK_LETTERS[beltIndex % GREEK_LETTERS.Length]` throws: C#'s `%`
   * leaves a negative remainder exactly for a negative index that is not a
   * multiple of the table length.
   */
  predicate GreekLookupThrows(beltIndex: int, count: nat)
  {
    beltIndex < 0 && (count == 0 || beltIndex % count != 0)
  }

  /** The placeholder values `GetBeltName` substitutes, in the order it substitutes them. */
  function BeltProperties(index: Int32, naming: BeltNaming): seq<(string, string)>
    requires |naming.greekLetters| > 0
    requires TruncRem(index, |naming.greekLetters|) >= 0
  {
    var number := Wrap32(index + 1);
    [ ("ObjectNumber", IntToString(number)),
      ("ObjectNumberGreek", naming.greekLetters[TruncRem(index, |naming.greekLetters|)]),
      ("ObjectNumberRoman", naming.toRoman(number)),
      ("ObjectLetterLower", [LowerLetter(index)]),
      ("ObjectLetterUpper", [UpperLetter(index)]) ]
  }

  /** The chain of `SetProperty` calls, first property first. */
  function SetProperties(text: string, props: seq<(string, string)>, setProperty: (string, string, string) -> string): string
    decreases |props|
  {
    if props == [] then text else SetProperties(setProperty(text, props[0].0, props[0].1), props[1..], setProperty)
  }

  /**
   * `GetBeltName(beltIndex)`: the belt template with the index-derived
   * values substituted. The Greek letter lookup throws for a negative index
   * unless it is a multiple of the table length, which reads entry 0.
   */
  function GetBeltName(beltIndex: Int32, naming: BeltNaming): (r: Result<string, ProviderError>)
    requires |naming.greekLetters| > 0
    ensures r.Err? <==> GreekLookupThrows(beltIndex, |naming.greekLetters|)
    ensures r.Err? ==> r.error == IndexOutOfRange
    ensures r.Ok? ==> r.value == SetProperties(naming.format, BeltProperties(beltIndex, naming), naming.setProperty)
  {
    var greek := TruncRem(beltIndex, |naming.greekLetters|);
    if greek < 0 then Err(IndexOutOfRange)
    else Ok(SetProperties(naming.format, BeltProperties(beltIndex, naming), naming.setProperty))
  }

  /**
   * A negative index that is a multiple of the table length names a belt:
   * it reads Greek entry 0 and is numbered one more than the index.
   */
  lemma NegativeMultipleNamesBelt(naming: BeltNaming, k: nat)
    requires 0 < k && |naming.greekLetters| > 0
    requires k * |naming.greekLetters| <= 0x8000_0000
    ensures var index := -(k as int) * |naming.greekLetters|;
      && GetBeltName(index, naming).Ok?
      && BeltProperties(index, naming)[0].1 == IntToString(index + 1)
      && BeltProperties(index, naming)[1].1 == naming.greekLetters[0]
  {
    var n := |naming.greekLetters|;
    var index := -(k as int) * n;
    RemOfMultiplePlus(n, -(k as int), 0);
    assert index % n == 0;
  }

  /** Belt index -1 reads past the start of the letters: '`' and '@'. */
  lemma BeltLettersBelowZero()
    ensures LowerLetter(-1) == '`' && UpperLetter(-1) == '@'
  {
  }

  /**
   * The values substituted into a belt name: the 1-based number, its Roman
   * form, and the Greek, lower-case and upper-case letters chosen by the index.
   */
  lemma BeltPropertiesValues(index: nat, naming: BeltNaming)
    requires index < 0x7FFF_FFFF
    requires |naming.greekLetters| > 0
    ensures TruncRem(index, |naming.greekLetters|) >= 0
    ensures var p := BeltProperties(index, naming);
      && p[0] == ("ObjectNumber", IntToString(index + 1))
      && p[1] == ("ObjectNumberGreek", naming.greekLetters[index % |naming.greekLetters|])
      && p[2] == ("ObjectNumberRoman", naming.toRoman(index + 1))
      && p[3] == ("ObjectLetterLower", [LowerLetter(index)])
      && p[4] == ("ObjectLetterUpper", [UpperLetter(index)])
  {
  }

  /** The letters cycle every 26 belts and the upper-case letter is the lower-case one capitalised. */
  lemma BeltLettersCycle(index: nat)
    ensures LowerLetter(index + 26) == LowerLetter(index) && UpperLetter(index + 26) == UpperLetter(index)
    ensures UpperLetter(index) as int == LowerLetter(index) as int - 32
  {
    assert TruncRem(index + 26, 26) == (index + 26) % 26 == index % 26 == TruncRem(index, 26);
  }

  /** The 27th belt (index 26) wraps around to the letters 'a' and 'A'. */
  lemma BeltLettersWrapAtTwentySix()
    ensures LowerLetter(26) == 'a' && UpperLetter(26) == 'A'
    ensures LowerLetter(25) == 'z' && UpperLetter(25) == 'Z'
  {
  }

  /** The last `int` index numbers its belt with the wrapped-around value int.MinValue. */
  lemma BeltNumberWrapsAtMaxValue(naming: BeltNaming)
    requires |naming.greekLetters| > 0
    ensures BeltProperties(0x7FFF_FFFF, naming)[0].1 == IntToString(-0x8000_0000)
  {
    assert Wrap32(0x8000_0000) == -0x8000_0000;
  }

  /** `GetRingName(parentPlanetName)`: the parent's name followed by " Ring". */
  function GetRingName(parentPlanetName: string): (r: string)
    ensures |r| == |parentPlanetName| + 5
    ensures r[..|parentPlanetName|] == parentPlanetName && r[|parentPlanetName|..] == " Ring"
  {
    parentPlanetName + " Ring"
  }

  /** Distinct planet names give distinct ring names. */
  lemma RingNameInjective(a: string, b: string)
    requires GetRingName(a) == GetRingName(b)
    ensures a == b
  {
    assert a == GetRingName(a)[..|a|];
  }

  // ---------------------------------------------------------------------
  // Generation
  // ---------------------------------------------------------------------

  /**
   * The random draws of one ring generation, in the source's order: three
   * angles, the width, then the two `NextDouble()` fractions for height and
   * radius.
   */
  datatype RingDraws = RingDraws(angleX: int, angleY: int, angleZ: int, width: int, heightFraction: real, radiusFraction: real)

  /** `MyRandom.Next(lo, hi)`: a value in [lo, hi), or lo itself when the range is empty. */
  predicate NextInRange(v: int, lo: int, hi: int)
  {
    if lo < hi then lo <= v < hi else v == lo
  }

  /** `MyRandom.NextDouble()`: a value in [0, 1). */
  predicate UnitDraw(u: real)
  {
    0.0 <= u < 1.0
  }

  /** `(int)planet.Diameter / 10` */
  function MinRingWidth(diameter: real): int
  {
    TruncDiv(TruncToInt(diameter), 10)
  }

  /** `(int)planet.Diameter / 5` */
  function MaxRingWidth(diameter: real): int
  {
    TruncDiv(TruncToInt(diameter), 5)
  }

  /** Each draw lies in the range the source draws it from. */
  predicate DrawsFit(d: RingDraws, diameter: real)
  {
    && NextInRange(d.angleX, -20, 20)
    && NextInRange(d.angleY, -20, 20)
    && NextInRange(d.angleZ, -20, 20)
    && NextInRange(d.width, MinRingWidth(diameter), MaxRingWidth(diameter))
    && UnitDraw(d.heightFraction)
    && UnitDraw(d.radiusFraction)
  }

  /** A draw in [0, 1) scales a non-negative amount to no more than itself. */
  lemma FractionOf(u: real, x: real)
    requires UnitDraw(u) && x >= 0.0
    ensures 0.0 <= u * x <= x
    ensures x > 0.0 ==> u * x < x
  {
    assert x - u * x == (1.0 - u) * x;
  }

  /** The source's height formula gives a value from a twentieth to a tenth of the width. */
  lemma RingHeightWithin(u: real, w: real, h: real)
    requires UnitDraw(u) && w >= 0.0
    requires h == u * (w / 10.0 - w / 20.0) + w / 20.0
    ensures w / 20.0 <= h <= w / 10.0
    ensures w > 0.0 ==> h < w / 10.0
  {
    var x := w / 20.0;
    assert w / 10.0 - w / 20.0 == x && w / 10.0 == 2.0 * x;
    assert h == u * x + x;
    FractionOf(u, x);
  }

  /** The source's radius formula gives a value from 0.75 to 2 diameters. */
  lemma RingRadiusWithin(u: real, diameter: real, radius: real)
    requires UnitDraw(u) && diameter > 0.0
    requires radius == u * (diameter * 2.0 - diameter * 0.75) + diameter * 0.75
    ensures 0.75 * diameter <= radius < 2.0 * diameter
  {
    var x := diameter * 1.25;
    assert diameter * 2.0 - diameter * 0.75 == x;
    assert radius == u * x + diameter * 0.75;
    FractionOf(u, x);
  }

  /** The width draw lies between a tenth of the diameter (less one) and a fifth of it. */
  lemma RingWidthWithin(diameter: real, w: int)
    requires diameter >= 0.0
    requires NextInRange(w, MinRingWidth(diameter), MaxRingWidth(diameter))
    ensures diameter / 10.0 - 1.0 < w as real <= diameter / 5.0
  {
    var n := diameter.Floor;
    assert 0 <= n && n as real <= diameter < n as real + 1.0;
    var lo, hi := n / 10, n / 5;
    assert MinRingWidth(diameter) == lo && MaxRingWidth(diameter) == hi;
    assert n == lo * 10 + n % 10 && n == hi * 5 + n % 5;
    assert lo <= w;
    assert w as real >= lo as real > diameter / 10.0 - 1.0;
    if lo < hi {
      assert w as real < hi as real <= diameter / 5.0;
    } else {
      assert w as real == lo as real <= diameter / 10.0;
    }
  }

  /** The ring descriptor `GenerateInstance` draws for a planet of the given centre and diameter. */
  function PlanetRing(center: Vector3, diameter: real, d: RingDraws): (r: Ring)
    requires DrawsFit(d, diameter)
    ensures r.center == center
    ensures -20.0 <= r.angleDegrees.x < 20.0 && -20.0 <= r.angleDegrees.y < 20.0 && -20.0 <= r.angleDegrees.z < 20.0
  {
    var w := d.width as real;
    DefaultRing.(
      angleDegrees := Vector3(d.angleX as real, d.angleY as real, d.angleZ as real),
      width := w,
      height := d.heightFraction * (w / 10.0 - w / 20.0) + w / 20.0,
      radius := d.radiusFraction * (diameter * 2.0 - diameter * 0.75) + diameter * 0.75,
      center := center)
  }

  /**
   * A planet's ring is a tenth to a fifth of the diameter wide, a twentieth
   * to a tenth of its width high, and lies 0.75 to 2 diameters out.
   */
  lemma PlanetRingBounds(center: Vector3, diameter: real, d: RingDraws)
    requires DrawsFit(d, diameter)
    ensures var r := PlanetRing(center, diameter, d);
      && (diameter >= 0.0 ==> diameter / 10.0 - 1.0 < r.width <= diameter / 5.0)
      && (r.width >= 0.0 ==> r.width / 20.0 <= r.height <= r.width / 10.0)
      && (r.width > 0.0 ==> r.height < r.width / 10.0)
      && (diameter > 0.0 ==> 0.75 * diameter <= r.radius < 2.0 * diameter)
  {
    var r := PlanetRing(center, diameter, d);
    if diameter >= 0.0 {
      RingWidthWithin(diameter, d.width);
    }
    if r.width >= 0.0 {
      RingHeightWithin(d.heightFraction, r.width, r.height);
    }
    if diameter > 0.0 {
      RingRadiusWithin(d.radiusFraction, diameter, r.radius);
    }
  }

  /** A planet of diameter 120 km gets a ring 12 to 24 km wide at 90 to 240 km. */
  lemma RingScenario(center: Vector3, d: RingDraws)
    requires DrawsFit(d, 120000.0)
    ensures var r := PlanetRing(center, 120000.0, d);
      && 12000.0 <= r.width < 24000.0
      && 90000.0 <= r.radius < 240000.0
  {
    assert MinRingWidth(120000.0) == 12000 && MaxRingWidth(120000.0) == 24000;
    PlanetRingBounds(center, 120000.0, d);
  }

  /** The parent is a PLANET, so `GenerateInstance` makes a ring rather than a belt. */
  predicate IsPlanetParent(parent: Option<SystemObject>)
  {
    parent.Some? && parent.value.kind == Planet
  }

  /** The draws fit the planet parent's diameter, when there is one. */
  predicate DrawsFitParent(parent: Option<SystemObject>, d: RingDraws)
  {
    IsPlanetParent(parent) && parent.value.details.PlanetDetails? ==> DrawsFit(d, parent.value.details.diameter)
  }

  /** A generated asteroid field and the descriptor generated for it. */
  datatype Generated = Generated(field: SystemObject, ring: Ring)

  /**
   * What `GenerateInstance` builds before registering it: for a PLANET
   * parent a ring named after it around its centre, otherwise a belt at the
   * origin named from the belt index, as wide as the minimum orbit distance
   * and a hundredth as high, at the given orbit radius.
   */
  function Generate(systemIndex: Int32, parent: Option<SystemObject>, objectOrbitRadius: real, draws: RingDraws,
                    minOrbitDistance: real, naming: BeltNaming, newId: Guid): (r: Result<Generated, ProviderError>)
    requires parent.Some? ==> WellTyped(parent.value)
    requires DrawsFitParent(parent, draws)
    requires |naming.greekLetters| > 0
    ensures r.Err? <==> !IsPlanetParent(parent) && GreekLookupThrows(systemIndex, |naming.greekLetters|)
    ensures r.Ok? ==> var f := r.value.field;
      && f.id == newId && f.kind == Asteroids && WellTyped(f)
      && f.details.asteroidTypeName == TypeName
      && r.value.ring.center == f.center
    ensures r.Ok? && IsPlanetParent(parent) ==> var f, p := r.value.field, parent.value;
      && f.displayName == GetRingName(p.displayName)
      && f.details.parentName == Some(p.displayName)
      && f.center == p.center
      && f.details.sizeMin == 64 && f.details.sizeMax == 1024
      && r.value.ring == PlanetRing(p.center, p.details.diameter, draws)
    ensures r.Ok? && !IsPlanetParent(parent) ==> var f, ring := r.value.field, r.value.ring;
      && Ok(f.displayName) == GetBeltName(systemIndex, naming)
      && f.center == Origin && f.details.parentName.None?
      && f.details.sizeMin == 256 && f.details.sizeMax == 1024
      && ring.angleDegrees == Origin
      && ring.width == minOrbitDistance && ring.height == minOrbitDistance / 100.0
      && ring.radius == objectOrbitRadius
  {
    if IsPlanetParent(parent) then
      var p := parent.value;
      var field := SystemObject(newId, GetRingName(p.displayName), Asteroids, p.center, EmptyGuid,
                                AsteroidDetails(TypeName, 64, 1024, Some(p.displayName)));
      Ok(Generated(field, PlanetRing(field.center, p.details.diameter, draws)))
    else
      match GetBeltName(systemIndex, naming)
      case Err(e) => Err(e)
      case Ok(name) =>
        var field := SystemObject(newId, name, Asteroids, Origin, EmptyGuid, AsteroidDetails(TypeName, 256, 1024, None));
        Ok(Generated(field, DefaultRing.(angleDegrees := Origin, width := minOrbitDistance, height := minOrbitDistance / 100.0,
                                         radius := objectOrbitRadius, center := field.center)))
  }

  /**
   * `IsSystemGeneratable()` is true: the generator may ask for a field with
   * no parent, and with a belt index it can name it gets a belt around the
   * system centre with no parent name.
   */
  lemma SystemGeneratableBelt(systemIndex: Int32, objectOrbitRadius: real, draws: RingDraws,
                              minOrbitDistance: real, naming: BeltNaming, newId: Guid)
    requires |naming.greekLetters| > 0 && systemIndex >= 0
    ensures SystemGeneratable
    ensures var r := Generate(systemIndex, None, objectOrbitRadius, draws, minOrbitDistance, naming, newId);
      && r.Ok? && r.value.field.center == Origin && r.value.field.details.parentName.None?
      && r.value.ring.radius == objectOrbitRadius
  {
  }

  // ---------------------------------------------------------------------
  // Store transitions
  // ---------------------------------------------------------------------

  /** An operation's result together with the store it leaves. */
  datatype Step<T> = Step(result: T, rings: map<string, Ring>)

  /**
   * `TryLoadObject`: nothing happens when a descriptor is resident under the
   * field's name; otherwise the descriptor is read from the world's files
   * and registered (a missing file is a failed read).
   */
  function TryLoad(rings: map<string, Ring>, files: map<string, Ring>, name: string): (s: Step<Result<bool, ProviderError>>)
    ensures s.result == Ok(false) <==> name in rings
    ensures s.result.Err? <==> name !in rings && name !in files
    ensures s.result.Err? ==> s.rings == rings
    ensures name !in rings && name in files ==> s == Step(Ok(true), rings[name := files[name]])
    ensures Extends(rings, s.rings)
  {
    if name in rings then Step(Ok(false), rings)
    else if name !in files then Step(Err(ReadFailed(name)), rings)
    else Step(Ok(true), rings[name := files[name]])
  }

  /**
   * Loading twice reads at most once: whatever the first call did, unless
   * its read failed, the second returns false and changes nothing, and a
   * load that returned true registered the file's descriptor.
   */
  lemma TryLoadTwice(rings: map<string, Ring>, files: map<string, Ring>, name: string)
    ensures var first := TryLoad(rings, files, name);
      first.result.Ok? ==> TryLoad(first.rings, files, name) == Step(Ok(false), first.rings)
    ensures var first := TryLoad(rings, files, name);
      first.result == Ok(true) ==> name in files && first.rings == rings[name := files[name]]
  {
  }

  /**
   * `RemoveInstance`: nothing happens unless the field belongs to this
   * provider and a descriptor is resident under its name; then exactly that
   * entry is removed.
   */
  function Remove(rings: map<string, Ring>, instance: SystemObject): (s: Step<bool>)
    requires instance.details.AsteroidDetails?
    ensures s.result <==> instance.details.asteroidTypeName == TypeName && instance.displayName in rings
    ensures s.result ==> s.rings == rings - {instance.displayName}
    ensures !s.result ==> s.rings == rings
  {
    if instance.details.asteroidTypeName != TypeName then Step(false, rings)
    else if instance.displayName !in rings then Step(false, rings)
    else Step(true, rings - {instance.displayName})
  }

  /** Removing twice gives at most one true, and the second call never changes the store. */
  lemma RemoveTwice(rings: map<string, Ring>, instance: SystemObject)
    requires instance.details.AsteroidDetails?
    ensures var first := Remove(rings, instance); var second := Remove(first.rings, instance);
      && !second.result && second.rings == first.rings
      && (first.result ==> instance.displayName !in second.rings)
  {
  }

  // ---------------------------------------------------------------------
  // The provider object
  // ---------------------------------------------------------------------

  /** The dictionary `m_loadedRings`, an object that several providers can share. */
  class RingStore {
    var rings: map<string, Ring>

    constructor ()
      ensures rings == map[]
    {
      rings := map[];
    }
  }

  /** The world's file storage for descriptor files, keyed by the owning field's name. */
  class WorldStorage {
    var files: map<string, Ring>

    constructor (files: map<string, Ring>)
      ensures this.files == files
    {
      this.files := files;
    }
  }

  /** The static field `MyAsteroidRingProvider.Static`. */
  class RingProviderSlot {
    var instance: AsteroidRingProvider?

    constructor ()
      ensures instance == null
    {
      instance := null;
    }
  }

  class AsteroidRingProvider {
    const store: RingStore

    /**
     * The first provider creates an empty store; every later one takes over
     * the store of the provider in `Static`. Either way it becomes `Static`.
     */
    constructor (slot: RingProviderSlot)
      modifies slot
      ensures slot.instance == this
      ensures old(slot.instance) == null ==> fresh(store) && store.rings == map[]
      ensures old(slot.instance) != null ==> store == old(slot.instance).store
    {
      if slot.instance == null {
        store := new RingStore();
      } else {
        store := slot.instance.store;
      }
      new;
      slot.instance := this;
    }

    /**
     * `GenerateInstance`: builds the field and its descriptor and registers
     * the descriptor under the field's name; a name already resident makes
     * `Dictionary.Add` throw, and nothing is registered or overwritten.
     */
    method GenerateInstance(systemIndex: Int32, parent: Option<SystemObject>, objectOrbitRadius: real, draws: RingDraws,
                            minOrbitDistance: real, naming: BeltNaming, newId: Guid) returns (r: Result<SystemObject, ProviderError>)
      requires parent.Some? ==> WellTyped(parent.value)
      requires DrawsFitParent(parent, draws)
      requires |naming.greekLetters| > 0
      modifies store
      ensures var g := Generate(systemIndex, parent, objectOrbitRadius, draws, minOrbitDistance, naming, newId);
        && (g.Err? ==> r == Err(g.error) && store.rings == old(store.rings))
        && (g.Ok? && g.value.field.displayName in old(store.rings) ==>
              r == Err(DuplicateName(g.value.field.displayName)) && store.rings == old(store.rings))
        && (g.Ok? && g.value.field.displayName !in old(store.rings) ==>
              r == Ok(g.value.field) && store.rings == old(store.rings)[g.value.field.displayName := g.value.ring])
      ensures r.Ok? ==> r.value.displayName in store.rings
      ensures Extends(old(store.rings), store.rings)
    {
      var g := Generate(systemIndex, parent, objectOrbitRadius, draws, minOrbitDistance, naming, newId);
      if g.Err? {
        return Err(g.error);
      }
      var added := Register(store.rings, g.value.field.displayName, g.value.ring);
      if added.Err? {
        return Err(added.error);
      }
      store.rings := added.value;
      r := Ok(g.value.field);
    }

    /** `GetAsteroidObjectShape`: null exactly when no descriptor is resident under the field's name. */
    function GetAsteroidObjectShape(instance: SystemObject): (r: Option<RingShape>)
      reads store
      ensures r.None? <==> instance.displayName !in store.rings
      ensures r.Some? ==> r.value.ring == store.rings[instance.displayName]
    {
      if instance.displayName in store.rings then Some(RingShape(store.rings[instance.displayName])) else None
    }

    /** `TryLoadObject` */
    method TryLoadObject(asteroid: SystemObject, storage: WorldStorage) returns (r: Result<bool, ProviderError>)
      modifies store
      ensures Step(r, store.rings) == TryLoad(old(store.rings), storage.files, asteroid.displayName)
    {
      var s := TryLoad(store.rings, storage.files, asteroid.displayName);
      store.rings := s.rings;
      r := s.result;
    }

    /**
     * `OnSave`: writes every resident descriptor to its own file, once per
     * name, overwriting what was there; the store is left as it was.
     */
    method OnSave(storage: WorldStorage) returns (written: seq<string>)
      modifies storage
      ensures storage.files == old(storage.files) + store.rings
      ensures Distinct(written)
      ensures forall k :: k in written <==> k in store.rings
    {
      var remaining := store.rings.Keys;
      written := [];
      while remaining != {}
        invariant remaining <= store.rings.Keys
        invariant Distinct(written)
        invariant forall k :: k in written <==> k in store.rings && k !in remaining
        invariant storage.files == old(storage.files) + map k | k in store.rings && k !in remaining :: store.rings[k]
        decreases remaining
      {
        var name :| name in remaining;
        storage.files := storage.files[name := store.rings[name]];
        written := written + [name];
        remaining := remaining - {name};
      }
    }

    /** `RemoveInstance`: also deletes the field's descriptor file when it removes the entry. */
    method RemoveInstance(systemInstance: SystemObject, storage: WorldStorage) returns (removed: bool)
      requires systemInstance.details.AsteroidDetails?
      modifies store, storage
      ensures Step(removed, store.rings) == Remove(old(store.rings), systemInstance)
      ensures storage.files == if removed then old(storage.files) - {systemInstance.displayName} else old(storage.files)
    {
      var s := Remove(store.rings, systemInstance);
      store.rings := s.rings;
      removed := s.result;
      if removed {
        storage.files := storage.files - {systemInstance.displayName};
      }
    }
  }

  /** Creating a second provider leaves both sharing the first one's store. */
  method SecondProviderSharesStore(slot: RingProviderSlot) returns (first: AsteroidRingProvider, second: AsteroidRingProvider)
    modifies slot
    ensures second.store == first.store && slot.instance == second
  {
    first := new AsteroidRingProvider(slot);
    second := new AsteroidRingProvider(slot);
  }

  /**
   * `AddRingServer`: registers the descriptor with the provider in `Static`,
   * if there is one; a name already resident makes `Dictionary.Add` throw.
   */
  method AddRingServer(slot: RingProviderSlot, systemInstance: SystemObject, ringData: Ring) returns (r: Result<(), ProviderError>)
    modifies if slot.instance != null then {slot.instance.store} else {}
    ensures slot.instance == null ==> r == Ok(())
    ensures slot.instance != null ==>
      var added := Register(old(slot.instance.store.rings), systemInstance.displayName, ringData);
      && (added.Err? ==> r == Err(added.error) && slot.instance.store.rings == old(slot.instance.store.rings))
      && (added.Ok? ==> r == Ok(()) && slot.instance.store.rings == added.value)
  {
    if slot.instance == null {
      return Ok(());
    }
    var store := slot.instance.store;
    var added := Register(store.rings, systemInstance.displayName, ringData);
    if added.Err? {
      return Err(added.error);
    }
    store.rings := added.value;
    r := Ok(());
  }

  // ---------------------------------------------------------------------
  // AddInstance
  // ---------------------------------------------------------------------

  /**
   * What one `AddInstance` call does: the values the success callback is
   * invoked with, in order; the object handed to `AddObjectToSystem`; the
   * `AddRingServer` event raised once the add succeeded; and whether it ended
   * in an exception.
   */
  datatype AddInstanceTrace = AddInstanceTrace(
    reports: seq<bool>,
    addRequest: Option<SystemObject>,
    serverEvent: Option<(SystemObject, Option<Ring>)>,
    threw: bool)

  /**
   * `AddInstance` as written: a null argument is reported as a failure, but
   * the method goes on, so a null field then throws and a null descriptor is
   * sent to the server and reported a second time.
   */
  function AddInstanceAsWritten(systemInstance: Option<SystemObject>, ringData: Option<Ring>, addSucceeded: bool): (t: AddInstanceTrace)
    ensures systemInstance.None? ==> t.threw && t.reports == [false]
  {
    var early := if ringData.None? || systemInstance.None? then [false] else [];
    if systemInstance.None? then
      AddInstanceTrace(early, None, None, true)
    else
      AddInstanceTrace(early + [addSucceeded], Some(systemInstance.value),
                       if addSucceeded then Some((systemInstance.value, ringData)) else None, false)
  }

  /** A null descriptor with a successful add is reported as failed and then as succeeded, and a null descriptor reaches the server. */
  lemma AddInstanceAsWrittenReportsTwice(field: SystemObject)
    ensures var t := AddInstanceAsWritten(Some(field), None, true);
      t.reports == [false, true] && t.serverEvent == Some((field, None))
  {
  }

  /**
   * `AddInstance` returning after it reports a null argument: the callback
   * is invoked exactly once, with true exactly when the add succeeded and
   * the descriptor was sent to the server, and no null descriptor is sent.
   */
  function AddInstance(systemInstance: Option<SystemObject>, ringData: Option<Ring>, addSucceeded: bool): (t: AddInstanceTrace)
    ensures |t.reports| == 1 && !t.threw
    ensures t.reports[0] <==> t.serverEvent.Some?
    ensures t.reports[0] <==> systemInstance.Some? && ringData.Some? && addSucceeded
    ensures t.addRequest.Some? <==> systemInstance.Some? && ringData.Some?
    ensures t.serverEvent.Some? ==> t.serverEvent.value == (systemInstance.value, ringData) && ringData.Some?
  {
    if systemInstance.None? || ringData.None? then
      AddInstanceTrace([false], None, None, false)
    else
      AddInstanceTrace([addSucceeded], Some(systemInstance.value),
                       if addSucceeded then Some((systemInstance.value, ringData)) else None, false)
  }
}
