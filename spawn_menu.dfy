/**
 * The planet part of the admin menu's spawn page: the name check and the
 * planet record `OnSpawnPlanet` builds, and `SpawnPlanet`, which places the
 * record and asks the star-system generator to add it.
 */
module SpawnMenu {
  import opened Wrappers
  import opened DotNet
  import opened SystemObjects

  /** Why a spawn request was refused (the "at least 4 letters" error box). */
  datatype SpawnError = NameTooShort

  /** Where the new planet goes: a coordinate from the dialog, or wherever the clipboard places it. */
  datatype SpawnTarget = AtCoordinate(coordinate: Vector3) | ByClipboard

  /**
   * What an accepted request leads to: `SpawnPlanet(planet, position)` once
   * the coordinate is confirmed, or the clipboard activated with the planet
   * and its size, which calls `SpawnPlanet` with the position it picks.
   */
  datatype SpawnRequest =
    | SpawnAt(planet: SystemObject, position: Vector3)
    | PlaceWithClipboard(planet: SystemObject, size: real)
  {
    function Planet(): SystemObject
    {
      match this
      case SpawnAt(p, _) => p
      case PlaceWithClipboard(p, _) => p
    }
  }

  /**
   * The name check: the text with leading and trailing white space removed
   * must be longer than 3 characters. The accepted name is that trimmed text,
   * which starts and ends with a character that is not white space.
   */
  function ValidateSpawnName(text: string): (r: Result<string, SpawnError>)
    ensures r.Err? <==> |Trim(text)| <= 3
    ensures r.Err? ==> r.error == NameTooShort
    ensures r.Ok? ==> |r.value| >= 4 && r.value == Trim(text)
    ensures r.Ok? ==> !IsWhiteSpace(r.value[0]) && !IsWhiteSpace(r.value[|r.value| - 1])
  {
    var name := Trim(text);
    if |name| <= 3 then Err(NameTooShort) else Ok(name)
  }

  /** Checking an accepted name again accepts it unchanged: the check is about the name, not its padding. */
  lemma ValidateSpawnNameStable(text: string)
    requires ValidateSpawnName(text).Ok?
    ensures ValidateSpawnName(ValidateSpawnName(text).value) == ValidateSpawnName(text)
  {
    TrimIdempotent(text);
  }

  /** A text that is only white space is refused whatever its length. */
  lemma BlankNameRefused(text: string)
    requires forall i :: 0 <= i < |text| ==> IsWhiteSpace(text[i])
    ensures ValidateSpawnName(text) == Err(NameTooShort)
  {
  }

  /**
   * `OnSpawnPlanet`: refuses a short name before anything is created;
   * otherwise builds the planet record (the trimmed name, the selected
   * definition's subtype, the slider's diameter, not generated) centred on
   * the chosen coordinate, or on the origin for the clipboard. `planetKind`
   * is the type tag the planet record's constructor gives it and `newId` its
   * fresh id; neither constructor is part of this model.
   */
  function OnSpawnPlanet(nameText: string, subtypeId: string, sliderValue: real, target: SpawnTarget,
                         planetKind: ObjectType, newId: Guid): (r: Result<SpawnRequest, SpawnError>)
    ensures r.Err? <==> ValidateSpawnName(nameText).Err?
    ensures r.Err? ==> r.error == NameTooShort
    ensures r.Ok? ==>
      var p := r.value.Planet();
      && p.id == newId && p.kind == planetKind
      && p.displayName == ValidateSpawnName(nameText).value
      && p.details == PlanetDetails(subtypeId, sliderValue, false)
    ensures r.Ok? && target.AtCoordinate? ==>
      r.value.SpawnAt? && r.value.position == target.coordinate && r.value.planet.center == target.coordinate
    ensures r.Ok? && target.ByClipboard? ==>
      r.value.PlaceWithClipboard? && r.value.size == sliderValue && r.value.planet.center == Origin
  {
    var checked := ValidateSpawnName(nameText);
    if checked.Err? then Err(checked.error)
    else
      var details := PlanetDetails(subtypeId, sliderValue, false);
      if target.AtCoordinate? then
        Ok(SpawnAt(SystemObject(newId, checked.value, planetKind, target.coordinate, EmptyGuid, details), target.coordinate))
      else
        Ok(PlaceWithClipboard(SystemObject(newId, checked.value, planetKind, Origin, EmptyGuid, details), sliderValue))
  }

  /** What `SpawnPlanet` did: nothing, or asked for the object to be added and showed an error if that failed. */
  datatype SpawnOutcome = Ignored | Requested(added: SystemObject, errorShown: bool)

  /**
   * `SpawnPlanet`: only a PLANET is spawned; its centre is set to the
   * position before the add is requested, and the error box appears exactly
   * when the add reports failure (`addSucceeded` is the callback's value).
   * A PLANET must be a planet record, which the source casts it to.
   */
  function SpawnPlanet(planet: SystemObject, position: Vector3, addSucceeded: bool): (o: SpawnOutcome)
    requires planet.kind == Planet ==> planet.details.PlanetDetails?
    ensures o.Ignored? <==> planet.kind != Planet
    ensures o.Requested? ==> (o.errorShown <==> !addSucceeded)
    ensures o.Requested? ==>
      && o.added.center == position
      && o.added.(center := planet.center) == planet
  {
    if planet.kind == Planet then Requested(planet.(center := position), !addSucceeded) else Ignored
  }

  /**
   * From the text box to the add request: an accepted request whose record
   * is tagged PLANET adds, at the confirmed coordinate or wherever the
   * clipboard places it, a planet named by the trimmed text, at least four
   * characters long; a refused request creates nothing. A record tagged
   * otherwise is never added.
   */
  lemma SpawnRequestEndToEnd(nameText: string, subtypeId: string, sliderValue: real, target: SpawnTarget,
                             planetKind: ObjectType, newId: Guid, placed: Vector3, addSucceeded: bool)
    ensures var r := OnSpawnPlanet(nameText, subtypeId, sliderValue, target, planetKind, newId);
      r.Ok? ==>
        var position := if target.AtCoordinate? then target.coordinate else placed;
        var o := SpawnPlanet(r.value.Planet(), position, addSucceeded);
        && (o.Requested? <==> planetKind == Planet)
        && (o.Requested? ==>
              && o.added.center == position
              && o.added.displayName == Trim(nameText)
              && |o.added.displayName| >= 4
              && o.added.details == PlanetDetails(subtypeId, sliderValue, false)
              && o.errorShown == !addSucceeded)
    ensures OnSpawnPlanet(nameText, subtypeId, sliderValue, target, planetKind, newId).Err? <==> |Trim(nameText)| <= 3
  {
  }
}
