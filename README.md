# Star system editing and the asteroid ring provider, in Dafny

This project models three parts of SEWorldGenPlugin, a Space Engineers plugin
that generates and edits a star system of planets, moons and asteroid fields.

- **The asteroid ring provider** (`MyAsteroidRingProvider`). It keeps a store
  that maps an asteroid field's display name to its ring or belt descriptor.
  It generates a ring around a planet, or a belt around the system centre,
  from random draws, and names it. It loads descriptors from the world's
  files, saves them, removes them, and looks up the ring shape. Every
  provider created after the first shares the first one's store through the
  static `Static` field.
- **The star system designer menu** (`MyStarSystemDesignerMenu`). It keeps a
  pending overlay of edited and newly added objects on top of the committed
  star system. It lists the system in a listbox: each committed object in
  traversal order at its depth, followed by its pending children one level
  deeper. It labels edited rows with " *", and creates new objects under the
  selection.
- **The planet part of the admin spawn menu** (`MyPluginAdminMenu.SpawnMenu`).
  It refuses names shorter than four characters after trimming, builds the
  planet record, and asks the generator to add a PLANET at the chosen
  position.

Files:

- `wrappers.dfy`: `Option` and `Result`.
- `dotnet.dfy`: the .NET behaviour the code relies on. This covers `int`
  wrap-around, truncating division and remainder, the `(int)` cast of a
  double, `ToString` of integers, `char.IsWhiteSpace` and `String.Trim`.
- `system_objects.dfy`: system objects and the committed star system as the
  menus see it, through `Contains`, `GetById`, `GetDepth` and the traversal.
- `asteroid_ring_provider.dfy`, `star_system_designer.dfy` and
  `spawn_menu.dfy`: the three parts above.

State that the source changes in place is modelled as classes:

- `RingStore` is the shared `m_loadedRings` dictionary.
- `AsteroidRingProvider` is the provider.
- `RingProviderSlot` is the static `Static` field.
- `WorldStorage` is the world's descriptor files.
- `DesignerMenu` holds the menu's pending maps, listbox rows, `m_itemList` and
  selected id.

Each method is proved against a function of the old state. The properties
the source promises are proved about those functions as lemmas.

Several things become parameters:

- random draws, constrained to the ranges `MyRandom` guarantees:
  - `Next(lo, hi)` is in `[lo, hi)`, or equals `lo` when `lo >= hi`;
  - `NextDouble()` is in `[0, 1)`;
- fresh `Guid`s;
- the generator settings;
- the naming helpers;
- the asteroid providers the designer consults;
- the outcomes of the callbacks.

## Model

| member | source | states |
|---|---|---|
| DotNet.Wrap32 | SEWorldGenPlugin/Generator/AsteroidObjects/AsteroidRing/MyAsteroidRingProvider.cs:179 | unchecked `int` addition: the result is the mathematical value when it fits, and is congruent to it modulo 2^32 otherwise |
| DotNet.Trim | SEWorldGenPlugin/GUI/AdminMenu/MyPluginAdminMenu.SpawnMenu.cs:184 | `String.Trim`: the result is a contiguous piece of the input and starts and ends with non-white-space; every character cut from either end is white space; it is empty exactly when the input is all white space |
| DotNet.TrimIdempotent | SEWorldGenPlugin/GUI/AdminMenu/MyPluginAdminMenu.SpawnMenu.cs:184 | trimming twice gives the same as trimming once |
| DotNet.TruncRem | SEWorldGenPlugin/Generator/AsteroidObjects/AsteroidRing/MyAsteroidRingProvider.cs:180 | C#'s `%`: the remainder of a non-negative dividend is the Euclidean one, a negative dividend leaves a remainder in (-b, 0]; the dividend minus the remainder is a multiple of `b`, and the remainder is zero exactly for a multiple of `b` |
| DotNet.NatToStringValue | SEWorldGenPlugin/Generator/AsteroidObjects/AsteroidRing/MyAsteroidRingProvider.cs:179 | the decimal text of a number (no leading zero) reads back as that number |
| AsteroidRingProvider.Register | SEWorldGenPlugin/Generator/AsteroidObjects/AsteroidRing/MyAsteroidRingProvider.cs:63 | `Dictionary.Add` fails exactly when the name is already resident; otherwise it adds exactly that name with that descriptor and keeps every other entry |
| AsteroidRingProvider.LowerLetter | SEWorldGenPlugin/Generator/AsteroidObjects/AsteroidRing/MyAsteroidRingProvider.cs:182 | the lower-case belt letter is 'a' plus the index mod 26, in 'a'..'z', for a non-negative index and one of the 25 characters below 'a' (or 'a') for a negative one; in both cases its distance from 'a' is congruent to the index modulo 26, which fixes the character; it is 'a' exactly for a multiple of 26 |
| AsteroidRingProvider.UpperLetter | SEWorldGenPlugin/Generator/AsteroidObjects/AsteroidRing/MyAsteroidRingProvider.cs:183 | the upper-case belt letter is 'A' plus the index mod 26, in 'A'..'Z', for a non-negative index and one of the 25 characters below 'A' (or 'A') for a negative one; in both cases its distance from 'A' is congruent to the index modulo 26, which fixes the character; it is 'A' exactly for a multiple of 26 |
| AsteroidRingProvider.GetBeltName | SEWorldGenPlugin/Generator/AsteroidObjects/AsteroidRing/MyAsteroidRingProvider.cs:175-186 | the Greek-letter lookup throws exactly for a negative index that is not a multiple of the table length, because C#'s `%` keeps the dividend's sign; every other index gets the template with the number, Greek letter, Roman numeral and the two letters substituted in that order |
| AsteroidRingProvider.NegativeMultipleNamesBelt | SEWorldGenPlugin/Generator/AsteroidObjects/AsteroidRing/MyAsteroidRingProvider.cs:179-180 | a negative multiple of the Greek table length names a belt, reading Greek entry 0 and numbering the belt one more than the index |
| AsteroidRingProvider.BeltLettersBelowZero | SEWorldGenPlugin/Generator/AsteroidObjects/AsteroidRing/MyAsteroidRingProvider.cs:182-183 | index -1 gives the characters '`' and '@', just below 'a' and 'A' |
| AsteroidRingProvider.BeltPropertiesValues | SEWorldGenPlugin/Generator/AsteroidObjects/AsteroidRing/MyAsteroidRingProvider.cs:179-183 | the five placeholders get, in order: the 1-based number, the Greek letter at index mod table length, the Roman numeral of the number, and the lower- and upper-case letters |
| AsteroidRingProvider.BeltLettersCycle | SEWorldGenPlugin/Generator/AsteroidObjects/AsteroidRing/MyAsteroidRingProvider.cs:182-183 | the letters repeat every 26 belts, and the upper-case letter is the lower-case one capitalised |
| AsteroidRingProvider.BeltLettersWrapAtTwentySix | SEWorldGenPlugin/Generator/AsteroidObjects/AsteroidRing/MyAsteroidRingProvider.cs:182-183 | index 25 gives 'z'/'Z' and index 26 wraps to 'a'/'A' |
| AsteroidRingProvider.BeltNumberWrapsAtMaxValue | SEWorldGenPlugin/Generator/AsteroidObjects/AsteroidRing/MyAsteroidRingProvider.cs:179 | index `int.MaxValue` numbers its belt `int.MinValue`, because `beltIndex + 1` wraps |
| AsteroidRingProvider.GetRingName | SEWorldGenPlugin/Generator/AsteroidObjects/AsteroidRing/MyAsteroidRingProvider.cs:193-196 | a ring's name is the planet's name followed by " Ring" |
| AsteroidRingProvider.RingNameInjective | SEWorldGenPlugin/Generator/AsteroidObjects/AsteroidRing/MyAsteroidRingProvider.cs:193-196 | different planet names give different ring names |
| AsteroidRingProvider.RingWidthWithin | SEWorldGenPlugin/Generator/AsteroidObjects/AsteroidRing/MyAsteroidRingProvider.cs:58 | the drawn width, from truncated `(int)D/10` and `(int)D/5` bounds, lies above D/10 - 1 and at most D/5 |
| AsteroidRingProvider.RingHeightWithin | SEWorldGenPlugin/Generator/AsteroidObjects/AsteroidRing/MyAsteroidRingProvider.cs:59 | the height lies between a twentieth and a tenth of the width, and below a tenth when the width is positive |
| AsteroidRingProvider.RingRadiusWithin | SEWorldGenPlugin/Generator/AsteroidObjects/AsteroidRing/MyAsteroidRingProvider.cs:60 | the radius lies in [0.75 D, 2 D) |
| AsteroidRingProvider.PlanetRing | SEWorldGenPlugin/Generator/AsteroidObjects/AsteroidRing/MyAsteroidRingProvider.cs:56-61 | a planet's ring is centred on the planet, and each tilt angle is in [-20, 20) |
| AsteroidRingProvider.PlanetRingBounds | SEWorldGenPlugin/Generator/AsteroidObjects/AsteroidRing/MyAsteroidRingProvider.cs:57-60 | the width, height and radius of a generated ring all lie within the bounds above |
| AsteroidRingProvider.RingScenario | SEWorldGenPlugin/Generator/AsteroidObjects/AsteroidRing/MyAsteroidRingProvider.cs:57-60 | a 120 km planet gets a ring 12–24 km wide at 90–240 km |
| AsteroidRingProvider.Generate | SEWorldGenPlugin/Generator/AsteroidObjects/AsteroidRing/MyAsteroidRingProvider.cs:41-91 | generation fails only for a belt whose index is negative and not a multiple of the Greek table length; a PLANET parent gets "<planet> Ring" with that parent's name and centre, sizes 64–1024 and the planet ring; any other parent gets the belt name at the origin, sizes 256–1024, no tilt, the settings' minimum orbit distance as width, a hundredth of it as height, and the orbit radius |
| AsteroidRingProvider.SystemGeneratableBelt | SEWorldGenPlugin/Generator/AsteroidObjects/AsteroidRing/MyAsteroidRingProvider.cs:67-97 | the provider is system-generatable, and a generation with no parent and a non-negative index gives a belt at the origin with no parent name at the orbit radius |
| AsteroidRingProvider.TryLoad | SEWorldGenPlugin/Generator/AsteroidObjects/AsteroidRing/MyAsteroidRingProvider.cs:111-119 | it returns false exactly when the name is already resident; otherwise, when the file exists, it registers the file's descriptor under the name and returns true, and the read fails (changing nothing) exactly when there is no file; existing entries are never changed |
| AsteroidRingProvider.TryLoadTwice | SEWorldGenPlugin/Generator/AsteroidObjects/AsteroidRing/MyAsteroidRingProvider.cs:111-119 | after a load that did not fail, a second load returns false and changes nothing; a load that returned true registered the file's descriptor |
| AsteroidRingProvider.Remove | SEWorldGenPlugin/Generator/AsteroidObjects/AsteroidRing/MyAsteroidRingProvider.cs:198-205 | it returns true exactly when the field is of this provider's type and resident, and only then removes that entry |
| AsteroidRingProvider.RemoveTwice | SEWorldGenPlugin/Generator/AsteroidObjects/AsteroidRing/MyAsteroidRingProvider.cs:198-205 | a second removal returns false and changes nothing |
| AsteroidRingProvider.AsteroidRingProvider.constructor | SEWorldGenPlugin/Generator/AsteroidObjects/AsteroidRing/MyAsteroidRingProvider.cs:27-39 | the first provider gets a fresh empty store; a later one takes the current `Static` provider's store; either way it becomes `Static` |
| AsteroidRingProvider.SecondProviderSharesStore | SEWorldGenPlugin/Generator/AsteroidObjects/AsteroidRing/MyAsteroidRingProvider.cs:27-39 | a second provider shares the first one's store |
| AsteroidRingProvider.AsteroidRingProvider.GenerateInstance | SEWorldGenPlugin/Generator/AsteroidObjects/AsteroidRing/MyAsteroidRingProvider.cs:41-91 | returns the generated field and registers its descriptor under its name; a duplicate name throws and leaves the store as it was; existing entries are never changed |
| AsteroidRingProvider.AsteroidRingProvider.GetAsteroidObjectShape | SEWorldGenPlugin/Generator/AsteroidObjects/AsteroidRing/MyAsteroidRingProvider.cs:104-109 | null exactly when no descriptor is resident under the field's name; otherwise the shape of that descriptor |
| AsteroidRingProvider.AsteroidRingProvider.TryLoadObject | SEWorldGenPlugin/Generator/AsteroidObjects/AsteroidRing/MyAsteroidRingProvider.cs:111-119 | result and new store are those of `TryLoad` on the old store and the world's files |
| AsteroidRingProvider.AsteroidRingProvider.OnSave | SEWorldGenPlugin/Generator/AsteroidObjects/AsteroidRing/MyAsteroidRingProvider.cs:121-127 | writes each resident descriptor to its own file exactly once, overwriting; other files and the store are unchanged |
| AsteroidRingProvider.AsteroidRingProvider.RemoveInstance | SEWorldGenPlugin/Generator/AsteroidObjects/AsteroidRing/MyAsteroidRingProvider.cs:198-211 | store and result follow `Remove`; the descriptor file is deleted exactly when the entry was removed |
| AsteroidRingProvider.AddRingServer | SEWorldGenPlugin/Generator/AsteroidObjects/AsteroidRing/MyAsteroidRingProvider.cs:164-167 | with no `Static` provider nothing happens; otherwise the descriptor is added to its store, and a duplicate name throws and changes nothing |
| AsteroidRingProvider.AddInstanceAsWritten | SEWorldGenPlugin/Generator/AsteroidObjects/AsteroidRing/MyAsteroidRingProvider.cs:140-160 | as written: a null field is reported as a failure and then throws |
| AsteroidRingProvider.AddInstanceAsWrittenReportsTwice | SEWorldGenPlugin/Generator/AsteroidObjects/AsteroidRing/MyAsteroidRingProvider.cs:142-153 | as written: a null descriptor with a successful add is reported false and then true, and the null descriptor reaches the server |
| AsteroidRingProvider.AddInstance | SEWorldGenPlugin/Generator/AsteroidObjects/AsteroidRing/MyAsteroidRingProvider.cs:140-160 | corrected: exactly one report, which is true exactly when both arguments are present and the add succeeded; the server is told exactly then, and never with a null descriptor |
| StarSystemDesigner.Indent | SEWorldGenPlugin/GUI/AdminMenu/SubMenus/MyStarSystemDesignerMenu.cs:518-520 | the indentation is three spaces per level, and nothing for depth 0 or less |
| StarSystemDesigner.EditedDepth | SEWorldGenPlugin/GUI/AdminMenu/SubMenus/MyStarSystemDesignerMenu.cs:303-307 | the committed depth, or the parent's committed depth plus one, or 0 when neither is committed; never negative |
| StarSystemDesigner.EditedLabel | SEWorldGenPlugin/GUI/AdminMenu/SubMenus/MyStarSystemDesignerMenu.cs:303-312 | the edited row's label is 3×depth spaces, then the name, then " *" |
| StarSystemDesigner.PendingChildRowsFacts | SEWorldGenPlugin/GUI/AdminMenu/SubMenus/MyStarSystemDesignerMenu.cs:498-506 | the inner loop lists exactly the uncommitted pending objects with that parent, each once, as pending rows at depth + 1 |
| StarSystemDesigner.TraversalRowIdSet | SEWorldGenPlugin/GUI/AdminMenu/SubMenus/MyStarSystemDesignerMenu.cs:493-507 | after n visited objects, the rows list those objects and their uncommitted pending children, and nothing else |
| StarSystemDesigner.TraversalRowsDistinct | SEWorldGenPlugin/GUI/AdminMenu/SubMenus/MyStarSystemDesignerMenu.cs:493-507 | no id is listed twice, so `m_itemList.Add` never throws during a refresh |
| StarSystemDesigner.TraversalRowLabels | SEWorldGenPlugin/GUI/AdminMenu/SubMenus/MyStarSystemDesignerMenu.cs:493-507 | every row shows its object (the pending copy when there is one) at the depth `OnObjectEdited` computes, with " *" exactly when it is pending |
| StarSystemDesigner.TraversalRowOrder | SEWorldGenPlugin/GUI/AdminMenu/SubMenus/MyStarSystemDesignerMenu.cs:493-496 | read in order, the committed rows are the traversal |
| StarSystemDesigner.TraversalRowsUnderParent | SEWorldGenPlugin/GUI/AdminMenu/SubMenus/MyStarSystemDesignerMenu.cs:497-506 | each pending row follows its parent's row, with only uncommitted rows in between |
| StarSystemDesigner.ListRowsProperties | SEWorldGenPlugin/GUI/AdminMenu/SubMenus/MyStarSystemDesignerMenu.cs:482-508 | the refreshed list, all properties together: listed ids are the committed ones plus pending children of committed objects, each once; committed rows are in traversal order; each pending row sits under its parent; each label is as edited |
| StarSystemDesigner.EditLabelMatchesRefresh | SEWorldGenPlugin/GUI/AdminMenu/SubMenus/MyStarSystemDesignerMenu.cs:308-314 | the label an edit writes into a pending row equals that row's text after the next refresh |
| StarSystemDesigner.RecordEditValid | SEWorldGenPlugin/GUI/AdminMenu/SubMenus/MyStarSystemDesignerMenu.cs:319-331 | recording an edit keeps the overlay consistent and stores the edited value under its id; a new id is appended to the order and, for an ASTEROIDS object of a known provider, gets that provider's instance data; nothing else changes |
| StarSystemDesigner.RecordEditTwice | SEWorldGenPlugin/GUI/AdminMenu/SubMenus/MyStarSystemDesignerMenu.cs:319-331 | editing the same object twice keeps one entry; order and asteroid data are those of the first edit |
| StarSystemDesigner.EditIsSelected | SEWorldGenPlugin/GUI/AdminMenu/SubMenus/MyStarSystemDesignerMenu.cs:213-222 | after an edit the selection shows the edited value, and "committed" is true exactly when the system contains it |
| StarSystemDesigner.AddNewValid | SEWorldGenPlugin/GUI/AdminMenu/SubMenus/MyStarSystemDesignerMenu.cs:414-416 | adding a new object under a fresh id keeps the overlay consistent |
| StarSystemDesigner.NewObject | SEWorldGenPlugin/GUI/AdminMenu/SubMenus/MyStarSystemDesignerMenu.cs:402-446 | the new object has the fresh id, the selected id as parent, and the chosen type. It sits at the parent's current centre (its pending value when it has been edited) when the parent is committed, else at the origin. It is named "New Asteroid" for ASTEROIDS, with the chosen provider, and "New Object" otherwise. A PLANET or MOON gets a planet record |
| StarSystemDesigner.SelectedView | SEWorldGenPlugin/GUI/AdminMenu/SubMenus/MyStarSystemDesignerMenu.cs:209-222 | the pending copy takes precedence over the committed object; a committed id without one shows the committed object as committed; an id in neither shows nothing |
| StarSystemDesigner.NewObjectFollowsEdit | SEWorldGenPlugin/GUI/AdminMenu/SubMenus/MyStarSystemDesignerMenu.cs:425-446 | after a committed object is moved by an edit, a child added under it is centred on its new position |
| StarSystemDesigner.NewObjectListed | SEWorldGenPlugin/GUI/AdminMenu/SubMenus/MyStarSystemDesignerMenu.cs:400-452 | a new object is selected, uncommitted, and listed by the refresh exactly when its parent is committed |
| StarSystemDesigner.DesignerMenu.constructor | SEWorldGenPlugin/GUI/AdminMenu/SubMenus/MyStarSystemDesignerMenu.cs:102-108 | both pending maps and the id→row map are empty, and the selection is `Guid.Empty` |
| StarSystemDesigner.DesignerMenu.Close | SEWorldGenPlugin/GUI/AdminMenu/SubMenus/MyStarSystemDesignerMenu.cs:110-117 | the selection is reset; the pending maps and rows are kept |
| StarSystemDesigner.DesignerMenu.AddObjectToList | SEWorldGenPlugin/GUI/AdminMenu/SubMenus/MyStarSystemDesignerMenu.cs:516-533 | appends the row with 3×depth spaces, the name and " *" when pending; records id→row, which fails exactly when the id is already mapped |
| StarSystemDesigner.DesignerMenu.RefreshSystemList | SEWorldGenPlugin/GUI/AdminMenu/SubMenus/MyStarSystemDesignerMenu.cs:482-508 | the rows become `ListRows` of the system and overlay (none without a system); `m_itemList` maps each listed id to its row |
| StarSystemDesigner.DesignerMenu.AddPendingChildren | SEWorldGenPlugin/GUI/AdminMenu/SubMenus/MyStarSystemDesignerMenu.cs:498-506 | the inner loop appends the rows of the parent's uncommitted pending children, in pending order, and keeps the id→row map exact |
| StarSystemDesigner.DesignerMenu.OnObjectEdited | SEWorldGenPlugin/GUI/AdminMenu/SubMenus/MyStarSystemDesignerMenu.cs:296-332 | renames the object, returns the edited label, records the edit in the overlay, and keeps the overlay consistent |
| StarSystemDesigner.DesignerMenu.OnTypeEntered | SEWorldGenPlugin/GUI/AdminMenu/SubMenus/MyStarSystemDesignerMenu.cs:387-454 | an unknown asteroid provider throws and changes nothing. Otherwise the new object and any default asteroid data go into the overlay, the object is selected, and the list is rebuilt |
| SpawnMenu.ValidateSpawnName | SEWorldGenPlugin/GUI/AdminMenu/MyPluginAdminMenu.SpawnMenu.cs:182-188 | refused exactly when the trimmed name has 3 characters or fewer; an accepted name is the trimmed text, at least 4 characters, with no white space at either end |
| SpawnMenu.ValidateSpawnNameStable | SEWorldGenPlugin/GUI/AdminMenu/MyPluginAdminMenu.SpawnMenu.cs:184 | checking an accepted name again accepts it unchanged |
| SpawnMenu.BlankNameRefused | SEWorldGenPlugin/GUI/AdminMenu/MyPluginAdminMenu.SpawnMenu.cs:184-188 | an all-white-space name is refused whatever its length |
| SpawnMenu.OnSpawnPlanet | SEWorldGenPlugin/GUI/AdminMenu/MyPluginAdminMenu.SpawnMenu.cs:180-225 | a short name is refused before anything is created. Otherwise the planet record has the trimmed name, the selected subtype, the slider's diameter and Generated false. It is centred on the confirmed coordinate, or on the origin with the clipboard given the slider size |
| SpawnMenu.SpawnPlanet | SEWorldGenPlugin/GUI/AdminMenu/MyPluginAdminMenu.SpawnMenu.cs:238-253 | anything but a PLANET is ignored; a PLANET is requested at the position with nothing else changed, and the error appears exactly when the add fails |
| SpawnMenu.SpawnRequestEndToEnd | SEWorldGenPlugin/GUI/AdminMenu/MyPluginAdminMenu.SpawnMenu.cs:180-253 | an accepted PLANET request adds, at the chosen position, a planet named by the trimmed text of at least 4 characters; a refused one creates nothing |

## Left out

- Rendering, widgets and layout are not modelled. This covers the renderer, the zoom buttons, the apply button's enabled state, the sub-menus, `LoadPlanetDefs` and `AddObjectToRenderer`. The text box, slider and definition list become plain parameters.
- The refresh button's reselection in the designer is not modelled. It is not part of the list building.
- The spawn menu's `m_spawnType` and `m_asteroidType` fields are not modelled; they only choose which page is drawn.
- Orbit trigonometry in the planet sub-menu and `CalculateWorldMatrix` is left out. It is floating-point sin/cos with no exact counterpart here.
- Doubles are modelled as exact reals, so rounding is not captured. `(int)` of a double truncates toward zero; an out-of-range cast is not modelled.
- Networking is left out: `AddObjectToSystem` and `RaiseStaticEvent`. The add callback's outcome is a parameter, and `AddRingServer` is modelled as the call the server receives.
- File I/O is modelled as `WorldStorage`, a map keyed by the field's display name.
  - `GetFileName` and the XML format are not modelled.
  - The file utilities are not part of this model. A missing file is taken as a read that fails and registers nothing.
- The following are parameters, because their code is not part of this model:
  - `SetProperty`, `ConvertNumberToRoman`, `GREEK_LETTERS` and `BeltNameFormat` (together, `BeltNaming`);
  - the generator settings' `MinMaxOrbitDistance.Min`;
  - the provider's instance and default data in the designer.
- `MyAsteroidObjectShapeRing` is modelled as a wrapper around the descriptor.
- The star-system tree is seen only through `Contains`, `GetById`, `GetDepth` and the order `Foreach` visits objects in (`StarSystem`). `GetDepth` is taken as -1 for an id it does not hold, which is what the menu's `< 0` test relies on.
- The constructors of `MySystemPlanet` and `MySystemAsteroids` are not part of this model.
  - The fields they default are modelled as: empty subtype, zero diameter, not generated, zero asteroid sizes, no parent name.
  - `SpawnMenu.OnSpawnPlanet` takes the type tag a new planet record gets as a parameter. It takes the record's `ParentId` as `Guid.Empty`.
- C# object identity is modelled with values. An edited object is the same object as the committed one it was selected from and as its pending entry. The model instead writes the edited value into the overlay and shows a committed object through its pending entry.
  - `StarSystemDesigner.RecordEdit` therefore replaces the pending entry on a later edit, where the source leaves the already-shared reference in place.
  - The committed tree object is not renamed or moved in place; it is displayed through the pending copy, and "add object" reads a committed parent's centre through it.
- Whether the "add object" button is enabled is not modelled. The source enables it for every committed selection, then lets the planet and moon sub-menu (`CanAddChild` alone) and an asteroid provider's sub-menu (`CanAddChild` and committed) override that, and those sub-menus are not part of this model.
- `StarSystemDesigner.DesignerMenu.Close` keeps `rows`, where the source also drops the listbox (`m_systemObjectsBox = null`) and `m_adminMenuInst`. Those are widget references, and the next opening rebuilds the list.
- `StarSystemDesigner.DesignerMenu.OnObjectEdited` returns the label instead of writing it into `SelectedItems[0]`. The listbox's own selection is widget state.
- `StarSystemDesigner.DesignerMenu.OnTypeEntered` collapses the asteroid-type dialog into the call: the provider name is a parameter.
- `StarSystemDesigner.DesignerMenu.OnTypeEntered` and `StarSystemDesigner.SelectedView` take a non-null star system; the source throws on a null one.
- Callers must pass objects whose class agrees with their type tag (`WellTyped`). The source casts with `as` and would throw on a null.
- String lengths count Dafny characters, not UTF-16 code units.
- Concurrency and the plugin's session lifecycle are not modelled.
- `AsteroidRingProvider.BeltPropertiesValues` states the values only for indices below `int.MaxValue`. At `int.MaxValue` the number wraps; `AsteroidRingProvider.BeltNumberWrapsAtMaxValue` covers that case.

Behaviour of the code that the model keeps, although a reader might expect otherwise:

- `MyRandom.Next(lo, hi)` excludes `hi`, and the width bounds come from the truncated `(int)D`. Tilts are therefore whole degrees in [-20, 19], and the width is an integer from `(int)D/10` up to, but not including, `(int)D/5` whenever that range is non-empty.
- A ring is made only when the parent's type is PLANET. A MOON or any other non-PLANET parent gets a belt.
- `Dictionary.Add` throws on a name already resident, so `GenerateInstance` then returns nothing.

## Findings

| source | as written | input that shows it | evidently intended | confidence | as-written member | corrected member |
|---|---|---|---|---|---|---|
| SEWorldGenPlugin/Generator/AsteroidObjects/AsteroidRing/MyAsteroidRingProvider.cs:142-146 | after reporting `false` for a null argument, `AddInstance` does not return; it goes on to `AddObjectToSystem` | a non-null field with a null descriptor, and an add that succeeds: the callback gets `false` then `true`, and `AddRingServer` is raised with a null descriptor (a null field instead throws at `systemInstance.ParentName`) | report `false` once and return | high, not executed | AsteroidRingProvider.AddInstanceAsWritten, AsteroidRingProvider.AddInstanceAsWrittenReportsTwice | AsteroidRingProvider.AddInstance |
