# Glamourer appearance catalog and fix-up, in Dafny

This project models the core of Glamourer's appearance editing:

- **The customization value record** (`CustomizationData`). It is an 8-byte record with an explicit layout. IconId and Color share the same four bytes.
- **The per clan-and-gender catalog** (`CustomizationSet`). It holds:
  - the availability bitset and its default;
  - the option count of each category;
  - the lookups by logical index (`Data`) and by stored byte (`DataByValue`);
  - the display-order grouping (`ComputeOrder`);
  - the small accessors.
- **The appearance-record extensions** (`CustomizeExtensions`):
  - the clan-name key;
  - gender and race changes;
  - the fix-up pass that brings every category byte back into the catalog and applies gear restrictions.

Modules:

| file | module | content |
|---|---|---|
| basics.dfy | `Basics` | byte and ushort widths, unchecked casts, `Option`, `Result` (exceptions) |
| enums.dfy | `Enums` | the game enumerations; `GameData` carries enum ordinals and static mappings |
| customization_data.dfy | `CustomizationValues` | the 8-byte record, its field reads and its constructor |
| customization_set.dfy | `CustomizationSets` | the catalog |
| customize_extensions.dfy | `CustomizeExtensions` | clan names, gender and race changes, fix-up |

Conventions:

- **Enum values are abstract.** `GameData.ids` is the enumeration in numeric order, and the ordinal of an id is its position there. `GameData.Valid()` requires every id exactly once, with at most 32 ordinals, so one `uint` bit fits each id. `ToType`, `ToRace` and `EqdpSlots` are fields of `GameData`.
- **Exceptions are `Result.Failure`.** `ArgumentOutOfRange` stands for an exhaustive switch's default arm, `IndexOutOfRange` for the explicit guard in `Data`, and `ElementMissing` for a list indexer out of range.
- **One record type for options.** The catalog's option entries (the source's `Customization`, whose definition is not part of this model) are modelled by the same 8-byte `CustomizationData` record; `new Customization(0, 0)` is the all-zero record `Zero`.
- **Casts are explicit.** The unchecked casts `(byte)idx` and `(ushort)idx` are written as reductions modulo 256 and 65536.
- **Quirks are modelled as written.**
  - `Data`'s guard is `idx > Count(id)`, so `idx == Count(id)` gets through.
  - The split palettes switch halves at the literal 96, whatever the dark half's length.
  - For list categories, `DataByValue` does not check availability. As a result, fix-up keeps a byte of an unavailable list category whenever the byte matches a list entry. Fix-up resets an unresolved byte to 0 only when the category has no options. So an unavailable category is not always reset to 0, and the model proves the case where it is not (`UnavailableListByteKept`).

## Model

| member | source | states |
|---|---|---|
| CustomizationValues.New | Glamourer.GameData/Customization/CustomizationData.cs:25-32 | every field reads back what the constructor wrote: Id, Value, CustomizeId, and `data` through both IconId and Color, although Color overwrites IconId |
| CustomizationValues.FieldsDisjoint | Glamourer.GameData/Customization/CustomizationData.cs:10-23 | the explicit offsets make CustomizeId (2..3) disjoint from IconId/Color (4..7) and from Id and Value (0, 1): writing one leaves the others unchanged |
| CustomizationValues.ColorIsIconId | Glamourer.GameData/Customization/CustomizationData.cs:19-23 | IconId and Color, both at offset 4, agree on every record |
| CustomizationSets.Create | Glamourer.GameData/Customization/CustomizationSet.cs:13-20 | a female Hrothgar catalog starts with no category available; every other catalog starts with exactly the ten default categories |
| CustomizationSets.DefaultAvailableBits | Glamourer.GameData/Customization/CustomizationSet.cs:201-212 | the default mask has an id's bit exactly when the id is one of the ten listed categories (Height is listed twice) |
| CustomizationSets.SetAvailable | Glamourer.GameData/Customization/CustomizationSet.cs:30-34 | afterwards the id is available, every other id keeps its availability, and clan, gender and tables are unchanged |
| CustomizationSets.SetAvailableIdempotent | Glamourer.GameData/Customization/CustomizationSet.cs:30-31 | making an id available twice is the same as making it available once |
| CustomizationSets.Count | Glamourer.GameData/Customization/CustomizationSet.cs:168-199 | 0 for an unavailable category, 101 for an available percentage; for the rest, the list length (dark plus light for split palettes), 8 for facial features, 2 for the highlights flag, the stored count for eyebrows, eye shape, nose, jaw and mouth; throws exactly for available categories outside the switch |
| CustomizationSets.FirstMatch | Glamourer.GameData/Customization/CustomizationSet.cs:94-102 | returns the position and entry of the first entry carrying the byte, or -1 with no entry exactly when no entry carries it |
| CustomizationSets.DataByValue | Glamourer.GameData/Customization/CustomizationSet.cs:79-122 | synthesised kinds accept exactly the bytes below the count and build an option with that byte as value and CustomizeId; list kinds return the first entry with the byte (dark half before light), ignoring availability; facial features return the first match in face 1's table and throw when there is no face; other kinds throw |
| CustomizationSets.Data | Glamourer.GameData/Customization/CustomizationSet.cs:124-153 | throws when Count throws or when idx exceeds the count; synthesised kinds yield an option with the index cast to byte and ushort; lists are indexed (split palettes dark below 96, light from 96); facial features index face 1's table; other kinds yield the all-zero record |
| CustomizationSets.DataByValueInvertsData | Glamourer.GameData/Customization/CustomizationSet.cs:79-153 | round trip: for an index below the count (and below 256 for the synthesised kinds, whose byte is the index cast to byte), with distinct bytes in the tables and a dark half of 96, looking up the byte of the option at that index returns that index and that option |
| CustomizationSets.SplitNeedsDarkOf96 | Glamourer.GameData/Customization/CustomizationSet.cs:149-150 | for an available split palette with distinct bytes and a non-empty light half, a dark half of any length other than 96 makes some index below the count get from `Data` a different option than the dark-then-light list has there |
| CustomizationSets.DataAcceptsIndexEqualToCount | Glamourer.GameData/Customization/CustomizationSet.cs:126-127 | for an available percentage category, index 101 (equal to the count) passes the guard and yields byte 101, which the byte lookup rejects |
| CustomizationSets.SynthesizedIndexWrapsAt256 | Glamourer.GameData/Customization/CustomizationSet.cs:131-132 | in a synthesised category with more than 256 options, index 256 yields byte 0 through the byte cast, and the byte lookup sends byte 0 back to index 0, so the round trip holds only below 256 |
| CustomizationSets.OptionLabel | Glamourer.GameData/Customization/CustomizationSet.cs:73-74 | the name at the id's ordinal; throws when the name table is too short |
| CustomizationSets.FacialFeature | Glamourer.GameData/Customization/CustomizationSet.cs:76-77 | faces are numbered from 1: feature `idx` of face `faceIdx` is entry `idx` of table `faceIdx - 1`; throws otherwise |
| CustomizationSets.FacialFeaturesReadFaceOne | Glamourer.GameData/Customization/CustomizationSet.cs:141 | when facial features are not a synthesised kind, for every index the guard admits, the category lookup of facial features answers exactly what `FacialFeature(1, idx)` answers, exceptions included |
| CustomizationSets.Type | Glamourer.GameData/Customization/CustomizationSet.cs:155-156 | the menu type at the id's ordinal; throws when the type table is too short |
| CustomizationSets.RotateIsPermutation | Glamourer.GameData/Customization/CustomizationSet.cs:160-163 | reassigning the TattooColor, EyeColorL and EyeColorR slots permutes the enumeration: same multiset, every id present, none twice |
| CustomizationSets.WhereAvailable | Glamourer.GameData/Customization/CustomizationSet.cs:165 | keeps exactly the available ids of its input |
| CustomizationSets.OfType | Glamourer.GameData/Customization/CustomizationSet.cs:165 | keeps exactly the ids whose catalog type is the given one |
| CustomizationSets.GroupByType | Glamourer.GameData/Customization/CustomizationSet.cs:165 | grouping by type succeeds exactly when every id has a type-table entry |
| CustomizationSets.GroupByTypeGroups | Glamourer.GameData/Customization/CustomizationSet.cs:165 | grouping appends to each type's group exactly the ids of that type, in input order, and creates a key exactly for the types that occur |
| CustomizationSets.ComputeOrder | Glamourer.GameData/Customization/CustomizationSet.cs:158-166 | throws exactly when an available id that survives the rotation and skip has no type entry |
| CustomizationSets.ComputeOrderGroups | Glamourer.GameData/Customization/CustomizationSet.cs:158-166 | every group is non-empty and lists exactly its type's ids in rotated order; an id is listed, under its own type, exactly when it survives the skip of two and is available |
| CustomizeExtensions.ClanName | Glamourer/CustomizeExtensions.cs:11-53 | succeeds exactly for a known clan and known gender; the key names the requested clan; it is the masculine key exactly for male (including male NPC) and for Helion and Lost; everything else throws |
| CustomizeExtensions.ClanNameFoldsNpcGenders | Glamourer/CustomizeExtensions.cs:13-16 | NPC genders get the same key as their base gender |
| CustomizeExtensions.ClanNameKeysDistinct | Glamourer/CustomizeExtensions.cs:17-52 | two pairs share a key only when they have the same clan, and the same base gender unless the clan is Helion or Lost |
| CustomizeExtensions.RepairByte | Glamourer/CustomizeExtensions.cs:95-107 | skipped categories keep their byte; a byte the catalog resolves is kept; otherwise it becomes 0 when the count is 0, else option 0's byte; succeeds exactly when the lookups it makes do; the result is always consistent with the catalog |
| CustomizeExtensions.RepairByteIdempotent | Glamourer/CustomizeExtensions.cs:104-107 | repairing a repaired byte changes nothing |
| CustomizeExtensions.FixUpBytes | Glamourer/CustomizeExtensions.cs:93-110 | the category loop succeeds exactly when every category's repair does; then each listed category holds its repaired byte and every other byte is unchanged |
| CustomizeExtensions.FixUpBytesConsistent | Glamourer/CustomizeExtensions.cs:93-110 | after the category loop, every listed category is consistent with the catalog |
| CustomizeExtensions.FixUpBytesIdempotent | Glamourer/CustomizeExtensions.cs:93-110 | a second category loop against the same catalog changes no byte |
| CustomizeExtensions.UnavailableListByteKept | Glamourer/CustomizeExtensions.cs:104-107 | a byte matching an entry of an unavailable list category survives fix-up, although the category's count is 0 |
| CustomizeExtensions.FixUpEquip | Glamourer/CustomizeExtensions.cs:115-122 | the equipment loop keeps the slot set, every dye, and every unlisted slot |
| CustomizeExtensions.FixUpEquipSlots | Glamourer/CustomizeExtensions.cs:115-122 | with each slot listed once, every listed slot ends with the resolver's replacement (set and variant, with the old dye) when one is reported, and unchanged otherwise |
| CustomizeExtensions.FixUpAttributes | Glamourer/CustomizeExtensions.cs:90-123 | throws exactly when some category's repair throws; otherwise race, clan and gender are kept, every category byte is its repair against the catalog of the record's clan and gender (a resolved byte and the seven skipped categories are kept, every byte ends consistent), and present equipment has every racial slot replaced by the resolver's verdict and every other slot and every dye kept |
| CustomizeExtensions.ChangeGender | Glamourer/CustomizeExtensions.cs:59-68 | the same gender gives false and no change; otherwise true and the record with the new gender fixed up as above against the new catalog, throwing exactly when a repair throws |
| CustomizeExtensions.ChangeRace | Glamourer/CustomizeExtensions.cs:71-87 | the same clan gives false and no change; otherwise true and the record with the new clan, its race and Male forced for a Hrothgar clan, fixed up as above against the new catalog, throwing exactly when a repair throws |

## Left out

- Name display: `ClanName` returns the name key. The localised lookup `GetName` belongs to game data that is not part of this model.
- Catalog population: the tables are parameters (`Tables`), as are the catalog provider `GetList` and the gear resolver `ResolveRestricted` (`Host`). Building the catalog from game files and the stored `Order` property are not part of this model.
- `CustomizationSet.ToHumanReadable`: string formatting only.
- Glamourer/Gui/Interface.Actors.cs: UI code that calls into the core; not part of this model.
- FixUpAttributes, ChangeGender, ChangeRace: when a lookup throws partway through the loop, the source has already changed the earlier categories, and the two changes have already written the new gender, or race, clan and gender, before the fix-up. The model returns the failure and does not keep those partial writes.
- FixUpAttributes: the implicit `CharacterEquip` test `if (!equip)` is modelled as an optional equipment map.
- Data: throws from `IReadOnlyList` indexers are all reported as `ElementMissing`, without telling the exception types apart.
- Count: the five scalar counts (eyebrows, eye shapes, nose, jaw, mouth) are unbounded integers, so a negative count is not ruled out.
- Enum numeric values and the ToType, ToRace and EqdpSlots mappings are abstract (`GameData`); only `Valid()` constrains them.
- The `Race` property of a catalog (the clan's race) is written inline as `toRace(clan)` where it is used.
- CustomizationId has exactly the 24 categories the code names. `Enum.GetValues` in the fix-up loop and in `ComputeOrder` walks these 24 and no others.
- Customize: the record's indexer aliases the bytes of Race, Clan and Gender with the typed fields. The model keeps the typed fields authoritative; the bytes of those three categories are never rewritten, so after a change they may differ from the typed fields.
- The racial equipment slot list is taken to list each slot once (`GameData.Valid`).
- Race and MenuType name only the values the code tests (Hrothgar, Percentage, ListSelector); every other value is a numbered catch-all.
