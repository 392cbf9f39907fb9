/**
 The game enumerations the appearance logic dispatches on. Their numeric
 values and the static mappings between them (`ToType`, `ToRace`, the set of
 equipment slots with racial models) live in game-data code outside this
 model, so they are carried abstractly by a `GameData` value.
 */
module Enums {

  /** The customization categories the code names, one per byte of an appearance record. */
  datatype CustomizationId =
    | Race | Gender | BodyType | Height | Clan | Face | Hairstyle | HighlightsOnFlag
    | SkinColor | EyeColorR | HairColor | HighlightColor | FacialFeaturesTattoos
    | TattooColor | Eyebrows | EyeColorL | EyeShape | Nose | Jaw | Mouth | LipColor
    | TailEarShape | FacePaint | FacePaintColor

  /** The editor widget kind of a category. Only the two kinds the code tests are named. */
  datatype MenuType = ListSelector | Percentage | OtherMenu(code: nat)

  /** The coarse race. Only Hrothgar is named by the code; every other race carries a code. */
  datatype Race = Hrothgar | OtherRace(code: nat)

  /** The sixteen clans; `Unknown` stands for every value outside them. */
  datatype SubRace =
    | Unknown
    | Midlander | Highlander | Wildwood | Duskwight | Plainsfolk | Dunesfolk
    | SeekerOfTheSun | KeeperOfTheMoon | Seawolf | Hellsguard | Raen | Xaela
    | Helion | Lost | Rava | Veena

  datatype Gender = Unknown | Male | Female | MaleNpc | FemaleNpc

  /** An equipment slot, identified by its numeric value. */
  datatype EquipSlot = Slot(code: nat)

  /**
   The static game data the customization code reads:
   - `ids`: `Enum.GetValues<CustomizationId>()`, the ids sorted by numeric value;
     the numeric value (ordinal) of an id is its position here;
   - `toType`: `CustomizationId.ToType()`;
   - `toRace`: `SubRace.ToRace()`;
   - `eqdpSlots`: `EquipSlotExtensions.EqdpSlots`.
   */
  datatype GameData = GameData(
    ids: seq<CustomizationId>,
    toType: CustomizationId -> MenuType,
    toRace: SubRace -> Race,
    eqdpSlots: seq<EquipSlot>)
  {
    /**
     The enumeration lists every id exactly once, with ordinals below 32 so
     that one `uint` bit can stand for each id; the racial equipment slots are
     listed once each.
     */
    ghost predicate Valid() {
      && |ids| <= 32
      && (forall id: CustomizationId :: id in ids)
      && (forall i, j | 0 <= i < j < |ids| :: ids[i] != ids[j])
      && (forall i, j | 0 <= i < j < |eqdpSlots| :: eqdpSlots[i] != eqdpSlots[j])
    }

    /** `(int)id`. */
    function Ordinal(id: CustomizationId): (k: nat)
      requires Valid()
      ensures k < |ids| && k < 32
      ensures ids[k] == id
    {
      IndexOf(ids, id)
    }
  }

  function IndexOf<T(==)>(s: seq<T>, x: T): (k: nat)
    requires x in s
    ensures k < |s| && s[k] == x
    ensures forall j | 0 <= j < k :: s[j] != x
  {
    if s[0] == x then 0 else 1 + IndexOf(s[1..], x)
  }
}
