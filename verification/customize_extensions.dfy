/**
 Race and gender changes of an appearance record, the fix-up pass that
 revalidates every category byte against the new (clan, gender) catalog and
 asks the gear-restriction resolver about every racial equipment slot, and
 the clan-name key table.
 */
module CustomizeExtensions {
  import opened Basics
  import opened Enums
  import opened CustomizationSets

  // ---------------------------------------------------------------------------
  // Clan names

  /** The name-table keys the clan-name lookup returns (`CustomName`). */
  datatype CustomName =
    | MidlanderM | HighlanderM | WildwoodM | DuskwightM | PlainsfolkM | DunesfolkM
    | SeekerOfTheSunM | KeeperOfTheMoonM | SeawolfM | HellsguardM | RaenM | XaelaM
    | HelionM | LostM | RavaM | VeenaM
    | MidlanderF | HighlanderF | WildwoodF | DuskwightF | PlainsfolkF | DunesfolkF
    | SeekerOfTheSunF | KeeperOfTheMoonF | SeawolfF | HellsguardF | RaenF | XaelaF
    | RavaF | VeenaF

  /** The clan a key names. */
  function KeyClan(n: CustomName): (clan: SubRace) {
    match n
    case MidlanderM | MidlanderF => Midlander
    case HighlanderM | HighlanderF => Highlander
    case WildwoodM | WildwoodF => Wildwood
    case DuskwightM | DuskwightF => Duskwight
    case PlainsfolkM | PlainsfolkF => Plainsfolk
    case DunesfolkM | DunesfolkF => Dunesfolk
    case SeekerOfTheSunM | SeekerOfTheSunF => SeekerOfTheSun
    case KeeperOfTheMoonM | KeeperOfTheMoonF => KeeperOfTheMoon
    case SeawolfM | SeawolfF => Seawolf
    case HellsguardM | HellsguardF => Hellsguard
    case RaenM | RaenF => Raen
    case XaelaM | XaelaF => Xaela
    case HelionM => Helion
    case LostM => Lost
    case RavaM | RavaF => Rava
    case VeenaM | VeenaF => Veena
  }

  /** Whether a key is the masculine form. */
  function IsMaleKey(n: CustomName): (male: bool) {
    match n
    case MidlanderM | HighlanderM | WildwoodM | DuskwightM | PlainsfolkM | DunesfolkM
      | SeekerOfTheSunM | KeeperOfTheMoonM | SeawolfM | HellsguardM | RaenM | XaelaM
      | HelionM | LostM | RavaM | VeenaM => true
    case _ => false
  }

  /** NPC genders count as the corresponding base gender. */
  function BaseGender(gender: Gender): (base: Gender) {
    match gender
    case FemaleNpc => Gender.Female
    case MaleNpc => Gender.Male
    case _ => gender
  }

  /**
   `ClanName`: the name key of a clan for a gender. Every one of the sixteen
   clans has a key for Male and for Female (NPC genders folded onto them); the
   key always names the requested clan, and it is the masculine key exactly
   for males and for female Helions and Lost. Any other pair throws.
   */
  function ClanName(race: SubRace, gender: Gender): (r: Result<CustomName>)
    ensures r.Success? <==> race != SubRace.Unknown && gender != Gender.Unknown
    ensures r.Failure? ==> r.error == ArgumentOutOfRange
    ensures r.Success? ==> KeyClan(r.value) == race
    ensures r.Success? ==>
      (IsMaleKey(r.value) <==> BaseGender(gender) == Gender.Male || race == Helion || race == Lost)
  {
    var gender := BaseGender(gender);
    match (gender, race)
    case (Male, Midlander) => Success(MidlanderM)
    case (Male, Highlander) => Success(HighlanderM)
    case (Male, Wildwood) => Success(WildwoodM)
    case (Male, Duskwight) => Success(DuskwightM)
    case (Male, Plainsfolk) => Success(PlainsfolkM)
    case (Male, Dunesfolk) => Success(DunesfolkM)
    case (Male, SeekerOfTheSun) => Success(SeekerOfTheSunM)
    case (Male, KeeperOfTheMoon) => Success(KeeperOfTheMoonM)
    case (Male, Seawolf) => Success(SeawolfM)
    case (Male, Hellsguard) => Success(HellsguardM)
    case (Male, Raen) => Success(RaenM)
    case (Male, Xaela) => Success(XaelaM)
    case (Male, Helion) => Success(HelionM)
    case (Male, Lost) => Success(LostM)
    case (Male, Rava) => Success(RavaM)
    case (Male, Veena) => Success(VeenaM)
    case (Female, Midlander) => Success(MidlanderF)
    case (Female, Highlander) => Success(HighlanderF)
    case (Female, Wildwood) => Success(WildwoodF)
    case (Female, Duskwight) => Success(DuskwightF)
    case (Female, Plainsfolk) => Success(PlainsfolkF)
    case (Female, Dunesfolk) => Success(DunesfolkF)
    case (Female, SeekerOfTheSun) => Success(SeekerOfTheSunF)
    case (Female, KeeperOfTheMoon) => Success(KeeperOfTheMoonF)
    case (Female, Seawolf) => Success(SeawolfF)
    case (Female, Hellsguard) => Success(HellsguardF)
    case (Female, Raen) => Success(RaenF)
    case (Female, Xaela) => Success(XaelaF)
    case (Female, Helion) => Success(HelionM)
    case (Female, Lost) => Success(LostM)
    case (Female, Rava) => Success(RavaF)
    case (Female, Veena) => Success(VeenaF)
    case _ => Failure(ArgumentOutOfRange)
  }

  /** NPC genders get the same key as the base gender. */
  lemma ClanNameFoldsNpcGenders(race: SubRace)
    ensures ClanName(race, FemaleNpc) == ClanName(race, Gender.Female)
    ensures ClanName(race, MaleNpc) == ClanName(race, Gender.Male)
  {
  }

  /**
   Distinct (clan, base gender) pairs get distinct keys, except that female
   Helion and Lost share the male key.
   */
  lemma ClanNameKeysDistinct(r1: SubRace, g1: Gender, r2: SubRace, g2: Gender)
    requires ClanName(r1, g1).Success? && ClanName(r2, g2).Success?
    requires ClanName(r1, g1) == ClanName(r2, g2)
    ensures r1 == r2
    ensures BaseGender(g1) == BaseGender(g2) || r1 == Helion || r1 == Lost
  {
  }

  // ---------------------------------------------------------------------------
  // Appearance and equipment records

  /**
   An appearance record: the typed race, clan and gender, and the byte of
   every category (the record's indexer). The typed fields are authoritative
   for those three categories.
   */
  datatype Customize = Customize(race: Race, clan: SubRace, gender: Gender, bytes: map<CustomizationId, byte>)

  /** The record has a byte for every category, like the fixed-size struct it models. */
  ghost predicate Complete(c: Customize) {
    forall id: CustomizationId :: id in c.bytes
  }

  /** One equipped piece: model set, variant and dye. */
  datatype Armor = Armor(modelSet: u16, variant: byte, stain: byte)

  type Equip = map<EquipSlot, Armor>

  /** The gear-restriction resolver's answer: whether to replace, and with what. */
  datatype Restriction = Restriction(replaced: bool, modelSet: u16, variant: byte)

  /**
   The collaborators fix-up calls: the game data, the catalog provider
   (`GetList`) and the gear-restriction resolver (`ResolveRestricted`).
   */
  datatype Host = Host(
    game: GameData,
    getList: (SubRace, Gender) -> CustomizationSet,
    resolveRestricted: (u16, byte, EquipSlot, Race, Gender) -> Restriction)

  /** An appearance record with its optional equipment. */
  datatype Character = Character(customize: Customize, equip: Option<Equip>)

  /** The equipment has an entry for every racial slot. */
  ghost predicate EquipCovers(g: GameData, equip: Option<Equip>) {
    equip.Some? ==> forall slot | slot in g.eqdpSlots :: slot in equip.value
  }

  // ---------------------------------------------------------------------------
  // Fix-up, category pass

  /** The categories fix-up never touches. */
  const Untouched: set<CustomizationId> := {
    CustomizationId.Race, CustomizationId.Clan, BodyType, CustomizationId.Gender,
    FacialFeaturesTattoos, HighlightsOnFlag, Face}

  /** The byte lookup resolves `b` to an option. */
  ghost predicate Resolves(g: GameData, s: CustomizationSet, id: CustomizationId, b: byte)
    requires g.Valid()
  {
    DataByValue(g, s, id, b).Success? && DataByValue(g, s, id, b).value.index >= 0
  }

  /**
   The state fix-up leaves a category in: untouched, or a byte the catalog
   resolves, or 0 for a category with no options.
   */
  ghost predicate Consistent(g: GameData, s: CustomizationSet, id: CustomizationId, b: byte)
    requires g.Valid()
  {
    id in Untouched || Resolves(g, s, id, b) || (b == 0 && Count(g, s, id) == Success(0))
  }

  /** Whether the byte lookup throws depends on the category, never on the byte. */
  lemma DataByValueFailsPerCategory(g: GameData, s: CustomizationSet, id: CustomizationId, a: byte, b: byte)
    requires g.Valid()
    ensures DataByValue(g, s, id, a).Success? <==> DataByValue(g, s, id, b).Success?
  {
  }

  /**
   Option 0 of a category with options resolves under the byte lookup, as
   long as the lookup covers the category at all.
   */
  lemma DefaultOptionResolves(g: GameData, s: CustomizationSet, id: CustomizationId, b: byte)
    requires g.Valid()
    requires Count(g, s, id).Success? && Count(g, s, id).value != 0
    requires Data(g, s, id, 0).Success?
    requires DataByValue(g, s, id, b).Success?
    ensures Resolves(g, s, id, Data(g, s, id, 0).value.Value())
  {
    var d := Data(g, s, id, 0).value;
    DataByValueFailsPerCategory(g, s, id, b, d.Value());
    if !IsSynthesized(g, id) {
      if id in ListIds {
        if IsSplit(id) {
          assert Options(s, id) == Dark(s, id) + Light(s, id);
        }
        assert Options(s, id)[0] == d;
      } else {
        assert s.tables.featuresTattoos[0][0] == d;
      }
    }
  }

  /**
   The repair of one category byte: categories in `Untouched` keep their
   byte; a byte the catalog resolves is kept; otherwise it becomes 0 when the
   category has no options, else the byte of option 0. The result is always
   consistent with the catalog. Exceptions of `Count`, `DataByValue` and
   `Data` propagate.
   */
  function RepairByte(g: GameData, s: CustomizationSet, id: CustomizationId, b: byte): (r: Result<byte>)
    requires g.Valid()
    ensures id in Untouched ==> r == Success(b)
    ensures id !in Untouched && Count(g, s, id).Success? && Resolves(g, s, id, b) ==> r == Success(b)
    ensures id !in Untouched && r.Success? && !Resolves(g, s, id, b) ==>
      || (Count(g, s, id) == Success(0) && r.value == 0)
      || (&& Count(g, s, id).Success? && Count(g, s, id).value != 0
          && Data(g, s, id, 0).Success? && r.value == Data(g, s, id, 0).value.Value())
    ensures id !in Untouched ==>
      (r.Success? <==>
        && Count(g, s, id).Success?
        && DataByValue(g, s, id, b).Success?
        && (!Resolves(g, s, id, b) && Count(g, s, id).value != 0 ==> Data(g, s, id, 0).Success?))
    ensures r.Success? ==> Consistent(g, s, id, r.value)
  {
    if id in Untouched then Success(b)
    else
      var count :- Count(g, s, id);
      var found :- DataByValue(g, s, id, b);
      if found.index >= 0 then Success(b)
      else if count == 0 then Success(0)
      else
        var option :- Data(g, s, id, 0);
        DefaultOptionResolves(g, s, id, b);
        Success(option.Value())
  }

  /** Repairing a repaired byte changes nothing. */
  lemma RepairByteIdempotent(g: GameData, s: CustomizationSet, id: CustomizationId, b: byte)
    requires g.Valid() && RepairByte(g, s, id, b).Success?
    ensures RepairByte(g, s, id, RepairByte(g, s, id, b).value) == RepairByte(g, s, id, b)
  {
    var b1 := RepairByte(g, s, id, b).value;
    if id !in Untouched {
      DataByValueFailsPerCategory(g, s, id, b, b1);
    }
  }

  ghost predicate NoDuplicates<T>(xs: seq<T>) {
    forall i, j | 0 <= i < j < |xs| :: xs[i] != xs[j]
  }

  /**
   The category pass over `ids` in order. It succeeds exactly when every
   category's repair does, and then every listed category holds its repaired
   byte and every other byte is unchanged.
   */
  function FixUpBytes(g: GameData, s: CustomizationSet, ids: seq<CustomizationId>, bytes: map<CustomizationId, byte>)
    : (r: Result<map<CustomizationId, byte>>)
    requires g.Valid() && NoDuplicates(ids)
    requires forall id | id in ids :: id in bytes
    ensures r.Success? <==> forall id | id in ids :: RepairByte(g, s, id, bytes[id]).Success?
    ensures r.Success? ==> r.value.Keys == bytes.Keys
    ensures r.Success? ==> forall id | id in bytes && id !in ids :: r.value[id] == bytes[id]
    ensures r.Success? ==> forall id | id in ids :: RepairByte(g, s, id, bytes[id]) == Success(r.value[id])
  {
    if |ids| == 0 then Success(bytes)
    else
      var first := ids[0];
      var b :- RepairByte(g, s, first, bytes[first]);
      assert first !in ids[1..] by {
        forall k | 0 <= k < |ids[1..]|
          ensures ids[1..][k] != first
        {
          assert ids[1..][k] == ids[k + 1];
        }
      }
      assert NoDuplicates(ids[1..]) by {
        forall i, j | 0 <= i < j < |ids[1..]|
          ensures ids[1..][i] != ids[1..][j]
        {
          assert ids[1..][i] == ids[i + 1] && ids[1..][j] == ids[j + 1];
        }
      }
      assert ids == [first] + ids[1..];
      FixUpBytes(g, s, ids[1..], bytes[first := b])
  }

  /** After the category pass every category is consistent with the catalog. */
  lemma FixUpBytesConsistent(g: GameData, s: CustomizationSet, ids: seq<CustomizationId>, bytes: map<CustomizationId, byte>)
    requires g.Valid() && NoDuplicates(ids)
    requires forall id | id in ids :: id in bytes
    requires FixUpBytes(g, s, ids, bytes).Success?
    ensures forall id | id in ids :: Consistent(g, s, id, FixUpBytes(g, s, ids, bytes).value[id])
  {
    var r := FixUpBytes(g, s, ids, bytes).value;
    forall id | id in ids
      ensures Consistent(g, s, id, r[id])
    {
      assert RepairByte(g, s, id, bytes[id]) == Success(r[id]);
    }
  }

  /** Running the category pass a second time against the same catalog changes no byte. */
  lemma FixUpBytesIdempotent(g: GameData, s: CustomizationSet, ids: seq<CustomizationId>, bytes: map<CustomizationId, byte>)
    requires g.Valid() && NoDuplicates(ids)
    requires forall id | id in ids :: id in bytes
    requires FixUpBytes(g, s, ids, bytes).Success?
    ensures FixUpBytes(g, s, ids, FixUpBytes(g, s, ids, bytes).value) == FixUpBytes(g, s, ids, bytes)
  {
    var once := FixUpBytes(g, s, ids, bytes).value;
    forall id | id in ids
      ensures RepairByte(g, s, id, once[id]) == Success(once[id])
    {
      assert RepairByte(g, s, id, bytes[id]) == Success(once[id]);
      RepairByteIdempotent(g, s, id, bytes[id]);
    }
    var twice := FixUpBytes(g, s, ids, once).value;
    assert twice.Keys == once.Keys;
    forall id | id in twice
      ensures twice[id] == once[id]
    {
      if id in ids {
        assert RepairByte(g, s, id, once[id]) == Success(twice[id]);
      }
    }
    assert twice == once;
  }

  /**
   Fix-up does not reset every unavailable category to 0: the byte lookup of
   a list category ignores availability, so a byte matching a list entry
   survives although the category has no options.
   */
  lemma UnavailableListByteKept(g: GameData, s: CustomizationSet, id: CustomizationId, k: nat)
    requires g.Valid() && id in ListIds && id !in Untouched && !IsSynthesized(g, id)
    requires !IsAvailable(g, s, id)
    requires k < |Options(s, id)|
    ensures Count(g, s, id) == Success(0)
    ensures RepairByte(g, s, id, Options(s, id)[k].Value()) == Success(Options(s, id)[k].Value())
  {
    assert Resolves(g, s, id, Options(s, id)[k].Value());
  }

  // ---------------------------------------------------------------------------
  // Fix-up, equipment pass

  /**
   What a slot holds once the resolver has answered for it: the replacement
   set and variant with the old dye when it reports a replacement, else the
   old piece.
   */
  function Verdict(
    resolve: (u16, byte, EquipSlot, Race, Gender) -> Restriction,
    slot: EquipSlot, item: Armor, race: Race, gender: Gender): (a: Armor)
    ensures a.stain == item.stain
    ensures !resolve(item.modelSet, item.variant, slot, race, gender).replaced ==> a == item
  {
    var answer := resolve(item.modelSet, item.variant, slot, race, gender);
    if answer.replaced then Armor(answer.modelSet, answer.variant, item.stain) else item
  }

  /**
   The equipment pass over `slots` in order: a slot is rewritten only when
   the resolver reports a replacement, and then takes the resolver's set and
   variant while keeping its dye. No dye changes and no other slot changes.
   */
  function FixUpEquip(
    resolve: (u16, byte, EquipSlot, Race, Gender) -> Restriction,
    slots: seq<EquipSlot>, equip: Equip, race: Race, gender: Gender): (r: Equip)
    requires forall slot | slot in slots :: slot in equip
    ensures r.Keys == equip.Keys
    ensures forall slot | slot in equip :: r[slot].stain == equip[slot].stain
    ensures forall slot | slot in equip && slot !in slots :: r[slot] == equip[slot]
  {
    if |slots| == 0 then equip
    else
      var slot := slots[0];
      var item := equip[slot];
      var answer := resolve(item.modelSet, item.variant, slot, race, gender);
      var next := if answer.replaced then equip[slot := Armor(answer.modelSet, answer.variant, item.stain)] else equip;
      FixUpEquip(resolve, slots[1..], next, race, gender)
  }

  /** With each slot listed once, every listed slot holds exactly the resolver's verdict on it. */
  lemma {:induction false} FixUpEquipSlots(
    resolve: (u16, byte, EquipSlot, Race, Gender) -> Restriction,
    slots: seq<EquipSlot>, equip: Equip, race: Race, gender: Gender)
    requires forall slot | slot in slots :: slot in equip
    requires NoDuplicates(slots)
    ensures forall slot | slot in slots ::
      FixUpEquip(resolve, slots, equip, race, gender)[slot] == Verdict(resolve, slot, equip[slot], race, gender)
  {
    if |slots| > 0 {
      var slot := slots[0];
      var item := equip[slot];
      var answer := resolve(item.modelSet, item.variant, slot, race, gender);
      var next := if answer.replaced then equip[slot := Armor(answer.modelSet, answer.variant, item.stain)] else equip;
      assert NoDuplicates(slots[1..]) by {
        forall i, j | 0 <= i < j < |slots[1..]|
          ensures slots[1..][i] != slots[1..][j]
        {
          assert slots[1..][i] == slots[i + 1] && slots[1..][j] == slots[j + 1];
        }
      }
      assert slot !in slots[1..] by {
        forall k | 0 <= k < |slots[1..]|
          ensures slots[1..][k] != slot
        {
          assert slots[1..][k] == slots[k + 1];
        }
      }
      FixUpEquipSlots(resolve, slots[1..], next, race, gender);
      forall other | other in slots[1..]
        ensures next[other] == equip[other]
      {
      }
    }
  }

  // ---------------------------------------------------------------------------
  // Fix-up and the two changes

  /**
   The equipment a fix-up leaves: absent when it was absent; otherwise the
   same slots, every racial slot holding the resolver's verdict for the
   record's race and gender, every other slot unchanged.
   */
  ghost predicate EquipFixed(h: Host, race: Race, gender: Gender, before: Option<Equip>, after: Option<Equip>)
    requires EquipCovers(h.game, before)
  {
    match before
    case None => after == None
    case Some(e) =>
      && after.Some?
      && after.value.Keys == e.Keys
      && (forall slot | slot in e && slot !in h.game.eqdpSlots :: after.value[slot] == e[slot])
      && (forall slot | slot in h.game.eqdpSlots ::
            after.value[slot] == Verdict(h.resolveRestricted, slot, e[slot], race, gender))
  }

  /**
   `after` is `c` fixed up against the catalog of its clan and gender: race,
   clan and gender kept; every category byte replaced by its repair (so a
   byte the catalog resolves is kept, the untouched categories are kept, and
   every byte ends consistent); the equipment run through the resolver.
   */
  ghost predicate FixedUp(h: Host, c: Customize, equip: Option<Equip>, after: Character)
    requires h.game.Valid() && Complete(c) && EquipCovers(h.game, equip)
  {
    var catalog := h.getList(c.clan, c.gender);
    && after.customize.race == c.race
    && after.customize.clan == c.clan
    && after.customize.gender == c.gender
    && Complete(after.customize)
    && (forall id :: RepairByte(h.game, catalog, id, c.bytes[id]) == Success(after.customize.bytes[id]))
    && (forall id | id in Untouched :: after.customize.bytes[id] == c.bytes[id])
    && (forall id :: Consistent(h.game, catalog, id, after.customize.bytes[id]))
    && EquipFixed(h, c.race, c.gender, equip, after.equip)
  }

  /**
   `FixUpAttributes`: the category pass against the catalog of the record's
   clan and gender, then, when equipment is present, the equipment pass with
   the record's race and gender. It throws exactly when some category's
   repair throws.
   */
  function FixUpAttributes(h: Host, c: Customize, equip: Option<Equip>): (r: Result<Character>)
    requires h.game.Valid() && Complete(c) && EquipCovers(h.game, equip)
    ensures r.Success? <==> forall id :: RepairByte(h.game, h.getList(c.clan, c.gender), id, c.bytes[id]).Success?
    ensures r.Success? ==> FixedUp(h, c, equip, r.value)
  {
    var g := h.game;
    var catalog := h.getList(c.clan, c.gender);
    assert NoDuplicates(g.ids);
    var bytes :- FixUpBytes(g, catalog, g.ids, c.bytes);
    FixUpBytesConsistent(g, catalog, g.ids, c.bytes);
    var fixed := c.(bytes := bytes);
    if equip.None? then Success(Character(fixed, None))
    else
      FixUpEquipSlots(h.resolveRestricted, g.eqdpSlots, equip.value, fixed.race, fixed.gender);
      Success(Character(fixed, Some(FixUpEquip(h.resolveRestricted, g.eqdpSlots, equip.value, fixed.race, fixed.gender))))
  }

  /**
   `ChangeGender`: reports false and changes nothing when the gender is
   already the requested one; otherwise it is the record with the new gender,
   fixed up against the new catalog, and reports true.
   */
  function ChangeGender(h: Host, c: Customize, gender: Gender, equip: Option<Equip>): (r: Result<(bool, Character)>)
    requires h.game.Valid() && Complete(c) && EquipCovers(h.game, equip)
    ensures c.gender == gender ==> r == Success((false, Character(c, equip)))
    ensures c.gender != gender ==>
      && (r.Success? <==> forall id :: RepairByte(h.game, h.getList(c.clan, gender), id, c.bytes[id]).Success?)
      && (r.Success? ==>
            && r.value.0
            && r.value.1.customize.gender == gender
            && r.value.1.customize.race == c.race
            && r.value.1.customize.clan == c.clan
            && FixedUp(h, Customize(c.race, c.clan, gender, c.bytes), equip, r.value.1))
  {
    if c.gender == gender then Success((false, Character(c, equip)))
    else
      var fixed :- FixUpAttributes(h, c.(gender := gender), equip);
      Success((true, fixed))
  }

  /**
   `ChangeRace`: reports false and changes nothing when the clan is already
   the requested one; otherwise it is the record with the new clan and its
   race (and Male for a Hrothgar clan), fixed up against the new catalog, and
   reports true.
   */
  function ChangeRace(h: Host, c: Customize, clan: SubRace, equip: Option<Equip>): (r: Result<(bool, Character)>)
    requires h.game.Valid() && Complete(c) && EquipCovers(h.game, equip)
    ensures c.clan == clan ==> r == Success((false, Character(c, equip)))
    ensures c.clan != clan ==>
      var race := h.game.toRace(clan);
      var gender := if race == Hrothgar then Gender.Male else c.gender;
      && (r.Success? <==> forall id :: RepairByte(h.game, h.getList(clan, gender), id, c.bytes[id]).Success?)
      && (r.Success? ==>
            && r.value.0
            && r.value.1.customize.race == race
            && r.value.1.customize.clan == clan
            && r.value.1.customize.gender == gender
            && FixedUp(h, Customize(race, clan, gender, c.bytes), equip, r.value.1))
  {
    if c.clan == clan then Success((false, Character(c, equip)))
    else
      var race := h.game.toRace(clan);
      var moved := c.(race := race, clan := clan);
      var moved := if race == Hrothgar then moved.(gender := Gender.Male) else moved;
      var fixed :- FixUpAttributes(h, moved, equip);
      Success((true, fixed))
  }
}
