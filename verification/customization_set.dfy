/**
 The catalog of one (clan, gender) pair: which categories are offered (a
 32-bit availability register, one bit per category ordinal), the ordered
 option lists and palettes, and the per-category counts. Four addressing
 schemes share one interface:
 - Percentage and ListSelector categories have no table: option `i` is
   synthesised with Value = CustomizeId = i;
 - list and palette categories index a stored list;
 - lip and face-paint colours index a dark palette below the literal 96 and a
   light palette from 96 on, while the byte lookup scans dark-then-light;
 - a few categories have only a scalar count.
 */
module CustomizationSets {
  import opened Basics
  import opened Enums
  import opened CustomizationValues

  /** The option tables and counts a catalog is populated with from game data. */
  datatype Tables = Tables(
    numEyebrows: int,
    numEyeShapes: int,
    numNoseShapes: int,
    numJawShapes: int,
    numMouthShapes: int,
    optionName: seq<string>,
    faces: seq<CustomizationData>,
    hairStyles: seq<CustomizationData>,
    tailEarShapes: seq<CustomizationData>,
    featuresTattoos: seq<seq<CustomizationData>>,
    facePaints: seq<CustomizationData>,
    skinColors: seq<CustomizationData>,
    hairColors: seq<CustomizationData>,
    highlightColors: seq<CustomizationData>,
    eyeColors: seq<CustomizationData>,
    tattooColors: seq<CustomizationData>,
    facePaintColorsLight: seq<CustomizationData>,
    facePaintColorsDark: seq<CustomizationData>,
    lipColorsLight: seq<CustomizationData>,
    lipColorsDark: seq<CustomizationData>,
    types: seq<MenuType>)

  datatype CustomizationSet = CustomizationSet(
    gender: Gender,
    clan: SubRace,
    settingAvailable: bv32,
    tables: Tables)

  /** The result of a byte lookup: a logical index (or -1) and the option found (or null). */
  datatype Lookup = Lookup(index: int, custom: Option<CustomizationData>)

  const NotFound := Lookup(-1, None)

  /** The split palettes switch from the dark to the light list at this index. */
  const SplitIndex := 96

  // ---------------------------------------------------------------------------
  // Availability

  /** `1u << (int)id`. */
  function Bit(g: GameData, id: CustomizationId): (b: bv32)
    requires g.Valid()
  {
    (1 as bv32) << g.Ordinal(id)
  }

  function IsAvailable(g: GameData, s: CustomizationSet, id: CustomizationId): (available: bool)
    requires g.Valid()
  {
    s.settingAvailable & Bit(g, id) != 0
  }

  /** Bits at distinct positions of a 32-bit register do not overlap. */
  lemma ShiftedBitsDisjoint(i: nat, j: nat)
    requires i < 32 && j < 32
    ensures ((1 as bv32) << i) & ((1 as bv32) << j) != 0 <==> i == j
  {
  }

  /** Two ids share a bit only if they are the same id. */
  lemma BitsDisjoint(g: GameData, a: CustomizationId, b: CustomizationId)
    requires g.Valid()
    ensures (Bit(g, a) & Bit(g, b) != 0) <==> a == b
  {
    ShiftedBitsDisjoint(g.Ordinal(a), g.Ordinal(b));
  }

  /**
   Marks `id` available: afterwards `id` is available and every other id
   reports what it reported before.
   */
  function SetAvailable(g: GameData, s: CustomizationSet, id: CustomizationId): (r: CustomizationSet)
    requires g.Valid()
    ensures IsAvailable(g, r, id)
    ensures forall other :: other != id ==> IsAvailable(g, r, other) == IsAvailable(g, s, other)
    ensures r.gender == s.gender && r.clan == s.clan && r.tables == s.tables
  {
    var r := s.(settingAvailable := s.settingAvailable | Bit(g, id));
    assert forall other :: other != id ==> IsAvailable(g, r, other) == IsAvailable(g, s, other) by {
      forall other | other != id
        ensures IsAvailable(g, r, other) == IsAvailable(g, s, other)
      {
        BitsDisjoint(g, id, other);
      }
    }
    r
  }

  /** Setting the same bit twice is setting it once. */
  lemma SetAvailableIdempotent(g: GameData, s: CustomizationSet, id: CustomizationId)
    requires g.Valid()
    ensures SetAvailable(g, SetAvailable(g, s, id), id) == SetAvailable(g, s, id)
  {
    var b := Bit(g, id);
    assert (s.settingAvailable | b) | b == s.settingAvailable | b;
  }

  /** The bitwise OR of the bits of `xs`. */
  function Mask(g: GameData, xs: seq<CustomizationId>): (m: bv32)
    requires g.Valid()
  {
    if |xs| == 0 then 0 else Bit(g, xs[0]) | Mask(g, xs[1..])
  }

  lemma {:induction false} MaskBits(g: GameData, xs: seq<CustomizationId>, id: CustomizationId)
    requires g.Valid()
    ensures (Mask(g, xs) & Bit(g, id) != 0) <==> id in xs
  {
    if |xs| > 0 {
      MaskBits(g, xs[1..], id);
      BitsDisjoint(g, xs[0], id);
      assert xs == [xs[0]] + xs[1..];
    }
  }

  /** The operands of `DefaultAvailable`, in source order (Height appears twice). */
  const DefaultAvailableIds: seq<CustomizationId> := [
    CustomizationId.Height, Hairstyle, SkinColor, EyeColorR, EyeColorL, HairColor,
    HighlightColor, FacialFeaturesTattoos, TattooColor, LipColor, CustomizationId.Height]

  function DefaultAvailable(g: GameData): (m: bv32)
    requires g.Valid()
  {
    Mask(g, DefaultAvailableIds)
  }

  /** The categories every catalog offers before population. */
  const DefaultCategories: set<CustomizationId> := {
    CustomizationId.Height, Hairstyle, SkinColor, EyeColorR, EyeColorL, HairColor,
    HighlightColor, FacialFeaturesTattoos, TattooColor, LipColor}

  /**
   The constructor: female Hrothgar start with nothing available, every other
   pair starts with exactly the default categories.
   */
  function Create(g: GameData, clan: SubRace, gender: Gender, tables: Tables): (s: CustomizationSet)
    requires g.Valid()
    ensures s.clan == clan && s.gender == gender && s.tables == tables
    ensures forall id :: IsAvailable(g, s, id) <==>
      !(g.toRace(clan) == Hrothgar && gender == Gender.Female) && id in DefaultCategories
  {
    var s := CustomizationSet(gender, clan, InitialAvailable(g, clan, gender), tables);
    assert forall id :: IsAvailable(g, s, id) <==>
      !(g.toRace(clan) == Hrothgar && gender == Gender.Female) && id in DefaultCategories by {
      forall id
        ensures IsAvailable(g, s, id) <==>
          !(g.toRace(clan) == Hrothgar && gender == Gender.Female) && id in DefaultCategories
      {
        InitialAvailableBits(g, clan, gender, id);
      }
    }
    s
  }

  /** The register the constructor starts from. */
  function InitialAvailable(g: GameData, clan: SubRace, gender: Gender): (m: bv32)
    requires g.Valid()
  {
    if g.toRace(clan) == Hrothgar && gender == Gender.Female then 0 else DefaultAvailable(g)
  }

  lemma InitialAvailableBits(g: GameData, clan: SubRace, gender: Gender, id: CustomizationId)
    requires g.Valid()
    ensures (InitialAvailable(g, clan, gender) & Bit(g, id) != 0) <==>
      !(g.toRace(clan) == Hrothgar && gender == Gender.Female) && id in DefaultCategories
  {
    if !(g.toRace(clan) == Hrothgar && gender == Gender.Female) {
      DefaultAvailableBits(g, id);
    }
  }

  lemma DefaultAvailableBits(g: GameData, id: CustomizationId)
    requires g.Valid()
    ensures (DefaultAvailable(g) & Bit(g, id) != 0) <==> id in DefaultCategories
  {
    var m := Mask(g, DefaultAvailableIds);
    assert DefaultAvailable(g) == m;
    MaskBits(g, DefaultAvailableIds, id);
    assert (m & Bit(g, id) != 0) <==> id in DefaultAvailableIds;
    DefaultIdsAreDefaultCategories(id);
  }

  lemma DefaultIdsAreDefaultCategories(id: CustomizationId)
    ensures id in DefaultAvailableIds <==> id in DefaultCategories
  {
  }

  // ---------------------------------------------------------------------------
  // Tables by category

  /** Categories whose options are synthesised from the index instead of read from a table. */
  predicate IsSynthesized(g: GameData, id: CustomizationId) {
    g.toType(id) == Percentage || g.toType(id) == ListSelector
  }

  /** Categories backed by one stored list (the split palettes count as the list dark ++ light). */
  const ListIds: set<CustomizationId> := {
    Face, Hairstyle, TailEarShape, FacePaint, SkinColor, EyeColorL, EyeColorR,
    HairColor, HighlightColor, TattooColor, LipColor, FacePaintColor}

  /** The two palettes split into a dark and a light half. */
  predicate IsSplit(id: CustomizationId) {
    id == LipColor || id == FacePaintColor
  }

  function Dark(s: CustomizationSet, id: CustomizationId): (list: seq<CustomizationData>)
    requires IsSplit(id)
  {
    if id == LipColor then s.tables.lipColorsDark else s.tables.facePaintColorsDark
  }

  function Light(s: CustomizationSet, id: CustomizationId): (list: seq<CustomizationData>)
    requires IsSplit(id)
  {
    if id == LipColor then s.tables.lipColorsLight else s.tables.facePaintColorsLight
  }

  /** The list of a list-backed category, in logical-index order. */
  function Options(s: CustomizationSet, id: CustomizationId): (list: seq<CustomizationData>)
    requires id in ListIds
    ensures IsSplit(id) ==> list == Dark(s, id) + Light(s, id)
  {
    match id
    case Face => s.tables.faces
    case Hairstyle => s.tables.hairStyles
    case TailEarShape => s.tables.tailEarShapes
    case FacePaint => s.tables.facePaints
    case SkinColor => s.tables.skinColors
    case EyeColorL => s.tables.eyeColors
    case EyeColorR => s.tables.eyeColors
    case HairColor => s.tables.hairColors
    case HighlightColor => s.tables.highlightColors
    case TattooColor => s.tables.tattooColors
    case LipColor => s.tables.lipColorsDark + s.tables.lipColorsLight
    case FacePaintColor => s.tables.facePaintColorsDark + s.tables.facePaintColorsLight
  }

  /** The ids `Count`'s switch covers. */
  const CountedIds: set<CustomizationId> := ListIds + {
    HighlightsOnFlag, FacialFeaturesTattoos, Eyebrows, EyeShape, Nose, Jaw, Mouth}

  // ---------------------------------------------------------------------------
  // Count

  /**
   The number of options of a category: 0 when unavailable, 101 for an
   available Percentage category, the list length for list categories (both
   halves for the split palettes), 8 placement slots for facial features, 2
   for the highlights flag, the scalar count for the shape categories; any
   other available category is an exhaustiveness failure.
   */
  function Count(g: GameData, s: CustomizationSet, id: CustomizationId): (r: Result<int>)
    requires g.Valid()
    ensures !IsAvailable(g, s, id) ==> r == Success(0)
    ensures IsAvailable(g, s, id) && g.toType(id) == Percentage ==> r == Success(101)
    ensures r.Failure? <==> IsAvailable(g, s, id) && g.toType(id) != Percentage && id !in CountedIds
    ensures r.Failure? ==> r.error == ArgumentOutOfRange
    ensures IsAvailable(g, s, id) && g.toType(id) != Percentage ==>
      && (id in ListIds ==> r == Success(|Options(s, id)|))
      && (id == FacialFeaturesTattoos ==> r == Success(8))
      && (id == HighlightsOnFlag ==> r == Success(2))
      && (id == Eyebrows ==> r == Success(s.tables.numEyebrows))
      && (id == EyeShape ==> r == Success(s.tables.numEyeShapes))
      && (id == Nose ==> r == Success(s.tables.numNoseShapes))
      && (id == Jaw ==> r == Success(s.tables.numJawShapes))
      && (id == Mouth ==> r == Success(s.tables.numMouthShapes))
    ensures r.Success? && id !in {Eyebrows, EyeShape, Nose, Jaw, Mouth} ==> r.value >= 0
  {
    if !IsAvailable(g, s, id) then Success(0)
    else if g.toType(id) == Percentage then Success(101)
    else
      var t := s.tables;
      match id
      case Face => Success(|t.faces|)
      case Hairstyle => Success(|t.hairStyles|)
      case HighlightsOnFlag => Success(2)
      case SkinColor => Success(|t.skinColors|)
      case EyeColorR => Success(|t.eyeColors|)
      case HairColor => Success(|t.hairColors|)
      case HighlightColor => Success(|t.highlightColors|)
      case FacialFeaturesTattoos => Success(8)
      case TattooColor => Success(|t.tattooColors|)
      case Eyebrows => Success(t.numEyebrows)
      case EyeColorL => Success(|t.eyeColors|)
      case EyeShape => Success(t.numEyeShapes)
      case Nose => Success(t.numNoseShapes)
      case Jaw => Success(t.numJawShapes)
      case Mouth => Success(t.numMouthShapes)
      case LipColor => Success(|t.lipColorsLight| + |t.lipColorsDark|)
      case TailEarShape => Success(|t.tailEarShapes|)
      case FacePaint => Success(|t.facePaints|)
      case FacePaintColor => Success(|t.facePaintColorsLight| + |t.facePaintColorsDark|)
      case _ => Failure(ArgumentOutOfRange)
  }

  // ---------------------------------------------------------------------------
  // Lookup by stored byte

  /** The first entry of `list` whose Value is `value`, with its position; NotFound if none. */
  function FirstMatch(list: seq<CustomizationData>, value: byte): (r: Lookup)
    ensures r.index == -1 <==> forall k | 0 <= k < |list| :: list[k].Value() != value
    ensures r.index == -1 ==> r == NotFound
    ensures r.index != -1 ==>
      && 0 <= r.index < |list|
      && list[r.index].Value() == value
      && r.custom == Some(list[r.index])
      && forall k | 0 <= k < r.index :: list[k].Value() != value
  {
    if |list| == 0 then NotFound
    else if list[0].Value() == value then Lookup(0, Some(list[0]))
    else
      var rest := FirstMatch(list[1..], value);
      if rest.index == -1 then NotFound else Lookup(rest.index + 1, rest.custom)
  }

  /**
   `DataByValue`: which option a stored byte denotes. Synthesised categories
   accept exactly the bytes below their count; list categories return the
   first entry carrying the byte, scanning the split palettes dark-then-light;
   availability is not consulted for list categories.
   */
  function DataByValue(g: GameData, s: CustomizationSet, id: CustomizationId, value: byte): (r: Result<Lookup>)
    requires g.Valid()
    ensures r.Success? && r.value.index >= 0 ==>
      r.value.custom.Some? && r.value.custom.value.Value() == value
    ensures r.Success? && r.value.index < 0 ==> r.value == NotFound
    ensures IsSynthesized(g, id) ==>
      && (r.Success? <==> Count(g, s, id).Success?)
      && (r.Success? ==> (r.value.index >= 0 <==> value < Count(g, s, id).value))
      && (r.Success? && r.value.index >= 0 ==>
            r.value.index == value && r.value.custom.value.CustomizeId() == value)
    ensures !IsSynthesized(g, id) && id in ListIds ==>
      && r.Success?
      && (r.value.index == -1 <==> forall k | 0 <= k < |Options(s, id)| :: Options(s, id)[k].Value() != value)
      && (r.value.index != -1 ==>
            && r.value.index < |Options(s, id)|
            && r.value.custom == Some(Options(s, id)[r.value.index])
            && forall k | 0 <= k < r.value.index :: Options(s, id)[k].Value() != value)
    ensures !IsSynthesized(g, id) && id == FacialFeaturesTattoos ==>
      && (r.Success? <==> |s.tables.featuresTattoos| > 0)
      && (r.Success? ==> r.value == FirstMatch(s.tables.featuresTattoos[0], value))
      && (r.Failure? ==> r.error == ElementMissing)
    ensures !IsSynthesized(g, id) && id !in ListIds && id != FacialFeaturesTattoos ==>
      r == Failure(ArgumentOutOfRange)
  {
    if IsSynthesized(g, id) then
      var count :- Count(g, s, id);
      if value < count then Success(Lookup(value, Some(New(g, id, value, 0, value))))
      else Success(NotFound)
    else
      if id in ListIds then Success(FirstMatch(Options(s, id), value))
      else if id == FacialFeaturesTattoos then
        var first :- At(s.tables.featuresTattoos, 0);
        Success(FirstMatch(first, value))
      else Failure(ArgumentOutOfRange)
  }

  // ---------------------------------------------------------------------------
  // Lookup by logical index

  /**
   `Data`: the option at logical index `idx`. The guard rejects only
   `idx > Count(id)`, so `idx == Count(id)` gets past it. Synthesised
   categories build the option from the index cast to byte and ushort; list
   categories index their list (the split palettes switch halves at the
   literal 96); categories in neither switch yield the all-zero record.
   */
  function Data(g: GameData, s: CustomizationSet, id: CustomizationId, idx: int): (r: Result<CustomizationData>)
    requires g.Valid()
    ensures Count(g, s, id).Failure? ==> r.Failure?
    ensures Count(g, s, id).Success? && idx > Count(g, s, id).value ==> r == Failure(IndexOutOfRange)
    ensures Count(g, s, id).Success? && idx <= Count(g, s, id).value && IsSynthesized(g, id) ==>
      && r.Success?
      && r.value.IdCode() == g.Ordinal(id)
      && r.value.Id(g) == id
      && r.value.Value() == ToByte(idx)
      && r.value.CustomizeId() == ToU16(idx)
      && r.value.IconId() == 0
    ensures Count(g, s, id).Success? && idx <= Count(g, s, id).value && !IsSynthesized(g, id) ==>
      && (id in ListIds && !IsSplit(id) ==> r == At(Options(s, id), idx))
      && (IsSplit(id) && idx < SplitIndex ==> r == At(Dark(s, id), idx))
      && (IsSplit(id) && idx >= SplitIndex ==> r == At(Light(s, id), idx - SplitIndex))
      && (id == FacialFeaturesTattoos && |s.tables.featuresTattoos| == 0 ==> r == Failure(ElementMissing))
      && (id == FacialFeaturesTattoos && |s.tables.featuresTattoos| > 0 ==> r == At(s.tables.featuresTattoos[0], idx))
      && (id !in ListIds && id != FacialFeaturesTattoos ==> r == Success(Zero))
  {
    var count :- Count(g, s, id);
    if idx > count then Failure(IndexOutOfRange)
    else if g.toType(id) == Percentage then Success(New(g, id, ToByte(idx), 0, ToU16(idx)))
    else if g.toType(id) == ListSelector then Success(New(g, id, ToByte(idx), 0, ToU16(idx)))
    else if id in ListIds then ListAt(s, id, idx)
    else if id == FacialFeaturesTattoos then
      var first :- At(s.tables.featuresTattoos, 0);
      At(first, idx)
    else Success(Zero)
  }

  /**
   Index addressing of a list category: the plain lists are indexed directly,
   the split palettes read the dark list below the literal 96 and the light
   list from 96 on.
   */
  function ListAt(s: CustomizationSet, id: CustomizationId, idx: int): (r: Result<CustomizationData>)
    requires id in ListIds
    ensures !IsSplit(id) ==> r == At(Options(s, id), idx)
    ensures IsSplit(id) && idx < SplitIndex ==> r == At(Dark(s, id), idx)
    ensures IsSplit(id) && idx >= SplitIndex ==> r == At(Light(s, id), idx - SplitIndex)
  {
    if IsSplit(id) then
      if idx < SplitIndex then At(Dark(s, id), idx) else At(Light(s, id), idx - SplitIndex)
    else At(Options(s, id), idx)
  }

  // ---------------------------------------------------------------------------
  // Simple accessors

  /** `Option(id)`: the display name, read at the id's ordinal. */
  function OptionLabel(g: GameData, s: CustomizationSet, id: CustomizationId): (r: Result<string>)
    requires g.Valid()
    ensures r.Success? <==> g.Ordinal(id) < |s.tables.optionName|
    ensures r.Success? ==> r.value == s.tables.optionName[g.Ordinal(id)]
  {
    At(s.tables.optionName, g.Ordinal(id))
  }

  /** `Type(id)`: the catalog's menu type, read at the id's ordinal. */
  function Type(g: GameData, s: CustomizationSet, id: CustomizationId): (r: Result<MenuType>)
    requires g.Valid()
    ensures r.Success? <==> g.Ordinal(id) < |s.tables.types|
    ensures r.Success? ==> r.value == s.tables.types[g.Ordinal(id)]
  {
    At(s.tables.types, g.Ordinal(id))
  }

  /** `FacialFeature(faceIdx, idx)`: faces are numbered from 1. */
  function FacialFeature(s: CustomizationSet, faceIdx: int, idx: int): (r: Result<CustomizationData>)
    ensures r.Success? <==>
      1 <= faceIdx <= |s.tables.featuresTattoos| && 0 <= idx < |s.tables.featuresTattoos[faceIdx - 1]|
    ensures r.Success? ==> r.value == s.tables.featuresTattoos[faceIdx - 1][idx]
  {
    var features :- At(s.tables.featuresTattoos, faceIdx - 1);
    At(features, idx)
  }

  /**
   The category-wide index lookup of facial features reads face 1: for every
   index the guard lets through, `Data` answers what `FacialFeature(1, idx)`
   answers, exceptions included.
   */
  lemma FacialFeaturesReadFaceOne(g: GameData, s: CustomizationSet, idx: int)
    requires g.Valid() && !IsSynthesized(g, FacialFeaturesTattoos)
    requires idx <= Count(g, s, FacialFeaturesTattoos).value
    ensures Data(g, s, FacialFeaturesTattoos, idx) == FacialFeature(s, 1, idx)
  {
  }

  // ---------------------------------------------------------------------------
  // Index and byte lookups are inverse

  /** No two entries of the list carry the same byte. */
  ghost predicate DistinctValues(list: seq<CustomizationData>) {
    forall i, j | 0 <= i < j < |list| :: list[i].Value() != list[j].Value()
  }

  /**
   What a category's tables must satisfy for the byte lookup to invert the
   index lookup: list categories need distinct bytes, and the split palettes
   a dark half of exactly 96 entries. Categories the byte lookup does not
   cover (it throws for them) never qualify.
   */
  ghost predicate InvertibleTables(g: GameData, s: CustomizationSet, id: CustomizationId) {
    if IsSynthesized(g, id) then true
    else if id in ListIds then
      DistinctValues(Options(s, id)) && (IsSplit(id) ==> |Dark(s, id)| == SplitIndex)
    else if id == FacialFeaturesTattoos then
      |s.tables.featuresTattoos| > 0 && DistinctValues(s.tables.featuresTattoos[0])
    else false
  }

  lemma FirstMatchOfDistinct(list: seq<CustomizationData>, i: int)
    requires DistinctValues(list) && 0 <= i < |list|
    ensures FirstMatch(list, list[i].Value()) == Lookup(i, Some(list[i]))
  {
    var r := FirstMatch(list, list[i].Value());
    assert r.index != -1;
  }

  /**
   With a dark half of exactly 96 entries, index addressing of a split
   palette (dark below 96, light from 96) agrees with the dark-then-light list
   the byte lookup scans.
   */
  lemma SplitIndexMatchesScan(g: GameData, s: CustomizationSet, id: CustomizationId, i: int)
    requires g.Valid() && IsSplit(id) && !IsSynthesized(g, id) && IsAvailable(g, s, id)
    requires |Dark(s, id)| == SplitIndex
    requires 0 <= i < |Options(s, id)|
    ensures Data(g, s, id, i) == Success(Options(s, id)[i])
  {
    var dark, light := Dark(s, id), Light(s, id);
    assert Options(s, id) == dark + light;
    if i < SplitIndex {
      assert Options(s, id)[i] == dark[i];
    } else {
      assert Options(s, id)[i] == light[i - SplitIndex];
    }
  }

  /**
   Round trip: the byte of the option at logical index `i` looks up to `i`
   and that same option, for every index below the count (below 256 for the
   synthesised kinds, whose bytes are the index cast to byte).
   */
  lemma {:induction false} DataByValueInvertsData(g: GameData, s: CustomizationSet, id: CustomizationId, i: int)
    requires g.Valid()
    requires Count(g, s, id).Success? && 0 <= i < Count(g, s, id).value
    requires IsSynthesized(g, id) ==> i < 0x100
    requires InvertibleTables(g, s, id)
    ensures Data(g, s, id, i).Success?
      ==> DataByValue(g, s, id, Data(g, s, id, i).value.Value()) == Success(Lookup(i, Some(Data(g, s, id, i).value)))
  {
    var d := Data(g, s, id, i);
    if d.Success? {
      if IsSynthesized(g, id) {
        assert d.value == New(g, id, i, 0, i);
      } else if id in ListIds {
        if IsSplit(id) {
          SplitIndexMatchesScan(g, s, id, i);
        }
        assert d.value == Options(s, id)[i];
        FirstMatchOfDistinct(Options(s, id), i);
      } else {
        assert d.value == s.tables.featuresTattoos[0][i];
        FirstMatchOfDistinct(s.tables.featuresTattoos[0], i);
      }
    }
  }

  /**
   The literal 96 is load-bearing: when a split palette's dark half has any
   other length (and the light half is not empty), some index below the
   count is answered by `Data` with something other than the option the byte
   lookup would place at that index.
   */
  lemma SplitNeedsDarkOf96(g: GameData, s: CustomizationSet, id: CustomizationId)
    requires g.Valid() && IsSplit(id) && !IsSynthesized(g, id) && IsAvailable(g, s, id)
    requires |Dark(s, id)| != SplitIndex && |Light(s, id)| > 0
    requires DistinctValues(Options(s, id))
    ensures exists i :: 0 <= i < |Options(s, id)| && Data(g, s, id, i) != Success(Options(s, id)[i])
  {
    var dark, light := Dark(s, id), Light(s, id);
    assert Options(s, id) == dark + light;
    if |dark| < SplitIndex {
      var i := |dark|;
      assert Data(g, s, id, i) == At(dark, i);
      assert Data(g, s, id, i) != Success(Options(s, id)[i]);
    } else {
      var i := SplitIndex;
      assert Data(g, s, id, i) == Success(light[0]);
      assert Options(s, id)[i] == dark[i];
      assert Options(s, id)[|dark|] == light[0];
      assert Data(g, s, id, i) != Success(Options(s, id)[i]);
    }
  }

  /**
   The guard of `Data` is `idx > Count(id)`: for an available Percentage
   category, index 101 passes it and yields an option with byte 101, a byte
   the lookup by value rejects.
   */
  lemma DataAcceptsIndexEqualToCount(g: GameData, s: CustomizationSet, id: CustomizationId)
    requires g.Valid() && IsAvailable(g, s, id) && g.toType(id) == Percentage
    ensures Count(g, s, id) == Success(101)
    ensures Data(g, s, id, 101).Success? && Data(g, s, id, 101).value.Value() == 101
    ensures DataByValue(g, s, id, 101) == Success(NotFound)
  {
  }

  /**
   The synthesised option at index `i` carries the byte `(byte)i`, so the
   round trip stops at 256: in a ListSelector category with more than 256
   options, index 256 yields byte 0, and the byte lookup sends byte 0 back to
   index 0.
   */
  lemma SynthesizedIndexWrapsAt256(g: GameData, s: CustomizationSet, id: CustomizationId)
    requires g.Valid() && IsSynthesized(g, id)
    requires Count(g, s, id).Success? && Count(g, s, id).value > 0x100
    ensures Data(g, s, id, 0x100).Success? && Data(g, s, id, 0x100).value.Value() == 0
    ensures DataByValue(g, s, id, 0).Success? && DataByValue(g, s, id, 0).value.index == 0
  {
  }

  // ---------------------------------------------------------------------------
  // Display order

  /** LINQ `Skip(n)`. */
  function Skip<T>(xs: seq<T>, n: nat): (r: seq<T>)
    ensures |xs| <= n ==> r == []
    ensures |xs| > n ==> r == xs[n..]
  {
    if |xs| <= n then [] else xs[n..]
  }

  /**
   The enumeration with three slots reassigned: TattooColor's slot gets
   EyeColorL, EyeColorL's slot gets EyeColorR, EyeColorR's slot gets
   TattooColor.
   */
  function Rotate(g: GameData): (r: seq<CustomizationId>)
    requires g.Valid()
    ensures |r| == |g.ids|
  {
    g.ids[g.Ordinal(TattooColor) := EyeColorL]
         [g.Ordinal(EyeColorL) := EyeColorR]
         [g.Ordinal(EyeColorR) := TattooColor]
  }

  /** The position whose id `Rotate` moves into slot `k`. */
  function RotationSource(g: GameData, k: nat): (source: nat)
    requires g.Valid()
  {
    if k == g.Ordinal(TattooColor) then g.Ordinal(EyeColorL)
    else if k == g.Ordinal(EyeColorL) then g.Ordinal(EyeColorR)
    else if k == g.Ordinal(EyeColorR) then g.Ordinal(TattooColor)
    else k
  }

  /** Slot `k` of the rotation holds the id the enumeration has at `RotationSource(k)`. */
  lemma RotateReadsSource(g: GameData, k: nat)
    requires g.Valid() && k < |g.ids|
    ensures RotationSource(g, k) < |g.ids|
    ensures Rotate(g)[k] == g.ids[RotationSource(g, k)]
  {
  }

  /** Each source position feeds exactly one slot. */
  lemma RotationSourceInjective(g: GameData, i: nat, j: nat)
    requires g.Valid() && i < |g.ids| && j < |g.ids| && i != j
    ensures RotationSource(g, i) != RotationSource(g, j)
  {
    var pT, pL, pR := g.Ordinal(TattooColor), g.Ordinal(EyeColorL), g.Ordinal(EyeColorR);
    assert pT != pL && pL != pR && pT != pR;
  }

  lemma MultisetOfUpdate<T>(xs: seq<T>, i: nat, v: T)
    requires i < |xs|
    ensures multiset(xs[i := v]) == multiset(xs) - multiset{xs[i]} + multiset{v}
  {
  }

  /** Moving the entries of three distinct positions around a cycle keeps the multiset. */
  lemma {:induction false} ThreeCycleKeepsMultiset<T>(xs: seq<T>, a: nat, b: nat, c: nat)
    requires a < |xs| && b < |xs| && c < |xs| && a != b && b != c && a != c
    ensures multiset(xs[a := xs[b]][b := xs[c]][c := xs[a]]) == multiset(xs)
  {
    var s1 := xs[a := xs[b]];
    var s2 := s1[b := xs[c]];
    MultisetOfUpdate(xs, a, xs[b]);
    MultisetOfUpdate(s1, b, xs[c]);
    MultisetOfUpdate(s2, c, xs[a]);
    assert s1[b] == xs[b] && s2[c] == xs[c];
  }

  lemma RotateKeepsMultiset(g: GameData)
    requires g.Valid()
    ensures multiset(Rotate(g)) == multiset(g.ids)
  {
    var pT, pL, pR := g.Ordinal(TattooColor), g.Ordinal(EyeColorL), g.Ordinal(EyeColorR);
    assert pT != pL && pL != pR && pT != pR;
    ThreeCycleKeepsMultiset(g.ids, pT, pL, pR);
  }

  /**
   The rotation is a permutation of the enumeration: the same multiset of
   ids, every id present, none twice.
   */
  lemma RotateIsPermutation(g: GameData)
    requires g.Valid()
    ensures multiset(Rotate(g)) == multiset(g.ids)
    ensures forall id :: id in Rotate(g)
    ensures forall i, j | 0 <= i < j < |Rotate(g)| :: Rotate(g)[i] != Rotate(g)[j]
  {
    RotateKeepsMultiset(g);
    var r := Rotate(g);
    var pT, pL, pR := g.Ordinal(TattooColor), g.Ordinal(EyeColorL), g.Ordinal(EyeColorR);
    forall id
      ensures id in r
    {
      var k := g.Ordinal(id);
      var j := if k == pL then pT else if k == pR then pL else if k == pT then pR else k;
      RotateReadsSource(g, j);
    }
    forall i, j | 0 <= i < j < |r|
      ensures r[i] != r[j]
    {
      RotateReadsSource(g, i);
      RotateReadsSource(g, j);
      RotationSourceInjective(g, i, j);
    }
  }

  /** LINQ `Where(IsAvailable)`: the available ids of `xs`, in order. */
  function WhereAvailable(g: GameData, s: CustomizationSet, xs: seq<CustomizationId>): (r: seq<CustomizationId>)
    requires g.Valid()
    ensures forall id :: id in r <==> id in xs && IsAvailable(g, s, id)
    ensures |r| <= |xs|
  {
    if |xs| == 0 then []
    else if IsAvailable(g, s, xs[0]) then [xs[0]] + WhereAvailable(g, s, xs[1..])
    else WhereAvailable(g, s, xs[1..])
  }

  /** Every id of `xs` has an entry in the catalog's type table. */
  ghost predicate Typed(g: GameData, s: CustomizationSet, xs: seq<CustomizationId>)
    requires g.Valid()
  {
    forall id | id in xs :: Type(g, s, id).Success?
  }

  /** The ids of `xs` whose catalog type is `t`, in order. */
  function OfType(g: GameData, s: CustomizationSet, xs: seq<CustomizationId>, t: MenuType): (r: seq<CustomizationId>)
    requires g.Valid()
    ensures forall id :: id in r <==> id in xs && Type(g, s, id) == Success(t)
  {
    if |xs| == 0 then []
    else if Type(g, s, xs[0]) == Success(t) then [xs[0]] + OfType(g, s, xs[1..], t)
    else OfType(g, s, xs[1..], t)
  }

  function GroupOf(m: map<MenuType, seq<CustomizationId>>, t: MenuType): (group: seq<CustomizationId>) {
    if t in m then m[t] else []
  }

  /**
   LINQ `GroupBy(Type).ToDictionary(...)` folded over `xs` into `acc`: each
   id is appended to its type's group. It throws when an id has no type.
   */
  function GroupByType(g: GameData, s: CustomizationSet, xs: seq<CustomizationId>, acc: map<MenuType, seq<CustomizationId>>)
    : (r: Result<map<MenuType, seq<CustomizationId>>>)
    requires g.Valid()
    ensures r.Success? <==> Typed(g, s, xs)
  {
    if |xs| == 0 then Success(acc)
    else
      var t :- Type(g, s, xs[0]);
      assert xs == [xs[0]] + xs[1..];
      GroupByType(g, s, xs[1..], acc[t := GroupOf(acc, t) + [xs[0]]])
  }

  /** Grouping appends to each type's group exactly the ids of that type, in order. */
  lemma {:induction false} GroupByTypeGroups(g: GameData, s: CustomizationSet, xs: seq<CustomizationId>, acc: map<MenuType, seq<CustomizationId>>)
    requires g.Valid() && Typed(g, s, xs)
    ensures GroupByType(g, s, xs, acc).Success?
    ensures forall t :: GroupOf(GroupByType(g, s, xs, acc).value, t) == GroupOf(acc, t) + OfType(g, s, xs, t)
    ensures forall t :: t in GroupByType(g, s, xs, acc).value <==> t in acc || |OfType(g, s, xs, t)| > 0
  {
    if |xs| > 0 {
      var t0 := Type(g, s, xs[0]).value;
      var acc' := acc[t0 := GroupOf(acc, t0) + [xs[0]]];
      assert Typed(g, s, xs[1..]);
      GroupByTypeGroups(g, s, xs[1..], acc');
      assert GroupByType(g, s, xs, acc) == GroupByType(g, s, xs[1..], acc');
      forall t
        ensures GroupOf(acc', t) + OfType(g, s, xs[1..], t) == GroupOf(acc, t) + OfType(g, s, xs, t)
      {
        if t == t0 {
          assert OfType(g, s, xs, t) == [xs[0]] + OfType(g, s, xs[1..], t);
        }
      }
    }
  }

  /** The ids `ComputeOrder` distributes over the groups: rotated, skipped, filtered. */
  function OrderedIds(g: GameData, s: CustomizationSet): (r: seq<CustomizationId>)
    requires g.Valid()
  {
    WhereAvailable(g, s, Skip(Rotate(g), 2))
  }

  /**
   `ComputeOrder`: the rotated enumeration minus its first two slots,
   restricted to available ids and grouped by catalog type. It throws exactly
   when a surviving id has no type-table entry.
   */
  function ComputeOrder(g: GameData, s: CustomizationSet): (r: Result<map<MenuType, seq<CustomizationId>>>)
    requires g.Valid()
    ensures r.Success? <==>
      forall id | id in Skip(Rotate(g), 2) && IsAvailable(g, s, id) :: Type(g, s, id).Success?
  {
    GroupByType(g, s, OrderedIds(g, s), map[])
  }

  /**
   What `ComputeOrder` lists: an id appears exactly when it survives the skip
   and the availability filter, it appears under its own type, every group is
   non-empty, and each group keeps the rotated enumeration's order.
   */
  lemma ComputeOrderGroups(g: GameData, s: CustomizationSet)
    requires g.Valid() && ComputeOrder(g, s).Success?
    ensures var m := ComputeOrder(g, s).value;
      && (forall t | t in m :: |m[t]| > 0 && m[t] == OfType(g, s, OrderedIds(g, s), t))
      && (forall t, id | t in m && id in m[t] :: Type(g, s, id) == Success(t))
      && (forall id :: id in Skip(Rotate(g), 2) && IsAvailable(g, s, id) <==>
            Type(g, s, id).Success? && Type(g, s, id).value in m && id in m[Type(g, s, id).value])
  {
    var kept := OrderedIds(g, s);
    GroupByTypeGroups(g, s, kept, map[]);
    var m := ComputeOrder(g, s).value;
    forall t | t in m
      ensures |m[t]| > 0 && m[t] == OfType(g, s, kept, t)
    {
      assert GroupOf(m, t) == m[t];
    }
    forall id
      ensures id in Skip(Rotate(g), 2) && IsAvailable(g, s, id) <==>
        Type(g, s, id).Success? && Type(g, s, id).value in m && id in m[Type(g, s, id).value]
    {
      if id in kept {
        var t := Type(g, s, id).value;
        assert id in OfType(g, s, kept, t);
        assert GroupOf(m, t) == OfType(g, s, kept, t);
      }
    }
  }
}
