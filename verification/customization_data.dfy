/**
 One customization value: an 8-byte record with an explicit field layout.
 The record is modelled as its eight bytes; every field is a read at a fixed
 offset (little-endian, as on the platforms the game runs on):

   offset 0      Id           (a `CustomizationId`, one byte)
   offset 1      Value        (the raw byte stored in an appearance record)
   offset 2..3   CustomizeId  (`ushort`)
   offset 4..7   IconId and Color, two names for the same `uint`
 */
module CustomizationValues {
  import opened Basics
  import opened Enums

  type Raw8 = s: seq<byte> | |s| == 8 witness [0, 0, 0, 0, 0, 0, 0, 0]

  function ReadU16(raw: Raw8, offset: nat): (x: u16)
    requires offset + 2 <= 8
  {
    (raw[offset] as int) + 0x100 * (raw[offset + 1] as int)
  }

  function ReadU32(raw: Raw8, offset: nat): (x: u32)
    requires offset + 4 <= 8
  {
    (raw[offset] as int) + 0x100 * (raw[offset + 1] as int)
      + 0x1_0000 * (raw[offset + 2] as int) + 0x100_0000 * (raw[offset + 3] as int)
  }

  /** Stores `x` at `offset..offset+1`; every other byte keeps its value. */
  function WriteU16(raw: Raw8, offset: nat, x: u16): (r: Raw8)
    requires offset + 2 <= 8
    ensures ReadU16(r, offset) == x
    ensures forall k | 0 <= k < 8 && !(offset <= k < offset + 2) :: r[k] == raw[k]
  {
    raw[offset := x % 0x100][offset + 1 := x / 0x100]
  }

  /** Stores `x` at `offset..offset+3`; every other byte keeps its value. */
  function WriteU32(raw: Raw8, offset: nat, x: u32): (r: Raw8)
    requires offset + 4 <= 8
    ensures ReadU32(r, offset) == x
    ensures forall k | 0 <= k < 8 && !(offset <= k < offset + 4) :: r[k] == raw[k]
  {
    raw[offset := x % 0x100]
       [offset + 1 := (x / 0x100) % 0x100]
       [offset + 2 := (x / 0x1_0000) % 0x100]
       [offset + 3 := x / 0x100_0000]
  }

  datatype CustomizationData = CustomizationData(raw: Raw8) {

    /** The id byte at offset 0, as a number. */
    function IdCode(): (code: byte) {
      raw[0]
    }

    /** The id at offset 0. */
    function Id(g: GameData): (id: CustomizationId)
      requires g.Valid() && raw[0] < |g.ids|
    {
      g.ids[raw[0]]
    }

    function Value(): (b: byte) {
      raw[1]
    }

    function CustomizeId(): (x: u16) {
      ReadU16(raw, 2)
    }

    function IconId(): (x: u32) {
      ReadU32(raw, 4)
    }

    function Color(): (x: u32) {
      ReadU32(raw, 4)
    }
  }

  /** The all-zero record, which is also `Customization(0, 0)`. */
  const Zero := CustomizationData([0, 0, 0, 0, 0, 0, 0, 0])

  /**
   The constructor `(id, value, data = 0, customizeId = 0)`: it writes the id
   and value bytes, then `data` through IconId and again through Color (the
   same four bytes), then CustomizeId. Reading every field back returns what
   was written, because offset 2..3 does not overlap offset 4..7.
   */
  function New(g: GameData, id: CustomizationId, value: byte, data: u32 := 0, customizeId: u16 := 0): (c: CustomizationData)
    requires g.Valid()
    ensures c.IdCode() == g.Ordinal(id) && c.Id(g) == id
    ensures c.Value() == value
    ensures c.IconId() == data && c.Color() == data
    ensures c.CustomizeId() == customizeId
  {
    var blank: Raw8 := [g.Ordinal(id), value, 0, 0, 0, 0, 0, 0];
    var withIcon := WriteU32(blank, 4, data);
    var withColor := WriteU32(withIcon, 4, data);
    CustomizationData(WriteU16(withColor, 2, customizeId))
  }

  /** Color and IconId read the same storage, so they agree on every record. */
  lemma ColorIsIconId(c: CustomizationData)
    ensures c.Color() == c.IconId()
  {
  }

  /**
   Writing CustomizeId never disturbs IconId/Color, and writing IconId/Color
   never disturbs CustomizeId, Id or Value: the fields occupy disjoint bytes.
   */
  lemma {:induction false} FieldsDisjoint(raw: Raw8, x: u16, y: u32)
    ensures ReadU32(WriteU16(raw, 2, x), 4) == ReadU32(raw, 4)
    ensures ReadU16(WriteU32(raw, 4, y), 2) == ReadU16(raw, 2)
    ensures WriteU32(raw, 4, y)[0] == raw[0] && WriteU32(raw, 4, y)[1] == raw[1]
    ensures WriteU16(raw, 2, x)[0] == raw[0] && WriteU16(raw, 2, x)[1] == raw[1]
  {
    var a := WriteU16(raw, 2, x);
    assert a[4] == raw[4] && a[5] == raw[5] && a[6] == raw[6] && a[7] == raw[7];
    var b := WriteU32(raw, 4, y);
    assert b[2] == raw[2] && b[3] == raw[3];
  }
}
