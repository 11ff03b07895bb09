/** The terrain classification of a block position and the default cost ("malus") of each
    classification: 0 is free, a positive value is a penalty, a negative value is impassable. */
module PathTypes {

  /** The 24 classifications, in declaration order; the order is also the byte value. */
  datatype PathType =
    | BLOCKED
    | OPEN
    | WALKABLE
    | WALKABLE_DOOR
    | TRAPDOOR
    | POWDER_SNOW
    | DANGER_POWDER_SNOW
    | FENCE
    | LAVA
    | WATER
    | WATER_BORDER
    | RAIL
    | UNPASSABLE_RAIL
    | DANGER_FIRE
    | DAMAGE_FIRE
    | DANGER_OTHER
    | DAMAGE_OTHER
    | DOOR_OPEN
    | DOOR_WOOD_CLOSED
    | DOOR_IRON_CLOSED
    | BREACH
    | LEAVES
    | STICKY_HONEY
    | COCOA

  const OPEN_MALUS: int := 0
  const BLOCKED_MALUS: int := -1

  /** Every classification, in ascending byte order. */
  const AllTypes: seq<PathType> := [
    BLOCKED, OPEN, WALKABLE, WALKABLE_DOOR, TRAPDOOR, POWDER_SNOW, DANGER_POWDER_SNOW, FENCE,
    LAVA, WATER, WATER_BORDER, RAIL, UNPASSABLE_RAIL, DANGER_FIRE, DAMAGE_FIRE, DANGER_OTHER,
    DAMAGE_OTHER, DOOR_OPEN, DOOR_WOOD_CLOSED, DOOR_IRON_CLOSED, BREACH, LEAVES, STICKY_HONEY,
    COCOA]

  /** The byte value of a classification. */
  function Ordinal(t: PathType): (n: nat)
    ensures n < |AllTypes| && AllTypes[n] == t
  {
    match t
    case BLOCKED => 0
    case OPEN => 1
    case WALKABLE => 2
    case WALKABLE_DOOR => 3
    case TRAPDOOR => 4
    case POWDER_SNOW => 5
    case DANGER_POWDER_SNOW => 6
    case FENCE => 7
    case LAVA => 8
    case WATER => 9
    case WATER_BORDER => 10
    case RAIL => 11
    case UNPASSABLE_RAIL => 12
    case DANGER_FIRE => 13
    case DAMAGE_FIRE => 14
    case DANGER_OTHER => 15
    case DAMAGE_OTHER => 16
    case DOOR_OPEN => 17
    case DOOR_WOOD_CLOSED => 18
    case DOOR_IRON_CLOSED => 19
    case BREACH => 20
    case LEAVES => 21
    case STICKY_HONEY => 22
    case COCOA => 23
  }

  /** The enumeration lists each classification exactly once, at its byte value: bytes 0 to 23
      and the classifications are in one-to-one correspondence. */
  lemma OrdinalIsPosition(i: int)
    requires 0 <= i < |AllTypes|
    ensures Ordinal(AllTypes[i]) == i
  {
    assert Ordinal(AllTypes[i]) == i by {
      if i < 12 {
        assert i in {0, 1, 2, 3, 4, 5, 6, 7, 8, 9, 10, 11};
      } else {
        assert i in {12, 13, 14, 15, 16, 17, 18, 19, 20, 21, 22, 23};
      }
    }
  }

  /** Ordering classifications by byte value is a strict total order. */
  predicate Less(a: PathType, b: PathType) {
    Ordinal(a) < Ordinal(b)
  }

  /** The default malus of each classification. */
  function Malus(t: PathType): (r: int)
    ensures r in {BLOCKED_MALUS, OPEN_MALUS, 4, 8, 16}
    ensures r < 0 <==> t in {BLOCKED, POWDER_SNOW, FENCE, LAVA, DAMAGE_OTHER,
                              DOOR_WOOD_CLOSED, DOOR_IRON_CLOSED, LEAVES}
    ensures r == 8 <==> t in {WATER, WATER_BORDER, DANGER_FIRE, DANGER_OTHER, STICKY_HONEY}
    ensures r == 16 <==> t == DAMAGE_FIRE
    ensures r == 4 <==> t == BREACH
  {
    match t
    case BLOCKED => BLOCKED_MALUS
    case OPEN => OPEN_MALUS
    case WALKABLE => OPEN_MALUS
    case WALKABLE_DOOR => OPEN_MALUS
    case TRAPDOOR => OPEN_MALUS
    case POWDER_SNOW => BLOCKED_MALUS
    case DANGER_POWDER_SNOW => OPEN_MALUS
    case FENCE => BLOCKED_MALUS
    case LAVA => BLOCKED_MALUS
    case WATER => 8
    case WATER_BORDER => 8
    case RAIL => OPEN_MALUS
    case UNPASSABLE_RAIL => OPEN_MALUS
    case DANGER_FIRE => 8
    case DAMAGE_FIRE => 16
    case DANGER_OTHER => 8
    case DAMAGE_OTHER => BLOCKED_MALUS
    case DOOR_OPEN => OPEN_MALUS
    case DOOR_WOOD_CLOSED => BLOCKED_MALUS
    case DOOR_IRON_CLOSED => BLOCKED_MALUS
    case BREACH => 4
    case LEAVES => BLOCKED_MALUS
    case STICKY_HONEY => 8
    case COCOA => OPEN_MALUS
  }

  /** The classifications whose default is free: the rest of the table. In particular
      UNPASSABLE_RAIL is free by default despite its name. */
  lemma FreeByDefault(t: PathType)
    ensures Malus(t) == OPEN_MALUS <==>
      t in {OPEN, WALKABLE, WALKABLE_DOOR, TRAPDOOR, DANGER_POWDER_SNOW, RAIL, UNPASSABLE_RAIL,
            DOOR_OPEN, COCOA}
  {
    var r := Malus(t);
    assert r in {BLOCKED_MALUS, OPEN_MALUS, 4, 8, 16};
  }
}
