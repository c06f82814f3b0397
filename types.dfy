// Shared records of the game core: identifiers, map positions, unit and
// weapon statistics, units, players and player commands. The Rust sources
// of these records (common::types, unit, player, command) are not part of
// this model; only the fields the core reads are kept.

module Types {

  datatype Option<T> = None | Some(value: T)

  type PlayerId = int
  type UnitId = int
  type UnitTypeId = int
  type WeaponTypeId = int

  /** A hex-grid cell; the grid metric between two cells is an oracle. */
  datatype MapPos = MapPos(x: int, y: int)

  /** The waypoints of a path found by the pathfinder, origin first. */
  type MapPath = seq<MapPos>

  /** Hex distance between two positions (map::distance, not shown). */
  type Metric = (MapPos, MapPos) -> int

  datatype UnitClass = Infantry | Vehicle

  datatype WeaponType = WeaponType(
    name: string,
    damage: int,
    ap: int,
    accuracy: int,
    maxDistance: int)

  datatype UnitType = UnitType(
    name: string,
    unitClass: UnitClass,
    size: int,
    count: int,
    armor: int,
    toughness: int,
    weaponSkill: int,
    weaponTypeId: WeaponTypeId,
    movePoints: int,
    attackPoints: int)

  datatype Unit = Unit(
    id: UnitId,
    pos: MapPos,
    typeId: UnitTypeId,
    playerId: PlayerId,
    attackPoints: int)

  datatype Player = Player(id: PlayerId, isAi: bool)

  datatype Command =
    | EndTurn
    | CreateUnit(pos: MapPos)
    | Move(unitId: UnitId, path: MapPath)
    | AttackUnit(attackerId: UnitId, defenderId: UnitId)
}
