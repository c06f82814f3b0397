// The read-only registry of unit types and weapon types (ObjectTypes).
// It is filled once at start-up from built-in tables and only read after.

module Object {
  import opened Types

  const Cannon := WeaponType("cannon", 9, 9, 5, 5)
  const Rifle := WeaponType("rifle", 2, 1, 5, 3)

  function TankType(cannon: WeaponTypeId): UnitType {
    UnitType("tank", Vehicle, 6, 1, 11, 9, 5, cannon, 5, 2)
  }

  function SoldierType(rifle: WeaponTypeId): UnitType {
    UnitType("soldier", Infantry, 4, 4, 1, 2, 5, rifle, 3, 2)
  }

  /** First index at or after `from` holding `name`: the scan both lookups make. */
  function FindName(names: seq<string>, name: string, from: nat): (r: Option<nat>)
    requires from <= |names|
    decreases |names| - from
    ensures r.Some? ==> from <= r.value < |names| && names[r.value] == name
    ensures r.Some? ==> forall j :: from <= j < r.value ==> names[j] != name
    ensures r.None? <==> forall j :: from <= j < |names| ==> names[j] != name
  {
    if from == |names| then None
    else if names[from] == name then Some(from)
    else FindName(names, name, from + 1)
  }

  datatype ObjectTypes = ObjectTypes(unitTypes: seq<UnitType>, weaponTypes: seq<WeaponType>) {

    /** Every unit type refers to a registered weapon type. */
    ghost predicate Valid() {
      forall i :: 0 <= i < |unitTypes| ==> 0 <= unitTypes[i].weaponTypeId < |weaponTypes|
    }

    function UnitTypeNames(): (r: seq<string>)
      ensures |r| == |unitTypes| && forall i :: 0 <= i < |r| ==> r[i] == unitTypes[i].name
    {
      seq(|unitTypes|, i requires 0 <= i < |unitTypes| => unitTypes[i].name)
    }

    function WeaponTypeNames(): (r: seq<string>)
      ensures |r| == |weaponTypes| && forall i :: 0 <= i < |r| ==> r[i] == weaponTypes[i].name
    {
      seq(|weaponTypes|, i requires 0 <= i < |weaponTypes| => weaponTypes[i].name)
    }

    predicate HasUnitType(name: string) {
      exists i :: 0 <= i < |unitTypes| && unitTypes[i].name == name
    }

    predicate HasWeaponType(name: string) {
      exists i :: 0 <= i < |weaponTypes| && weaponTypes[i].name == name
    }

    /** get_unit_type_id_opt: the first unit type with this name, if any. */
    function GetUnitTypeIdOpt(name: string): (r: Option<UnitTypeId>)
      ensures r.Some? <==> HasUnitType(name)
      ensures r.Some? ==> 0 <= r.value < |unitTypes| && unitTypes[r.value].name == name
      ensures r.Some? ==> forall j :: 0 <= j < r.value ==> unitTypes[j].name != name
    {
      match FindName(UnitTypeNames(), name, 0)
      case Some(i) => Some(i)
      case None => None
    }

    /** get_unit_type_id: panics when the name is not registered. */
    function GetUnitTypeId(name: string): (r: UnitTypeId)
      requires HasUnitType(name)
      ensures 0 <= r < |unitTypes| && unitTypes[r].name == name
      ensures forall j :: 0 <= j < r ==> unitTypes[j].name != name
    {
      GetUnitTypeIdOpt(name).value
    }

    /** get_weapon_type_id: panics when the name is not registered. */
    function GetWeaponTypeId(name: string): (r: WeaponTypeId)
      requires HasWeaponType(name)
      ensures 0 <= r < |weaponTypes| && weaponTypes[r].name == name
      ensures forall j :: 0 <= j < r ==> weaponTypes[j].name != name
    {
      FindName(WeaponTypeNames(), name, 0).value
    }

    /** get_unit_type: plain indexing; out of range panics. */
    function GetUnitType(id: UnitTypeId): UnitType
      requires 0 <= id < |unitTypes|
    {
      unitTypes[id]
    }

    /** get_unit_max_attack_dist: the range of the unit's weapon. */
    function GetUnitMaxAttackDist(unit: Unit): int
      requires Valid() && 0 <= unit.typeId < |unitTypes|
    {
      weaponTypes[GetUnitType(unit.typeId).weaponTypeId].maxDistance
    }
  }

  /** get_weapon_types: appends the built-in weapon table. */
  method RegisterWeaponTypes(t: ObjectTypes) returns (r: ObjectTypes)
    ensures r.unitTypes == t.unitTypes
    ensures r.weaponTypes == t.weaponTypes + [Cannon, Rifle]
  {
    r := t.(weaponTypes := t.weaponTypes + [Cannon]);
    r := r.(weaponTypes := r.weaponTypes + [Rifle]);
  }

  /** get_unit_types: appends the built-in unit table, whose weapons are
      looked up by name in the weapons registered so far. */
  method RegisterUnitTypes(t: ObjectTypes) returns (r: ObjectTypes)
    requires t.HasWeaponType("cannon") && t.HasWeaponType("rifle")
    ensures r.weaponTypes == t.weaponTypes
    ensures r.unitTypes == t.unitTypes
      + [TankType(t.GetWeaponTypeId("cannon")), SoldierType(t.GetWeaponTypeId("rifle"))]
  {
    var cannonId := t.GetWeaponTypeId("cannon");
    var rifleId := t.GetWeaponTypeId("rifle");
    r := t.(unitTypes := t.unitTypes + [TankType(cannonId)]);
    r := r.(unitTypes := r.unitTypes + [SoldierType(rifleId)]);
  }

  /** ObjectTypes::new: weapons are registered before unit types, so the
      name lookups of RegisterUnitTypes succeed. */
  method New() returns (t: ObjectTypes)
    ensures t.Valid()
    ensures t.weaponTypes == [Cannon, Rifle]
    ensures t.unitTypes == [TankType(0), SoldierType(1)]
    ensures t.HasWeaponType("cannon") && t.GetWeaponTypeId("cannon") == 0
    ensures t.HasWeaponType("rifle") && t.GetWeaponTypeId("rifle") == 1
    ensures t.HasUnitType("tank") && t.GetUnitTypeId("tank") == 0
    ensures t.HasUnitType("soldier") && t.GetUnitTypeId("soldier") == 1
  {
    t := ObjectTypes([], []);
    t := RegisterWeaponTypes(t);
    BuiltInWeaponNames(t);
    t := RegisterUnitTypes(t);
    BuiltInUnitNames(t);
  }

  /** The two built-in weapons are found under their own names. */
  lemma BuiltInWeaponNames(t: ObjectTypes)
    requires t.weaponTypes == [Cannon, Rifle]
    ensures t.HasWeaponType("cannon") && t.GetWeaponTypeId("cannon") == 0
    ensures t.HasWeaponType("rifle") && t.GetWeaponTypeId("rifle") == 1
  {
    assert t.weaponTypes[0].name == "cannon" && t.weaponTypes[1].name == "rifle";
    assert "cannon"[0] != "rifle"[0];
  }

  /** The two built-in unit types are found under their own names. */
  lemma BuiltInUnitNames(t: ObjectTypes)
    requires t.unitTypes == [TankType(0), SoldierType(1)]
    ensures t.HasUnitType("tank") && t.GetUnitTypeId("tank") == 0
    ensures t.HasUnitType("soldier") && t.GetUnitTypeId("soldier") == 1
  {
    assert t.unitTypes[0].name == "tank" && t.unitTypes[1].name == "soldier";
    assert "tank"[0] != "soldier"[0];
  }

  /** The built-in ranges: a tank (cannon) reaches 5 cells, a soldier
      (rifle) 3. */
  lemma BuiltInAttackRanges(t: ObjectTypes, unit: Unit)
    requires t.weaponTypes == [Cannon, Rifle]
    requires t.unitTypes == [TankType(0), SoldierType(1)]
    requires 0 <= unit.typeId < 2
    ensures t.Valid()
    ensures t.GetUnitMaxAttackDist(unit) == if unit.typeId == 0 then 5 else 3
  {
  }
}
