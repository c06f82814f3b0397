// The pure part of the game core: combat resolution, reaction fire and the
// translation of one player command into an ordered list of core events.
// Everything here only reads a snapshot of the world and a stream of dice.

module Rules {
  import opened Types
  import opened Object

  datatype FireMode = Active | Reactive

  datatype CoreEvent =
    | Move(unitId: UnitId, path: MapPath)
    | EndTurn(oldId: PlayerId, newId: PlayerId)
    | CreateUnit(unitId: UnitId, pos: MapPos, typeId: UnitTypeId, playerId: PlayerId)
    | AttackUnit(attackerId: UnitId, defenderId: UnitId, mode: FireMode, killed: bool)

  /** The random source: draw number i of the session. A fair source draws
      uniformly from [-5, 5). */
  type Dice = nat -> int

  ghost predicate FairDice(dice: Dice) {
    forall i: nat :: -5 <= dice(i) < 5
  }

  /** Events produced together with the index of the next unused draw. */
  datatype Outcome = Outcome(events: seq<CoreEvent>, next: nat)

  /** The verdict of a hit test and the index of the next unused draw. */
  datatype Roll = Roll(killed: bool, next: nat)

  /** What command resolution reads of the core: the unit table in its
      iteration order, the players, whose turn it is, the registry and the
      grid metric. */
  datatype World = World(
    units: seq<Unit>,
    players: seq<Player>,
    currentPlayer: PlayerId,
    types: ObjectTypes,
    distance: Metric)

  // ---------------------------------------------------------------------
  // The unit table

  predicate HasUnit(units: seq<Unit>, id: UnitId) {
    exists i :: 0 <= i < |units| && units[i].id == id
  }

  /** The table is keyed by unit id. */
  ghost predicate UniqueIds(units: seq<Unit>) {
    forall i, j :: 0 <= i < j < |units| ==> units[i].id != units[j].id
  }

  ghost predicate WellFormed(w: World) {
    && w.types.Valid()
    && UniqueIds(w.units)
    && forall i :: 0 <= i < |w.units| ==> 0 <= w.units[i].typeId < |w.types.unitTypes|
  }

  /** The unit stored under `id`; a missing id panics in the source. */
  function UnitById(units: seq<Unit>, id: UnitId): (u: Unit)
    requires HasUnit(units, id)
    ensures u in units && u.id == id
  {
    if units[0].id == id then units[0]
    else
      assert HasUnit(units[1..], id) by {
        var i :| 0 <= i < |units| && units[i].id == id;
        assert units[1..][i - 1].id == id;
      }
      UnitById(units[1..], id)
  }

  lemma UnitByIdOfMember(units: seq<Unit>, i: nat)
    requires UniqueIds(units) && i < |units|
    ensures HasUnit(units, units[i].id) && UnitById(units, units[i].id) == units[i]
  {
    var u := UnitById(units, units[i].id);
    var j :| 0 <= j < |units| && units[j] == u;
    assert i == j;
  }

  function MaxId(units: seq<Unit>): (m: UnitId)
    requires units != []
    ensures forall u :: u in units ==> u.id <= m
    ensures exists u :: u in units && u.id == m
  {
    if |units| == 1 then units[0].id
    else
      var rest := MaxId(units[1..]);
      assert forall u :: u in units ==> u == units[0] || u in units[1..];
      if units[0].id >= rest then units[0].id else rest
  }

  /** get_new_unit_id: one past the largest id in the table, 0 for an
      empty table. */
  function NewUnitId(units: seq<Unit>): (r: UnitId)
    ensures forall u :: u in units ==> u.id < r
    ensures units == [] ==> r == 0
    ensures units != [] ==> exists u :: u in units && u.id == r - 1
  {
    if units == [] then 0 else MaxId(units) + 1
  }

  // ---------------------------------------------------------------------
  // Combat

  function TypeOf(w: World, u: Unit): UnitType
    requires WellFormed(w) && u in w.units
  {
    w.types.GetUnitType(u.typeId)
  }

  /** Core::get_weapon_type applied to the unit's type. */
  function WeaponOf(w: World, u: Unit): WeaponType
    requires WellFormed(w) && u in w.units
  {
    w.types.weaponTypes[TypeOf(w, u).weaponTypeId]
  }

  predicate InRange(w: World, attacker: Unit, pos: MapPos)
    requires WellFormed(w) && attacker in w.units
  {
    w.distance(attacker.pos, pos) <= WeaponOf(w, attacker).maxDistance
  }

  function HitThreshold(attacker: UnitType, defender: UnitType, weapon: WeaponType): int {
    -15 + defender.size + weapon.accuracy + attacker.weaponSkill
  }

  function PierceThreshold(defender: UnitType, weapon: WeaponType): int {
    5 + -defender.armor + weapon.ap
  }

  function WoundThreshold(defender: UnitType, weapon: WeaponType): int {
    -defender.toughness + weapon.damage
  }

  /** hit_test: the attacker must reach the defender's stored position, and
      then the hit, pierce and wound draws must each fall strictly below
      their threshold. A failing draw ends the test, so it uses up 0 to 3
      draws. */
  function HitTest(w: World, attackerId: UnitId, defenderId: UnitId, dice: Dice, k: nat): Roll
    requires WellFormed(w) && HasUnit(w.units, attackerId) && HasUnit(w.units, defenderId)
  {
    var attacker := UnitById(w.units, attackerId);
    var defender := UnitById(w.units, defenderId);
    var attackerType := TypeOf(w, attacker);
    var defenderType := TypeOf(w, defender);
    var weapon := WeaponOf(w, attacker);
    if w.distance(attacker.pos, defender.pos) > weapon.maxDistance then Roll(false, k)
    else if !(dice(k) < HitThreshold(attackerType, defenderType, weapon)) then Roll(false, k + 1)
    else if !(dice(k + 1) < PierceThreshold(defenderType, weapon)) then Roll(false, k + 2)
    else if !(dice(k + 2) < WoundThreshold(defenderType, weapon)) then Roll(false, k + 3)
    else Roll(true, k + 3)
  }

  /** A kill needs the attacker to reach the defender's stored position and
      all three draws to pass; a miss in range uses at least one draw, a
      test out of range none. */
  lemma HitTestVerdict(w: World, attackerId: UnitId, defenderId: UnitId, dice: Dice, k: nat)
    requires WellFormed(w) && HasUnit(w.units, attackerId) && HasUnit(w.units, defenderId)
    ensures var a := UnitById(w.units, attackerId);
            var d := UnitById(w.units, defenderId);
            var weapon := WeaponOf(w, a);
            HitTest(w, attackerId, defenderId, dice, k).killed <==>
              && InRange(w, a, d.pos)
              && dice(k) < HitThreshold(TypeOf(w, a), TypeOf(w, d), weapon)
              && dice(k + 1) < PierceThreshold(TypeOf(w, d), weapon)
              && dice(k + 2) < WoundThreshold(TypeOf(w, d), weapon)
    ensures var r := HitTest(w, attackerId, defenderId, dice, k);
            && k <= r.next <= k + 3
            && (r.next == k <==> !InRange(w, UnitById(w.units, attackerId), UnitById(w.units, defenderId).pos))
  {
  }

  /** With a fair die a threshold of -5 or less can never be met, so an
      attack with such a threshold never kills. */
  lemma HopelessAttackNeverKills(w: World, attackerId: UnitId, defenderId: UnitId, dice: Dice, k: nat)
    requires WellFormed(w) && HasUnit(w.units, attackerId) && HasUnit(w.units, defenderId)
    requires FairDice(dice)
    requires var a := UnitById(w.units, attackerId);
             var d := UnitById(w.units, defenderId);
             || HitThreshold(TypeOf(w, a), TypeOf(w, d), WeaponOf(w, a)) <= -5
             || PierceThreshold(TypeOf(w, d), WeaponOf(w, a)) <= -5
             || WoundThreshold(TypeOf(w, d), WeaponOf(w, a)) <= -5
    ensures !HitTest(w, attackerId, defenderId, dice, k).killed
  {
    assert -5 <= dice(k) && -5 <= dice(k + 1) && -5 <= dice(k + 2);
  }

  /** With the built-in tables a soldier's rifle never kills a tank: its
      pierce threshold is 5 - 11 + 1 = -5. */
  lemma SoldierNeverKillsTank(w: World, attackerId: UnitId, defenderId: UnitId, dice: Dice, k: nat)
    requires WellFormed(w) && HasUnit(w.units, attackerId) && HasUnit(w.units, defenderId)
    requires w.types.weaponTypes == [Cannon, Rifle]
    requires w.types.unitTypes == [TankType(0), SoldierType(1)]
    requires UnitById(w.units, attackerId).typeId == 1
    requires UnitById(w.units, defenderId).typeId == 0
    requires FairDice(dice)
    ensures !HitTest(w, attackerId, defenderId, dice, k).killed
  {
    var a := UnitById(w.units, attackerId);
    var d := UnitById(w.units, defenderId);
    assert PierceThreshold(TypeOf(w, d), WeaponOf(w, a)) == -5;
    HopelessAttackNeverKills(w, attackerId, defenderId, dice, k);
  }

  /** With the built-in tables a tank's cannon always pierces and wounds a
      soldier (thresholds 13 and 7), so in range it kills exactly when the
      hit draw is below -1. */
  lemma TankVersusSoldier(w: World, attackerId: UnitId, defenderId: UnitId, dice: Dice, k: nat)
    requires WellFormed(w) && HasUnit(w.units, attackerId) && HasUnit(w.units, defenderId)
    requires w.types.weaponTypes == [Cannon, Rifle]
    requires w.types.unitTypes == [TankType(0), SoldierType(1)]
    requires UnitById(w.units, attackerId).typeId == 0
    requires UnitById(w.units, defenderId).typeId == 1
    requires FairDice(dice)
    requires InRange(w, UnitById(w.units, attackerId), UnitById(w.units, defenderId).pos)
    ensures HitTest(w, attackerId, defenderId, dice, k).killed <==> dice(k) < -1
  {
    assert dice(k + 1) < 5 && dice(k + 2) < 5;
  }

  // ---------------------------------------------------------------------
  // Attacks and reaction fire

  /** is_target_dead: only defined on attack events. */
  function IsTargetDead(event: CoreEvent): bool
    requires event.AttackUnit?
  {
    event.killed
  }

  /** command_attack_unit_to_event: no event when `pos` is beyond the
      attacker's weapon range, otherwise one attack event whose verdict is
      the hit test against the defender's stored position. */
  function AttackToEvents(w: World, attackerId: UnitId, defenderId: UnitId, pos: MapPos,
                          mode: FireMode, dice: Dice, k: nat): (r: Outcome)
    requires WellFormed(w) && HasUnit(w.units, attackerId) && HasUnit(w.units, defenderId)
    ensures !InRange(w, UnitById(w.units, attackerId), pos) ==> r == Outcome([], k)
    ensures InRange(w, UnitById(w.units, attackerId), pos) ==>
      var hit := HitTest(w, attackerId, defenderId, dice, k);
      r == Outcome([CoreEvent.AttackUnit(attackerId, defenderId, mode, hit.killed)], hit.next)
  {
    var attacker := UnitById(w.units, attackerId);
    var weapon := WeaponOf(w, attacker);
    if w.distance(attacker.pos, pos) <= weapon.maxDistance then
      var hit := HitTest(w, attackerId, defenderId, dice, k);
      Outcome([CoreEvent.AttackUnit(attackerId, defenderId, mode, hit.killed)], hit.next)
    else
      Outcome([], k)
  }

  /** The range test of an attack uses `pos`, the hit test the defender's
      stored position. When the two disagree (a unit shot at a waypoint it
      has not yet been moved to, from an enemy that does not reach its
      origin), the attack is recorded as a miss and draws nothing. */
  lemma ShotAtWaypointMisses(w: World, attackerId: UnitId, defenderId: UnitId, pos: MapPos,
                             mode: FireMode, dice: Dice, k: nat)
    requires WellFormed(w) && HasUnit(w.units, attackerId) && HasUnit(w.units, defenderId)
    requires InRange(w, UnitById(w.units, attackerId), pos)
    requires !InRange(w, UnitById(w.units, attackerId), UnitById(w.units, defenderId).pos)
    ensures AttackToEvents(w, attackerId, defenderId, pos, mode, dice, k)
      == Outcome([CoreEvent.AttackUnit(attackerId, defenderId, mode, false)], k)
  {
    HitTestVerdict(w, attackerId, defenderId, dice, k);
  }

  /** A unit that may fire back at `pos`: owned by a player other than the
      current one, with attack points left, and reaching `pos`. */
  predicate Eligible(w: World, enemy: Unit, pos: MapPos)
    requires WellFormed(w) && enemy in w.units
  {
    && enemy.playerId != w.currentPlayer
    && enemy.attackPoints > 0
    && w.distance(enemy.pos, pos) <= w.types.GetUnitMaxAttackDist(enemy)
  }

  /** Ids of the eligible units from index i on, in table order. */
  function EligibleIds(w: World, pos: MapPos, i: nat): seq<UnitId>
    requires WellFormed(w) && i <= |w.units|
    decreases |w.units| - i
  {
    if i == |w.units| then []
    else (if Eligible(w, w.units[i], pos) then [w.units[i].id] else []) + EligibleIds(w, pos, i + 1)
  }

  function AttackerIds(events: seq<CoreEvent>): seq<UnitId> {
    if events == [] then []
    else (if events[0].AttackUnit? then [events[0].attackerId] else []) + AttackerIds(events[1..])
  }

  /** Reactive attacks on `unitId`, none of them lethal. */
  ghost predicate ReactiveMisses(events: seq<CoreEvent>, unitId: UnitId) {
    forall j :: 0 <= j < |events| ==>
      events[j].AttackUnit? && events[j].defenderId == unitId
      && events[j].mode == Reactive && !events[j].killed
  }

  lemma AttackerIdsAppend(a: seq<CoreEvent>, b: seq<CoreEvent>)
    ensures AttackerIds(a + b) == AttackerIds(a) + AttackerIds(b)
  {
    if a != [] {
      assert (a + b)[0] == a[0] && (a + b)[1..] == a[1..] + b;
      AttackerIdsAppend(a[1..], b);
      var head := if a[0].AttackUnit? then [a[0].attackerId] else [];
      assert AttackerIds(a + b) == head + (AttackerIds(a[1..]) + AttackerIds(b));
      assert AttackerIds(a) == head + AttackerIds(a[1..]);
    } else {
      assert a + b == b;
    }
  }

  /** The loop of reaction_fire from unit index i on. */
  function ReactionFireFrom(w: World, unitId: UnitId, pos: MapPos, dice: Dice, i: nat, k: nat): Outcome
    requires WellFormed(w) && HasUnit(w.units, unitId) && i <= |w.units|
    decreases |w.units| - i
  {
    if i == |w.units| then Outcome([], k)
    else
      var enemy := w.units[i];
      if enemy.playerId == w.currentPlayer || enemy.attackPoints <= 0
         || w.distance(enemy.pos, pos) > w.types.GetUnitMaxAttackDist(enemy) then
        ReactionFireFrom(w, unitId, pos, dice, i + 1, k)
      else
        UnitByIdOfMember(w.units, i);
        // The range test of AttackToEvents is the one just passed, so the
        // attack always yields exactly one event and the source's check for
        // an empty result never fires.
        var e := AttackToEvents(w, enemy.id, unitId, pos, Reactive, dice, k);
        if IsTargetDead(e.events[0]) then
          e
        else
          var rest := ReactionFireFrom(w, unitId, pos, dice, i + 1, e.next);
          Outcome(e.events + rest.events, rest.next)
  }

  /** A unit that may not fire is passed over. */
  lemma ReactionFireFromSkip(w: World, unitId: UnitId, pos: MapPos, dice: Dice, i: nat, k: nat)
    requires WellFormed(w) && HasUnit(w.units, unitId) && i < |w.units|
    requires !Eligible(w, w.units[i], pos)
    ensures ReactionFireFrom(w, unitId, pos, dice, i, k) == ReactionFireFrom(w, unitId, pos, dice, i + 1, k)
  {
  }

  /** A unit that may fire shoots once; the scan stops at a kill and goes
      on with the draws left otherwise. */
  lemma ReactionFireFromFire(w: World, unitId: UnitId, pos: MapPos, dice: Dice, i: nat, k: nat)
    requires WellFormed(w) && HasUnit(w.units, unitId) && i < |w.units|
    requires Eligible(w, w.units[i], pos)
    ensures HasUnit(w.units, w.units[i].id)
    ensures var e := AttackToEvents(w, w.units[i].id, unitId, pos, Reactive, dice, k);
      var r := ReactionFireFrom(w, unitId, pos, dice, i, k);
      && |e.events| == 1
      && e.events[0] == CoreEvent.AttackUnit(w.units[i].id, unitId, Reactive, e.events[0].killed)
      && (e.events[0].killed ==> r == e)
      && (!e.events[0].killed ==>
            var rest := ReactionFireFrom(w, unitId, pos, dice, i + 1, e.next);
            r == Outcome(e.events + rest.events, rest.next))
  {
    UnitByIdOfMember(w.units, i);
  }

  /** Every event is a reactive attack on `unitId`. */
  ghost predicate ReactiveOn(events: seq<CoreEvent>, unitId: UnitId) {
    forall j :: 0 <= j < |events| ==>
      events[j].AttackUnit? && events[j].defenderId == unitId && events[j].mode == Reactive
  }

  /** No event but the last is a kill. */
  ghost predicate OnlyLastKills(events: seq<CoreEvent>) {
    forall j :: 0 <= j < |events| - 1 ==> events[j].AttackUnit? ==> !events[j].killed
  }

  lemma ReactiveCons(x: CoreEvent, rest: seq<CoreEvent>, unitId: UnitId)
    requires x.AttackUnit? && x.defenderId == unitId && x.mode == Reactive && !x.killed
    requires ReactiveOn(rest, unitId) && OnlyLastKills(rest)
    ensures ReactiveOn([x] + rest, unitId) && OnlyLastKills([x] + rest)
  {
    var all := [x] + rest;
    forall j | 1 <= j < |all|
      ensures all[j] == rest[j - 1]
    {
    }
  }

  /** From unit index i on, every event is a reactive attack on `unitId`
      and only the last one can be a kill. No shot, no draw used. */
  lemma {:induction false} ReactionFireFromShape(w: World, unitId: UnitId, pos: MapPos, dice: Dice, i: nat, k: nat)
    requires WellFormed(w) && HasUnit(w.units, unitId) && i <= |w.units|
    decreases |w.units| - i
    ensures var r := ReactionFireFrom(w, unitId, pos, dice, i, k);
      && ReactiveOn(r.events, unitId) && OnlyLastKills(r.events)
      && (r.events == [] ==> r.next == k)
  {
    if i < |w.units| {
      var enemy := w.units[i];
      if !Eligible(w, enemy, pos) {
        ReactionFireFromSkip(w, unitId, pos, dice, i, k);
        ReactionFireFromShape(w, unitId, pos, dice, i + 1, k);
      } else {
        ReactionFireFromFire(w, unitId, pos, dice, i, k);
        var e := AttackToEvents(w, enemy.id, unitId, pos, Reactive, dice, k);
        if !e.events[0].killed {
          ReactionFireFromShape(w, unitId, pos, dice, i + 1, e.next);
          var rest := ReactionFireFrom(w, unitId, pos, dice, i + 1, e.next);
          ReactiveCons(e.events[0], rest.events, unitId);
          assert e.events == [e.events[0]];
        }
      }
    }
  }

  /** From unit index i on, the shooters are the eligible units in table
      order, cut short only by a kill: a prefix of them always, and all of
      them when no shot killed. */
  lemma {:induction false} ReactionFireFromShooters(w: World, unitId: UnitId, pos: MapPos, dice: Dice, i: nat, k: nat)
    requires WellFormed(w) && HasUnit(w.units, unitId) && i <= |w.units|
    decreases |w.units| - i
    ensures var r := ReactionFireFrom(w, unitId, pos, dice, i, k);
      && AttackerIds(r.events) <= EligibleIds(w, pos, i)
      && (ReactiveMisses(r.events, unitId) ==> AttackerIds(r.events) == EligibleIds(w, pos, i))
  {
    if i < |w.units| {
      var enemy := w.units[i];
      if !Eligible(w, enemy, pos) {
        ReactionFireFromSkip(w, unitId, pos, dice, i, k);
        ReactionFireFromShooters(w, unitId, pos, dice, i + 1, k);
      } else {
        ReactionFireFromFire(w, unitId, pos, dice, i, k);
        var e := AttackToEvents(w, enemy.id, unitId, pos, Reactive, dice, k);
        if !e.events[0].killed {
          var rest := ReactionFireFrom(w, unitId, pos, dice, i + 1, e.next);
          ReactionFireFromShooters(w, unitId, pos, dice, i + 1, e.next);
          AttackerIdsAppend(e.events, rest.events);
          if ReactiveMisses(e.events + rest.events, unitId) {
            assert ReactiveMisses(rest.events, unitId) by {
              forall j | 0 <= j < |rest.events|
                ensures rest.events[j] == (e.events + rest.events)[j + 1]
              {
              }
            }
          }
        }
      }
    }
  }

  /** reaction_fire: the reaction of the whole unit table to `unitId`
      standing at `pos`. */
  function ReactionFire(w: World, unitId: UnitId, pos: MapPos, dice: Dice, k: nat): Outcome
    requires WellFormed(w) && HasUnit(w.units, unitId)
  {
    ReactionFireFrom(w, unitId, pos, dice, 0, k)
  }

  /** Waypoint j is the first one from index `from` on at which reaction
      fire answers. */
  ghost predicate FirstInterrupt(w: World, path: MapPath, unitId: UnitId, dice: Dice, k: nat, from: nat, j: nat)
    requires WellFormed(w) && HasUnit(w.units, unitId)
  {
    && from <= j < |path|
    && ReactionFire(w, unitId, path[j], dice, k).events != []
    && forall m :: from <= m < j ==> ReactionFire(w, unitId, path[m], dice, k).events == []
  }

  /** The events of a move interrupted at waypoint j: the move cut short
      after that waypoint, then the reaction fire it drew. */
  function Interrupted(w: World, path: MapPath, unitId: UnitId, dice: Dice, k: nat, j: nat): Outcome
    requires WellFormed(w) && HasUnit(w.units, unitId) && j < |path|
  {
    var e := ReactionFire(w, unitId, path[j], dice, k);
    Outcome([CoreEvent.Move(unitId, path[..j + 1])] + e.events, e.next)
  }

  /** The loop of reaction_fire_move from waypoint i on. */
  function ReactionFireMoveFrom(w: World, path: MapPath, unitId: UnitId, dice: Dice, i: nat, k: nat): Outcome
    requires WellFormed(w) && HasUnit(w.units, unitId) && 1 <= i
    decreases |path| - i
  {
    if i >= |path| then Outcome([], k)
    else
      var e := ReactionFire(w, unitId, path[i], dice, k);
      if e.events != [] then
        Outcome([CoreEvent.Move(unitId, path[..i + 1])] + e.events, e.next)
      else
        ReactionFireMoveFrom(w, path, unitId, dice, i + 1, e.next)
  }

  /** A waypoint check that finds no shooter uses up no draws. */
  lemma QuietWaypoint(w: World, unitId: UnitId, pos: MapPos, dice: Dice, k: nat)
    requires WellFormed(w) && HasUnit(w.units, unitId)
    requires ReactionFire(w, unitId, pos, dice, k).events == []
    ensures ReactionFire(w, unitId, pos, dice, k).next == k
  {
    ReactionFireFromShape(w, unitId, pos, dice, 0, k);
  }

  /** The scan of the waypoints from i on yields nothing exactly when no
      waypoint draws fire, and then uses up no draws. */
  lemma {:induction false} ReactionFireMoveFromQuiet(w: World, path: MapPath, unitId: UnitId, dice: Dice, i: nat, k: nat)
    requires WellFormed(w) && HasUnit(w.units, unitId) && 1 <= i
    decreases |path| - i
    ensures var r := ReactionFireMoveFrom(w, path, unitId, dice, i, k);
      && (r.events == [] <==> forall j :: i <= j < |path| ==> ReactionFire(w, unitId, path[j], dice, k).events == [])
      && (r.events == [] ==> r.next == k)
  {
    if i < |path| && ReactionFire(w, unitId, path[i], dice, k).events == [] {
      QuietWaypoint(w, unitId, path[i], dice, k);
      ReactionFireMoveFromQuiet(w, path, unitId, dice, i + 1, k);
    }
  }

  /** Otherwise the scan yields the move cut short at the first waypoint
      that draws fire, followed by that waypoint's reaction; every waypoint
      is checked with the same draw index. */
  lemma {:induction false} ReactionFireMoveFromInterrupt(w: World, path: MapPath, unitId: UnitId, dice: Dice, i: nat, k: nat)
    requires WellFormed(w) && HasUnit(w.units, unitId) && 1 <= i
    requires ReactionFireMoveFrom(w, path, unitId, dice, i, k).events != []
    decreases |path| - i
    ensures exists j: nat :: (FirstInterrupt(w, path, unitId, dice, k, i, j)
      && ReactionFireMoveFrom(w, path, unitId, dice, i, k) == Interrupted(w, path, unitId, dice, k, j))
  {
    if ReactionFire(w, unitId, path[i], dice, k).events != [] {
      assert FirstInterrupt(w, path, unitId, dice, k, i, i);
    } else {
      QuietWaypoint(w, unitId, path[i], dice, k);
      assert ReactionFireMoveFrom(w, path, unitId, dice, i, k) == ReactionFireMoveFrom(w, path, unitId, dice, i + 1, k);
      ReactionFireMoveFromInterrupt(w, path, unitId, dice, i + 1, k);
      var j: nat :| FirstInterrupt(w, path, unitId, dice, k, i + 1, j)
        && ReactionFireMoveFrom(w, path, unitId, dice, i + 1, k) == Interrupted(w, path, unitId, dice, k, j);
      forall m | i <= m < j
        ensures ReactionFire(w, unitId, path[m], dice, k).events == []
      {
        if m > i {
          assert i + 1 <= m < j;
        }
      }
      assert FirstInterrupt(w, path, unitId, dice, k, i, j)
        && ReactionFireMoveFrom(w, path, unitId, dice, i, k) == Interrupted(w, path, unitId, dice, k, j);
    }
  }

  /** reaction_fire_move: waypoints are checked from index 1 (the first
      step past the origin). */
  function ReactionFireMove(w: World, path: MapPath, unitId: UnitId, dice: Dice, k: nat): Outcome
    requires WellFormed(w) && HasUnit(w.units, unitId)
  {
    ReactionFireMoveFrom(w, path, unitId, dice, 1, k)
  }

  /** Every shooter of reaction fire belongs to a player other than the
      current one, has attack points left and reaches `pos`; the target is
      always the given unit, in reactive mode. */
  lemma ReactionFireShooters(w: World, unitId: UnitId, pos: MapPos, dice: Dice, k: nat)
    requires WellFormed(w) && HasUnit(w.units, unitId)
    ensures forall e :: e in ReactionFire(w, unitId, pos, dice, k).events ==>
      && e.AttackUnit? && e.defenderId == unitId && e.mode == Reactive
      && HasUnit(w.units, e.attackerId)
      && Eligible(w, UnitById(w.units, e.attackerId), pos)
  {
    var events := ReactionFire(w, unitId, pos, dice, k).events;
    ReactionFireFromShape(w, unitId, pos, dice, 0, k);
    ReactionFireFromShooters(w, unitId, pos, dice, 0, k);
    forall e | e in events
      ensures e.AttackUnit? && HasUnit(w.units, e.attackerId)
      ensures Eligible(w, UnitById(w.units, e.attackerId), pos)
    {
      var j :| 0 <= j < |events| && events[j] == e;
      AttackerIdsAt(events, j);
      var n := |AttackerIds(events[..j])|;
      assert events == events[..j] + events[j..];
      AttackerIdsAppend(events[..j], events[j..]);
      assert AttackerIds(events)[n] == e.attackerId;
      EligibleIdsSound(w, pos, 0, n);
    }
  }

  lemma AttackerIdsAt(events: seq<CoreEvent>, j: nat)
    requires j < |events| && events[j].AttackUnit?
    ensures AttackerIds(events[j..]) == [events[j].attackerId] + AttackerIds(events[j + 1..])
  {
    assert events[j..][1..] == events[j + 1..];
  }

  /** Each entry of EligibleIds names an eligible unit. */
  lemma {:induction false} EligibleIdsSound(w: World, pos: MapPos, i: nat, n: nat)
    requires WellFormed(w) && i <= |w.units| && n < |EligibleIds(w, pos, i)|
    decreases |w.units| - i
    ensures HasUnit(w.units, EligibleIds(w, pos, i)[n])
    ensures Eligible(w, UnitById(w.units, EligibleIds(w, pos, i)[n]), pos)
  {
    if Eligible(w, w.units[i], pos) && n == 0 {
      UnitByIdOfMember(w.units, i);
    } else {
      EligibleIdsSound(w, pos, i + 1, if Eligible(w, w.units[i], pos) then n - 1 else n);
    }
  }

  // ---------------------------------------------------------------------
  // Commands

  /** What command_to_event needs in order not to panic. */
  predicate Resolvable(w: World, command: Command)
    requires WellFormed(w)
  {
    match command
    case EndTurn => true
    case CreateUnit(_) => w.types.HasUnitType("soldier")
    case Move(unitId, _) => HasUnit(w.units, unitId)
    case AttackUnit(attackerId, defenderId) => HasUnit(w.units, attackerId) && HasUnit(w.units, defenderId)
  }

  /** command_to_event */
  function CommandToEvent(w: World, command: Command, dice: Dice, k: nat): Outcome
    requires WellFormed(w) && Resolvable(w, command)
  {
    match command
    case EndTurn =>
      var oldId := w.currentPlayer;
      var newId := if oldId + 1 == |w.players| then 0 else oldId + 1;
      Outcome([CoreEvent.EndTurn(oldId, newId)], k)
    case CreateUnit(pos) =>
      Outcome([CoreEvent.CreateUnit(NewUnitId(w.units), pos, w.types.GetUnitTypeId("soldier"), w.currentPlayer)], k)
    case Move(unitId, path) =>
      var e := ReactionFireMove(w, path, unitId, dice, k);
      if e.events == [] then Outcome([CoreEvent.Move(unitId, path)], e.next) else e
    case AttackUnit(attackerId, defenderId) =>
      var defenderPos := UnitById(w.units, defenderId).pos;
      var e := AttackToEvents(w, attackerId, defenderId, defenderPos, Active, dice, k);
      if e.events != [] && !IsTargetDead(e.events[0]) then
        var pos := UnitById(w.units, attackerId).pos;
        var reaction := ReactionFire(w, attackerId, pos, dice, e.next);
        Outcome(e.events + reaction.events, reaction.next)
      else
        e
  }

  /** EndTurn hands the turn to the next player, wrapping around after the
      last one. */
  lemma EndTurnResolution(w: World, dice: Dice, k: nat)
    requires WellFormed(w) && 0 <= w.currentPlayer < |w.players|
    ensures CommandToEvent(w, Command.EndTurn, dice, k)
      == Outcome([CoreEvent.EndTurn(w.currentPlayer, (w.currentPlayer + 1) % |w.players|)], k)
  {
  }

  /** CreateUnit makes one soldier for the current player under an id that
      no unit in the table has. */
  lemma CreateUnitResolution(w: World, pos: MapPos, dice: Dice, k: nat)
    requires WellFormed(w) && w.types.HasUnitType("soldier")
    ensures var out := CommandToEvent(w, Command.CreateUnit(pos), dice, k);
      && |out.events| == 1 && out.next == k
      && out.events[0].CreateUnit? && out.events[0].pos == pos
      && out.events[0].playerId == w.currentPlayer
      && w.types.unitTypes[out.events[0].typeId].name == "soldier"
      && !HasUnit(w.units, out.events[0].unitId)
  {
  }

  /** A move that passes no waypoint under fire is one Move event over the
      whole path; otherwise the events are exactly those of the waypoint
      scan: the move cut short at the first waypoint under fire, then the
      reaction fire at that waypoint. */
  lemma MoveResolution(w: World, unitId: UnitId, path: MapPath, dice: Dice, k: nat)
    requires WellFormed(w) && HasUnit(w.units, unitId)
    ensures var out := CommandToEvent(w, Command.Move(unitId, path), dice, k);
      && ((forall j :: 1 <= j < |path| ==> ReactionFire(w, unitId, path[j], dice, k).events == []) ==>
            out == Outcome([CoreEvent.Move(unitId, path)], k))
      && (!(forall j :: 1 <= j < |path| ==> ReactionFire(w, unitId, path[j], dice, k).events == []) ==>
            out == ReactionFireMove(w, path, unitId, dice, k)
            && exists j: nat :: FirstInterrupt(w, path, unitId, dice, k, 1, j) && out == Interrupted(w, path, unitId, dice, k, j))
  {
    ReactionFireMoveFromQuiet(w, path, unitId, dice, 1, k);
    if ReactionFireMove(w, path, unitId, dice, k).events != [] {
      ReactionFireMoveFromInterrupt(w, path, unitId, dice, 1, k);
    }
  }

  /** Whatever happens, a move command yields the unit's move along a
      prefix of its path that keeps the origin, followed only by reactive
      attacks on the moving unit, and the move is cut short only where fire
      is drawn. */
  lemma MoveEventsShape(w: World, unitId: UnitId, path: MapPath, dice: Dice, k: nat)
    requires WellFormed(w) && HasUnit(w.units, unitId)
    ensures var out := CommandToEvent(w, Command.Move(unitId, path), dice, k);
      && out.events != [] && out.events[0].Move? && out.events[0].unitId == unitId
      && out.events[0].path <= path
      && (out.events[0].path != path ==> 2 <= |out.events[0].path| && |out.events| > 1)
      && forall m :: 1 <= m < |out.events| ==>
           out.events[m].AttackUnit? && out.events[m].defenderId == unitId && out.events[m].mode == Reactive
  {
    MoveResolution(w, unitId, path, dice, k);
    var out := CommandToEvent(w, Command.Move(unitId, path), dice, k);
    if out != Outcome([CoreEvent.Move(unitId, path)], k) {
      var j: nat :| FirstInterrupt(w, path, unitId, dice, k, 1, j) && out == Interrupted(w, path, unitId, dice, k, j);
      var e := ReactionFire(w, unitId, path[j], dice, k);
      ReactionFireFromShape(w, unitId, path[j], dice, 0, k);
      assert out.events == [CoreEvent.Move(unitId, path[..j + 1])] + e.events;
      forall m | 1 <= m < |out.events|
        ensures out.events[m].AttackUnit? && out.events[m].defenderId == unitId && out.events[m].mode == Reactive
      {
        assert out.events[m] == e.events[m - 1];
      }
    }
  }

  /** An attack out of range of the defender's stored position is rejected
      with no event. In range it yields one active attack whose verdict is
      the hit test; reaction fire at the attacker's own position follows
      only when the defender survives. */
  lemma AttackResolution(w: World, attackerId: UnitId, defenderId: UnitId, dice: Dice, k: nat)
    requires WellFormed(w) && HasUnit(w.units, attackerId) && HasUnit(w.units, defenderId)
    ensures var out := CommandToEvent(w, Command.AttackUnit(attackerId, defenderId), dice, k);
      var attacker := UnitById(w.units, attackerId);
      var defender := UnitById(w.units, defenderId);
      var hit := HitTest(w, attackerId, defenderId, dice, k);
      && (!InRange(w, attacker, defender.pos) ==> out == Outcome([], k))
      && (InRange(w, attacker, defender.pos) ==>
            && out.events != []
            && out.events[0] == CoreEvent.AttackUnit(attackerId, defenderId, Active, hit.killed)
            && (hit.killed ==> out == Outcome([out.events[0]], hit.next))
            && (!hit.killed ==>
                  var reaction := ReactionFire(w, attackerId, attacker.pos, dice, hit.next);
                  out == Outcome([out.events[0]] + reaction.events, reaction.next)))
  {
  }
}
