# zoc game core in Dafny

This project models the rules engine of zoc, a turn-based hex wargame. The
core takes a player's command (end turn, create unit, move, attack) and
resolves it into core events against the canonical unit table. A move can be
cut short by enemy reaction fire, and an attack goes through hit, pierce and
wound dice tests. The core then applies the events one by one: it hands the
turn over on EndTurn, updates the unit table and appends every event to each
player's event queue. Players pull their events from that queue.
The registry of unit and weapon types (ObjectTypes) is modelled too.

The model has four modules:

- `Types` (types.dfy): the shared records the core reads (ids, positions,
  unit and weapon statistics, units, players, commands).
- `Object` (object.dfy): the type registry, its built-in tables and its
  name lookups.
- `Rules` (rules.dfy): the pure part of the core, as functions with lemmas.
  This covers the hit test, attack resolution, reaction fire (at one position
  and along a path), and command-to-event resolution. These functions are
  also the specifications of the methods in `Engine`.
- `Engine` (engine.dfy): the stateful `Core` class. Its fields are the unit
  table, whose turn it is, the pending-event stack and the per-player
  queues. Its methods carry the loops of the source and are proved equal to
  the `Rules` functions, or to folds over the events they process.

Some inputs are parameters of the model rather than code:

- The random source is a stream of draws `dice: nat -> int` with a cursor.
  A fair die gives values in [-5, 5). Every resolution function takes the
  cursor and returns the next one. The hit test uses 0 to 3 draws, stopping
  at the first failed test.
- The hex distance is a function parameter.
- InternalState::apply_event is a function parameter, seen through the unit
  table.

## Model

| member | source | states |
|---|---|---|
| Object.ObjectTypes.GetUnitTypeIdOpt | src/core/object.rs:71-78 | Some exactly when a unit type of that name is registered; the id is the first index with that name |
| Object.ObjectTypes.GetUnitTypeId | src/core/object.rs:84-89 | For a registered name, the first index whose unit type has that name (a missing name panics) |
| Object.ObjectTypes.GetWeaponTypeId | src/core/object.rs:91-98 | For a registered name, the first index whose weapon type has that name (a missing name panics) |
| Object.FindName | src/core/object.rs:72-77 | The scan by name from an index on: a match with no earlier match, or None exactly when no entry matches; both lookups run it, over the unit type names and over the weapon type names (object.rs:92-97) |
| Object.RegisterWeaponTypes | src/core/object.rs:24-39 | Appends cannon (9, 9, 5, range 5) then rifle (2, 1, 5, range 3); unit types untouched |
| Object.RegisterUnitTypes | src/core/object.rs:42-69 | Appends tank then soldier, each armed with the weapon id found by name |
| Object.New | src/core/object.rs:13-21 | The registry is consistent; cannon is weapon 0, rifle 1, tank is unit type 0, soldier 1, and the name lookups return those ids |
| Object.BuiltInWeaponNames | src/core/object.rs:25-38 | In the built-in table, cannon is found as weapon 0 and rifle as weapon 1 |
| Object.BuiltInUnitNames | src/core/object.rs:45-68 | In the built-in table, tank is found as unit type 0 and soldier as unit type 1 |
| Object.BuiltInAttackRanges | src/core/object.rs:100-105 | With the built-in tables a tank reaches 5 cells and a soldier 3 |
| Rules.UnitById | src/core/src/core.rs:135-140 | The unit returned is in the table and has the requested id |
| Rules.MaxId | src/core/src/core.rs:112-119 | The largest id in a non-empty table |
| Rules.NewUnitId | src/core/src/core.rs:112-119 | Larger than every id in the table; 0 for an empty table, otherwise one more than an existing id |
| Rules.HitTest | src/core/src/core.rs:146-183 | No contract of its own; its properties are stated by `HitTestVerdict`, `HopelessAttackNeverKills`, `SoldierNeverKillsTank` and `TankVersusSoldier` |
| Rules.HitTestVerdict | src/core/src/core.rs:146-183 | A kill exactly when the attacker reaches the defender and the hit, pierce and wound draws fall below their thresholds; out of range uses no draw, otherwise 1 to 3 |
| Rules.HopelessAttackNeverKills | src/core/src/core.rs:163-181 | With a fair die, a threshold of -5 or less can never be passed |
| Rules.SoldierNeverKillsTank | src/core/src/core.rs:163-181 | With the built-in tables a rifle never kills a tank |
| Rules.TankVersusSoldier | src/core/src/core.rs:163-181 | In range, a cannon kills a soldier exactly when the hit draw is below -1 |
| Rules.AttackToEvents | src/core/src/core.rs:202-226 | No event and no draw when out of range of the given position; otherwise one attack event whose verdict is the hit test |
| Rules.ShotAtWaypointMisses | src/core/src/core.rs:215-216 | In range of the given position but not of the defender's stored position: a recorded miss that uses no draw |
| Rules.ReactionFireFrom | src/core/src/core.rs:228-254 | No contract of its own: the scan of reaction_fire from one table index on; its properties are stated by `ReactionFireFromSkip`, `ReactionFireFromFire`, `ReactionFireFromShape`, `ReactionFireFromShooters` and `ReactionFireShooters` |
| Rules.ReactionFire | src/core/src/core.rs:228-254 | No contract of its own: `ReactionFireFrom` from index 0; the lemmas named for `ReactionFireFrom` state its properties, and `Engine.Core.ReactionFire` is proved equal to it |
| Rules.ReactionFireFromSkip | src/core/src/core.rs:231-241 | A unit of the current player, without attack points, or out of reach of the position is passed over |
| Rules.ReactionFireFromFire | src/core/src/core.rs:242-251 | Any other unit fires exactly one reactive shot at the unit; the scan stops on a kill and otherwise goes on with the remaining draws |
| Rules.ReactionFireFromShape | src/core/src/core.rs:228-254 | Only reactive attacks on the unit; only the last can be a kill; no shot, no draw |
| Rules.ReactionFireFromShooters | src/core/src/core.rs:228-254 | The shooters are a prefix of the eligible units in table order, and all of them when nobody kills |
| Rules.ReactionFireShooters | src/core/src/core.rs:231-241 | Every shooter belongs to another player, has attack points left and reaches the position |
| Rules.AttackerIdsAppend | src/core/src/core.rs:245 | Shooters of concatenated event lists are concatenated |
| Rules.ReactionFireMoveFrom | src/core/src/core.rs:256-274 | No contract of its own: the waypoint loop of reaction_fire_move from one index on; its properties are stated by `QuietWaypoint`, `ReactionFireMoveFromQuiet` and `ReactionFireMoveFromInterrupt` |
| Rules.ReactionFireMove | src/core/src/core.rs:256-274 | No contract of its own: `ReactionFireMoveFrom` from waypoint 1; the lemmas named for `ReactionFireMoveFrom` state its properties, and `Engine.Core.ReactionFireMove` is proved equal to it |
| Rules.QuietWaypoint | src/core/src/core.rs:261-262 | A waypoint with no reaction fire uses no draw |
| Rules.ReactionFireMoveFromQuiet | src/core/src/core.rs:256-274 | No event exactly when no waypoint from index 1 on draws fire, and then no draw is used |
| Rules.ReactionFireMoveFromInterrupt | src/core/src/core.rs:256-274 | Otherwise, the events are the move cut at the first waypoint under fire, followed by the fire at that waypoint |
| Rules.CommandToEvent | src/core/src/core.rs:278-328 | No contract of its own; its properties are stated by `EndTurnResolution`, `CreateUnitResolution`, `MoveResolution`, `MoveEventsShape` and `AttackResolution`, and `Engine.Core.CommandToEvent` is proved equal to it |
| Rules.EndTurnResolution | src/core/src/core.rs:281-293 | EndTurn yields one event passing the turn to (current + 1) mod the number of players |
| Rules.CreateUnitResolution | src/core/src/core.rs:295-302 | One soldier for the current player at the position, under an id no unit has |
| Rules.MoveResolution | src/core/src/core.rs:303-315 | A move drawing no fire is one Move over the whole path; otherwise it is the interrupted move |
| Rules.MoveEventsShape | src/core/src/core.rs:303-315 | A move yields the unit's move along a prefix of its path, followed only by reactive attacks on it; it is cut only when fire is drawn |
| Rules.AttackResolution | src/core/src/core.rs:316-326 | Out of range: rejected with no event. In range: one active attack, then reaction fire at the attacker's position only if the defender survived |
| Engine.ReverseIndex | src/core/src/core.rs:374-376 | The stack's pop order: the element at index i comes from index n-1-i |
| Engine.TurnsAfterWithoutEndTurn | src/core/src/core.rs:376-378 | Events other than EndTurn never move the turn |
| Engine.EndTurnPassesTurn | src/core/src/core.rs:281-293 | Resolving and handling EndTurn hands the turn to the next player in list order, wrapping around |
| Engine.PublishedTrans | src/core/src/core.rs:380-384 | Appending two batches to every queue appends their concatenation |
| Engine.FoldSnoc | src/core/src/core.rs:373-387 | Applying one more event extends the unit-table fold and the turn fold by that event |
| Engine.OpeningLayout | src/core/src/core.rs:93-110 | Six units per side, in column 0 for player 0 and column 9 for player 1, rows 1 to 6: tank, three soldiers, two tanks |
| Engine.FreshIdsSnoc | src/core/src/core.rs:121-129 | A CreateUnit under the id new_unit_id picks in the current table keeps every CreateUnit's id the one picked in the table built before it |
| Engine.Core.constructor | src/core/src/core.rs:73-86 | Two human players with player 0 to move, the built-in registry, the given metric, apply_event and random source, and both queues holding the twelve CreateUnit events of the opening, each under the id new_unit_id picks in the table built by the events before it; their application is the unit table |
| Engine.Core.GetUnits | src/core/src/core.rs:93-110 | Both queues receive one CreateUnit per opening placement, in order, with the tank and soldier ids looked up by name and each unit id the one new_unit_id picks in the table built so far; the unit table is their application |
| Engine.PublishedToBoth | src/core/src/core.rs:380-384 | With two players whose queues agree, publishing keeps them equal and extends each by the event |
| Engine.Core.CurrentPlayer | src/core/src/core.rs:185-187 | The listed, human player whose id is the current id |
| Engine.Core.AddUnit | src/core/src/core.rs:121-129 | One CreateUnit under a fresh id, applied and published to every player |
| Engine.Core.GetEvent | src/core/src/core.rs:193-200 | None with an empty queue; otherwise the oldest event of the current player's queue, which loses it |
| Engine.Core.HandleEndTurnEvent | src/core/src/core.rs:359-371 | The turn goes to the new id only if that id is a listed player and the turn ended is the current one |
| Engine.Core.MakeEvents | src/core/src/core.rs:373-387 | Drains the stack top first; the table is the fold of apply_event, the turn is the fold of EndTurn handling, and every queue receives the events in pop order |
| Engine.Core.Publish | src/core/src/core.rs:380-384 | Appends the event to every player's queue and changes no other queue |
| Engine.Core.DoCoreEvent | src/core/src/core.rs:340-343 | The single event is applied, handled and published |
| Engine.Core.ReactionFire | src/core/src/core.rs:228-254 | The loop returns exactly Rules.ReactionFire on the current state |
| Engine.Core.ReactionFireMove | src/core/src/core.rs:256-274 | The loop returns exactly Rules.ReactionFireMove on the current state |
| Engine.Core.CommandToEvent | src/core/src/core.rs:278-328 | Returns exactly Rules.CommandToEvent on the current state |
| Engine.Core.DoCommand | src/core/src/core.rs:330-338 | Resolves, then applies and publishes the resolved events in order; rejected exactly when no event resulted; the draw cursor advances by what was used |
| Engine.Core.DoCoreEvents | src/core/src/core.rs:335-337 | The events in order: table and turn are the folds over them, and every queue receives them |

## Left out

- do_ai and the Ai player are not modelled. Both configured players are human, and `Core.Valid` records that no player is scripted. The hand-over at the end of handle_end_turn_event is therefore never taken.
- InternalState and its apply_event are a function parameter over the unit table. The unit table is a sequence in a fixed iteration order; the source's map iterates in its own order, which the model leaves open.
- map::distance is a function parameter. The thread RNG is a stream of draws with a cursor; `FairDice` states its range where a lemma needs it.
- Logging (println, print) is not modelled. The "BAD COMMAND" message of do_command is the `rejected` result of `Core.DoCommand`.
- The source's ids and statistics are 32-bit integers. The model uses unbounded integers, and no computation here comes near the bound.
- Panics are preconditions: a missing unit id, an unregistered type name, is_target_dead on a non-attack event, and a player id with no queue.
- Rules.Resolvable: a Move command requires the moving unit to be in the table. The source only looks the unit up once an enemy fires, so a Move of an unknown unit with no reaction fire is not modelled.
- Rules.IsTargetDead: a field read on attack events, with no contract of its own. Its role shows in `ReactionFireFromFire` and `AttackResolution`.
- Rules.ReactionFireFrom: the source skips an empty attack result before reading its first event. That branch cannot be taken, because the preceding range test is the same test command_attack_unit_to_event makes. The model omits it.
- Object.ObjectTypes.GetUnitType and Object.ObjectTypes.GetUnitMaxAttackDist are plain indexing, with no contract of their own. `BuiltInAttackRanges` states their values for the built-in tables.
- Engine.Core.GetUnits: get_units makes twelve add_unit calls; the model walks a table of the same twelve placements (`OpeningUnits`) in the same order. map_size, InternalState::new and Ai::new are not modelled.
- The lookups get_unit_type_id_opt and get_weapon_type_id each scan with a for loop and return early; the model writes the scan once, as the recursive `FindName` over the names of either table.
- Core::object_types, map_size, player_id and get_weapon_type are plain accessors and have no members of their own.
