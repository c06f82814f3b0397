// The stateful part of the game core (struct Core): the canonical unit
// table, whose turn it is, the pending-event stack and one event queue per
// player. Applying an event to the unit table (InternalState::apply_event)
// is an oracle, as are the grid metric and the random source.

module Engine {
  import opened Types
  import opened Object
  import opened Rules

  /** InternalState::apply_event, seen through the unit table. */
  type Apply = (seq<Unit>, CoreEvent) -> seq<Unit>

  /** The order in which a stack hands out its elements, top first. */
  function Reverse<T>(s: seq<T>): seq<T> {
    if s == [] then [] else [s[|s| - 1]] + Reverse(s[..|s| - 1])
  }

  /** The i-th element handed out is the i-th from the top. */
  lemma {:induction false} ReverseIndex<T>(s: seq<T>)
    ensures |Reverse(s)| == |s|
    ensures forall i :: 0 <= i < |s| ==> Reverse(s)[i] == s[|s| - 1 - i]
  {
    if s != [] {
      var rest := s[..|s| - 1];
      ReverseIndex(rest);
      var r := Reverse(rest);
      assert Reverse(s) == [s[|s| - 1]] + r;
      forall i | 0 <= i < |s|
        ensures Reverse(s)[i] == s[|s| - 1 - i]
      {
        if i > 0 {
          assert Reverse(s)[i] == r[i - 1] == rest[|rest| - 1 - (i - 1)];
        }
      }
    }
  }

  /** Popping the top of the stack moves it to the end of what has been
      handed out. */
  lemma PopOrder<T>(handed: seq<T>, stack: seq<T>)
    requires stack != []
    ensures handed + Reverse(stack) == (handed + [stack[|stack| - 1]]) + Reverse(stack[..|stack| - 1])
  {
    var top, rest := stack[|stack| - 1], stack[..|stack| - 1];
    var r := Reverse(rest);
    assert Reverse(stack) == [top] + r;
    ConcatAssoc(handed, [top], r);
  }

  lemma ConcatAssoc<T>(a: seq<T>, b: seq<T>, c: seq<T>)
    ensures a + (b + c) == (a + b) + c
  {
  }

  /** The unit table after applying `events` in order. */
  function ApplyAll(apply: Apply, units: seq<Unit>, events: seq<CoreEvent>): seq<Unit> {
    if events == [] then units
    else apply(ApplyAll(apply, units, events[..|events| - 1]), events[|events| - 1])
  }

  predicate IsListed(players: seq<Player>, id: PlayerId) {
    exists i :: 0 <= i < |players| && players[i].id == id
  }

  /** The current player after handle_end_turn_event(oldId, newId). */
  function TurnAfter(players: seq<Player>, current: PlayerId, oldId: PlayerId, newId: PlayerId): PlayerId {
    if IsListed(players, newId) && current == oldId then newId else current
  }

  /** The current player after applying `events` in order. */
  function TurnsAfter(players: seq<Player>, current: PlayerId, events: seq<CoreEvent>): PlayerId {
    if events == [] then current
    else
      var before := TurnsAfter(players, current, events[..|events| - 1]);
      var last := events[|events| - 1];
      if last.EndTurn? then TurnAfter(players, before, last.oldId, last.newId) else before
  }

  /** Only EndTurn events move the turn. */
  lemma {:induction false} TurnsAfterWithoutEndTurn(players: seq<Player>, current: PlayerId, events: seq<CoreEvent>)
    requires forall i :: 0 <= i < |events| ==> !events[i].EndTurn?
    ensures TurnsAfter(players, current, events) == current
  {
    if events != [] {
      TurnsAfterWithoutEndTurn(players, current, events[..|events| - 1]);
    }
  }

  /** Resolving and then handling an EndTurn command hands the turn to the
      next player in list order, wrapping around after the last. */
  lemma EndTurnPassesTurn(w: World, dice: Dice, k: nat)
    requires WellFormed(w) && 0 <= w.currentPlayer < |w.players|
    requires forall i :: 0 <= i < |w.players| ==> w.players[i].id == i
    ensures TurnsAfter(w.players, w.currentPlayer, CommandToEvent(w, Command.EndTurn, dice, k).events)
      == (w.currentPlayer + 1) % |w.players|
  {
    var next := (w.currentPlayer + 1) % |w.players|;
    EndTurnResolution(w, dice, k);
    assert w.players[next].id == next;
    assert IsListed(w.players, next);
    var events := [CoreEvent.EndTurn(w.currentPlayer, next)];
    assert events[..0] == [];
  }

  /** `after` is `before` with `events` appended to the queue of each of
      the players 0 .. n-1, and every other queue untouched. */
  ghost predicate Published(before: map<PlayerId, seq<CoreEvent>>, after: map<PlayerId, seq<CoreEvent>>,
                            n: int, events: seq<CoreEvent>)
  {
    && after.Keys == before.Keys
    && forall p :: p in before ==> after[p] == before[p] + (if 0 <= p < n then events else [])
  }

  lemma PublishedTrans(a: map<PlayerId, seq<CoreEvent>>, b: map<PlayerId, seq<CoreEvent>>,
                       c: map<PlayerId, seq<CoreEvent>>, n: int, x: seq<CoreEvent>, y: seq<CoreEvent>)
    requires Published(a, b, n, x) && Published(b, c, n, y)
    ensures Published(a, c, n, x + y)
  {
    forall p | p in a
      ensures c[p] == a[p] + (if 0 <= p < n then x + y else [])
    {
      if 0 <= p < n {
        assert c[p] == a[p] + x + y;
      }
    }
  }

  /** With two players whose queues agree, publishing an event keeps them
      equal and extends each by the event. */
  lemma PublishedToBoth(before: map<PlayerId, seq<CoreEvent>>, after: map<PlayerId, seq<CoreEvent>>, e: CoreEvent)
    requires before.Keys == {0, 1} && before[0] == before[1]
    requires Published(before, after, 2, [e])
    ensures after.Keys == {0, 1} && after[0] == after[1] && after[0] == before[0] + [e]
    ensures |after[0]| == |before[0]| + 1 && after[0][|before[0]|] == e
    ensures forall j :: 0 <= j < |before[0]| ==> after[0][j] == before[0][j]
  {
  }

  lemma FoldSnoc(apply: Apply, units: seq<Unit>, players: seq<Player>, current: PlayerId,
                 events: seq<CoreEvent>, e: CoreEvent)
    ensures ApplyAll(apply, units, events + [e]) == apply(ApplyAll(apply, units, events), e)
    ensures TurnsAfter(players, current, events + [e]) ==
      var before := TurnsAfter(players, current, events);
      if e.EndTurn? then TurnAfter(players, before, e.oldId, e.newId) else before
  {
    assert (events + [e])[..|events|] == events;
  }

  /** Every CreateUnit in `events` takes the id new_unit_id picks in the
      table built by the events before it. */
  ghost predicate FreshIdsInOrder(apply: Apply, events: seq<CoreEvent>) {
    forall i :: 0 <= i < |events| ==>
      events[i].CreateUnit? ==> events[i].unitId == NewUnitId(ApplyAll(apply, [], events[..i]))
  }

  /** Appending a CreateUnit under the id new_unit_id picks in the current
      table keeps the ids in order. */
  lemma FreshIdsSnoc(apply: Apply, events: seq<CoreEvent>, e: CoreEvent)
    requires FreshIdsInOrder(apply, events)
    requires e.CreateUnit? && e.unitId == NewUnitId(ApplyAll(apply, [], events))
    ensures FreshIdsInOrder(apply, events + [e])
  {
    var all := events + [e];
    forall i | 0 <= i < |all| && all[i].CreateUnit?
      ensures all[i].unitId == NewUnitId(ApplyAll(apply, [], all[..i]))
    {
      if i < |events| {
        assert all[..i] == events[..i];
      } else {
        assert all[..i] == events;
      }
    }
  }

  /** Where get_units puts a unit, of which type, for which player. */
  datatype Placement = Placement(pos: MapPos, typeId: UnitTypeId, playerId: PlayerId)

  function PlacementOf(e: CoreEvent): Placement
    requires e.CreateUnit?
  {
    Placement(e.pos, e.typeId, e.playerId)
  }

  /** The opening scenario of get_units: on each side, in column 0 for
      player 0 and column 9 for player 1, a tank, three soldiers and two
      tanks in rows 1 to 6. */
  function OpeningUnits(tank: UnitTypeId, soldier: UnitTypeId): seq<Placement> {
    [ Placement(MapPos(0, 1), tank, 0), Placement(MapPos(0, 2), soldier, 0),
      Placement(MapPos(0, 3), soldier, 0), Placement(MapPos(0, 4), soldier, 0),
      Placement(MapPos(0, 5), tank, 0), Placement(MapPos(0, 6), tank, 0),
      Placement(MapPos(9, 1), tank, 1), Placement(MapPos(9, 2), soldier, 1),
      Placement(MapPos(9, 3), soldier, 1), Placement(MapPos(9, 4), soldier, 1),
      Placement(MapPos(9, 5), tank, 1), Placement(MapPos(9, 6), tank, 1) ]
  }

  /** The layout of the opening: entry i is for player i / 6, in column 0
      or 9, row i % 6 + 1; rows 2 to 4 hold soldiers, the others tanks. */
  lemma OpeningLayout(tank: UnitTypeId, soldier: UnitTypeId)
    ensures var r := OpeningUnits(tank, soldier);
      && |r| == 12
      && forall i :: 0 <= i < 12 ==>
           && r[i].playerId == i / 6
           && r[i].pos == MapPos(9 * (i / 6), i % 6 + 1)
           && r[i].typeId == (if 1 <= i % 6 <= 3 then soldier else tank)
  {
  }

  class Core {
    var units: seq<Unit>
    const players: seq<Player>
    var currentPlayerId: PlayerId
    var coreEventList: seq<CoreEvent>
    var eventLists: map<PlayerId, seq<CoreEvent>>
    const objectTypes: ObjectTypes
    const distance: Metric
    const applyEvent: Apply
    const dice: Dice
    /** Number of draws taken from `dice` so far. */
    var rolls: nat

    /** Player ids index the player list, every player has a queue, and no
        player is scripted. */
    ghost predicate Valid()
      reads this
    {
      && |players| > 0
      && (forall i :: 0 <= i < |players| ==> players[i].id == i && !players[i].isAi)
      && 0 <= currentPlayerId < |players|
      && (forall i :: 0 <= i < |players| ==> i in eventLists)
      && objectTypes.Valid()
    }

    /** What command resolution reads. */
    function Snapshot(): World
      reads this
    {
      World(units, players, currentPlayerId, objectTypes, distance)
    }

    /** Core::player */
    function CurrentPlayer(): (p: Player)
      reads this
      requires Valid()
      ensures p in players && p.id == currentPlayerId && !p.isAi
    {
      players[currentPlayerId]
    }

    /** Core::new: two human players, player 0 to move, empty queues, the
        built-in registry, and then the opening units of get_units. */
    constructor (distance: Metric, applyEvent: Apply, dice: Dice)
      ensures this.distance == distance && this.applyEvent == applyEvent && this.dice == dice
      ensures Valid() && coreEventList == [] && rolls == 0
      ensures players == [Player(0, false), Player(1, false)] && currentPlayerId == 0
      ensures objectTypes.weaponTypes == [Cannon, Rifle]
      ensures objectTypes.unitTypes == [TankType(0), SoldierType(1)]
      ensures eventLists.Keys == {0, 1} && eventLists[0] == eventLists[1]
      ensures |eventLists[0]| == |OpeningUnits(0, 1)|
      ensures forall i :: 0 <= i < |eventLists[0]| ==>
        eventLists[0][i].CreateUnit? && PlacementOf(eventLists[0][i]) == OpeningUnits(0, 1)[i]
      ensures units == ApplyAll(applyEvent, [], eventLists[0])
      ensures FreshIdsInOrder(applyEvent, eventLists[0])
    {
      var types := New();
      this.players := [Player(0, false), Player(1, false)];
      this.objectTypes := types;
      this.distance := distance;
      this.applyEvent := applyEvent;
      this.dice := dice;
      this.units := [];
      this.currentPlayerId := 0;
      this.coreEventList := [];
      this.eventLists := map[0 := [], 1 := []];
      this.rolls := 0;
      new;
      GetUnits();
    }

    /** get_units: the opening scenario, each unit created through a
        CreateUnit event and so published to both players. The twelve
        add_unit calls of the source walk the table `OpeningUnits`. */
    method GetUnits()
      requires Valid() && coreEventList == [] && units == [] && |players| == 2
      requires eventLists == map[0 := [], 1 := []]
      requires objectTypes.unitTypes == [TankType(0), SoldierType(1)]
      modifies this`units, this`currentPlayerId, this`coreEventList, this`eventLists
      ensures Valid() && coreEventList == [] && currentPlayerId == old(currentPlayerId)
      ensures eventLists.Keys == {0, 1} && eventLists[0] == eventLists[1]
      ensures |eventLists[0]| == |OpeningUnits(0, 1)|
      ensures forall i :: 0 <= i < |eventLists[0]| ==>
        eventLists[0][i].CreateUnit? && PlacementOf(eventLists[0][i]) == OpeningUnits(0, 1)[i]
      ensures units == ApplyAll(applyEvent, [], eventLists[0])
      ensures FreshIdsInOrder(applyEvent, eventLists[0])
    {
      BuiltInUnitNames(objectTypes);
      var tankId := objectTypes.GetUnitTypeId("tank");
      var soldierId := objectTypes.GetUnitTypeId("soldier");
      var table := OpeningUnits(tankId, soldierId);
      for i := 0 to |table|
        invariant Valid() && coreEventList == [] && currentPlayerId == old(currentPlayerId)
        invariant eventLists.Keys == {0, 1} && eventLists[0] == eventLists[1]
        invariant |eventLists[0]| == i
        invariant forall j :: 0 <= j < i ==>
          eventLists[0][j].CreateUnit? && PlacementOf(eventLists[0][j]) == table[j]
        invariant units == ApplyAll(applyEvent, [], eventLists[0])
        invariant FreshIdsInOrder(applyEvent, eventLists[0])
      {
        ghost var before := eventLists;
        ghost var e := CoreEvent.CreateUnit(NewUnitId(units), table[i].pos, table[i].typeId, table[i].playerId);
        AddUnit(table[i].pos, table[i].typeId, table[i].playerId);
        PublishedToBoth(before, eventLists, e);
        FoldSnoc(applyEvent, [], players, 0, before[0], e);
        FreshIdsSnoc(applyEvent, before[0], e);
      }
    }

    /** add_unit: a CreateUnit event under a fresh id, applied at once. */
    method AddUnit(pos: MapPos, typeId: UnitTypeId, playerId: PlayerId)
      requires Valid() && coreEventList == []
      modifies this`units, this`currentPlayerId, this`coreEventList, this`eventLists
      ensures Valid() && coreEventList == []
      ensures var e := CoreEvent.CreateUnit(NewUnitId(old(units)), pos, typeId, playerId);
        && units == applyEvent(old(units), e)
        && currentPlayerId == old(currentPlayerId)
        && Published(old(eventLists), eventLists, |players|, [e])
    {
      var event := CoreEvent.CreateUnit(NewUnitId(units), pos, typeId, playerId);
      DoCoreEvent(event);
    }

    /** get_event: takes the oldest event from the current player's queue. */
    method GetEvent() returns (event: Option<CoreEvent>)
      requires Valid()
      modifies this`eventLists
      ensures Valid()
      ensures old(eventLists[currentPlayerId]) == [] ==> event == None && eventLists == old(eventLists)
      ensures old(eventLists[currentPlayerId]) != [] ==>
        && event == Some(old(eventLists[currentPlayerId][0]))
        && eventLists == old(eventLists)[currentPlayerId := old(eventLists[currentPlayerId][1..])]
    {
      var list := eventLists[currentPlayerId];
      if |list| == 0 {
        event := None;
      } else {
        event := Some(list[0]);
        eventLists := eventLists[currentPlayerId := list[1..]];
      }
    }

    /** handle_end_turn_event: the turn passes to `newId` only if `newId`
        is a listed player and the turn being ended is the current one. */
    method HandleEndTurnEvent(oldId: PlayerId, newId: PlayerId)
      requires Valid()
      modifies this`currentPlayerId
      ensures Valid()
      ensures currentPlayerId == TurnAfter(players, old(currentPlayerId), oldId, newId)
    {
      for i := 0 to |players|
        invariant forall j :: 0 <= j < i ==> players[j].id != newId
        invariant currentPlayerId == old(currentPlayerId)
      {
        if players[i].id == newId {
          if currentPlayerId == oldId {
            currentPlayerId := players[i].id;
          }
          break;
        }
      }
      // The hand-over to a scripted player (do_ai) is not modelled: Valid()
      // records that no player is scripted, so that branch is never taken.
    }

    /** make_events: drains the pending stack, last pushed first; each event
        updates the turn (EndTurn only), is applied to the unit table and is
        appended to every player's queue. */
    method MakeEvents()
      requires Valid()
      modifies this`units, this`currentPlayerId, this`coreEventList, this`eventLists
      ensures Valid() && coreEventList == []
      ensures units == ApplyAll(applyEvent, old(units), Reverse(old(coreEventList)))
      ensures currentPlayerId == TurnsAfter(players, old(currentPlayerId), Reverse(old(coreEventList)))
      ensures Published(old(eventLists), eventLists, |players|, Reverse(old(coreEventList)))
    {
      ghost var applied: seq<CoreEvent> := [];
      while |coreEventList| != 0
        invariant Valid()
        invariant Reverse(old(coreEventList)) == applied + Reverse(coreEventList)
        invariant units == ApplyAll(applyEvent, old(units), applied)
        invariant currentPlayerId == TurnsAfter(players, old(currentPlayerId), applied)
        invariant Published(old(eventLists), eventLists, |players|, applied)
        decreases |coreEventList|
      {
        var event := coreEventList[|coreEventList| - 1];
        PopOrder(applied, coreEventList);
        coreEventList := coreEventList[..|coreEventList| - 1];
        if event.EndTurn? {
          HandleEndTurnEvent(event.oldId, event.newId);
        }
        units := applyEvent(units, event);
        ghost var before := eventLists;
        Publish(event);
        PublishedTrans(old(eventLists), before, eventLists, |players|, applied, [event]);
        FoldSnoc(applyEvent, old(units), players, old(currentPlayerId), applied, event);
        applied := applied + [event];
      }
      assert Reverse(old(coreEventList)) == applied;
    }

    /** The inner loop of make_events: append `event` to every player's
        queue, in player order. */
    method Publish(event: CoreEvent)
      requires Valid()
      modifies this`eventLists
      ensures Valid()
      ensures Published(old(eventLists), eventLists, |players|, [event])
    {
      for j := 0 to |players|
        invariant Valid()
        invariant Published(old(eventLists), eventLists, j, [event])
      {
        var id := players[j].id;
        eventLists := eventLists[id := eventLists[id] + [event]];
      }
    }

    /** do_core_event: push one event and drain the stack. */
    method DoCoreEvent(event: CoreEvent)
      requires Valid() && coreEventList == []
      modifies this`units, this`currentPlayerId, this`coreEventList, this`eventLists
      ensures Valid() && coreEventList == []
      ensures units == applyEvent(old(units), event)
      ensures currentPlayerId == TurnsAfter(players, old(currentPlayerId), [event])
      ensures Published(old(eventLists), eventLists, |players|, [event])
    {
      coreEventList := coreEventList + [event];
      assert Reverse(coreEventList) == [event];
      FoldSnoc(applyEvent, units, players, currentPlayerId, [], event);
      MakeEvents();
    }

    /** reaction_fire, as a scan of the unit table with early exit. */
    method ReactionFire(unitId: UnitId, pos: MapPos, k: nat) returns (events: seq<CoreEvent>, next: nat)
      requires WellFormed(Snapshot()) && HasUnit(units, unitId)
      ensures Outcome(events, next) == Rules.ReactionFire(Snapshot(), unitId, pos, dice, k)
    {
      var w := Snapshot();
      ghost var target := ReactionFireFrom(w, unitId, pos, dice, 0, k);
      events, next := [], k;
      for i := 0 to |w.units|
        invariant target == Outcome(events + ReactionFireFrom(w, unitId, pos, dice, i, next).events,
                                    ReactionFireFrom(w, unitId, pos, dice, i, next).next)
      {
        var enemy := w.units[i];
        if Eligible(w, enemy, pos) {
          ReactionFireFromFire(w, unitId, pos, dice, i, next);
        } else {
          ReactionFireFromSkip(w, unitId, pos, dice, i, next);
        }
        if enemy.playerId == w.currentPlayer {
          continue;
        }
        if enemy.attackPoints <= 0 {
          continue;
        }
        var maxDistance := w.types.GetUnitMaxAttackDist(enemy);
        if w.distance(enemy.pos, pos) > maxDistance {
          continue;
        }
        var e := AttackToEvents(w, enemy.id, unitId, pos, Reactive, dice, next);
        ghost var rest := ReactionFireFrom(w, unitId, pos, dice, i + 1, e.next);
        ConcatAssoc(events, e.events, rest.events);
        events, next := events + e.events, e.next;
        if IsTargetDead(e.events[0]) {
          break;
        }
      }
    }

    /** reaction_fire_move: checks the waypoints from index 1 on and stops
        at the first one that draws fire. */
    method ReactionFireMove(path: MapPath, unitId: UnitId, k: nat) returns (events: seq<CoreEvent>, next: nat)
      requires WellFormed(Snapshot()) && HasUnit(units, unitId)
      ensures Outcome(events, next) == Rules.ReactionFireMove(Snapshot(), path, unitId, dice, k)
    {
      var w := Snapshot();
      events, next := [], k;
      var i := 1;
      while i < |path|
        invariant 1 <= i && events == []
        invariant Rules.ReactionFireMove(w, path, unitId, dice, k) == ReactionFireMoveFrom(w, path, unitId, dice, i, next)
        decreases |path| - i
      {
        var e, n := ReactionFire(unitId, path[i], next);
        if e != [] {
          events, next := [CoreEvent.Move(unitId, path[..i + 1])] + e, n;
          break;
        }
        next := n;
        i := i + 1;
      }
    }

    /** command_to_event, reading the current state and the draws from
        index k on. */
    method CommandToEvent(command: Command, k: nat) returns (events: seq<CoreEvent>, next: nat)
      requires WellFormed(Snapshot()) && Resolvable(Snapshot(), command)
      ensures Outcome(events, next) == Rules.CommandToEvent(Snapshot(), command, dice, k)
    {
      var w := Snapshot();
      match command
      case EndTurn =>
        var oldId := currentPlayerId;
        var maxId := |players|;
        var newId := if oldId + 1 == maxId then 0 else oldId + 1;
        events, next := [CoreEvent.EndTurn(oldId, newId)], k;
      case CreateUnit(pos) =>
        var typeId := objectTypes.GetUnitTypeId("soldier");
        events, next := [CoreEvent.CreateUnit(NewUnitId(units), pos, typeId, currentPlayerId)], k;
      case Move(unitId, path) =>
        var e, n := ReactionFireMove(path, unitId, k);
        if e == [] {
          events, next := [CoreEvent.Move(unitId, path)], n;
        } else {
          events, next := e, n;
        }
      case AttackUnit(attackerId, defenderId) =>
        var defenderPos := UnitById(units, defenderId).pos;
        var e := AttackToEvents(w, attackerId, defenderId, defenderPos, Active, dice, k);
        events, next := e.events, e.next;
        if e.events != [] && !IsTargetDead(e.events[0]) {
          var pos := UnitById(units, attackerId).pos;
          var reaction, n := ReactionFire(attackerId, pos, e.next);
          events, next := events + reaction, n;
        }
    }

    /** do_command: resolves the command against the current state, then
        applies and publishes the resulting events in order. `rejected`
        reports the case the source only logs: a command with no event. */
    method DoCommand(command: Command) returns (rejected: bool)
      requires Valid() && coreEventList == []
      requires WellFormed(Snapshot()) && Resolvable(Snapshot(), command)
      modifies this`units, this`currentPlayerId, this`coreEventList, this`eventLists, this`rolls
      ensures Valid() && coreEventList == []
      ensures var out := Rules.CommandToEvent(old(Snapshot()), command, dice, old(rolls));
        && rejected == (out.events == [])
        && rolls == out.next
        && units == ApplyAll(applyEvent, old(units), out.events)
        && currentPlayerId == TurnsAfter(players, old(currentPlayerId), out.events)
        && Published(old(eventLists), eventLists, |players|, out.events)
    {
      var events, next := CommandToEvent(command, rolls);
      rolls := next;
      rejected := events == [];
      DoCoreEvents(events);
    }

    /** The loop of do_command: each event in turn goes through
        do_core_event. */
    method DoCoreEvents(events: seq<CoreEvent>)
      requires Valid() && coreEventList == []
      modifies this`units, this`currentPlayerId, this`coreEventList, this`eventLists
      ensures Valid() && coreEventList == []
      ensures units == ApplyAll(applyEvent, old(units), events)
      ensures currentPlayerId == TurnsAfter(players, old(currentPlayerId), events)
      ensures Published(old(eventLists), eventLists, |players|, events)
    {
      for i := 0 to |events|
        invariant Valid() && coreEventList == []
        invariant units == ApplyAll(applyEvent, old(units), events[..i])
        invariant currentPlayerId == TurnsAfter(players, old(currentPlayerId), events[..i])
        invariant Published(old(eventLists), eventLists, |players|, events[..i])
      {
        ghost var before := eventLists;
        DoCoreEvent(events[i]);
        PublishedTrans(old(eventLists), before, eventLists, |players|, events[..i], [events[i]]);
        FoldSnoc(applyEvent, old(units), players, old(currentPlayerId), events[..i], events[i]);
        assert events[..i + 1] == events[..i] + [events[i]];
      }
      assert events[..|events|] == events;
    }
  }
}
