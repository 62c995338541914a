/**
 * The rules of "The Dungeon Puzzler's Lament"
 * (examples/the-dungeon-puzzlers-lament/src/game/simulation/entity.rs):
 * what happens when an entity tries to move onto a square holding another
 * (`resolve_move`), what happens once it stands there (`resolve_overlap`),
 * picking up and dropping items, switches toggling the doors, switches and
 * spikes of their system, and the entity map the turn works on.
 */
module DungeonEntity {
  import opened Wrappers
  import opened FixVector

  /** `Direction`. */
  datatype Direction = Up | Down | Left | Right

  /** `Neg for Direction`: the opposite direction. */
  function Opposite(d: Direction): Direction
  {
    match d
    case Up => Down
    case Down => Up
    case Left => Right
    case Right => Left
  }

  /** `From<Direction> for Vector2D<i32>`: y grows downwards. */
  function DirectionVector(d: Direction): IntVector
  {
    match d
    case Up => Vector2D(0, -1)
    case Down => Vector2D(0, 1)
    case Left => Vector2D(-1, 0)
    case Right => Vector2D(1, 0)
  }

  /**
   * Turning round twice is facing the same way; the opposite direction's
   * vector is the negated vector, and every direction is one step long.
   */
  lemma OppositeInvolutive(d: Direction)
    ensures Opposite(Opposite(d)) == d && Opposite(d) != d
    ensures DirectionVector(Opposite(d)) == Neg(DirectionVector(d))
    ensures ManhattanDistance(DirectionVector(d)) == 1
  {
  }

  /** Different directions have different vectors. */
  lemma DirectionVectorInjective(d: Direction, e: Direction)
    ensures DirectionVector(d) == DirectionVector(e) <==> d == e
  {
  }

  /** `Switchable`: the switch system it belongs to and whether it is on. */
  datatype Switchable = Switchable(system: nat, active: bool)

  /** `Item`. */
  datatype Item = Sword | Key

  /**
   * `EntityType`; a hero and a squid may hold another entity (in practice
   * an item).
   */
  datatype EntityType =
    | Hero(holding: Option<EntityType>)
    | ItemEntity(item: Item)
    | Enemy(enemy: Enemy)
    | Stairs
    | Door
    | SwitchedDoor(door: Switchable)
    | Switch(switch: Switchable)
    | Spikes(spikes: Switchable)
    | Ice

  /** `Enemy`. */
  datatype Enemy = Slime | Squid(direction: Direction, squidHolding: Option<EntityType>)

  /** `Entity`: an entity type at a square. */
  datatype Entity = Entity(location: IntVector, entity: EntityType)

  /** `MoveAttemptResolution`. */
  datatype MoveAttemptResolution = Kill | Die | KillDie | CoExist | StayPut | AttemptPush

  /** `OverlapResolution`. */
  datatype OverlapResolution = Pickup | OverlapCoExist | Win | ToggleSystem(system: nat) | OverlapDie | MoveAgain

  /** `holding`: what a hero or a squid holds; nothing for the rest. */
  function Holding(e: EntityType): Option<EntityType>
  {
    match e
    case Hero(h) => h
    case Enemy(Squid(_, h)) => h
    case _ => None
  }

  predicate HoldsSword(h: Option<EntityType>)
  {
    h == Some(ItemEntity(Sword))
  }

  /** `resolve_spikes`. */
  function ResolveSpikes(s: Switchable): OverlapResolution
  {
    if s.active then OverlapDie else OverlapCoExist
  }

  /** `resolve_overlap`: the first matching rule for `me` standing where `other` is. */
  function ResolveOverlap(me: EntityType, other: EntityType): OverlapResolution
  {
    if me.Hero? && other.Stairs? then OverlapResolution.Win
    else if other.ItemEntity? then Pickup
    else if other.Spikes? then ResolveSpikes(other.spikes)
    else if other.Switch? then ToggleSystem(other.switch.system)
    else if other.Enemy? || other.Hero? then OverlapDie
    else if other.Ice? then MoveAgain
    else OverlapCoExist
  }

  /**
   * The overlap rules: reaching the stairs wins for the hero, items are
   * picked up, raised spikes kill and lowered ones do not, a switch
   * toggles its system, ice keeps the mover going.
   */
  lemma OverlapTable(me: EntityType, other: EntityType)
    ensures me.Hero? && other.Stairs? ==> ResolveOverlap(me, other) == OverlapResolution.Win
    ensures !me.Hero? && other.Stairs? ==> ResolveOverlap(me, other) == OverlapCoExist
    ensures other.ItemEntity? ==> ResolveOverlap(me, other) == Pickup
    ensures other.Spikes? ==> (ResolveOverlap(me, other) == OverlapDie <==> other.spikes.active)
    ensures other.Spikes? && !other.spikes.active ==> ResolveOverlap(me, other) == OverlapCoExist
    ensures other.Switch? ==> ResolveOverlap(me, other) == ToggleSystem(other.switch.system)
    ensures other.Enemy? || other.Hero? ==> ResolveOverlap(me, other) == OverlapDie
    ensures other.Ice? ==> ResolveOverlap(me, other) == MoveAgain
    ensures ResolveOverlap(me, other) == OverlapResolution.Win ==> me.Hero? && other.Stairs?
  {
  }

  /** `holding_attack_resolve`. */
  function HoldingAttackResolve(h: Option<EntityType>): MoveAttemptResolution
  {
    if HoldsSword(h) then Kill else CoExist
  }

  /** `holding_door_resolve`. */
  function HoldingDoorResolve(h: Option<EntityType>): MoveAttemptResolution
  {
    if h == Some(ItemEntity(Key)) then Kill else StayPut
  }

  /** `switch_door_resolve`. */
  function SwitchDoorResolve(door: Switchable): MoveAttemptResolution
  {
    if door.active then CoExist else StayPut
  }

  /** `squid_holding_attack_resolve`: a squid facing `myDirection`, holding `mine`, moving into `other`. */
  function SquidHoldingAttackResolve(myDirection: Direction, mine: Option<EntityType>, other: EntityType): MoveAttemptResolution
  {
    var theirs := Holding(other);
    if HoldsSword(mine) && other.Enemy? && other.enemy.Squid? && HoldsSword(theirs) then
      if other.enemy.direction == Opposite(myDirection) then KillDie else Kill
    else if HoldsSword(mine) && other.Enemy? && theirs.None? then Kill
    else if other.Enemy? && other.enemy.Squid? && HoldsSword(theirs) then
      if other.enemy.direction == Opposite(myDirection) then Die else StayPut
    else if other.Enemy? then StayPut
    else if other.Hero? then Kill
    else CoExist
  }

  /** `resolve_move`: the first matching rule for `mover` trying to step onto `into`. */
  function ResolveMove(mover: EntityType, into: EntityType): MoveAttemptResolution
  {
    var fighter := into.Hero? || into.Enemy?;
    if mover.Hero? && fighter then HoldingAttackResolve(mover.holding)
    else if mover.Hero? && into.Door? then HoldingDoorResolve(mover.holding)
    else if mover.Enemy? && mover.enemy.Squid? && fighter then
      SquidHoldingAttackResolve(mover.enemy.direction, mover.enemy.squidHolding, into)
    else if mover.Enemy? && fighter then Kill
    else if into.SwitchedDoor? then SwitchDoorResolve(into.door)
    else if mover.Enemy? && mover.enemy.Squid? && into.Door? then HoldingDoorResolve(mover.enemy.squidHolding)
    else if into.Door? then StayPut
    else CoExist
  }

  /**
   * A hero walking into a door opens it (the door is killed) exactly when
   * holding the key, and otherwise stays put; an open switched door lets
   * anything through and a closed one stops it.
   */
  lemma DoorRules(mover: EntityType, into: EntityType)
    ensures mover.Hero? && into.Door? ==>
      (ResolveMove(mover, into) == Kill <==> mover.holding == Some(ItemEntity(Key)))
    ensures mover.Hero? && into.Door? && mover.holding != Some(ItemEntity(Key)) ==> ResolveMove(mover, into) == StayPut
    ensures into.SwitchedDoor? ==> ResolveMove(mover, into) == (if into.door.active then CoExist else StayPut)
  {
  }

  /**
   * Fights: a hero with a sword kills what it walks into and without one
   * simply shares the square; a slime kills; two sword-holding squids
   * meeting head-on both die.
   */
  lemma FightRules(mover: EntityType, into: EntityType)
    ensures mover.Hero? && (into.Hero? || into.Enemy?) ==>
      ResolveMove(mover, into) == (if HoldsSword(mover.holding) then Kill else CoExist)
    ensures mover == Enemy(Slime) && (into.Hero? || into.Enemy?) ==> ResolveMove(mover, into) == Kill
    ensures mover.Enemy? && mover.enemy.Squid? && into.Enemy? && into.enemy.Squid? &&
      HoldsSword(mover.enemy.squidHolding) && HoldsSword(into.enemy.squidHolding) &&
      into.enemy.direction == Opposite(mover.enemy.direction)
      ==> ResolveMove(mover, into) == KillDie
    ensures ResolveMove(mover, into) != AttemptPush
  {
  }

  /** Can this entity pick things up (`pickup` panics otherwise)? */
  predicate CanHold(e: EntityType)
  {
    e.Hero? || (e.Enemy? && e.enemy.Squid?)
  }

  /** The entity with its held entity replaced. */
  function WithHolding(e: EntityType, h: Option<EntityType>): EntityType
    requires CanHold(e)
  {
    if e.Hero? then Hero(h) else Enemy(Squid(e.enemy.direction, h))
  }

  /** `pickup`: hold `item`, and give back what was held before. */
  function PickUp(e: EntityType, item: EntityType): (r: (EntityType, Option<EntityType>))
    requires CanHold(e)
    ensures Holding(r.0) == Some(item) && r.1 == Holding(e)
    ensures r.0.Hero? == e.Hero? && CanHold(r.0)
    ensures e.Enemy? ==> r.0.enemy.direction == e.enemy.direction
  {
    (WithHolding(e, Some(item)), Holding(e))
  }

  /** `take_holding`: give up what is held. */
  function TakeHolding(e: EntityType): (r: (EntityType, Option<EntityType>))
    ensures r.1 == Holding(e) && Holding(r.0).None?
    ensures !CanHold(e) ==> r.0 == e
  {
    if CanHold(e) then (WithHolding(e, None), Holding(e)) else (e, None)
  }

  /** Picking something up and then giving it up leaves the entity holding nothing, and hands back the item. */
  lemma PickUpThenTake(e: EntityType, item: EntityType)
    requires CanHold(e)
    ensures TakeHolding(PickUp(e, item).0).1 == Some(item)
    ensures TakeHolding(PickUp(e, item).0).0 == WithHolding(e, None)
  {
  }

  /** `level::Item`: the entities a level is written with. */
  datatype LevelItem =
    | HeroItem | SlimeItem | StairsItem | SwordItem | DoorItem | KeyItem
    | SwitchedOpenDoor | SwitchedClosedDoor | SwitchItem | SwitchPressed
    | SpikesUp | SpikesDown | SquidUp | SquidDown | IceItem

  /** `From<level::Item> for EntityType`: everything in system 0, holding nothing. */
  function FromLevelItem(i: LevelItem): EntityType
  {
    match i
    case HeroItem => Hero(None)
    case SlimeItem => Enemy(Slime)
    case StairsItem => Stairs
    case SwordItem => ItemEntity(Sword)
    case DoorItem => Door
    case KeyItem => ItemEntity(Key)
    case SwitchedOpenDoor => SwitchedDoor(Switchable(0, true))
    case SwitchedClosedDoor => SwitchedDoor(Switchable(0, false))
    case SwitchItem => Switch(Switchable(0, false))
    case SwitchPressed => Switch(Switchable(0, true))
    case SpikesUp => Spikes(Switchable(0, true))
    case SpikesDown => Spikes(Switchable(0, false))
    case SquidUp => Enemy(Squid(Up, None))
    case SquidDown => Enemy(Squid(Down, None))
    case IceItem => Ice
  }

  /** Different level items make different entities. */
  lemma FromLevelItemInjective(i: LevelItem, j: LevelItem)
    ensures FromLevelItem(i) == FromLevelItem(j) <==> i == j
  {
  }

  /** `switch`: toggle a door, switch or spikes of the given system and report the new look. */
  function SwitchEntity(e: EntityType, system: nat): (r: (EntityType, Option<LevelItem>))
  {
    match e
    case SwitchedDoor(d) =>
      if d.system == system then
        var n := d.(active := !d.active);
        (SwitchedDoor(n), Some(if n.active then SwitchedOpenDoor else SwitchedClosedDoor))
      else (e, None)
    case Switch(s) =>
      if s.system == system then
        var n := s.(active := !s.active);
        (Switch(n), Some(if n.active then SwitchPressed else SwitchItem))
      else (e, None)
    case Spikes(s) =>
      if s.system == system then
        var n := s.(active := !s.active);
        (Spikes(n), Some(if n.active then SpikesUp else SpikesDown))
      else (e, None)
    case _ => (e, None)
  }

  /** The switchable part of an entity, if it has one. */
  function Switchables(e: EntityType): Option<Switchable>
  {
    match e
    case SwitchedDoor(d) => Some(d)
    case Switch(s) => Some(s)
    case Spikes(s) => Some(s)
    case _ => None
  }

  /** Only entities of the given system change, and they change only their `active` flag. */
  lemma SwitchTogglesSystem(e: EntityType, system: nat)
    ensures var (n, report) := SwitchEntity(e, system);
      if Switchables(e).Some? && Switchables(e).value.system == system then
        report.Some? && Switchables(n) == Some(Switchables(e).value.(active := !Switchables(e).value.active)) &&
        n.SwitchedDoor? == e.SwitchedDoor? && n.Switch? == e.Switch? && n.Spikes? == e.Spikes?
      else
        n == e && report.None?
  {
  }

  /** Toggling twice restores the entity. */
  lemma SwitchTwice(e: EntityType, system: nat)
    ensures SwitchEntity(SwitchEntity(e, system).0, system).0 == e
  {
  }

  /** The reported look is the level item for the new state, in system 0. */
  lemma SwitchReportsNewState(e: EntityType, system: nat)
    requires SwitchEntity(e, system).1.Some?
    ensures var (n, report) := SwitchEntity(e, system);
      FromLevelItem(report.value) == match n
        case SwitchedDoor(d) => SwitchedDoor(d.(system := 0))
        case Switch(s) => Switch(s.(system := 0))
        case Spikes(s) => Spikes(s.(system := 0))
        case _ => n
  {
  }

  /** `change_direction`: a squid turns round and reports how it now looks. */
  function ChangeDirection(e: EntityType): (r: (EntityType, Option<LevelItem>))
    ensures e.Enemy? && e.enemy.Squid? ==>
      r.0 == Enemy(Squid(Opposite(e.enemy.direction), e.enemy.squidHolding)) &&
      r.1 == Some(if Opposite(e.enemy.direction) == Up then SquidUp else SquidDown)
    ensures !(e.Enemy? && e.enemy.Squid?) ==> r == (e, None)
  {
    match e
    case Enemy(Squid(d, h)) =>
      var n := Opposite(d);
      (Enemy(Squid(n, h)), Some(if n == Up then SquidUp else SquidDown))
    case _ => (e, None)
  }

  /** `Action`. */
  datatype Action = Nothing | Go(direction: Direction) | ChangeDirectionAction(direction: Direction)

  /**
   * `desired_action`: the hero does what the player asked; a squid walks
   * on unless a wall is ahead or something ahead would make it stay put,
   * in which case it turns round; the rest do nothing. `wallAhead` and
   * `ahead` (the entities on the square ahead) stand for the map lookups.
   */
  function DesiredAction(me: EntityType, wallAhead: bool, ahead: seq<EntityType>, heroAction: Action): (a: Action)
    ensures me.Hero? ==> a == heroAction
    ensures !me.Hero? && !(me.Enemy? && me.enemy.Squid?) ==> a == Nothing
  {
    match me
    case Hero(_) => heroAction
    case Enemy(Squid(d, _)) =>
      if wallAhead then ChangeDirectionAction(Opposite(d))
      else if forall i | 0 <= i < |ahead| :: ResolveMove(me, ahead[i]) != StayPut then Go(d)
      else ChangeDirectionAction(Opposite(d))
    case _ => Nothing
  }

  /** A squid keeps going exactly when no wall and nothing ahead stops it. */
  lemma SquidDesire(me: EntityType, wallAhead: bool, ahead: seq<EntityType>, heroAction: Action)
    requires me.Enemy? && me.enemy.Squid?
    ensures DesiredAction(me, wallAhead, ahead, heroAction) == Go(me.enemy.direction) <==>
      !wallAhead && forall i | 0 <= i < |ahead| :: ResolveMove(me, ahead[i]) != StayPut
    ensures DesiredAction(me, wallAhead, ahead, heroAction) != Go(me.enemy.direction) ==>
      DesiredAction(me, wallAhead, ahead, heroAction) == ChangeDirectionAction(Opposite(me.enemy.direction))
  {
    OppositeInvolutive(me.enemy.direction);
  }

  /** `Outcome`. */
  datatype Outcome = Continue | Loss | Win

  /** The outcome `tick` reports: a dead hero loses even if the stairs were reached. */
  function TickOutcome(heroHasDied: bool, winHasTriggered: bool): (o: Outcome)
    ensures o == Loss <==> heroHasDied
    ensures o == Outcome.Win <==> !heroHasDied && winHasTriggered
    ensures o == Continue <==> !heroHasDied && !winHasTriggered
  {
    if heroHasDied then Loss
    else if winHasTriggered then Outcome.Win
    else Continue
  }

  /** The entities after every one of them has been switched for `system`. */
  ghost function Toggled(m: map<nat, Entity>, system: nat): map<nat, Entity>
  {
    map k | k in m :: Entity(m[k].location, SwitchEntity(m[k].entity, system).0)
  }

  /**
   * `EntityMap`: the entities of the level by key. A slot map chooses the
   * key of an insertion; here the caller passes it, unused.
   */
  class EntityMap {
    var entities: map<nat, Entity>

    constructor ()
      ensures entities == map[]
    {
      entities := map[];
    }

    /** `add`: a level item placed at a square. */
    method Add(item: LevelItem, location: IntVector, key: nat)
      requires key !in entities
      modifies this
      ensures entities == old(entities)[key := Entity(location, FromLevelItem(item))]
    {
      entities := entities[key := Entity(location, FromLevelItem(item))];
    }

    /**
     * `kill_entity`: what the entity held is dropped as a new entity on its
     * square, the entity is removed, and the answer is whether it was the
     * hero.
     */
    method KillEntity(key: nat, newKey: nat) returns (wasHero: bool)
      requires newKey !in entities && newKey != key
      modifies this
      ensures key !in entities
      ensures wasHero <==> key in old(entities) && old(entities[key]).entity.Hero?
      ensures key in old(entities) && Holding(old(entities[key]).entity).Some? ==>
        entities == (old(entities) - {key})[newKey := Entity(old(entities[key]).location, Holding(old(entities[key]).entity).value)]
      ensures !(key in old(entities) && Holding(old(entities[key]).entity).Some?) ==>
        entities == old(entities) - {key}
    {
      if key in entities {
        var e := entities[key];
        var (rest, held) := TakeHolding(e.entity);
        entities := entities[key := Entity(e.location, rest)];
        if held.Some? {
          entities := entities[newKey := Entity(e.location, held.value)];
        }
      }
      wasHero := false;
      if key in entities {
        wasHero := entities[key].entity.Hero?;
        entities := entities - {key};
      }
    }

    /** `OverlapResolution::ToggleSystem`: `switch` on every entity. */
    method ToggleSystem(system: nat)
      modifies this
      ensures entities == Toggled(old(entities), system)
    {
      var todo := entities.Keys;
      ghost var start := entities;
      while todo != {}
        invariant todo <= start.Keys && entities.Keys == start.Keys
        invariant forall k | k in start && k !in todo :: entities[k] == Toggled(start, system)[k]
        invariant forall k | k in todo :: entities[k] == start[k]
        decreases |todo|
      {
        var k :| k in todo;
        var e := entities[k];
        entities := entities[k := Entity(e.location, SwitchEntity(e.entity, system).0)];
        todo := todo - {k};
      }
    }
  }

  /** Toggling a system twice puts every entity back. */
  lemma ToggleTwice(m: map<nat, Entity>, system: nat, k: nat)
    requires k in m
    ensures var t := Toggled(Toggled(m, system), system); k in t && t[k] == m[k]
  {
    SwitchTwice(m[k].entity, system);
  }
}
