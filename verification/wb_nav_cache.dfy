/**
 * `FlowFieldCache<AGENT>` of the warband navigation: a map from each goal
 * agents are walking to, to the entity holding its flow field and a
 * one-shot 30-second timer. The systems `spawn`, `insert`, `tick` and
 * `despawn` keep it; their effects on other entities are modelled as the
 * commands they queue. Entities are numbered; `commands.spawn()` hands out
 * the numbers from `next` upwards.
 */
module WbNavCache {
  import opened WbNavGrid
  import opened BevyTimer
  import opened BevyEcs

  /** `CACHE_TTL_SEC`. */
  const CACHE_TTL_SEC: real := 30.0

  /** `Goal` of the pathing systems: none, an entity to follow, or a cell. */
  datatype Goal = NoGoal | EntityGoal(entity: Entity) | CellGoal(cell: Cell)

  /** `Cached`: whether the cache spawned the field entity or borrowed an existing entity. */
  datatype Cached = Managed | Unmanaged

  /** The commands the cache systems queue. */
  datatype Command =
    | SpawnManaged(entity: Entity, cell: Cell)  // a new flow-field entity at the goal cell, `Cached::Managed`, dirty
    | AttachUnmanaged(entity: Entity)          // flow field, cell index, `Cached::Unmanaged` and dirty on the goal entity
    | MarkUnmanaged(entity: Entity)            // `Cached::Unmanaged` on a field entity
    | Disable(entity: Entity)                  // `Disabled<FlowField>`
    | DespawnRecursive(entity: Entity)
    | StripFlow(entity: Entity)                // remove `Cached`, the flow field, `Disabled` and `Dirty`

  /** The goal a `spawn` command was queued for. */
  function CommandGoal(c: Command): Goal {
    match c
    case SpawnManaged(_, cell) => CellGoal(cell)
    case AttachUnmanaged(e) => EntityGoal(e)
    case _ => NoGoal
  }

  /** The cache's contents: the field entity and the timer per goal. */
  type Entries = map<Goal, (Entity, Timer)>

  /** `Timer::from_seconds(CACHE_TTL_SEC, TimerMode::Once)`. */
  const NEW_TIMER: Timer := FromSeconds(CACHE_TTL_SEC)

  /** What the systems keep: every timer is a 30-second one that has time left. */
  predicate ValidEntries(entries: Entries) {
    forall g :: g in entries ==> entries[g].1.duration == CACHE_TTL_SEC && Running(entries[g].1)
  }

  /** The state `spawn` threads through its loop. */
  datatype SpawnState = SpawnState(entries: Entries, commands: seq<Command>, next: Entity)

  /**
   * One goal of `spawn`: a cached goal only has its timer reset; a new cell
   * goal gets a freshly spawned managed field; a new entity goal gets a
   * field on that entity; `Goal::None` changes nothing.
   */
  function SpawnOne(entries: Entries, goal: Goal, next: Entity): (r: SpawnState)
    ensures r.next >= next
  {
    if goal in entries then
      SpawnState(entries[goal := (entries[goal].0, Reset(entries[goal].1))], [], next)
    else
      match goal
      case CellGoal(c) => SpawnState(entries[goal := (next, NEW_TIMER)], [SpawnManaged(next, c)], next + 1)
      case EntityGoal(e) => SpawnState(entries[goal := (e, NEW_TIMER)], [AttachUnmanaged(e)], next)
      case NoGoal => SpawnState(entries, [], next)
  }

  /** `spawn` over the goals of the changed agents, in order. */
  function SpawnFrom(entries: Entries, goals: seq<Goal>, next: Entity): (r: SpawnState)
    ensures r.next >= next
    decreases |goals|
  {
    if goals == [] then SpawnState(entries, [], next)
    else
      var s := SpawnOne(entries, goals[0], next);
      var t := SpawnFrom(s.entries, goals[1..], s.next);
      SpawnState(t.entries, s.commands + t.commands, t.next)
  }

  /**
   * After `spawn`, the cached goals are the old ones plus every goal other
   * than `None` that an agent asked for; each of those has a fresh timer;
   * an entry already cached keeps its field entity, and an entry nobody
   * asked for is untouched.
   */
  lemma {:induction false} SpawnEntries(entries: Entries, goals: seq<Goal>, next: Entity, g: Goal)
    requires ValidEntries(entries)
    decreases |goals|
    ensures var r := SpawnFrom(entries, goals, next);
            && ValidEntries(r.entries)
            && (g in r.entries <==> g in entries || (g in goals && !g.NoGoal?))
            && (g in goals && g in r.entries ==> r.entries[g].1 == NEW_TIMER)
            && (g in entries ==> r.entries[g].0 == entries[g].0)
            && (g in entries && g !in goals ==> r.entries[g] == entries[g])
            && (g !in entries && g.EntityGoal? && g in goals ==> r.entries[g].0 == g.entity)
            && (g !in entries && g.CellGoal? && g in goals ==> next <= r.entries[g].0 < r.next)
  {
    if goals != [] {
      var s := SpawnOne(entries, goals[0], next);
      assert ValidEntries(s.entries);
      SpawnEntries(s.entries, goals[1..], s.next, g);
      assert forall x :: x in goals <==> x == goals[0] || x in goals[1..];
    }
  }

  /**
   * Each command of `spawn` is for a goal absent from the cache before that
   * an agent asked for, which now maps to the command's entity; spawned
   * entities are numbered from `next` up.
   */
  lemma {:induction false} SpawnCommandsForNewGoals(entries: Entries, goals: seq<Goal>, next: Entity)
    requires ValidEntries(entries)
    decreases |goals|
    ensures CommandsForNewGoals(entries, goals, next, SpawnFrom(entries, goals, next))
  {
    if goals != [] {
      var s := SpawnOne(entries, goals[0], next);
      var t := SpawnFrom(s.entries, goals[1..], s.next);
      var r := SpawnFrom(entries, goals, next);
      SpawnCommandsForNewGoals(s.entries, goals[1..], s.next);
      assert ValidEntries(s.entries);
      assert r.entries == t.entries && r.commands == s.commands + t.commands && r.next == t.next;
      FirstCommandForNewGoal(entries, goals, next);
      forall i | 0 <= i < |r.commands|
        ensures GoalOfCommand(entries, goals, r, r.commands[i])
        ensures r.commands[i].SpawnManaged? ==> next <= r.commands[i].entity < r.next
      {
        if i < |s.commands| {
          assert r.commands[i] == s.commands[0];
        } else {
          LaterCommandForNewGoal(entries, goals, next, t.commands[i - |s.commands|]);
          assert r.commands[i] == t.commands[i - |s.commands|];
        }
      }
    }
  }

  /** The command `spawn` queues for the first goal, if any, is for a new goal and its fresh entity. */
  lemma FirstCommandForNewGoal(entries: Entries, goals: seq<Goal>, next: Entity)
    requires ValidEntries(entries) && goals != []
    ensures var s := SpawnOne(entries, goals[0], next);
            var r := SpawnFrom(entries, goals, next);
            forall c :: c in s.commands ==>
              GoalOfCommand(entries, goals, r, c) && (c.SpawnManaged? ==> next <= c.entity < r.next)
  {
    var s := SpawnOne(entries, goals[0], next);
    assert ValidEntries(s.entries);
    SpawnEntries(s.entries, goals[1..], s.next, goals[0]);
  }

  /** A command `spawn` queues for a later goal is for a goal new before the first one too. */
  lemma LaterCommandForNewGoal(entries: Entries, goals: seq<Goal>, next: Entity, c: Command)
    requires ValidEntries(entries) && goals != []
    requires var s := SpawnOne(entries, goals[0], next);
             GoalOfCommand(s.entries, goals[1..], SpawnFrom(s.entries, goals[1..], s.next), c)
    ensures GoalOfCommand(entries, goals, SpawnFrom(entries, goals, next), c)
  {
    assert CommandGoal(c) in goals[1..];
  }

  /** The commands of `spawn` are for pairwise different goals: agents sharing a new goal in one pass yield one field. */
  lemma {:induction false} SpawnCommandsDistinct(entries: Entries, goals: seq<Goal>, next: Entity)
    requires ValidEntries(entries)
    decreases |goals|
    ensures CommandsDistinct(SpawnFrom(entries, goals, next).commands)
  {
    if goals != [] {
      var s := SpawnOne(entries, goals[0], next);
      var t := SpawnFrom(s.entries, goals[1..], s.next);
      assert ValidEntries(s.entries);
      SpawnCommandsDistinct(s.entries, goals[1..], s.next);
      SpawnCommandsForNewGoals(s.entries, goals[1..], s.next);
      forall i | 0 <= i < |t.commands|
        ensures CommandGoal(t.commands[i]) != goals[0] || goals[0] in entries || goals[0].NoGoal?
      {
        assert GoalOfCommand(s.entries, goals[1..], t, t.commands[i]);
      }
    }
  }

  /** Every goal other than `None` that was not cached gets its command from `spawn`. */
  lemma {:induction false} SpawnCommandsComplete(entries: Entries, goals: seq<Goal>, next: Entity, g: Goal)
    requires ValidEntries(entries)
    decreases |goals|
    ensures g in goals && !g.NoGoal? && g !in entries ==>
              exists i :: 0 <= i < |SpawnFrom(entries, goals, next).commands| &&
                CommandGoal(SpawnFrom(entries, goals, next).commands[i]) == g
  {
    if goals != [] && g in goals && !g.NoGoal? && g !in entries {
      var s := SpawnOne(entries, goals[0], next);
      var t := SpawnFrom(s.entries, goals[1..], s.next);
      var r := SpawnFrom(entries, goals, next);
      if g == goals[0] {
        assert CommandGoal(r.commands[0]) == g;
      } else {
        assert ValidEntries(s.entries);
        assert g in goals[1..] && g !in s.entries;
        SpawnCommandsComplete(s.entries, goals[1..], s.next, g);
        var i :| 0 <= i < |t.commands| && CommandGoal(t.commands[i]) == g;
        assert CommandGoal(r.commands[|s.commands| + i]) == g;
      }
    }
  }

  /** Commands for pairwise different goals. */
  predicate CommandsDistinct(commands: seq<Command>) {
    forall i, j :: 0 <= i < j < |commands| ==> CommandGoal(commands[i]) != CommandGoal(commands[j])
  }

  /** Each command is for a new goal that now maps to its entity, and spawned entities lie in `[next, r.next)`. */
  predicate CommandsForNewGoals(entries: Entries, goals: seq<Goal>, next: Entity, r: SpawnState) {
    forall i :: 0 <= i < |r.commands| ==>
      GoalOfCommand(entries, goals, r, r.commands[i]) &&
      (r.commands[i].SpawnManaged? ==> next <= r.commands[i].entity < r.next)
  }

  /** `c` was queued for a goal absent from `entries` that an agent asked for, which now maps to `c`'s entity. */
  predicate GoalOfCommand(entries: Entries, goals: seq<Goal>, r: SpawnState, c: Command) {
    var g := CommandGoal(c);
    && !g.NoGoal? && g !in entries && g in goals && g in r.entries
    && r.entries[g].0 == c.entity
  }

  /** `despawn` for one disabled field: despawn a managed one, strip an unmanaged one. */
  function DespawnOne(entity: Entity, cached: Cached): (c: Command)
    ensures c.entity == entity
    ensures c.DespawnRecursive? <==> cached == Managed
    ensures c.StripFlow? <==> cached == Unmanaged
  {
    match cached
    case Managed => DespawnRecursive(entity)
    case Unmanaged => StripFlow(entity)
  }

  /** `despawn` over the disabled flow fields, in query order. */
  function DespawnAll(fields: seq<(Entity, Cached)>): (cs: seq<Command>)
    ensures |cs| == |fields|
    ensures forall i :: 0 <= i < |fields| ==> cs[i] == DespawnOne(fields[i].0, fields[i].1)
  {
    if fields == [] then [] else [DespawnOne(fields[0].0, fields[0].1)] + DespawnAll(fields[1..])
  }

  /**
   * Only managed fields are despawned: an entity the cache borrowed keeps
   * existing and only loses its flow-field components.
   */
  lemma DespawnOnlyManaged(fields: seq<(Entity, Cached)>, e: Entity)
    requires forall i, j :: 0 <= i < j < |fields| ==> fields[i].0 != fields[j].0
    ensures DespawnRecursive(e) in DespawnAll(fields) <==> (e, Managed) in fields
    ensures StripFlow(e) in DespawnAll(fields) <==> (e, Unmanaged) in fields
  {
    var cs := DespawnAll(fields);
    if DespawnRecursive(e) in cs {
      var i :| 0 <= i < |cs| && cs[i] == DespawnRecursive(e);
      assert fields[i] == (e, Managed);
    }
    if (e, Managed) in fields {
      var i :| 0 <= i < |fields| && fields[i] == (e, Managed);
      assert cs[i] == DespawnRecursive(e);
    }
    if StripFlow(e) in cs {
      var i :| 0 <= i < |cs| && cs[i] == StripFlow(e);
      assert fields[i] == (e, Unmanaged);
    }
    if (e, Unmanaged) in fields {
      var i :| 0 <= i < |fields| && fields[i] == (e, Unmanaged);
      assert cs[i] == StripFlow(e);
    }
  }

  /** The `FlowFieldCache<AGENT>` resource. */
  class FlowFieldCache {
    var entries: Entries

    /** The systems keep every timer running. */
    predicate Valid()
      reads this
    {
      ValidEntries(entries)
    }

    /** `FlowFieldCache::default`: empty. */
    constructor ()
      ensures entries == map[] && Valid()
    {
      entries := map[];
    }

    /**
     * The `spawn` system over the goals of the agents whose goal or agent
     * type changed, in query order; `next` is the first unused entity.
     */
    method Spawn(goals: seq<Goal>, next: Entity) returns (commands: seq<Command>, next': Entity)
      requires Valid()
      modifies this
      ensures var r := SpawnFrom(old(entries), goals, next);
              entries == r.entries && commands == r.commands && next' == r.next
      ensures Valid()
    {
      commands, next' := [], next;
      var k := 0;
      while k < |goals|
        invariant 0 <= k <= |goals|
        invariant SpawnStep(SpawnState(entries, commands, next'), goals[k..]) == SpawnFrom(old(entries), goals, next)
      {
        var goal := goals[k];
        ghost var before := SpawnState(entries, commands, next');
        ghost var step := SpawnOne(entries, goal, next');
        assert goals[k..][1..] == goals[k + 1..];
        if goal in entries {
          var (entity, timer) := entries[goal];
          entries := entries[goal := (entity, Reset(timer))];
        } else if goal.CellGoal? {
          entries := entries[goal := (next', NEW_TIMER)];
          commands := commands + [SpawnManaged(next', goal.cell)];
          next' := next' + 1;
        } else if goal.EntityGoal? {
          entries := entries[goal := (goal.entity, NEW_TIMER)];
          commands := commands + [AttachUnmanaged(goal.entity)];
        }
        assert SpawnState(entries, commands, next') == SpawnState(step.entries, before.commands + step.commands, step.next);
        SpawnStepAdvances(before, goals[k..]);
        k := k + 1;
      }
      SpawnEntriesValid(old(entries), goals, next);
    }

    /**
     * The `insert` system: each newly added flow field that the cache does
     * not track becomes the entry `Goal::Entity(e) -> (e, 30 s)` and is
     * marked unmanaged. `insert_unique_unchecked` needs each key absent.
     */
    method Insert(fields: seq<Entity>) returns (commands: seq<Command>)
      requires Valid()
      requires forall i :: 0 <= i < |fields| ==> EntityGoal(fields[i]) !in entries
      requires forall i, j :: 0 <= i < j < |fields| ==> fields[i] != fields[j]
      modifies this
      ensures forall g :: g in entries <==> g in old(entries) || (g.EntityGoal? && g.entity in fields)
      ensures forall g :: g in old(entries) ==> entries[g] == old(entries[g])
      ensures forall e :: e in fields ==> entries[EntityGoal(e)] == (e, NEW_TIMER)
      ensures commands == seq(|fields|, i requires 0 <= i < |fields| => MarkUnmanaged(fields[i]))
      ensures Valid()
    {
      commands := [];
      var k := 0;
      while k < |fields|
        invariant 0 <= k <= |fields|
        invariant forall g :: g in entries <==> g in old(entries) || (g.EntityGoal? && g.entity in fields[..k])
        invariant forall g :: g in old(entries) ==> entries[g] == old(entries[g])
        invariant forall e :: e in fields[..k] ==> entries[EntityGoal(e)] == (e, NEW_TIMER)
        invariant commands == seq(k, i requires 0 <= i < k => MarkUnmanaged(fields[i]))
        invariant Valid()
      {
        assert fields[..k + 1] == fields[..k] + [fields[k]];
        entries := entries[EntityGoal(fields[k]) := (fields[k], NEW_TIMER)];
        commands := commands + [MarkUnmanaged(fields[k])];
        k := k + 1;
      }
      assert fields[..k] == fields;
    }

    /**
     * The `tick` system: every timer advances by `delta`; the entries whose
     * timer finishes on this tick leave the cache and their field entities
     * are disabled; the others stay, `delta` older.
     */
    method Tick(delta: real) returns (disabled: set<Entity>)
      requires Valid() && delta >= 0.0
      modifies this
      ensures forall g :: g in entries <==> g in old(entries) && old(entries[g].1.elapsed) + delta < CACHE_TTL_SEC
      ensures forall g :: g in entries ==>
                entries[g].0 == old(entries[g].0) && entries[g].1.elapsed == old(entries[g].1.elapsed) + delta
      ensures forall e :: e in disabled <==>
                exists g :: g in old(entries) && old(entries[g].0) == e &&
                  old(entries[g].1.elapsed) + delta >= CACHE_TTL_SEC
      ensures Valid()
    {
      var before := entries;
      entries := map g | g in before && !JustFinished(BevyTimer.Tick(before[g].1, delta)) ::
        (before[g].0, BevyTimer.Tick(before[g].1, delta));
      disabled := set g | g in before && JustFinished(BevyTimer.Tick(before[g].1, delta)) :: before[g].0;
      forall g | g in before {
        TickRunning(before[g].1, delta);
      }
    }
  }

  /** The rest of `spawn` after one step, with that step's commands in front. */
  function SpawnStep(s: SpawnState, rest: seq<Goal>): SpawnState {
    var t := SpawnFrom(s.entries, rest, s.next);
    SpawnState(t.entries, s.commands + t.commands, t.next)
  }

  /** Taking one goal of the rest into the state leaves the outcome unchanged. */
  lemma SpawnStepAdvances(s: SpawnState, rest: seq<Goal>)
    requires rest != []
    ensures var step := SpawnOne(s.entries, rest[0], s.next);
            SpawnStep(SpawnState(step.entries, s.commands + step.commands, step.next), rest[1..]) == SpawnStep(s, rest)
  {
    var step := SpawnOne(s.entries, rest[0], s.next);
    var t := SpawnFrom(step.entries, rest[1..], step.next);
    assert s.commands + step.commands + t.commands == s.commands + (step.commands + t.commands);
  }

  /** `spawn` keeps every timer running. */
  lemma SpawnEntriesValid(entries: Entries, goals: seq<Goal>, next: Entity)
    requires ValidEntries(entries)
    ensures ValidEntries(SpawnFrom(entries, goals, next).entries)
  {
    SpawnEntries(entries, goals, next, NoGoal);
  }
}
