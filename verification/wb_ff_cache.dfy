/**
 * `FlowFieldCache` of the warband `flow_field` module: a map from each
 * goal agents are walking to, to the entity holding its flow field and a
 * one-shot 30-second timer. The systems `detect`, `insert`, `lifetime` and
 * `despawn` keep it; their effects on other entities are modelled as the
 * commands they queue. Entities are numbered; `commands.spawn()` hands out
 * the numbers from `next` upwards.
 */
module WbFfCache {
  import opened WbNavGrid
  import opened BevyTimer
  import opened BevyEcs

  /** `DEFAULT_CACHE_TTL_SEC`. */
  const DEFAULT_CACHE_TTL_SEC: real := 30.0

  /** `Goal`: none, an entity to follow, or a cell. */
  datatype Goal = NoGoal | EntityGoal(entity: Entity) | CellGoal(cell: Cell)

  /** `FlowFieldCacheEntry`: the field entity and its time to live. */
  datatype Entry = Entry(field: Entity, ttl: Timer)

  /** `Timer::from_seconds(DEFAULT_CACHE_TTL_SEC, TimerMode::Once)`. */
  const NEW_TIMER: Timer := FromSeconds(DEFAULT_CACHE_TTL_SEC)

  /** `FlowFieldCacheEntry::default`: entity 0 with a fresh timer. */
  const DEFAULT_ENTRY: Entry := Entry(0, NEW_TIMER)

  /** The commands the cache systems queue. */
  datatype Command =
    | SpawnField(entity: Entity, cell: Cell)  // a new flow field at the goal cell, tracked by the cache and dirty
    | Track(entity: Entity)                   // `TrackedByCache`
    | Deactivate(entity: Entity)              // remove `TrackedByCache`, insert `Deactivated<FlowField>`
    | DespawnRecursive(entity: Entity)

  /** What the systems keep: every timer is a 30-second one that has time left. */
  predicate ValidEntries(entries: map<Goal, Entry>) {
    forall g :: g in entries ==> entries[g].ttl.duration == DEFAULT_CACHE_TTL_SEC && Running(entries[g].ttl)
  }

  /** A flow-field entity as `despawn` sees it. */
  datatype FieldEntity = FieldEntity(entity: Entity, deactivated: bool, rebuilding: bool)

  /** The `FlowFieldCache` resource. */
  class FlowFieldCache {
    var entries: map<Goal, Entry>

    /** The systems keep every timer running. */
    predicate Valid()
      reads this
    {
      ValidEntries(entries)
    }

    /** `FlowFieldCache::default`: empty. */
    constructor ()
      ensures entries == map[] && Valid()
    {
      entries := map[];
    }

    /**
     * The `detect` system over the goals of the agents whose goal changed,
     * in query order; `next` is the first unused entity. A cached goal only
     * has its timer reset. An absent cell goal gets a freshly spawned field
     * and a new entry; an absent entity goal and `Goal::None` add nothing.
     * Agents sharing a new goal in one pass yield one field, because the
     * lookup sees the entry the first of them inserted.
     */
    method Detect(goals: seq<Goal>, next: Entity) returns (commands: seq<Command>, next': Entity)
      requires Valid()
      modifies this
      ensures Valid()
      ensures next' == next + |commands|
      ensures forall g :: g in entries <==> g in old(entries) || (g.CellGoal? && g in goals)
      ensures forall g :: g in old(entries) ==> entries[g].field == old(entries[g].field)
      ensures forall g :: g in old(entries) && g !in goals ==> entries[g] == old(entries[g])
      ensures forall g :: g in goals && g in entries ==> entries[g].ttl == NEW_TIMER
      ensures forall i :: 0 <= i < |commands| ==>
                commands[i].SpawnField? && commands[i].entity == next + i &&
                CellGoal(commands[i].cell) !in old(entries) &&
                CellGoal(commands[i].cell) in entries && entries[CellGoal(commands[i].cell)].field == next + i
      ensures forall g :: g in entries && g !in old(entries) ==>
                exists i :: 0 <= i < |commands| && commands[i] == SpawnField(next + i, g.cell)
    {
      commands, next' := [], next;
      var k := 0;
      while k < |goals|
        invariant 0 <= k <= |goals|
        invariant next' == next + |commands|
        invariant Detected(old(entries), entries, goals[..k], commands, next)
      {
        var goal := goals[k];
        assert goals[..k + 1] == goals[..k] + [goal];
        if goal in entries {
          DetectReset(old(entries), entries, goals[..k], goal, commands, next);
          entries := entries[goal := entries[goal].(ttl := Reset(entries[goal].ttl))];
        } else if goal.CellGoal? {
          DetectSpawn(old(entries), entries, goals[..k], goal, commands, next);
          entries := entries[goal := Entry(next', NEW_TIMER)];
          commands := commands + [SpawnField(next', goal.cell)];
          next' := next' + 1;
        }
        k := k + 1;
      }
      assert goals[..k] == goals;
    }

    /**
     * The `insert` system: each newly added flow field that is neither
     * tracked by the cache nor deactivated becomes the entry
     * `Goal::Entity(e) -> (e, 30 s)` and is tagged as tracked.
     * `insert_unique_unchecked` needs each key absent.
     */
    method Insert(fields: seq<Entity>) returns (commands: seq<Command>)
      requires Valid()
      requires forall i :: 0 <= i < |fields| ==> EntityGoal(fields[i]) !in entries
      requires forall i, j :: 0 <= i < j < |fields| ==> fields[i] != fields[j]
      modifies this
      ensures Valid()
      ensures forall g :: g in entries <==> g in old(entries) || (g.EntityGoal? && g.entity in fields)
      ensures forall g :: g in old(entries) ==> entries[g] == old(entries[g])
      ensures forall e :: e in fields ==> entries[EntityGoal(e)] == Entry(e, NEW_TIMER)
      ensures commands == seq(|fields|, i requires 0 <= i < |fields| => Track(fields[i]))
    {
      commands := [];
      var k := 0;
      while k < |fields|
        invariant 0 <= k <= |fields|
        invariant Valid()
        invariant forall g :: g in entries <==> g in old(entries) || (g.EntityGoal? && g.entity in fields[..k])
        invariant forall g :: g in old(entries) ==> entries[g] == old(entries[g])
        invariant forall e :: e in fields[..k] ==> entries[EntityGoal(e)] == Entry(e, NEW_TIMER)
        invariant commands == seq(k, i requires 0 <= i < k => Track(fields[i]))
      {
        assert fields[..k + 1] == fields[..k] + [fields[k]];
        entries := entries[EntityGoal(fields[k]) := Entry(fields[k], NEW_TIMER)];
        commands := commands + [Track(fields[k])];
        k := k + 1;
      }
      assert fields[..k] == fields;
    }

    /**
     * The `lifetime` system: every timer advances by `delta`; the entries
     * whose timer finishes on this tick leave the cache and their field
     * entities are deactivated (and no longer tracked); the others stay,
     * `delta` older. The removal order is the map's, so the deactivated
     * fields are returned as a set.
     */
    method Lifetime(delta: real) returns (deactivated: set<Entity>)
      requires Valid() && delta >= 0.0
      modifies this
      ensures Valid()
      ensures forall g :: g in entries <==> g in old(entries) && old(entries[g].ttl.elapsed) + delta < DEFAULT_CACHE_TTL_SEC
      ensures forall g :: g in entries ==>
                entries[g].field == old(entries[g].field) && entries[g].ttl.elapsed == old(entries[g].ttl.elapsed) + delta
      ensures forall e :: e in deactivated <==>
                exists g :: g in old(entries) && old(entries[g].field) == e &&
                  old(entries[g].ttl.elapsed) + delta >= DEFAULT_CACHE_TTL_SEC
    {
      var before := entries;
      entries := map g | g in before && !JustFinished(BevyTimer.Tick(before[g].ttl, delta)) ::
        before[g].(ttl := BevyTimer.Tick(before[g].ttl, delta));
      deactivated := set g | g in before && JustFinished(BevyTimer.Tick(before[g].ttl, delta)) :: before[g].field;
      forall g | g in before {
        TickRunning(before[g].ttl, delta);
      }
    }
  }

  /**
   * What `detect` has done after the goals `seen`, starting from `e0`: the
   * cached goals are the old ones plus the cell goals seen; old entries
   * keep their field, and those not seen are untouched; every goal seen
   * has a fresh timer; command `i` spawned entity `next + i` for a cell
   * goal absent before, which now maps to it; and every new goal has such a
   * command.
   */
  ghost predicate Detected(e0: map<Goal, Entry>, entries: map<Goal, Entry>, seen: seq<Goal>, commands: seq<Command>, next: Entity) {
    && ValidEntries(entries)
    && (forall g :: g in entries <==> g in e0 || (g.CellGoal? && g in seen))
    && (forall g :: g in e0 ==> entries[g].field == e0[g].field)
    && (forall g :: g in e0 && g !in seen ==> entries[g] == e0[g])
    && (forall g :: g in seen && g in entries ==> entries[g].ttl == NEW_TIMER)
    && (forall i :: 0 <= i < |commands| ==>
          commands[i].SpawnField? && commands[i].entity == next + i &&
          CellGoal(commands[i].cell) !in e0 &&
          CellGoal(commands[i].cell) in entries && entries[CellGoal(commands[i].cell)].field == next + i)
    && (forall g :: g in entries && g !in e0 ==>
          exists i :: 0 <= i < |commands| && commands[i] == SpawnField(next + i, g.cell))
  }

  /** A goal already cached only has its timer reset, which makes it fresh. */
  lemma DetectReset(e0: map<Goal, Entry>, entries: map<Goal, Entry>, seen: seq<Goal>, goal: Goal, commands: seq<Command>, next: Entity)
    requires Detected(e0, entries, seen, commands, next) && goal in entries
    ensures Detected(e0, entries[goal := entries[goal].(ttl := Reset(entries[goal].ttl))], seen + [goal], commands, next)
  {
    var after := entries[goal := entries[goal].(ttl := Reset(entries[goal].ttl))];
    forall g | g in after && g !in e0
      ensures exists i :: 0 <= i < |commands| && commands[i] == SpawnField(next + i, g.cell)
    {
      assert g in entries;
    }
  }

  /** An absent cell goal gets the next entity, a fresh timer and a spawn command. */
  lemma DetectSpawn(e0: map<Goal, Entry>, entries: map<Goal, Entry>, seen: seq<Goal>, goal: Goal, commands: seq<Command>, next: Entity)
    requires Detected(e0, entries, seen, commands, next) && goal !in entries && goal.CellGoal?
    ensures Detected(e0, entries[goal := Entry(next + |commands|, NEW_TIMER)], seen + [goal],
                     commands + [SpawnField(next + |commands|, goal.cell)], next)
  {
    var after := entries[goal := Entry(next + |commands|, NEW_TIMER)];
    var cs := commands + [SpawnField(next + |commands|, goal.cell)];
    forall g | g in after && g !in e0
      ensures exists i :: 0 <= i < |cs| && cs[i] == SpawnField(next + i, g.cell)
    {
      if g == goal {
        assert cs[|commands|] == SpawnField(next + |commands|, g.cell);
      } else {
        var i :| 0 <= i < |commands| && commands[i] == SpawnField(next + i, g.cell);
        assert cs[i] == commands[i];
      }
    }
  }

  /**
   * The `despawn` system over the flow-field entities in query order: it
   * despawns exactly the deactivated ones with no rebuild pending, so the
   * teardown of a field whose rebuild is in flight waits for the rebuild.
   */
  method Despawn(fields: seq<FieldEntity>) returns (commands: seq<Command>)
    ensures forall c :: c in commands ==> c.DespawnRecursive?
    ensures forall e :: DespawnRecursive(e) in commands <==>
              exists f :: f in fields && f.entity == e && f.deactivated && !f.rebuilding
  {
    commands := [];
    for k := 0 to |fields|
      invariant forall c :: c in commands ==> c.DespawnRecursive?
      invariant forall e :: DespawnRecursive(e) in commands <==>
                  exists f :: f in fields[..k] && f.entity == e && f.deactivated && !f.rebuilding
    {
      assert fields[..k + 1] == fields[..k] + [fields[k]];
      if fields[k].deactivated && !fields[k].rebuilding {
        commands := commands + [DespawnRecursive(fields[k].entity)];
      }
    }
    assert fields[..|fields|] == fields;
  }

  /**
   * Over one frame of `detect` and `lifetime`, a goal an agent asked for
   * survives while its field has time left: it is cached after `detect`
   * with a fresh timer, so a `lifetime` tick shorter than the TTL keeps it.
   */
  lemma FreshEntrySurvives(e: Entry, delta: real)
    requires e.ttl == NEW_TIMER && 0.0 <= delta < DEFAULT_CACHE_TTL_SEC
    ensures !JustFinished(BevyTimer.Tick(e.ttl, delta))
    ensures BevyTimer.Tick(e.ttl, delta).elapsed == delta
  {
  }
}
