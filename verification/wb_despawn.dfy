/**
 * Deferred despawning of the warband crate (`core/despawn.rs`): an entity
 * given a `Despawn` component counts down, in seconds or in frames, and
 * once the countdown ends the component is swapped for a `Despawning`
 * marker; the frame that adds the marker despawns the entity with its
 * children. The delay in seconds is an `f32`, modelled as `real`; the
 * frame count is a `u32`.
 */
module WbDespawn {
  import opened Opt
  import opened BevyEcs

  /** `u32::MAX`. */
  const U32_MAX: nat := 0xFFFF_FFFF

  type U32 = n: nat | n <= U32_MAX

  /** `Despawn`; the default is `Immediate`. */
  datatype Despawn = Immediate | Delay(seconds: real) | WaitFrames(frames: U32)

  /**
   * One frame of `despawn_timer` for one entity: the countdown after the
   * frame and whether it ended. `Immediate` ends at once; `Delay` loses the
   * frame's time and ends when nothing is left; `WaitFrames(0)` ends at once
   * and `WaitFrames(n)` otherwise loses a frame and ends when it reaches 0.
   */
  function Tick(d: Despawn, delta: real): (r: (Despawn, bool))
    ensures r.1 <==> d.Immediate? || (d.Delay? && d.seconds <= delta) || (d.WaitFrames? && d.frames <= 1)
    ensures d.Immediate? ==> r.0 == d
    ensures d.Delay? ==> r.0 == Delay(d.seconds - delta)
    ensures d.WaitFrames? ==> r.0 == WaitFrames(if d.frames == 0 then 0 else d.frames - 1)
  {
    match d
    case Immediate => (d, true)
    case Delay(s) => (Delay(s - delta), s - delta <= 0.0)
    case WaitFrames(n) => if n == 0 then (d, true) else (WaitFrames(n - 1), n - 1 == 0)
  }

  /**
   * The frame, counted from 0, at which a countdown started with `d` ends
   * when the frames last `deltas`, or `None` if it outlasts them.
   */
  function FirstTrigger(d: Despawn, deltas: seq<real>): (r: Option<nat>)
    ensures r.Some? ==> r.value < |deltas|
    ensures d.Immediate? ==> r == if |deltas| > 0 then Some(0) else None
    decreases |deltas|
  {
    if |deltas| == 0 then None
    else
      var (next, ends) := Tick(d, deltas[0]);
      if ends then Some(0)
      else match FirstTrigger(next, deltas[1..])
        case None => None
        case Some(k) => Some(k + 1)
  }

  /** The time the first `k` frames take. */
  function Elapsed(deltas: seq<real>, k: nat): real
    requires k <= |deltas|
  {
    if k == 0 then 0.0 else Elapsed(deltas, k - 1) + deltas[k - 1]
  }

  /** Frames after the first take the same time on the remaining frames. */
  lemma {:induction false} ElapsedAfterFirst(deltas: seq<real>, k: nat)
    requires 0 < k <= |deltas|
    ensures Elapsed(deltas, k) == deltas[0] + Elapsed(deltas[1..], k - 1)
    decreases k
  {
    if k > 1 {
      ElapsedAfterFirst(deltas, k - 1);
    }
  }

  /** Every run of the first `m` frames, `1 <= m <= k`, takes less than `s` seconds. */
  predicate ShortOf(deltas: seq<real>, s: real, k: nat)
    requires k <= |deltas|
  {
    forall m :: 1 <= m <= k ==> Elapsed(deltas, m) < s
  }

  /**
   * `Delay(s)` ends at frame `k` exactly when the first `k + 1` frames take
   * at least `s` seconds and no shorter run of frames does.
   */
  lemma {:induction false} DelayEndsWhenElapsed(s: real, deltas: seq<real>, k: nat)
    ensures FirstTrigger(Delay(s), deltas) == Some(k) <==>
              k < |deltas| && Elapsed(deltas, k + 1) >= s && ShortOf(deltas, s, k)
    decreases |deltas|
  {
    if |deltas| == 0 {
      return;
    }
    ElapsedAfterFirst(deltas, 1);
    var rest := deltas[1..];
    var s' := s - deltas[0];
    if deltas[0] >= s || k == 0 {
      // The first frame decides.
      assert Elapsed(deltas, 1) == deltas[0];
    } else if k < |deltas| {
      DelayEndsWhenElapsed(s', rest, k - 1);
      ElapsedAfterFirst(deltas, k + 1);
      if ShortOf(rest, s', k - 1) {
        forall m | 1 <= m <= k
          ensures Elapsed(deltas, m) < s
        {
          ElapsedAfterFirst(deltas, m);
          if m > 1 {
            assert Elapsed(rest, m - 1) < s';
          }
        }
      }
      if ShortOf(deltas, s, k) {
        forall m | 1 <= m <= k - 1
          ensures Elapsed(rest, m) < s'
        {
          ElapsedAfterFirst(deltas, m + 1);
          assert Elapsed(deltas, m + 1) < s;
        }
      }
    }
  }

  /** `WaitFrames(n)` ends at frame `max(n, 1) - 1`: after `max(n, 1)` frames. */
  lemma {:induction false} WaitFramesEndsAfter(n: U32, deltas: seq<real>)
    ensures var frames := if n == 0 then 1 else n;
            FirstTrigger(WaitFrames(n), deltas) == if frames <= |deltas| then Some(frames - 1) else None
    decreases n
  {
    if |deltas| > 0 && n > 1 {
      WaitFramesEndsAfter(n - 1, deltas[1..]);
    }
  }

  /** The deferred commands `despawn_timer` and `despawning` queue. */
  datatype Command =
    | MarkDespawning(entity: Entity)   // remove `Despawn`, insert `Despawning`
    | DespawnRecursive(entity: Entity)

  /**
   * The components of the world these systems touch: the `Despawn` of
   * every entity counting down, the entities holding `Despawning`, and those
   * whose `Despawning` was added since `despawning` last ran.
   */
  class DespawnWorld {
    var despawn: map<Entity, Despawn>
    var despawning: set<Entity>
    var added: set<Entity>

    ghost predicate Valid()
      reads this
    {
      added <= despawning
    }

    constructor ()
      ensures Valid() && despawn == map[] && despawning == {} && added == {}
    {
      despawn := map[];
      despawning := {};
      added := {};
    }

    /**
     * `despawn_timer`: every `Despawn`, visited in the query's `order`,
     * advances one frame in place, and one command is queued for each
     * countdown that ends.
     */
    method DespawnTimer(order: seq<Entity>, delta: real) returns (commands: seq<Command>)
      requires forall i, j :: 0 <= i < j < |order| ==> order[i] != order[j]
      requires forall e :: e in order <==> e in despawn
      modifies this
      ensures despawning == old(despawning) && added == old(added)
      ensures despawn.Keys == old(despawn).Keys
      ensures forall e :: e in despawn ==> despawn[e] == Tick(old(despawn)[e], delta).0
      ensures forall c :: c in commands ==> c.MarkDespawning?
      ensures forall e :: MarkDespawning(e) in commands <==> e in old(despawn) && Tick(old(despawn)[e], delta).1
    {
      commands := [];
      for k := 0 to |order|
        invariant despawning == old(despawning) && added == old(added)
        invariant despawn.Keys == old(despawn).Keys
        invariant forall e :: e in despawn ==>
                    despawn[e] == if e in order[..k] then Tick(old(despawn)[e], delta).0 else old(despawn)[e]
        invariant forall c :: c in commands ==> c.MarkDespawning?
        invariant forall e :: MarkDespawning(e) in commands <==> e in order[..k] && Tick(old(despawn)[e], delta).1
      {
        var e := order[k];
        assert e !in order[..k];
        assert order[..k + 1] == order[..k] + [e];
        var (next, ends) := Tick(despawn[e], delta);
        despawn := despawn[e := next];
        if ends {
          commands := commands + [MarkDespawning(e)];
        }
      }
      assert order[..|order|] == order;
    }

    /**
     * The deferred commands of `despawn_timer` applied in order: each ended
     * countdown loses its `Despawn` and gains `Despawning`, which counts as
     * added only when the entity did not hold it already.
     */
    method ApplyMarks(commands: seq<Command>)
      requires Valid()
      requires forall c :: c in commands ==> c.MarkDespawning?
      modifies this
      ensures Valid()
      ensures despawn == old(despawn) - (set c | c in commands :: c.entity)
      ensures despawning == old(despawning) + (set c | c in commands :: c.entity)
      ensures added == old(added) + ((set c | c in commands :: c.entity) - old(despawning))
    {
      for k := 0 to |commands|
        invariant Valid()
        invariant despawn == old(despawn) - (set c | c in commands[..k] :: c.entity)
        invariant despawning == old(despawning) + (set c | c in commands[..k] :: c.entity)
        invariant added == old(added) + ((set c | c in commands[..k] :: c.entity) - old(despawning))
      {
        var e := commands[k].entity;
        assert commands[..k + 1] == commands[..k] + [commands[k]];
        if e !in despawning {
          added := added + {e};
        }
        despawn := despawn - {e};
        despawning := despawning + {e};
      }
      assert commands[..|commands|] == commands;
    }

    /**
     * `despawning`: one `despawn_recursive` for each entity whose
     * `Despawning` was just added, each entity once.
     */
    method Despawning() returns (commands: seq<Command>)
      requires Valid()
      modifies this
      ensures Valid() && added == {}
      ensures despawn == old(despawn) && despawning == old(despawning)
      ensures forall c :: c in commands ==> c.DespawnRecursive?
      ensures forall e :: DespawnRecursive(e) in commands <==> e in old(added)
      ensures forall i, j :: 0 <= i < j < |commands| ==> commands[i] != commands[j]
    {
      commands := [];
      var pending := added;
      while pending != {}
        invariant pending <= old(added)
        invariant forall c :: c in commands ==> c.DespawnRecursive?
        invariant forall e :: DespawnRecursive(e) in commands <==> e in old(added) && e !in pending
        invariant forall i, j :: 0 <= i < j < |commands| ==> commands[i] != commands[j]
        decreases pending
      {
        var e :| e in pending;
        commands := commands + [DespawnRecursive(e)];
        pending := pending - {e};
      }
      added := {};
    }

    /**
     * One frame of the `Last` schedule: the timer, its commands applied,
     * then `despawning`. Starting from a world whose additions have been
     * handled, exactly the entities whose countdown ends this frame and that
     * were not already despawning are despawned, and none of them keeps a
     * `Despawn`, so no countdown runs twice.
     */
    method Frame(order: seq<Entity>, delta: real) returns (despawned: seq<Command>)
      requires Valid() && added == {}
      requires forall i, j :: 0 <= i < j < |order| ==> order[i] != order[j]
      requires forall e :: e in order <==> e in despawn
      modifies this
      ensures Valid() && added == {}
      ensures forall e :: DespawnRecursive(e) in despawned <==>
                e in old(despawn) && Tick(old(despawn)[e], delta).1 && e !in old(despawning)
      ensures forall e :: e in despawn <==> e in old(despawn) && !Tick(old(despawn)[e], delta).1
      ensures forall e :: e in despawn ==> despawn[e] == Tick(old(despawn)[e], delta).0
    {
      var marks := DespawnTimer(order, delta);
      ApplyMarks(marks);
      despawned := Despawning();
      forall e
        ensures e in (set c | c in marks :: c.entity) <==> e in old(despawn) && Tick(old(despawn)[e], delta).1
      {
        if e in old(despawn) && Tick(old(despawn)[e], delta).1 {
          assert MarkDespawning(e) in marks;
        }
        if e in (set c | c in marks :: c.entity) {
          var c :| c in marks && c.entity == e;
          assert c == MarkDespawning(e);
        }
      }
    }
  }
}
