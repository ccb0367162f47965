/**
 * Agents of the motte crate: the four agent sizes and the per-agent
 * decision rules of the seek, apply-velocity, target-reached and footprint
 * systems. An ECS entity carrying an `Agent` is modelled as an object whose
 * fields are its components.
 */
module MotteAgent {
  import opened Opt
  import opened Glam

  /** `Agent`, ordered (derived `Ord`) by declaration: Small < Medium < Large < Huge. */
  datatype Agent = Small | Medium | Large | Huge

  /** Position in declaration order, which the derived `Ord` compares. */
  function Rank(a: Agent): nat {
    match a
    case Small => 0
    case Medium => 1
    case Large => 2
    case Huge => 3
  }

  /** `a <= b` in the derived order. */
  predicate AgentLe(a: Agent, b: Agent) {
    Rank(a) <= Rank(b)
  }

  /** `CELL_SIZE`. */
  const CELL_SIZE: nat := 1

  /** `Agent::size`: the `u8` discriminant, `CELL_SIZE` times 1, 3, 5 or 7. */
  function Size(a: Agent): nat {
    match a
    case Small => CELL_SIZE
    case Medium => CELL_SIZE * 3
    case Large => CELL_SIZE * 5
    case Huge => CELL_SIZE * 7
  }

  /** `Agent::radius`: half the size. */
  function Radius(a: Agent): real {
    Size(a) as real / 2.0
  }

  /** `Agent::height`: the size. */
  function Height(a: Agent): real {
    Size(a) as real
  }

  const LARGEST: Agent := Huge
  const SMALLEST: Agent := Small

  /** `Agent::ALL`: every size, from large to small. */
  const ALL: seq<Agent> := [Huge, Large, Medium, Small]

  /**
   * The derived order agrees with size, radius and height, and the sizes are
   * the odd numbers 1, 3, 5, 7.
   */
  lemma OrderAgreesWithSize(a: Agent, b: Agent)
    ensures AgentLe(a, b) <==> Size(a) <= Size(b)
    ensures AgentLe(a, b) <==> Radius(a) <= Radius(b)
    ensures Height(a) == 2.0 * Radius(a)
    ensures Size(a) == 2 * Rank(a) + 1
  {
  }

  /**
   * `ALL` lists every agent exactly once in strictly decreasing size, from
   * `LARGEST` to `SMALLEST`, and those two bound every agent.
   */
  lemma AllDescending(a: Agent)
    ensures |ALL| == 4 && ALL[0] == LARGEST && ALL[3] == SMALLEST
    ensures forall i, j :: 0 <= i < j < |ALL| ==> Size(ALL[j]) < Size(ALL[i])
    ensures a in ALL
    ensures AgentLe(SMALLEST, a) && AgentLe(a, LARGEST)
  {
  }

  // ---------------------------------------------------------------------
  // Target reached
  // ---------------------------------------------------------------------

  const DESTINATION_ACCURACY: real := 0.1
  const MAX_DESTINATION_ACCURACY: real := 0.5

  datatype TargetReachedCondition = Distance(distance: real)

  function MaxReal(a: real, b: real): real {
    if a < b then b else a
  }

  /**
   * `TargetReachedCondition::has_reached_target`: the target is reached when it
   * is closer than the radius, the condition's distance and a tolerance.
   */
  function HasReachedTarget(cond: TargetReachedCondition, agent: Agent, targetDistance: real): bool {
    match cond
    case Distance(d) =>
      targetDistance < Radius(agent) + d + MaxReal(DESTINATION_ACCURACY * Radius(agent), MAX_DESTINATION_ACCURACY)
  }

  /**
   * No agent is large enough for the relative tolerance to exceed the
   * absolute one, so the tolerance is always 0.5; the test is monotone in
   * the distance to the target.
   */
  lemma ReachedTargetTolerance(d: real, agent: Agent, t: real, t': real)
    ensures HasReachedTarget(Distance(d), agent, t) <==> t < Radius(agent) + d + 0.5
    ensures t' <= t && HasReachedTarget(Distance(d), agent, t) ==> HasReachedTarget(Distance(d), agent, t')
  {
  }

  // ---------------------------------------------------------------------
  // Per-agent systems
  // ---------------------------------------------------------------------

  /** `f32::EPSILON`, i.e. 2^-23. */
  const F32_EPSILON: real := 1.0 / 8388608.0

  /** `Vec2Ext::is_approx_zero`: the squared length is below `f32::EPSILON`. */
  predicate IsApproxZero(v: Vec2) {
    LengthSquared(v) < F32_EPSILON
  }

  /** An entity with an `Agent` component and the components the systems touch. */
  class AgentEntity {
    const agent: Agent
    /** `Seek`, when the entity has one; it holds an optional unit direction. */
    var seek: Option<Option<Vec2>>
    var speed: real
    var desiredVelocity: Vec2
    var movement: Vec2
    var targetDistance: real
    var condition: TargetReachedCondition
    /** The `TargetReached` marker. */
    var targetReached: bool
    /** Whether the entity has a pathing `Goal`. */
    var hasGoal: bool
    /** Whether the entity has a `Footprint`; one inserted here is `Footprint::Empty`. */
    var hasFootprint: bool

    /** A freshly added agent after `setup`: zero desired velocity, `Seek(None)`, target distance 0. */
    constructor (agent: Agent, speed: real, condition: TargetReachedCondition)
      ensures this.agent == agent && this.speed == speed && this.condition == condition
      ensures desiredVelocity == ZERO && seek == Some(Option.None) && targetDistance == 0.0
      ensures movement == ZERO && !targetReached && !hasGoal && !hasFootprint
    {
      this.agent, this.speed, this.condition := agent, speed, condition;
      desiredVelocity, seek, targetDistance := ZERO, Some(Option.None), 0.0;
      movement, targetReached, hasGoal, hasFootprint := ZERO, false, false, false;
    }

    /**
     * The `seek` system: a moving agent (no `TargetReached`) whose `Seek`
     * holds a direction wants to move along it at its speed; any other agent
     * keeps its desired velocity.
     */
    method SeekStep()
      modifies this
      ensures !old(targetReached) && old(seek).Some? && old(seek).value.Some? ==>
                desiredVelocity == Scale(old(seek).value.value, speed)
      ensures old(targetReached) || old(seek).None? || old(seek).value.None? ==>
                desiredVelocity == old(desiredVelocity)
      ensures seek == old(seek) && speed == old(speed) && movement == old(movement)
      ensures targetReached == old(targetReached) && hasGoal == old(hasGoal)
      ensures hasFootprint == old(hasFootprint) && targetDistance == old(targetDistance)
      ensures condition == old(condition)
    {
      if !targetReached {
        match seek
        case Some(Some(dir)) => desiredVelocity := Scale(dir, speed);
        case _ =>
      }
    }

    /**
     * The `apply_velocity` system: a moving agent hands a non-negligible
     * desired velocity to its `Movement`; either way the desired velocity is
     * reset to zero.
     */
    method ApplyVelocity()
      modifies this
      ensures !old(targetReached) ==> desiredVelocity == ZERO
      ensures !old(targetReached) && !IsApproxZero(old(desiredVelocity)) ==> movement == old(desiredVelocity)
      ensures old(targetReached) || IsApproxZero(old(desiredVelocity)) ==> movement == old(movement)
      ensures old(targetReached) ==> desiredVelocity == old(desiredVelocity)
      ensures seek == old(seek) && speed == old(speed) && targetReached == old(targetReached)
      ensures hasGoal == old(hasGoal) && hasFootprint == old(hasFootprint)
      ensures targetDistance == old(targetDistance) && condition == old(condition)
    {
      if !targetReached {
        if IsApproxZero(desiredVelocity) {
          desiredVelocity := ZERO;
          return;
        }
        movement := desiredVelocity;
        desiredVelocity := ZERO;
      }
    }

    /**
     * The `target_reached` system (for an entity with a `Seek`): afterwards
     * the entity is marked `TargetReached` exactly when it seeks a direction
     * and its condition holds at the current target distance.
     */
    method UpdateTargetReached()
      requires seek.Some?
      modifies this`targetReached
      ensures targetReached <==>
                seek.value.Some? && HasReachedTarget(condition, agent, targetDistance)
    {
      if seek.value.Some? && HasReachedTarget(condition, agent, targetDistance) {
        if !targetReached {
          targetReached := true;
        }
      } else if targetReached {
        targetReached := false;
      }
    }

    /**
     * The `footprint` system: idle agents (no `Goal`, or target reached)
     * get a footprint, agents still pathing to a goal lose theirs.
     */
    method UpdateFootprint()
      modifies this`hasFootprint
      ensures hasFootprint <==> !hasGoal || targetReached
    {
      var idle := (!hasGoal || targetReached) && !hasFootprint;
      var pathing := hasGoal && !targetReached && hasFootprint;
      if idle {
        hasFootprint := true;
      }
      if pathing {
        hasFootprint := false;
      }
    }
  }
}
