/**
 * Agents of the warband navigation: the four `AgentRadius` sizes with
 * their `u8` discriminants, and the `Agent` component built from a radius,
 * a height and a mass. `f32` values are modelled as `real`.
 */
module WbNavAgent {
  /** `AgentRadius`, ordered (derived `Ord`) by declaration: Small < Medium < Large < Huge. */
  datatype AgentRadius = Small | Medium | Large | Huge

  /** Position in declaration order, which the derived `Ord` compares. */
  function Rank(r: AgentRadius): nat {
    match r
    case Small => 0
    case Medium => 1
    case Large => 2
    case Huge => 3
  }

  /** `a <= b` in the derived order. */
  predicate RadiusLe(a: AgentRadius, b: AgentRadius) {
    Rank(a) <= Rank(b)
  }

  /** `r as u8`: the discriminant, and `From<AgentRadius> for u8`. */
  function ToU8(r: AgentRadius): (v: nat)
    ensures v == 2 * Rank(r) + 1 && v <= 7
  {
    match r
    case Small => 1
    case Medium => 3
    case Large => 5
    case Huge => 7
  }

  /** `AgentRadius::as_f32` and `From<AgentRadius> for f32`: the discriminant as a float. */
  function AsF32(r: AgentRadius): (v: real)
    ensures v == ToU8(r) as real
    ensures 1.0 <= v <= 7.0
  {
    ToU8(r) as real
  }

  const LARGEST: AgentRadius := Huge
  const SMALLEST: AgentRadius := Small

  /** `AgentRadius::largest_to_smallest`. */
  const LARGEST_TO_SMALLEST: seq<AgentRadius> := [Huge, Large, Medium, Small]

  /**
   * The derived order agrees with the discriminant, and
   * `largest_to_smallest` lists every radius once in strictly decreasing
   * order, from `LARGEST` to `SMALLEST`, which bound every radius.
   */
  lemma RadiusOrder(a: AgentRadius, b: AgentRadius)
    ensures RadiusLe(a, b) <==> ToU8(a) <= ToU8(b)
    ensures RadiusLe(a, b) <==> AsF32(a) <= AsF32(b)
    ensures |LARGEST_TO_SMALLEST| == 4 && a in LARGEST_TO_SMALLEST
    ensures forall i, j :: 0 <= i < j < 4 ==> ToU8(LARGEST_TO_SMALLEST[j]) < ToU8(LARGEST_TO_SMALLEST[i])
    ensures LARGEST_TO_SMALLEST[0] == LARGEST && LARGEST_TO_SMALLEST[3] == SMALLEST
    ensures RadiusLe(SMALLEST, a) && RadiusLe(a, LARGEST)
  {
  }

  /** `Agent`: its radius, height and mass. */
  datatype Agent = Agent(radius: AgentRadius, height: real, mass: real)

  /** `Agent::new`: the given radius and height, with mass 1. */
  function New(radius: AgentRadius, height: real): (a: Agent)
    ensures a.radius == radius && a.height == height && a.mass == 1.0
  {
    Agent(radius, height, 1.0)
  }

  /** `Agent::from_radius`: height twice the radius discriminant. */
  function FromRadius(radius: AgentRadius): (a: Agent)
    ensures a.radius == radius && a.height == 2.0 * AsF32(radius) && a.mass == 1.0
    ensures 2.0 <= a.height <= 14.0
  {
    New(radius, ToU8(radius) as real * 2.0)
  }

  /** `Agent::cylinder`: a bundle around `Agent::new(radius, height)`. */
  function Cylinder(radius: AgentRadius, height: real): (a: Agent)
    ensures a == New(radius, height)
  {
    New(radius, height)
  }

  /** `Agent::small`, `medium`, `large`, `huge`: bundles around `from_radius`. */
  function Sized(radius: AgentRadius): (a: Agent)
    ensures a.radius == radius && a.height == AsF32(radius) * 2.0
  {
    FromRadius(radius)
  }

  /** `with_radius`: only the radius changes. */
  function WithRadius(a: Agent, radius: AgentRadius): (b: Agent)
    ensures b.radius == radius && b.height == a.height && b.mass == a.mass
  {
    a.(radius := radius)
  }

  /** `with_height`: only the height changes. */
  function WithHeight(a: Agent, height: real): (b: Agent)
    ensures b.radius == a.radius && b.height == height && b.mass == a.mass
  {
    a.(height := height)
  }

  /** `with_mass`: only the mass changes. */
  function WithMass(a: Agent, mass: real): (b: Agent)
    ensures b.radius == a.radius && b.height == a.height && b.mass == mass
  {
    a.(mass := mass)
  }

  /** `Agent::mass` as written: it returns the height field. */
  function Mass(a: Agent): (m: real)
    ensures m == a.height
  {
    a.height
  }

  /** The accessor that was evidently intended: the mass field. */
  function CorrectedMass(a: Agent): (m: real)
    ensures m == a.mass
  {
    a.mass
  }

  /**
   * `mass()` does not report what `with_mass` set: an agent from
   * `from_radius(Small)` given mass 5 reports mass 2 (its height), while
   * the corrected accessor reads back every mass set by `with_mass` and
   * gives 1 for a fresh agent.
   */
  lemma MassReadsHeight(a: Agent, m: real)
    ensures Mass(WithMass(FromRadius(Small), 5.0)) == 2.0
    ensures CorrectedMass(WithMass(a, m)) == m
    ensures CorrectedMass(FromRadius(a.radius)) == 1.0
  {
  }
}
