/**
 * What the models take from Bevy's entity-component system: entities are
 * opaque identifiers, modelled as natural numbers.
 */
module BevyEcs {
  /** `Entity`. */
  type Entity = nat
}
