/**
 * Stats of the warband crate (`stats/stat.rs`): a stat is one `f32` value,
 * reset to zero while dirty and, after every change, clamped by the
 * plugin's `ClampValue` policy. `f32` values are modelled as `real`;
 * `f32::clamp` is the `Clamp` of the pool model.
 */
module WbStat {
  import MottePool

  /** `ClampValue`; `NoClamp` is the source's `ClampValue::None`. */
  datatype ClampValue = AboveZero | NoClamp | Min(min: real) | Max(max: real) | MinMax(lo: real, hi: real)

  /** `ClampValue::default`. */
  const DEFAULT_CLAMP: ClampValue := AboveZero

  /** The plugin registers its clamping system for every policy but `None`. */
  predicate RegistersClamp(policy: ClampValue) {
    !policy.NoClamp?
  }

  /**
   * `f32::clamp` panics when its lower bound exceeds its upper bound: only
   * `MinMax` can ask for that, so it needs `lo <= hi`.
   */
  predicate WellFormed(policy: ClampValue) {
    policy.MinMax? ==> policy.lo <= policy.hi
  }

  /**
   * The value the clamping system stores for `value`: `value.clamp(min, max)`
   * with the bounds each policy picks, or the value itself when no system
   * runs. `AboveZero` is `max(value, 0)`, `Min(m)` is `max(value, m)`,
   * `Max(m)` is `min(value, m)` and `MinMax(lo, hi)` lies in `[lo, hi]`.
   */
  function Clamped(policy: ClampValue, value: real): (r: real)
    requires WellFormed(policy)
    ensures policy.NoClamp? ==> r == value
    ensures policy.AboveZero? ==> r >= 0.0 && r >= value && (r == value || r == 0.0)
    ensures policy.Min? ==> r >= policy.min && r >= value && (r == value || r == policy.min)
    ensures policy.Max? ==> r <= policy.max && r <= value && (r == value || r == policy.max)
    ensures policy.MinMax? ==> policy.lo <= r <= policy.hi && (policy.lo <= value <= policy.hi ==> r == value)
  {
    match policy
    case AboveZero => MottePool.Clamp(value, 0.0, if value >= 0.0 then value else 0.0)
    case NoClamp => value
    case Min(m) => MottePool.Clamp(value, m, if value >= m then value else m)
    case Max(m) => MottePool.Clamp(value, if value <= m then value else m, m)
    case MinMax(lo, hi) => MottePool.Clamp(value, lo, hi)
  }

  /** Clamping twice is clamping once: a clamped stat is left alone the next frame. */
  lemma ClampedIdempotent(policy: ClampValue, value: real)
    requires WellFormed(policy)
    ensures Clamped(policy, Clamped(policy, value)) == Clamped(policy, value)
  {
  }

  /** `MinMax(lo, hi)` is `Min(lo)` followed by `Max(hi)`. */
  lemma MinMaxIsMinThenMax(lo: real, hi: real, value: real)
    requires lo <= hi
    ensures Clamped(MinMax(lo, hi), value) == Clamped(Max(hi), Clamped(Min(lo), value))
  {
  }

  /** `AboveZero`, the default, is `Min(0)`. */
  lemma AboveZeroIsMinZero(value: real)
    ensures Clamped(DEFAULT_CLAMP, value) == Clamped(Min(0.0), value)
  {
  }

  /** A stat component: the single `f32` its derive wraps. */
  class Stat {
    var value: real

    /** `Stat::new`. */
    constructor (value: real)
      ensures this.value == value
    {
      this.value := value;
    }

    /** `Stat::reset`: back to the default value, zero. */
    method Reset()
      modifies this
      ensures value == 0.0
    {
      value := 0.0;
    }

    /** One stat through the clamping system. */
    method Clamp(policy: ClampValue)
      requires WellFormed(policy)
      modifies this
      ensures value == Clamped(policy, old(value))
    {
      value := Clamped(policy, value);
    }
  }

  /** No stat is visited twice by one query. */
  predicate Distinct(stats: seq<Stat>) {
    forall i, j :: 0 <= i < j < |stats| ==> stats[i] != stats[j]
  }

  /** `reset_dirty`: every dirty stat is reset, and nothing else changes. */
  method ResetDirty(dirty: seq<Stat>)
    requires Distinct(dirty)
    modifies set s | s in dirty
    ensures forall i :: 0 <= i < |dirty| ==> dirty[i].value == 0.0
  {
    for k := 0 to |dirty|
      invariant forall i :: 0 <= i < k ==> dirty[i].value == 0.0
    {
      dirty[k].Reset();
    }
  }

  /**
   * The clamping system over the stats changed this frame: each stores its
   * clamped value; with `None` no system is registered and every value is
   * kept.
   */
  method ClampChanged(policy: ClampValue, changed: seq<Stat>)
    requires WellFormed(policy) && Distinct(changed)
    modifies set s | s in changed
    ensures forall i :: 0 <= i < |changed| ==> changed[i].value == Clamped(policy, old(changed[i].value))
    ensures !RegistersClamp(policy) ==> forall i :: 0 <= i < |changed| ==> changed[i].value == old(changed[i].value)
  {
    if !RegistersClamp(policy) {
      return;
    }
    for k := 0 to |changed|
      invariant forall i :: 0 <= i < k ==> changed[i].value == Clamped(policy, old(changed[i].value))
      invariant forall i :: k <= i < |changed| ==> changed[i].value == old(changed[i].value)
    {
      changed[k].Clamp(policy);
    }
  }

  /** `StatBundle`: the stat, starting at its default, and its flat base modifier. */
  datatype StatBundle = StatBundle(stat: real, base: real)

  /**
   * `StatBundle::new`: the stat starts at its default, zero, and the value
   * is the base.
   */
  function NewBundle(value: real): (b: StatBundle)
    ensures b.base == value
    ensures b.stat == 0.0
  {
    StatBundle(0.0, value)
  }
}
