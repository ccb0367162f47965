/**
 * Resource pools of the motte crate (health and the like): a current
 * value kept between zero and the pool's total, its percentage of the
 * total, and the rule that keeps that percentage when the total changes.
 * `f32` values are modelled as `real`.
 */
module MottePool {
  import opened Opt

  /** `Result<f32, f32>` as `pool_clamp` returns it. */
  datatype ClampResult = Ok(value: real) | Err(value: real)

  /** `f32::clamp(x, lo, hi)`, which needs `lo <= hi`. */
  function Clamp(x: real, lo: real, hi: real): (r: real)
    requires lo <= hi
    ensures lo <= r <= hi
    ensures lo <= x <= hi ==> r == x
    ensures x < lo ==> r == lo
    ensures x > hi ==> r == hi
  {
    if x < lo then lo else if x > hi then hi else x
  }

  /**
   * `pool_clamp`: `Ok(current)` when it lies in `[0, max]`, otherwise
   * `Err` of the clamped value. `max` must not be negative, or
   * `f32::clamp` panics.
   */
  function PoolClamp(current: real, max: real): (r: ClampResult)
    requires max >= 0.0
    ensures r.Ok? <==> 0.0 <= current <= max
    ensures r.Ok? ==> r.value == current
    ensures 0.0 <= r.value <= max
    ensures r.Err? ==> (current < 0.0 ==> r.value == 0.0) && (current > max ==> r.value == max)
  {
    if current < 0.0 || current > max then Err(Clamp(current, 0.0, max)) else Ok(current)
  }

  /** Clamping is idempotent: a clamped value is accepted as it is. */
  lemma PoolClampIdempotent(current: real, max: real)
    requires max >= 0.0
    ensures PoolClamp(PoolClamp(current, max).value, max) == Ok(PoolClamp(current, max).value)
  {
  }

  /**
   * `pool_perc`: 1 when both are zero, `current / max` otherwise. A zero
   * `max` with a non-zero `current` divides by zero, which gives an
   * infinite `f32`; that case is `None` here.
   */
  function PoolPerc(current: real, max: real): (r: Option<real>)
    ensures current == 0.0 && max == 0.0 ==> r == Some(1.0)
    ensures r.None? <==> max == 0.0 && current != 0.0
    ensures r.Some? && max != 0.0 ==> r.value * max == current
    ensures max > 0.0 && 0.0 <= current <= max ==> r.Some? && 0.0 <= r.value <= 1.0
  {
    if current == 0.0 && max == 0.0 then Some(1.0)
    else if max == 0.0 then Option.None
    else Some(current / max)
  }

  /**
   * `PoolItem`: the pool's `Current` and the total it reads from its stat.
   * The operators change only `current`.
   */
  class PoolItem {
    var current: real
    var total: real

    constructor (current: real, total: real)
      ensures this.current == current && this.total == total
    {
      this.current, this.total := current, total;
    }

    /** `PoolItem::percentage`. */
    function Percentage(): (r: Option<real>)
      reads this
      ensures total > 0.0 && 0.0 <= current <= total ==> r.Some? && 0.0 <= r.value <= 1.0
    {
      PoolPerc(current, total)
    }

    /** `set_current`: stores the value clamped into `[0, total]`, whichever way `pool_clamp` answers. */
    method SetCurrent(value: real)
      requires total >= 0.0
      modifies this
      ensures total == old(total)
      ensures current == PoolClamp(value, total).value
      ensures 0.0 <= current <= total
      ensures 0.0 <= value <= total ==> current == value
    {
      match PoolClamp(value, total) {
        case Ok(v) => current := v;
        case Err(v) => current := v;
      }
    }

    /** `+=`: `set_current(current + rhs)`. */
    method AddAssign(rhs: real)
      requires total >= 0.0
      modifies this
      ensures total == old(total)
      ensures current == PoolClamp(old(current) + rhs, total).value
      ensures 0.0 <= current <= total
    {
      SetCurrent(current + rhs);
    }

    /** `-=`: `+=` of `rhs * -1`. */
    method SubAssign(rhs: real)
      requires total >= 0.0
      modifies this
      ensures total == old(total)
      ensures current == PoolClamp(old(current) - rhs, total).value
      ensures 0.0 <= current <= total
    {
      AddAssign(rhs * -1.0);
    }

    /** `*=`: `set_current(current * rhs)`. */
    method MulAssign(rhs: real)
      requires total >= 0.0
      modifies this
      ensures total == old(total)
      ensures current == PoolClamp(old(current) * rhs, total).value
      ensures 0.0 <= current <= total
    {
      SetCurrent(current * rhs);
    }

    /** The `clamp_current` system for one pool: rewrites `current` only when it is out of range. */
    method ClampCurrent()
      requires total >= 0.0
      modifies this
      ensures total == old(total)
      ensures 0.0 <= current <= total
      ensures 0.0 <= old(current) <= total ==> current == old(current)
      ensures current == Clamp(old(current), 0.0, total)
    {
      var r := PoolClamp(current, total);
      if r.Err? {
        current := r.value;
      }
    }

    /** The `dirty_current` system for one pool: the percentage to restore after the total changes. */
    method DirtyCurrent() returns (percentage: Option<real>)
      ensures percentage == PoolPerc(current, total)
      ensures total > 0.0 && 0.0 <= current <= total ==> percentage.Some? && 0.0 <= percentage.value <= 1.0
    {
      percentage := PoolPerc(current, total);
    }

    /** The `cleanup_dirty_current` system for one pool: `current = percentage * total`. */
    method CleanupDirtyCurrent(percentage: real)
      modifies this
      ensures total == old(total)
      ensures current == percentage * total
    {
      current := percentage * total;
    }
  }

  /**
   * `dirty_current` followed by `cleanup_dirty_current` keeps the
   * percentage across a change of a positive total, and a pool within range
   * stays within range of its new total.
   */
  lemma PercentagePreserved(current: real, total: real, newTotal: real)
    requires total > 0.0 && newTotal > 0.0
    ensures var p := PoolPerc(current, total).value;
            PoolPerc(p * newTotal, newTotal) == Some(p)
    ensures 0.0 <= current <= total ==>
              0.0 <= PoolPerc(current, total).value * newTotal <= newTotal
  {
    var p := PoolPerc(current, total).value;
    assert p * newTotal / newTotal == p;
    if 0.0 <= current <= total {
      assert 0.0 <= p <= 1.0;
      assert p * newTotal <= 1.0 * newTotal;
    }
  }
}
