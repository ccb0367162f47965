/**
 * The one-shot `Timer` of the Bevy engine, as the flow-field caches use it
 * (`Timer::from_seconds(d, TimerMode::Once)`, `tick`, `just_finished`,
 * `reset`). Durations are non-negative `real` seconds; pausing and the
 * repeating mode are not used by the caches and are not modelled.
 */
module BevyTimer {
  /**
   * A one-shot timer: its duration, the time elapsed (saturating at the
   * duration), whether it has finished, and how often it finished during
   * the last tick (0 or 1).
   */
  datatype Timer = Timer(duration: real, elapsed: real, finished: bool, timesFinishedThisTick: nat)

  /** `Timer::from_seconds(duration, TimerMode::Once)`. */
  function FromSeconds(duration: real): (t: Timer)
    ensures t.duration == duration && t.elapsed == 0.0 && !t.finished && t.timesFinishedThisTick == 0
  {
    Timer(duration, 0.0, false, 0)
  }

  /** `Timer::reset`: back to zero elapsed, not finished. */
  function Reset(t: Timer): (r: Timer)
    ensures r == FromSeconds(t.duration)
  {
    t.(elapsed := 0.0, finished := false, timesFinishedThisTick := 0)
  }

  /**
   * `Timer::tick(delta)` in `Once` mode: a finished timer stays as it is
   * and reports no finish; otherwise the elapsed time grows by `delta`, and
   * once it reaches the duration the timer finishes, saturates and reports
   * one finish for this tick.
   */
  function Tick(t: Timer, delta: real): (r: Timer)
    requires delta >= 0.0
    ensures r.duration == t.duration
  {
    if t.finished then t.(timesFinishedThisTick := 0)
    else if t.elapsed + delta >= t.duration then Timer(t.duration, t.duration, true, 1)
    else t.(elapsed := t.elapsed + delta, finished := false, timesFinishedThisTick := 0)
  }

  /** `Timer::just_finished`. */
  predicate JustFinished(t: Timer) {
    t.timesFinishedThisTick > 0
  }

  /** A timer that has not finished yet and has time left: what every cache entry holds. */
  predicate Running(t: Timer) {
    !t.finished && 0.0 <= t.elapsed < t.duration
  }

  /**
   * Ticking a running timer either finishes it, exactly when the elapsed
   * time reaches the duration, or leaves it running with `delta` more
   * elapsed; a finished timer never reports a second finish.
   */
  lemma TickRunning(t: Timer, delta: real)
    requires delta >= 0.0
    ensures Running(t) ==> (JustFinished(Tick(t, delta)) <==> t.elapsed + delta >= t.duration)
    ensures Running(t) && !JustFinished(Tick(t, delta)) ==>
              Running(Tick(t, delta)) && Tick(t, delta).elapsed == t.elapsed + delta
    ensures t.finished ==> Tick(t, delta).finished && !JustFinished(Tick(t, delta))
  {
  }

  /** A fresh timer of positive duration is running. */
  lemma FreshIsRunning(duration: real)
    requires duration > 0.0
    ensures Running(FromSeconds(duration))
  {
  }

  /** The sum of a sequence of time steps. */
  function Total(deltas: seq<real>): real {
    if deltas == [] then 0.0 else Total(deltas[..|deltas| - 1]) + deltas[|deltas| - 1]
  }

  /** Every step is a non-negative duration. */
  predicate NonNegative(deltas: seq<real>) {
    forall i :: 0 <= i < |deltas| ==> deltas[i] >= 0.0
  }

  /** The timer after ticking through `deltas` in order. */
  function TickAll(t: Timer, deltas: seq<real>): Timer
    requires NonNegative(deltas)
  {
    if deltas == [] then t else Tick(TickAll(t, deltas[..|deltas| - 1]), deltas[|deltas| - 1])
  }

  /** What ticking keeps: the elapsed time within the duration, and finished exactly when it is reached. */
  predicate Sane(t: Timer) {
    0.0 <= t.elapsed <= t.duration && (t.finished <==> t.elapsed == t.duration)
  }

  /** A fresh timer of positive duration stays sane through any ticks. */
  lemma {:induction false} TickAllSane(duration: real, deltas: seq<real>)
    requires duration > 0.0 && NonNegative(deltas)
    ensures Sane(TickAll(FromSeconds(duration), deltas))
    ensures TickAll(FromSeconds(duration), deltas).duration == duration
  {
    if deltas != [] {
      TickAllSane(duration, deltas[..|deltas| - 1]);
    }
  }

  /**
   * A fresh timer ticked through `deltas` is still running exactly while
   * the total time stays below the duration, and then its elapsed time is
   * that total.
   */
  lemma {:induction false} TickAllRunning(duration: real, deltas: seq<real>)
    requires duration > 0.0 && NonNegative(deltas)
    ensures Running(TickAll(FromSeconds(duration), deltas)) <==> Total(deltas) < duration
    ensures Total(deltas) < duration ==> TickAll(FromSeconds(duration), deltas).elapsed == Total(deltas)
  {
    if deltas != [] {
      var init := deltas[..|deltas| - 1];
      TickAllRunning(duration, init);
      TickAllSane(duration, init);
      var t := TickAll(FromSeconds(duration), init);
      if !Running(t) {
        assert t.finished;
      }
    }
  }

  /**
   * A fresh timer reports `just_finished` on the tick that brings the total
   * time to its duration, and on no other tick.
   */
  lemma FinishesOnce(duration: real, deltas: seq<real>)
    requires duration > 0.0 && NonNegative(deltas) && deltas != []
    ensures JustFinished(TickAll(FromSeconds(duration), deltas)) <==>
              Total(deltas[..|deltas| - 1]) < duration <= Total(deltas)
  {
    var init := deltas[..|deltas| - 1];
    TickAllRunning(duration, init);
    TickAllSane(duration, init);
  }
}
