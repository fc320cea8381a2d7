/**
 * The loading screen's progress stepper: progress starts at 0 and each
 * interval tick moves it by `step`, capped at 100. The first tick that finds
 * it at 100 (or more) stops the timer and schedules the completion callback.
 */
module Loading {

  const DefaultStep: int := 2
  const Full: int := 100

  function Min(a: int, b: int): (m: int)
    ensures m <= a && m <= b && (m == a || m == b)
  {
    if a <= b then a else b
  }

  /**
   * The updater passed to setProgress. It never goes above 100, keeps 100
   * where it is, never moves down for a non-negative step and moves strictly
   * up below 100 for a positive one.
   */
  function NextProgress(prev: int, step: int): (next: int)
    ensures next <= Full
    ensures prev >= Full ==> next == Full
    ensures next == Full <==> prev + step >= Full || prev >= Full
    ensures prev < Full && prev + step < Full ==> next == prev + step
    ensures 0 <= step && prev <= Full ==> prev <= next
    ensures 0 < step && prev < Full ==> prev < next
  {
    if prev >= Full then Full
    else Min(prev + step, Full)
  }

  /** Progress after `n` ticks of the interval, starting from 0. */
  function ProgressAfter(n: nat, step: int): (p: int)
    ensures p <= Full
    ensures 0 <= step ==> 0 <= p
  {
    if n == 0 then 0 else NextProgress(ProgressAfter(n - 1, step), step)
  }

  /** Progress after `n` ticks is min(n * step, 100), for any step. */
  lemma {:induction false} ProgressAfterClosedForm(n: nat, step: int)
    ensures ProgressAfter(n, step) == Min(n * step, Full)
  {
    if n > 0 {
      ProgressAfterClosedForm(n - 1, step);
      assert n * step == (n - 1) * step + step;
    }
  }

  /** For a non-negative step, progress never moves down from one tick to a later one. */
  lemma {:induction false} ProgressMonotone(m: nat, n: nat, step: int)
    requires 0 <= step && m <= n
    ensures ProgressAfter(m, step) <= ProgressAfter(n, step)
    decreases n - m
  {
    if m < n {
      ProgressMonotone(m, n - 1, step);
    }
  }

  /** The number of ticks that brings progress to 100: the ceiling of 100 / step. */
  function TicksToFull(step: int): (t: nat)
    requires 0 < step
    ensures (t - 1) * step < Full <= t * step
  {
    var q := (Full + step - 1) / step;
    assert Full + step - 1 == q * step + (Full + step - 1) % step;
    q
  }

  /** With the default step of 2 the bar fills after 50 ticks. */
  lemma DefaultStepFillsInFiftyTicks()
    ensures TicksToFull(DefaultStep) == 50
    ensures ProgressAfter(50, DefaultStep) == Full && ProgressAfter(49, DefaultStep) == 98
  {
    ProgressAfterClosedForm(50, DefaultStep);
    ProgressAfterClosedForm(49, DefaultStep);
  }

  /** Multiplying a smaller count by a positive step gives a smaller product. */
  lemma MulMonotone(a: int, b: int, step: int)
    requires a <= b && 0 < step
    ensures a * step <= b * step
  {
  }

  /**
   * For a positive step progress is below 100 for exactly the first
   * TicksToFull(step) ticks and is 100 from then on.
   */
  lemma ReachesFullExactly(n: nat, step: int)
    requires 0 < step
    ensures ProgressAfter(n, step) == Full <==> n >= TicksToFull(step)
  {
    var t := TicksToFull(step);
    ProgressAfterClosedForm(n, step);
    if n >= t {
      MulMonotone(t, n, step);
    } else {
      MulMonotone(n, t - 1, step);
    }
  }

  /** With a zero or negative step progress stays at or below 0, so the timer never stops. */
  lemma {:induction false} NonPositiveStepNeverFills(n: nat, step: int)
    requires step <= 0
    ensures ProgressAfter(n, step) <= 0
  {
    if n > 0 {
      NonPositiveStepNeverFills(n - 1, step);
    }
  }

  /**
   * The mounted LoadingScreen: its `progress` state, whether its interval
   * timer is still set, and whether `onComplete` has been scheduled. The
   * ghost counter `ticks` records how many times the interval has fired.
   */
  class LoadingScreen {
    const step: int
    var progress: int
    var timerActive: bool
    var completionScheduled: bool
    ghost var ticks: nat

    /**
     * Progress is what the ticks so far produce; the timer is still set
     * until a tick finds progress already at 100, and that same tick
     * schedules the completion.
     */
    ghost predicate Valid()
      reads this
    {
      && progress == ProgressAfter(ticks, step)
      && (timerActive <==> ticks == 0 || ProgressAfter(ticks - 1, step) < Full)
      && completionScheduled == !timerActive
    }

    /** Mounting: progress 0 and the interval set; the step prop defaults to 2. */
    constructor (step: int := DefaultStep)
      ensures Valid()
      ensures this.step == step && progress == 0 && timerActive && !completionScheduled && ticks == 0
    {
      this.step := step;
      progress := 0;
      timerActive := true;
      completionScheduled := false;
      ticks := 0;
    }

    /** One firing of the interval callback. */
    method Tick()
      requires Valid() && timerActive
      modifies this
      ensures Valid()
      ensures ticks == old(ticks) + 1
      ensures progress == NextProgress(old(progress), step)
      ensures timerActive <==> old(progress) < Full
      ensures completionScheduled <==> old(progress) >= Full
    {
      if progress >= Full {
        timerActive := false;
        completionScheduled := true;
        progress := Full;
      } else {
        progress := Min(progress + step, Full);
      }
      ticks := ticks + 1;
    }

    /**
     * Lets the interval fire until it clears itself. For a positive step this
     * takes TicksToFull(step) ticks to fill the bar and one more to stop.
     */
    method RunToCompletion() returns (count: nat)
      requires Valid() && 0 < step
      modifies this
      ensures Valid()
      ensures !timerActive && completionScheduled && progress == Full
      ensures old(timerActive) ==> ticks == TicksToFull(step) + 1 && count == ticks - old(ticks)
      ensures !old(timerActive) ==> ticks == old(ticks) && count == 0
    {
      count := 0;
      if ticks > 0 {
        ReachesFullExactly(ticks - 1, step);
        ReachesFullExactly(ticks, step);
      }
      while timerActive
        invariant Valid()
        invariant ticks == old(ticks) + count
        invariant timerActive ==> ticks <= TicksToFull(step)
        invariant !timerActive ==> progress == Full
        invariant !timerActive && old(timerActive) ==> ticks == TicksToFull(step) + 1
        invariant !old(timerActive) ==> count == 0
        decreases TicksToFull(step) + 1 - ticks
      {
        ReachesFullExactly(ticks, step);
        Tick();
        count := count + 1;
      }
    }
  }
}
