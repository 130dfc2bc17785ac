/** kloop's fixed-timestep loop. Each tick measures the real time since the
    previous one, adds it (capped) to an accumulator, runs as many fixed-size
    updates as the accumulator holds (capped too) and renders once with the
    fraction of a step left over. The clock reading is passed in as a
    nanosecond count and the application is the sequence of calls it gets. */
module FixedLoop {
  import opened Numeric
  import opened LoopConfig

  /** One call into the application. */
  datatype Call = Update(dt: Duration) | Render(alpha: real)

  datatype TickResult = TickResult(updates: uint32, alpha: real)

  /** The largest alpha a tick reports: just below one step. */
  const ALPHA_MAX: real := 0.999999

  /** Time since the previous tick, zero if the clock went backwards, capped
      at `maxFrameDt`. */
  function FrameDt(last: nat, now: nat, maxFrameDt: Duration): (dt: Duration)
    ensures dt <= maxFrameDt
    ensures now >= last && now - last <= maxFrameDt ==> dt == now - last
    ensures now <= last ==> dt == 0
  {
    var elapsed := if now >= last then now - last else 0;
    if elapsed > maxFrameDt then maxFrameDt else elapsed
  }

  /** `Duration::saturating_add`. */
  function SaturatingAdd(a: Duration, b: Duration): (s: Duration)
    ensures a + b <= DURATION_MAX ==> s == a + b
    ensures a + b > DURATION_MAX ==> s == DURATION_MAX
  {
    if a + b > DURATION_MAX then DURATION_MAX else a + b
  }

  /** How many fixed steps a tick runs on `total` accumulated time: as many
      whole steps as fit, but never more than the cap. */
  function StepCount(total: Duration, step: Duration, cap: uint32): (n: uint32)
    ensures n <= cap
    ensures step > 0 && total / step <= cap ==> n == total / step
    ensures step > 0 && total / step > cap ==> n == cap
    ensures step == 0 ==> n == cap
  {
    if step == 0 then cap else Min(cap, total / step)
  }

  /** What is left in the accumulator after the steps: the remainder, or
      nothing once the cap was reached. */
  function Leftover(total: Duration, step: Duration, cap: uint32): Duration
  {
    var n := StepCount(total, step, cap);
    if n >= cap then 0
    else
      MulLeft(n, total / step, step);
      total - n * step
  }

  /** The interpolation factor: the leftover as a fraction of a step, clamped
      to [0, 0.999999]; zero when the step is zero. */
  function Alpha(accumulator: Duration, step: Duration): real
  {
    if step == 0 then 0.0
    else RClamp(accumulator as real / step as real, 0.0, ALPHA_MAX)
  }

  /** `n` updates with the fixed step. */
  function Updates(n: nat, step: Duration): (calls: seq<Call>)
    ensures |calls| == n
    ensures forall i :: 0 <= i < n ==> calls[i] == Update(step)
  {
    seq(n, _ => Update(step))
  }

  class FixedLoop {
    /** Clock reading at the previous tick, in nanoseconds. */
    var last: nat
    var accumulator: Duration
    var cfg: Config
    var frameIndex: nat

    /** Starts at `now` with an empty accumulator and frame index 0. */
    constructor (now: nat, cfg: Config)
      ensures last == now && accumulator == 0 && this.cfg == cfg && frameIndex == 0
    {
      last := now;
      accumulator := 0;
      this.cfg := cfg;
      frameIndex := 0;
    }

    /** One real-time tick at clock reading `now`: the updates, then exactly
        one render, and the frame index moves on by one. */
    method Tick(now: nat) returns (res: TickResult, calls: seq<Call>)
      modifies this
      ensures cfg == old(cfg) && last == now && frameIndex == old(frameIndex) + 1
      ensures var total := SaturatingAdd(old(accumulator), FrameDt(old(last), now, cfg.maxFrameDt));
        res.updates == StepCount(total, cfg.fixedDt, cfg.maxUpdatesPerFrame)
        && accumulator == Leftover(total, cfg.fixedDt, cfg.maxUpdatesPerFrame)
      ensures res.alpha == Alpha(accumulator, cfg.fixedDt)
      ensures calls == Updates(res.updates, cfg.fixedDt) + [Render(res.alpha)]
    {
      var frameDt := if now >= last then now - last else 0;
      last := now;
      if frameDt > cfg.maxFrameDt {
        frameDt := cfg.maxFrameDt;
      }
      var step, cap := cfg.fixedDt, cfg.maxUpdatesPerFrame;
      var acc: Duration := SaturatingAdd(accumulator, frameDt);
      ghost var total := acc;

      var updates: uint32 := 0;
      calls := [];
      while acc >= step && updates < cap
        invariant cfg == old(cfg) && last == now && frameIndex == old(frameIndex)
        invariant updates <= cap
        invariant acc + updates * step == total
        invariant calls == Updates(updates, step)
        decreases cap - updates
      {
        calls := calls + [Update(step)];
        acc := acc - step;
        MulSucc(updates, step);
        updates := updates + 1;
      }
      StepsDone(total, step, cap, updates, acc);

      if updates >= cap {
        acc := 0;
      }
      accumulator := acc;

      var alpha := if step == 0 then 0.0 else RClamp(acc as real / step as real, 0.0, ALPHA_MAX);
      calls := calls + [Render(alpha)];
      frameIndex := frameIndex + 1;
      res := TickResult(updates, alpha);
    }

    /** Exactly `n` updates with the fixed step and no render; only the frame
        index changes, by `n`. */
    method RunSteps(n: uint32) returns (calls: seq<Call>)
      modifies this
      ensures last == old(last) && accumulator == old(accumulator) && cfg == old(cfg)
      ensures frameIndex == old(frameIndex) + n
      ensures calls == Updates(n, cfg.fixedDt)
    {
      calls := [];
      for i := 0 to n
        invariant last == old(last) && accumulator == old(accumulator) && cfg == old(cfg)
        invariant frameIndex == old(frameIndex) + i
        invariant calls == Updates(i, cfg.fixedDt)
      {
        calls := calls + [Update(cfg.fixedDt)];
        frameIndex := frameIndex + 1;
      }
    }
  }

  /** If `k` whole steps were taken out of `total`, `k` steps fit in it. */
  lemma StepsFit(total: nat, step: nat, k: nat)
    requires step > 0 && k * step <= total
    ensures k <= total / step
  {
    if k > total / step {
      MulLeft(total / step + 1, k, step);
      assert false;
    }
  }

  /** When the loop stops, it has taken `StepCount` steps and, below the
      cap, what is left is the leftover. */
  lemma {:induction false} StepsDone(total: Duration, step: Duration, cap: uint32, updates: nat, acc: nat)
    requires updates <= cap
    requires acc + updates * step == total
    requires !(acc >= step && updates < cap)
    ensures updates == StepCount(total, step, cap)
    ensures updates < cap ==> acc == Leftover(total, step, cap)
  {
    if step > 0 {
      if updates < cap {
        DivModUnique(total, step, updates, acc);
      } else {
        StepsFit(total, step, updates);
      }
    }
  }

  /** After a tick with a non-zero step, less than one step is left over. */
  lemma {:induction false} LeftoverBelowStep(total: Duration, step: Duration, cap: uint32)
    requires step > 0
    ensures Leftover(total, step, cap) < step
  {
    var n := StepCount(total, step, cap);
    if n < cap {
      assert n == total / step;
      assert total == n * step + total % step;
    }
  }

  /** Below the cap no time is lost: the steps taken plus the leftover make
      up the accumulated time. */
  lemma {:induction false} TimeConserved(total: Duration, step: Duration, cap: uint32)
    requires StepCount(total, step, cap) < cap
    ensures StepCount(total, step, cap) * step + Leftover(total, step, cap) == total
  {
  }

  /** Alpha always lies in [0, 0.999999], so below one, and it is zero when
      the step is zero or nothing is left over. */
  lemma AlphaRange(accumulator: Duration, step: Duration)
    ensures 0.0 <= Alpha(accumulator, step) <= ALPHA_MAX < 1.0
    ensures step == 0 || accumulator == 0 ==> Alpha(accumulator, step) == 0.0
  {
  }

  /** Alpha is exactly the leftover as a fraction of the step whenever that
      fraction is at most 0.999999. */
  lemma AlphaIsFraction(accumulator: Duration, step: Duration)
    requires step > 0 && accumulator as real / step as real <= ALPHA_MAX
    ensures Alpha(accumulator, step) * step as real == accumulator as real
  {
  }

  /** A fresh 60 Hz loop allowed 5 s per frame and 1000 updates, ticked one
      second after it started, runs 59 updates: the rounded-up 1/60 s step
      fits 59 times into a second. */
  lemma OneSecondAtSixtyHz(cfg: Config, start: nat)
    requires cfg == WithLimits(FromHz(60), 5 * NANOS_PER_SEC, 1000)
    ensures StepCount(SaturatingAdd(0, FrameDt(start, start + NANOS_PER_SEC, cfg.maxFrameDt)),
                      cfg.fixedDt, cfg.maxUpdatesPerFrame) == 59
  {
    DefaultValues();
    assert cfg.fixedDt == 16_666_667;
    assert NANOS_PER_SEC / 16_666_667 == 59;
  }

  /** A 500 ms jump against a 50 ms frame limit and a cap of 3 is cut to
      50 ms, which holds two 1/60 s steps. */
  lemma ClampedJump(cfg: Config, start: nat)
    requires cfg == WithLimits(FromHz(60), 50 * NANOS_PER_MILLI, 3)
    ensures StepCount(SaturatingAdd(0, FrameDt(start, start + 500 * NANOS_PER_MILLI, cfg.maxFrameDt)),
                      cfg.fixedDt, cfg.maxUpdatesPerFrame) == 2
  {
    DefaultValues();
    assert cfg.fixedDt == 16_666_667;
    assert 50 * NANOS_PER_MILLI / 16_666_667 == 2;
  }
}
