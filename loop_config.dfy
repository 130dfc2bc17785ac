/** kloop's loop configuration: the fixed update rate, the fixed timestep it
    gives, and the two limits that keep a slow frame from snowballing.
    Durations are whole nanoseconds, as `std::time::Duration` stores them. */
module LoopConfig {
  import opened Numeric

  const NANOS_PER_SEC: nat := 1_000_000_000
  const NANOS_PER_MILLI: nat := 1_000_000

  /** The largest `Duration`: u64::MAX seconds and 999 999 999 nanoseconds. */
  const DURATION_MAX: nat := U64_LIMIT * NANOS_PER_SEC - 1

  type Duration = d: nat | d <= DURATION_MAX

  /** The rate used when zero is asked for, and by `Default`. */
  const DEFAULT_HZ: uint32 := 60
  const DEFAULT_MAX_FRAME_DT: Duration := 250 * NANOS_PER_MILLI
  const DEFAULT_MAX_UPDATES: uint32 := 10

  datatype Config = Config(
    fixedHz: uint32,
    fixedDt: Duration,
    maxFrameDt: Duration,
    maxUpdatesPerFrame: uint32)

  /** One second divided by `hz`, rounded to the nearest nanosecond with
      ties going to the even neighbour: `from_secs_f64(1.0 / hz)`. */
  function NearestNanos(hz: nat): (d: nat)
    requires hz > 0
    ensures -(hz as int) <= 2 * (d * hz - NANOS_PER_SEC) <= hz
    ensures 2 * (d * hz - NANOS_PER_SEC) == hz ==> d % 2 == 0
    ensures 2 * (d * hz - NANOS_PER_SEC) == -(hz as int) ==> d % 2 == 0
  {
    var q, r := NANOS_PER_SEC / hz, NANOS_PER_SEC % hz;
    assert q * hz - NANOS_PER_SEC == -r;
    assert (q + 1) * hz - NANOS_PER_SEC == hz - r by { MulSucc(q, hz); }
    if 2 * r < hz then q
    else if 2 * r > hz then q + 1
    else if q % 2 == 0 then q
    else q + 1
  }

  /** The nearest nanosecond to a second divided by `hz` is at most one second. */
  lemma {:induction false} NearestNanosAtMostSecond(hz: nat)
    requires hz > 0
    ensures NearestNanos(hz) <= NANOS_PER_SEC
  {
    var d := NearestNanos(hz);
    if d > NANOS_PER_SEC {
      MulLeft(NANOS_PER_SEC + 1, d, hz);
      assert false;
    }
  }

  /** The configuration for `fixed_hz` updates per second; zero means 60. */
  function FromHz(fixedHz: uint32): (c: Config)
    ensures c.fixedHz != 0
    ensures c.fixedHz == if fixedHz == 0 then DEFAULT_HZ else fixedHz
    ensures -(c.fixedHz as int) <= 2 * (c.fixedDt * c.fixedHz - NANOS_PER_SEC) <= c.fixedHz
    ensures c.maxFrameDt == 250 * NANOS_PER_MILLI && c.maxUpdatesPerFrame == 10
  {
    var hz := if fixedHz == 0 then DEFAULT_HZ else fixedHz;
    NearestNanosAtMostSecond(hz);
    Config(hz, NearestNanos(hz), DEFAULT_MAX_FRAME_DT, DEFAULT_MAX_UPDATES)
  }

  /** Replaces the two limits and keeps the rate and the timestep. */
  function WithLimits(c: Config, maxFrameDt: Duration, maxUpdatesPerFrame: uint32): (r: Config)
    ensures r.fixedHz == c.fixedHz && r.fixedDt == c.fixedDt
    ensures r.maxFrameDt == maxFrameDt && r.maxUpdatesPerFrame == maxUpdatesPerFrame
  {
    c.(maxFrameDt := maxFrameDt, maxUpdatesPerFrame := maxUpdatesPerFrame)
  }

  function Default(): Config
  {
    FromHz(DEFAULT_HZ)
  }

  /** Asking for zero updates per second gives the 60 Hz configuration. */
  lemma ZeroHzIsDefault()
    ensures FromHz(0) == FromHz(60) == Default()
  {
  }

  /** The default loop runs at 60 Hz with a step of 16 666 667 ns (a sixtieth
      of a second rounded up), at most 250 ms per frame and 10 updates. */
  lemma DefaultValues()
    ensures Default() == Config(60, 16_666_667, 250_000_000, 10)
  {
    assert NANOS_PER_SEC / 60 == 16_666_666 && NANOS_PER_SEC % 60 == 40;
  }

  /** A rate above two billion per second has a timestep that rounds to zero. */
  lemma FastRateHasZeroStep(hz: uint32)
    requires hz > 2 * NANOS_PER_SEC
    ensures FromHz(hz).fixedDt == 0
  {
    var d := FromHz(hz).fixedDt;
    if d >= 1 {
      MulLeft(1, d, hz);
      assert false;
    }
  }

  /** Setting the limits twice keeps only the second pair. */
  lemma WithLimitsLastWins(c: Config, f1: Duration, u1: uint32, f2: Duration, u2: uint32)
    ensures WithLimits(WithLimits(c, f1, u1), f2, u2) == WithLimits(c, f2, u2)
  {
  }
}
