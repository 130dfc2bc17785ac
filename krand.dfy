/** The user-facing generator: SplitMix64 derives a PCG32 initial state and
    an odd stream selector from one 64-bit seed; draws are PCG32 outputs,
    a float in [0, 1) from their top 24 bits, and unbiased bounded integers
    by Lemire's multiply-and-reject method. */
module Krand {
  import opened Numeric
  import SplitMix64
  import opened Pcg32

  /** `(stream << 1) | 1` on 64 bits: the shift drops the top bit and
      leaves the low bit clear, so the or adds one. */
  function IncFromStream(stream: uint64): (inc: uint64)
    ensures inc % 2 == 1
  {
    (2 * stream) % U64_LIMIT + 1
  }

  /** PCG32 initial state derived from a seed: the first SplitMix64 output. */
  function InitStateOf(seed: uint64): uint64 {
    SplitMix64.Mix(seed)
  }

  /** PCG32 stream selector derived from a seed: the second SplitMix64
      output, shifted left and forced odd. */
  function IncOf(seed: uint64): (inc: uint64)
    ensures inc % 2 == 1
  {
    IncFromStream(SplitMix64.Mix(Add64(seed, SplitMix64.GAMMA)))
  }

  /** `x >> 8` scaled by 2^-24. Both steps are exact in `f32` (a 24-bit
      integer times a power of two), so the real value is the float's value. */
  function UnitReal(x: uint32): (f: real)
    ensures 0.0 <= f < 1.0
    ensures f * 16777216.0 == (x / 256) as real
  {
    (x / 256) as real / 16777216.0
  }

  /** `bound.wrapping_neg() % bound`; for 0 < bound < 2^32 the negation is
      2^32 - bound. */
  function Threshold(bound: int): (t: int)
    requires 0 < bound < U32_LIMIT
    ensures 0 <= t < bound
  {
    (U32_LIMIT - bound) % bound
  }

  /** The rejection threshold is 2^32 mod bound: exactly the number of low
      products that would make small results over-represented. */
  lemma ThresholdIsPowModBound(bound: int)
    requires 0 < bound < U32_LIMIT
    ensures Threshold(bound) == U32_LIMIT % bound
  {
    ModShift(U32_LIMIT - bound, 1, bound);
  }

  /** One draw of Lemire's method: with bound = end - start and the 64-bit
      product m = x * bound, accept when the low word of m reaches the
      threshold and answer start plus the high word (wrapping add). */
  function Accept(x: uint32, start: uint32, end: uint32): Option<uint32>
    requires start < end
  {
    var bound := end - start;
    var m := Mul64(x, bound);
    if m % U32_LIMIT >= Threshold(bound) then
      Some((start + (m / U32_LIMIT) % U32_LIMIT) % U32_LIMIT)
    else
      None
  }

  /** The range draw, from PCG state `state`, giving up after `fuel` draws:
      the result (None when the fuel ran out) and the PCG state afterwards. */
  function RangeDraws(state: uint64, inc: uint64, start: uint32, end: uint32, fuel: nat): (Option<uint32>, uint64)
    requires start < end
    decreases fuel
  {
    if fuel == 0 then (None, state)
    else
      var a := Accept(Output(state), start, end);
      var next := Step(state, inc);
      if a.Some? then (a, next) else RangeDraws(next, inc, start, end, fuel - 1)
  }

  /** An accepted draw lands in [start, end): the high word of x * bound is
      below bound, and start plus it stays below 2^32. */
  lemma {:induction false} AcceptedInRange(x: uint32, start: uint32, end: uint32)
    requires start < end
    ensures var a := Accept(x, start, end);
      a.Some? ==> start <= a.value < end
  {
    var bound := end - start;
    var m := Mul64(x, bound);
    assert m == x * bound by {
      ProductBelow(x, bound);
      ModBelow(x * bound, U64_LIMIT);
    }
    var hi := m / U32_LIMIT;
    assert hi < bound by { ProductBelow(x, bound); HighWordBelow(m, bound); }
    ModBelow(hi, U32_LIMIT);
    ModBelow(start + hi, U32_LIMIT);
  }

  /** A 32-bit value times a bound below 2^32 fits in 64 bits, below 2^32 * bound. */
  lemma ProductBelow(x: uint32, bound: int)
    requires 0 < bound < U32_LIMIT
    ensures 0 <= x * bound < U32_LIMIT * bound <= U64_LIMIT
  {
    assert U32_LIMIT * bound - x * bound == (U32_LIMIT - x) * bound;
    assert U64_LIMIT - U32_LIMIT * bound == U32_LIMIT * (U32_LIMIT - bound);
  }

  /** The high word of a product below 2^32 * bound is below bound. */
  lemma HighWordBelow(m: int, bound: int)
    requires 0 <= m < U32_LIMIT * bound
    ensures m / U32_LIMIT < bound
  {
    var hi := m / U32_LIMIT;
    assert hi * U32_LIMIT <= m;
  }

  /** A draw is rejected exactly when the low word of x * bound falls below
      2^32 mod bound. */
  lemma AcceptIffAboveThreshold(x: uint32, start: uint32, end: uint32)
    requires start < end
    ensures Accept(x, start, end).None? <==> (x * (end - start)) % U32_LIMIT < U32_LIMIT % (end - start)
  {
    var bound := end - start;
    assert Mul64(x, bound) == x * bound by {
      ProductBelow(x, bound);
      ModBelow(x * bound, U64_LIMIT);
    }
    ThresholdIsPowModBound(bound);
  }

  /** With bound 1 the threshold is 0 and every draw is accepted with the
      start itself. */
  lemma AcceptOne(x: uint32, start: uint32)
    requires start + 1 < U32_LIMIT
    ensures Accept(x, start, start + 1) == Some(start)
  {
  }

  /** Every value the range draw returns lies in [start, end). */
  lemma {:induction false} RangeWithinBounds(state: uint64, inc: uint64, start: uint32, end: uint32, fuel: nat)
    requires start < end
    ensures var r := RangeDraws(state, inc, start, end, fuel).0;
      r.Some? ==> start <= r.value < end
    decreases fuel
  {
    if fuel > 0 {
      AcceptedInRange(Output(state), start, end);
      RangeWithinBounds(Step(state, inc), inc, start, end, fuel - 1);
    }
  }

  /** A one-element range accepts the first draw and returns its start;
      in particular `range_u32(0..1)` is 0. */
  lemma {:induction false} RangeOfOneIsStart(state: uint64, inc: uint64, start: uint32, fuel: nat)
    requires start + 1 < U32_LIMIT && fuel >= 1
    ensures RangeDraws(state, inc, start, start + 1, fuel) == (Some(start), Step(state, inc))
  {
    AcceptOne(Output(state), start);
  }

  /** The first two outputs of a fresh SplitMix64 on `seed`: the PCG32
      initial state, and the stream from which the increment is formed. */
  method SeedParts(seed: uint64) returns (initstate: uint64, inc: uint64)
    ensures initstate == InitStateOf(seed) && inc == IncOf(seed)
  {
    var sm := new SplitMix64.SplitMix64(seed);
    initstate := sm.NextU64();
    var stream := sm.NextU64();
    inc := IncFromStream(stream);
  }

  /** A PCG32 seeded from the first two SplitMix64 outputs of `seed`. */
  method SeededPcg(seed: uint64) returns (p: Pcg32)
    ensures fresh(p)
    ensures p.inc == IncOf(seed)
    ensures p.state == SeedState(InitStateOf(seed), IncOf(seed))
  {
    var initstate, inc := SeedParts(seed);
    p := new Pcg32.Seed(initstate, inc);
  }

  class Krand {
    const pcg: Pcg32

    /** Seeds PCG32 from the first two outputs of a fresh SplitMix64. The
        same seed always yields the same PCG32 state and stream. */
    constructor FromSeed(seed: uint64)
      ensures fresh(pcg)
      ensures pcg.inc == IncOf(seed)
      ensures pcg.state == SeedState(InitStateOf(seed), IncOf(seed))
    {
      var p := SeededPcg(seed);
      pcg := p;
    }

    /** `new` is `from_seed`. */
    constructor New(seed: uint64)
      ensures fresh(pcg)
      ensures pcg.inc == IncOf(seed)
      ensures pcg.state == SeedState(InitStateOf(seed), IncOf(seed))
    {
      var p := SeededPcg(seed);
      pcg := p;
    }

    /** Exactly one PCG32 step. */
    method NextU32() returns (r: uint32)
      modifies pcg
      ensures pcg.state == Step(old(pcg.state), pcg.inc)
      ensures r == Output(old(pcg.state))
    {
      r := pcg.NextU32();
    }

    /** The top 24 bits of one draw as a fraction of 2^24, in [0, 1). */
    method NextF32() returns (f: real)
      modifies pcg
      ensures pcg.state == Step(old(pcg.state), pcg.inc)
      ensures f == UnitReal(Output(old(pcg.state)))
      ensures 0.0 <= f < 1.0
    {
      var x := NextU32();
      var u24 := x / 256;
      f := u24 as real / 16777216.0;
    }

    /** A value in [start, end) by Lemire's method: draw x, form the 64-bit
        product x * bound, reject while its low word is below the threshold,
        return start plus its high word. The source loops until acceptance;
        here at most `maxDraws` draws are made, with None when they all
        are rejected. */
    method RangeU32(start: uint32, end: uint32, maxDraws: nat) returns (r: Option<uint32>)
      requires start < end
      modifies pcg
      ensures (r, pcg.state) == RangeDraws(old(pcg.state), pcg.inc, start, end, maxDraws)
      ensures r.Some? ==> start <= r.value < end
    {
      var threshold := Threshold(end - start);
      var draws := 0;
      while draws < maxDraws
        invariant 0 <= draws <= maxDraws
        invariant RangeDraws(old(pcg.state), pcg.inc, start, end, maxDraws)
                  == RangeDraws(pcg.state, pcg.inc, start, end, maxDraws - draws)
        decreases maxDraws - draws
      {
        var a := TryDraw(start, end, threshold);
        if a.Some? {
          r := a;
          RangeWithinBounds(old(pcg.state), pcg.inc, start, end, maxDraws);
          return;
        }
        draws := draws + 1;
      }
      r := None;
    }

    /** One pass of the loop in `range_u32`: draw x, form the 64-bit
        product x * bound, and accept when its low word reaches the
        threshold computed once by the caller. */
    method TryDraw(start: uint32, end: uint32, threshold: int) returns (a: Option<uint32>)
      requires start < end && threshold == Threshold(end - start)
      modifies pcg
      ensures pcg.state == Step(old(pcg.state), pcg.inc)
      ensures a == Accept(Output(old(pcg.state)), start, end)
    {
      var x := NextU32();
      var bound := end - start;
      var m := Mul64(x, bound);
      var l := m % U32_LIMIT;
      if l >= threshold {
        var hi := (m / U32_LIMIT) % U32_LIMIT;
        a := Some((start + hi) % U32_LIMIT);
      } else {
        a := None;
      }
    }
  }
}
