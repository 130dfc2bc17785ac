/** SplitMix64 (Vigna): a 64-bit Weyl sequence passed through a
    xorshift-multiply finaliser; used to seed PCG32. The state is a 64-bit
    unsigned integer; every addition and multiplication wraps modulo 2^64. */
module SplitMix64 {
  import opened Numeric

  const GAMMA: uint64 := 0x9E37_79B9_7F4A_7C15
  const MUL1: bv64 := 0xBF58_476D_1CE4_E5B9
  const MUL2: bv64 := 0x94D0_49BB_1331_11EB

  /** The finaliser on the bits of a state: xorshift 30, wrapping
      multiply, xorshift 27, wrapping multiply, xorshift 31 (bv64
      operations wrap). */
  function MixBits(b: bv64): bv64 {
    var z1 := (b ^ (b >> 30)) * MUL1;
    var z2 := (z1 ^ (z1 >> 27)) * MUL2;
    z2 ^ (z2 >> 31)
  }

  /** The finaliser applied to a state held as an unsigned integer. */
  function Mix(z: uint64): uint64 {
    MixBits(z as bv64) as int
  }

  /** The state after `n` draws from `seed`: one wrapping Weyl step per draw. */
  function StateAfter(seed: uint64, n: nat): uint64
    decreases n
  {
    if n == 0 then seed else Add64(StateAfter(seed, n - 1), GAMMA)
  }

  /** The Weyl sequence in closed form: n draws add n * GAMMA modulo 2^64. */
  lemma {:induction false} StateAfterClosedForm(seed: uint64, n: nat)
    ensures StateAfter(seed, n) == (seed + n * GAMMA) % U64_LIMIT
    decreases n
  {
    if n == 0 {
      assert seed % U64_LIMIT == seed;
    } else {
      StateAfterClosedForm(seed, n - 1);
      ModAddLeft(seed + (n - 1) * GAMMA, GAMMA, U64_LIMIT);
      assert seed + (n - 1) * GAMMA + GAMMA == seed + n * GAMMA;
    }
  }

  /** The finaliser on the bit patterns of the first states of seeds 0, 1
      and 2. */
  lemma MixedSmallStates()
    ensures MixBits(0) == 0
    ensures MixBits(1) == 0x5692_161D_100B_05E5
    ensures MixBits(2) == 0xDBD2_3897_3A2B_148A
  {
  }

  /** The finaliser on the bit patterns of the second and third states of
      seed 0. */
  lemma MixedWeylStates()
    ensures MixBits(0x9E37_79B9_7F4A_7C15) == 0xE220_A839_7B1D_CDAF
    ensures MixBits(0x3C6E_F372_FE94_F82A) == 0x6E78_9E6A_A1B9_65F4
  {
  }

  /** First outputs for seeds 1 and 2, which differ. The state is mixed
      before the Weyl step is added, so seed 0 first yields 0. */
  lemma FirstOutputsOfSmallSeeds()
    ensures Mix(StateAfter(0, 0)) == 0
    ensures Mix(StateAfter(1, 0)) == 0x5692_161D_100B_05E5
    ensures Mix(StateAfter(2, 0)) == 0xDBD2_3897_3A2B_148A
  {
    assert StateAfter(0, 0) == 0 && StateAfter(1, 0) == 1 && StateAfter(2, 0) == 2;
    MixedSmallStates();
    assert (0 as bv64) == 0;
    assert (1 as bv64) == 1;
    assert (2 as bv64) == 2;
  }

  /** From seed 0 the second and third outputs are two distinct non-zero
      values. */
  lemma FirstOutputsOfSeedZero()
    ensures Mix(StateAfter(0, 1)) == 0xE220_A839_7B1D_CDAF
    ensures Mix(StateAfter(0, 2)) == 0x6E78_9E6A_A1B9_65F4
  {
    assert StateAfter(0, 1) == 0x9E37_79B9_7F4A_7C15;
    assert StateAfter(0, 2) == 0x3C6E_F372_FE94_F82A;
    MixedWeylStates();
    assert (0x9E37_79B9_7F4A_7C15 as bv64) == 0x9E37_79B9_7F4A_7C15;
    assert (0x3C6E_F372_FE94_F82A as bv64) == 0x3C6E_F372_FE94_F82A;
  }

  class SplitMix64 {
    var state: uint64
    /** The seed and the number of draws so far, for stating what the
        state is in terms of the draw count. */
    ghost var seed: uint64
    ghost var draws: nat

    ghost predicate Valid()
      reads this
    {
      state == StateAfter(seed, draws)
    }

    constructor (seed: uint64)
      ensures Valid()
      ensures state == seed && this.seed == seed && draws == 0
    {
      state := seed;
      this.seed := seed;
      draws := 0;
    }

    /** Returns the finaliser of the current state and advances the state
        by GAMMA. */
    method NextU64() returns (r: uint64)
      requires Valid()
      modifies this
      ensures Valid() && seed == old(seed) && draws == old(draws) + 1
      ensures state == Add64(old(state), GAMMA)
      ensures r == Mix(old(state))
    {
      var z := state;
      state := Add64(state, GAMMA);
      draws := draws + 1;
      r := Mix(z);
    }
  }
}
