/** PCG32, the XSH-RR 64/32 member of O'Neill's PCG family: a 64-bit linear
    congruential state and a 32-bit output made by an xorshift, a truncation
    and a data-dependent rotation of the old state. */
module Pcg32 {
  import opened Numeric

  const MULT: uint64 := 6364136223846793005

  /** One LCG step: wrapping multiply by MULT, then wrapping add of `inc`. */
  function Step(state: uint64, inc: uint64): uint64 {
    Add64(Mul64(state, MULT), inc)
  }

  /** XSH-RR output of a state: ((s >> 18) ^ s) >> 27 truncated to 32 bits,
      rotated right by the top five bits of the state. */
  function OutputBits(o: bv64): bv32 {
    var xorshifted := ((((o >> 18) ^ o) >> 27) & 0xFFFF_FFFF) as bv32;
    var rot := (o >> 59) as int;
    xorshifted.RotateRight(rot)
  }

  /** The output of a state held as an unsigned 64-bit integer. */
  function Output(state: uint64): uint32 {
    OutputBits(state as bv64) as int
  }

  /** The state the seeding protocol reaches: step from 0, add the initial
      state, step again. */
  function SeedState(initstate: uint64, inc: uint64): uint64 {
    Step(Add64(Step(0, inc), initstate), inc)
  }

  /** The seeded state in closed form, (inc + initstate) * MULT + inc modulo 2^64. */
  lemma {:induction false} SeedStateClosedForm(initstate: uint64, inc: uint64)
    ensures SeedState(initstate, inc) == ((inc + initstate) * MULT + inc) % U64_LIMIT
  {
    var s1 := Step(0, inc);
    assert s1 == inc;
    MulMod(inc + initstate, MULT, U64_LIMIT);
    ModAddLeft((inc + initstate) * MULT, inc, U64_LIMIT);
  }

  /** ((a mod m) * b) mod m == (a * b) mod m, stated for the wrapping multiply. */
  lemma {:induction false} MulMod(a: nat, b: nat, m: int)
    requires m > 0
    ensures ((a % m) * b) % m == (a * b) % m
  {
    var q := a / m;
    assert a == q * m + a % m;
    assert a * b == (a % m) * b + (q * b) * m;
    ModShift((a % m) * b, q * b, m);
  }

  /** The rotation amount is one of the 32 possible rotations. */
  lemma RotationInRange(state: uint64)
    ensures 0 <= ((state as bv64) >> 59) as int < 32
  {
  }

  /** Seeding 123456789 with stream selector 3 ... */
  lemma SeededWithStreamThree()
    ensures SeedState(123456789, 3) == 0xF169_7A31_54D9_F53B
  {
    SeedStateClosedForm(123456789, 3);
  }

  /** ... and with stream selector 7 gives different states ... */
  lemma SeededWithStreamSeven()
    ensures SeedState(123456789, 7) == 0x52B1_4AE6_872F_F1F3
  {
    SeedStateClosedForm(123456789, 7);
  }

  /** The output of the state seeded with stream selector 3. */
  lemma OutputOfStreamThree()
    ensures OutputBits(0xF169_7A31_54D9_F53B) == 0xB4A3_3584
  {
  }

  /** The output of the state seeded with stream selector 7. */
  lemma OutputOfStreamSeven()
    ensures OutputBits(0x52B1_4AE6_872F_F1F3) == 0x5695_8AF2
  {
  }

  /** ... whose first outputs differ. */
  lemma StreamsFirstOutputsDiffer()
    ensures Output(SeedState(123456789, 3)) != Output(SeedState(123456789, 7))
  {
    SeededWithStreamThree();
    SeededWithStreamSeven();
    OutputOfStreamThree();
    OutputOfStreamSeven();
    assert (0xF169_7A31_54D9_F53B as bv64) == 0xF169_7A31_54D9_F53B;
    assert (0x52B1_4AE6_872F_F1F3 as bv64) == 0x52B1_4AE6_872F_F1F3;
    assert (0xB4A3_3584 as bv32) as int == 0xB4A3_3584;
  }

  class Pcg32 {
    var state: uint64
    /** The stream selector; always odd and fixed after seeding. */
    const inc: uint64

    /** The recommended seeding: start at 0 with the given odd increment,
        step, add the initial state, step again. Callers must pass an odd
        increment (the source checks this with a debug assertion). */
    constructor Seed(initstate: uint64, incOdd: uint64)
      requires incOdd % 2 == 1
      ensures inc == incOdd
      ensures state == SeedState(initstate, incOdd)
    {
      state := 0;
      inc := incOdd;
      new;
      var _ := NextU32();
      state := Add64(state, initstate);
      var _ := NextU32();
    }

    /** Steps the generator and returns the XSH-RR output of the old state. */
    method NextU32() returns (r: uint32)
      modifies this
      ensures state == Step(old(state), inc)
      ensures r == Output(old(state))
    {
      var oldstate := state;
      state := Step(oldstate, inc);
      r := Output(oldstate);
    }
  }
}
