/**
 * `OTI::lcg_PLE63`: the 63-bit generator x' = (MULT*x + ADD) mod 2^63 with
 * P. L'Ecuyer's multiplier, its static one-step function, the reduction of a
 * signed step count to a forward residue, the O(log N) jump-ahead, and the
 * generator object whose single field is the seed.
 */
module LcgPle63 {
  import opened Bits
  import opened Recurrence

  const NBITS: nat := 63
  /** `1 << NBITS` */
  const MOD: nat := 0x8000_0000_0000_0000
  const MASK: nat := MOD - 1
  /** From P. L'Ecuyer, "Efficient and Portable Combined RNGs", Comm. ACM 31(6), 1988. */
  const MULT: uint64 := 2806196910506780709
  const ADD: uint64 := 1
  const DEFAULT_SEED: uint64 := 1

  /** The recurrence this generator implements. */
  const PLE63: Params := Params(MULT, ADD, MOD)

  /** The modulus is 2^NBITS, the mask its low bits, and the recurrence meets the jump's needs. */
  lemma Constants()
    ensures MOD == Pow2(NBITS) && MASK == MOD - 1
    ensures Valid(PLE63) && MULT % 2 == 1
  {
    Pow2Constants();
  }

  lemma SampleStep(seed: uint64)
    ensures And(Wrap(Wrap(MULT * seed) + ADD), MASK) == (MULT * seed + ADD) % MOD
    ensures (MULT * seed + ADD) % MOD == Step(PLE63, seed)
  {
    Constants();
    MaskedMulAdd(MULT, seed, ADD, MOD);
    assert PLE63.a == MULT && PLE63.c == ADD && PLE63.m == MOD;
  }

  /** Static `sample(seed)`: one step, computed in wrapping uint64 and masked. */
  function Sample(seed: uint64): (r: uint64)
    ensures r == (MULT * seed + ADD) % MOD
    ensures r == Step(PLE63, seed)
  {
    SampleStep(seed);
    And(Wrap(Wrap(MULT * seed) + ADD), MASK)
  }

  /**
   * `compute_nskip(ns)`: the forward step count in [0, MASK] congruent to ns
   * modulo 2^63. A negative count is lifted by 2^63 in unsigned arithmetic,
   * which takes exactly one pass of the loop.
   */
  method ComputeNSkip(ns: int64) returns (r: int64, ghost passes: nat)
    ensures 0 <= r <= MASK
    ensures r == ns % MOD
    ensures 0 <= ns ==> r == ns
    ensures passes == if ns < 0 then 1 else 0
  {
    var nskip := ns;
    passes := 0;
    while nskip < 0
      invariant (nskip == ns && passes == 0) || (ns < 0 && nskip == ns + MOD && passes == 1)
      decreases -(nskip as int)
    {
      assert nskip == ns && ToUnsigned(nskip) == nskip + TWO64;
      ModUnique(ToUnsigned(nskip) + MOD, 1, nskip + MOD, TWO64);
      var t: uint64 := Wrap(ToUnsigned(nskip) + MOD);
      assert t == ns + MOD < TWO63;
      nskip := ToSigned(t);
      passes := passes + 1;
    }
    assert nskip == if ns < 0 then ns + MOD else ns;
    if ns < 0 {
      ModUnique(ns, -1, nskip, MOD);
    } else {
      ModSmall(ns, MOD);
    }
    MaskLow63(nskip);
    ModSmall(nskip, MOD);
    r := And(nskip, MASK);
    assert r == nskip;
  }

  /**
   * Static `skip(ns, seed)`: jumps seed by ns steps (backward when ns < 0) by
   * binary exponentiation of the one-step affine map (F. Brown, "Random Number
   * Generation with Arbitrary Stride", 1994). (mNext, cNext) accumulates the
   * maps of the bits already consumed; (m, c) is the map of 2^passes steps.
   */
  method Skip(ns: int64, seed: uint64) returns (r: uint64, ghost passes: nat)
    ensures r == Jump(PLE63, ns, seed)
    ensures passes <= NBITS
  {
    Constants();
    var nskip, _ := ComputeNSkip(ns);
    ghost var total := nskip;

    var m: uint64 := MULT;
    var c: uint64 := ADD;
    var mNext: uint64 := 1;
    var cNext: uint64 := 0;

    ghost var done: nat, stride: nat := 0, 1;
    ghost var room: nat := NBITS;
    passes := 0;
    AdvancesOne(PLE63);
    AdvancesZero(PLE63);
    while nskip > 0
      invariant 0 <= nskip < Pow2(room) && passes + room == NBITS
      invariant done + nskip * stride == total
      invariant Advances(PLE63, mNext, cNext, done) && Advances(PLE63, m, c, stride)
      decreases nskip
    {
      nskip, m, c, mNext, cNext, done, stride := SkipPass(PLE63, MASK, nskip, m, c, mNext, cNext, done, stride, total, room);
      passes, room := passes + 1, room - 1;
    }
    assert nskip == 0;
    assert done == total;
    assert And(Wrap(Wrap(mNext * seed) + cNext), MASK) == Jump(PLE63, ns, seed) by {
      MaskedApply(PLE63, MASK, mNext, cNext, seed, total, ns);
    }
    r := And(Wrap(Wrap(mNext * seed) + cNext), MASK);
  }

  /** `OTI::lcg_PLE63`: a generator whose whole state is its seed. */
  class Generator {
    var seed: uint64

    /** `lcg_PLE63(seed)`: the given seed is stored unchanged. */
    constructor (s: uint64)
      ensures seed == s
    {
      seed := s;
    }

    /** `lcg_PLE63()`: the default seed. */
    constructor Default()
      ensures seed == DEFAULT_SEED
    {
      seed := DEFAULT_SEED;
    }

    /** Copy construction. */
    constructor Copy(r: Generator)
      ensures seed == r.seed
    {
      seed := r.seed;
    }

    /** Copy assignment. */
    method Assign(r: Generator)
      modifies this
      ensures seed == old(r.seed)
    {
      seed := r.seed;
    }

    /** `seed()`: the current state. */
    function Seed(): (s: uint64)
      reads this
      ensures s == seed
    {
      seed
    }

    /** Mutator `sample()`: one step of the recurrence. */
    method SampleState()
      modifies this
      ensures seed == Sample(old(seed))
      ensures seed == Step(PLE63, old(seed)) && seed <= MASK
    {
      seed := Sample(seed);
    }

    /** Mutator `skip(ns)`: a jump by ns steps, backward when ns < 0. */
    method SkipState(ns: int64)
      modifies this
      ensures seed == Jump(PLE63, ns, old(seed)) && seed <= MASK
    {
      ghost var passes;
      seed, passes := Skip(ns, seed);
    }
  }
}
