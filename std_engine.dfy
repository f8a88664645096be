/**
 * The specialisation `std::linear_congruential_engine<uint_fast64_t, A, C, M>`:
 * the same generator with the multiplier, increment and modulus as template
 * arguments (here the `Params` value an engine is built with), a step count
 * taken as unsigned and reduced by `& mask`, and the standard engine
 * interface: reseed, step, discard, bounds and equality.
 */
module StdEngine {
  import opened Bits
  import opened Recurrence

  const DEFAULT_SEED: uint64 := 1

  /** `mask`: modulus - 1, the largest state; `x & mask` is `x mod M` (Bits.MaskIsMod). */
  function Mask(p: Params): (r: nat)
    requires Valid(p)
    ensures r < p.m && r + 1 == p.m
  {
    p.m - 1
  }

  /** `min()`: the smallest value the engine produces. */
  function Min(): (r: uint64)
    ensures forall p: Params, s: int {:trigger Step(p, s)} :: p.m > 0 ==> r <= Step(p, s)
  {
    0
  }

  /** `max()`: the largest value the engine produces. */
  function Max(p: Params): (r: uint64)
    requires Valid(p)
    ensures forall s: int {:trigger Step(p, s)} :: Step(p, s) <= r
    ensures r == Mask(p)
  {
    Mask(p)
  }

  /**
   * Static `skip(ns, seed)`: ns is unsigned and reduced by `& mask`, so a
   * negative count converted to unsigned jumps backward. The loop is the
   * binary exponentiation of the one-step affine map.
   */
  method Skip(p: Params, ns: uint64, seed: uint64) returns (r: uint64, ghost passes: nat)
    requires Valid(p)
    ensures r == Jump(p, ns, seed)
    ensures passes <= 63
  {
    var mask: uint64 := Mask(p);
    assert And(ns, mask) == ns % p.m < p.m by { MaskIsMod(ns, p.m); }
    var nskip: int64 := And(ns, mask);
    ghost var total: nat := nskip;

    var m: uint64 := p.a;
    var c: uint64 := p.c;
    var mNext: uint64 := 1;
    var cNext: uint64 := 0;

    ghost var done: nat, stride: nat := 0, 1;
    ghost var room: nat := 63;
    passes := 0;
    AdvancesOne(p);
    AdvancesZero(p);
    assert nskip < Pow2(room) by { Pow2Constants(); }
    while nskip > 0
      invariant mask == p.m - 1
      invariant 0 <= nskip < Pow2(room) && passes + room == 63
      invariant done + nskip * stride == total
      invariant Advances(p, mNext, cNext, done) && Advances(p, m, c, stride)
      decreases nskip
    {
      nskip, m, c, mNext, cNext, done, stride := SkipPass(p, mask, nskip, m, c, mNext, cNext, done, stride, total, room);
      passes, room := passes + 1, room - 1;
    }
    assert nskip == 0;
    assert done == total;
    assert And(Wrap(Wrap(mNext * seed) + cNext), mask) == Jump(p, ns, seed) by {
      MaskedApply(p, mask, mNext, cNext, seed, total, ns);
    }
    r := And(Wrap(Wrap(mNext * seed) + cNext), mask);
  }

  /** `linear_congruential_engine<uint_fast64_t, A, C, M>` with (A, C, M) = p. */
  class Engine {
    const p: Params
    var seed: uint64

    /** `linear_congruential_engine(seed)`: the seed is stored unchanged. */
    constructor (p: Params, s: uint64)
      requires Valid(p)
      ensures this.p == p && seed == s
    {
      this.p := p;
      seed := s;
    }

    /** `linear_congruential_engine()`: the default seed. */
    constructor Default(p: Params)
      requires Valid(p)
      ensures this.p == p && seed == DEFAULT_SEED
    {
      this.p := p;
      seed := DEFAULT_SEED;
    }

    /** Copy construction. */
    constructor Copy(r: Engine)
      ensures p == r.p && seed == r.seed
    {
      p := r.p;
      seed := r.seed;
    }

    /** Copy assignment between engines of the same parameters. */
    method Assign(r: Engine)
      requires r.p == p
      modifies this
      ensures seed == old(r.seed)
    {
      seed := r.seed;
    }

    /** `seed(s)`: overwrites the state; `seed()` is `SetSeed(DEFAULT_SEED)`. */
    method SetSeed(s: uint64)
      modifies this
      ensures seed == s
    {
      seed := s;
    }

    /** `the_seed()`: the current state. */
    function TheSeed(): (s: uint64)
      reads this
      ensures s == seed
    {
      seed
    }

    /** `operator()()`: one step; the new state is also the value produced. */
    method Next() returns (r: uint64)
      requires Valid(p)
      modifies this
      ensures seed == Step(p, old(seed)) && r == seed
      ensures Min() <= r <= Max(p)
    {
      MaskedMulAdd(p.a, seed, p.c, p.m);
      seed := And(Wrap(Wrap(p.a * seed) + p.c), Mask(p));
      r := seed;
    }

    /** `discard(ns)`: a jump by ns steps, ns taken modulo M. */
    method Discard(ns: uint64)
      requires Valid(p)
      modifies this
      ensures seed == Jump(p, ns, old(seed))
    {
      ghost var passes;
      seed, passes := Skip(p, ns, seed);
    }
  }

  /** `operator==`: two engines of the same parameters are equal exactly when their seeds are. */
  function Equal(left: Engine, right: Engine): (b: bool)
    requires left.p == right.p
    reads left, right
    ensures b <==> left.seed == right.seed
  {
    left.TheSeed() == right.TheSeed()
  }

  /** `operator!=`: the negation of `operator==`. */
  function NotEqual(left: Engine, right: Engine): (b: bool)
    requires left.p == right.p
    reads left, right
    ensures b == !Equal(left, right)
  {
    left.TheSeed() != right.TheSeed()
  }
}
