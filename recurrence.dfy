/**
 * The recurrence x' = (a*x + c) mod m that both generators implement, the
 * affine maps (scale, offset) that the jump-ahead composes, and the facts the
 * jump-ahead relies on: composing maps is running them one after the other,
 * the map of n steps is the n-th power of the one-step map, and for an odd
 * multiplier and a power-of-two modulus m the m-th power is the identity, so
 * that a jump by n and a jump by n mod m agree and a negative jump undoes a
 * positive one.
 */
module Recurrence {
  import opened Bits

  /** The parameters of the recurrence: multiplier a, increment c, modulus m. */
  datatype Params = Params(a: uint64, c: uint64, m: uint64)

  /** The modulus is a power of two that fits the signed 64-bit step counter. */
  predicate Valid(p: Params) {
    IsPow2(p.m) && p.m <= TWO63
  }

  /** One step of the generator. */
  function Step(p: Params, s: int): (r: nat)
    requires p.m > 0
    ensures r < p.m
  {
    (p.a * s + p.c) % p.m
  }

  /** The state after n single steps from s: the specification of every jump. */
  function StepN(p: Params, s: nat, n: nat): (r: nat)
    requires p.m > 0
    ensures s < p.m ==> r < p.m
    decreases n
  {
    if n == 0 then s else Step(p, StepN(p, s, n - 1))
  }

  /**
   * A jump by a signed count n: n is reduced to its residue modulo m, which
   * for a negative n is the count that steps backward by |n|.
   */
  function Jump(p: Params, n: int, s: nat): (r: nat)
    requires p.m > 0
    ensures r < p.m
  {
    StepN(p, s % p.m, n % p.m)
  }

  // ---------------------------------------------------------------------------
  // Affine maps
  // ---------------------------------------------------------------------------

  /** The map x |-> (mul*x + inc) mod m. */
  datatype Affine = Affine(mul: nat, inc: nat)

  function Apply(p: Params, f: Affine, s: nat): (r: nat)
    requires p.m > 0
    ensures r < p.m
  {
    (f.mul * s + f.inc) % p.m
  }

  /** The map that runs f and then g, with both coefficients reduced modulo m. */
  function Then(p: Params, f: Affine, g: Affine): Affine
    requires p.m > 0
  {
    Affine((f.mul * g.mul) % p.m, (f.inc * g.mul + g.inc) % p.m)
  }

  function Reduce(p: Params, f: Affine): Affine
    requires p.m > 0
  {
    Affine(f.mul % p.m, f.inc % p.m)
  }

  /** The map of n steps, built one step at a time. */
  function Power(p: Params, n: nat): (r: Affine)
    requires p.m > 0
    ensures r.mul < p.m && r.inc < p.m
    decreases n
  {
    if n == 0 then Affine(1 % p.m, 0) else Then(p, Power(p, n - 1), Affine(p.a, p.c))
  }

  // Integer cores of the affine-map lemmas, stated without datatypes so
  // that each modular step is a separate, small proof obligation.

  /** Reducing a factor and an addend modulo m before a multiply-add does not change it modulo m. */
  lemma ModLinear(u: int, s: int, v: int, m: int)
    requires m > 0
    ensures ((u % m) * s + v % m) % m == (u * s + v) % m
  {
    ModAdd((u % m) * s, v % m, m);
    ModSmall(v % m, m);
    ModMulLeft(u, s, m);
    ModAdd(u * s, v, m);
  }

  /** Reducing the factor x modulo m before the multiply-add x * g + v does not change it modulo m. */
  lemma ModLinearLeft(x: int, g: int, v: int, m: int)
    requires m > 0
    ensures ((x % m) * g + v) % m == (x * g + v) % m
  {
    ModAddLeft((x % m) * g, v, m);
    ModMulLeft(x, g, m);
    ModAddLeft(x * g, v, m);
  }

  lemma ThenCore(m: int, fm: int, fi: int, gm: int, gi: int, s: int)
    requires m > 0
    ensures (((fm * gm) % m) * s + (fi * gm + gi) % m) % m == (gm * ((fm * s + fi) % m) + gi) % m
  {
    var x := fm * s + fi;
    assert (((fm * gm) % m) * s + (fi * gm + gi) % m) % m == ((fm * gm) * s + (fi * gm + gi)) % m by {
      ModLinear(fm * gm, s, fi * gm + gi, m);
    }
    assert (fm * gm) * s + (fi * gm + gi) == x * gm + gi;
    assert (x * gm + gi) % m == ((x % m) * gm + gi) % m by {
      ModLinearLeft(x, gm, gi, m);
    }
    assert (x % m) * gm == gm * (x % m);
  }

  lemma ReduceCore(m: int, fi: int, gm: int, gi: int)
    requires m > 0
    ensures ((fi % m) * (gm % m) + gi % m) % m == (fi * gm + gi) % m
  {
    calc {
      ((fi % m) * (gm % m) + gi % m) % m;
      { ModAdd((fi % m) * (gm % m), gi % m, m); ModSmall(gi % m, m); }
      (((fi % m) * (gm % m)) % m + gi % m) % m;
      { ModMul(fi, gm, m); }
      ((fi * gm) % m + gi % m) % m;
      { ModAdd(fi * gm, gi, m); }
      (fi * gm + gi) % m;
    }
  }

  lemma StepCore(m: int, a: int, c: int, s: int)
    requires m > 0
    ensures (a * (s % m) + c) % m == (a * s + c) % m
  {
    calc {
      (a * (s % m) + c) % m;
      { ModAddLeft(a * (s % m), c, m); }
      ((a * (s % m)) % m + c) % m;
      { ModMulLeft(s, a, m); assert a * (s % m) == (s % m) * a; }
      ((a * s) % m + c) % m;
      { ModAddLeft(a * s, c, m); }
      (a * s + c) % m;
    }
  }

  lemma EqualCore(m: int, fm: int, fi: int, gm: int, gi: int)
    requires 0 <= fm < m && 0 <= fi < m && 0 <= gm < m && 0 <= gi < m
    requires (fm * 0 + fi) % m == (gm * 0 + gi) % m
    requires (fm * 1 + fi) % m == (gm * 1 + gi) % m
    ensures fm == gm && fi == gi
  {
    ModSmall(fi, m);
    ModSmall(gi, m);
    assert fi == gi;
    calc {
      fm;
      { ModSmall(fm, m); ModAddMultiple(fm, 1, m); }
      (fm + m) % m;
      { ModAddLeft(fm + fi, m - fi, m); }
      ((fm + fi) % m + (m - fi)) % m;
      ((gm + gi) % m + (m - gi)) % m;
      { ModAddLeft(gm + gi, m - gi, m); }
      (gm + m) % m;
      { ModSmall(gm, m); ModAddMultiple(gm, 1, m); }
      gm;
    }
  }

  /** Running `Then(f, g)` is running f and then g. */
  lemma ApplyThen(p: Params, f: Affine, g: Affine, s: nat)
    requires Valid(p)
    ensures Apply(p, Then(p, f, g), s) == Apply(p, g, Apply(p, f, s))
  {
    ThenCore(p.m, f.mul, f.inc, g.mul, g.inc, s);
  }

  /** Reducing both maps first changes nothing in their composition. */
  lemma ThenReduce(p: Params, f: Affine, g: Affine)
    requires Valid(p)
    ensures Then(p, Reduce(p, f), Reduce(p, g)) == Then(p, f, g)
  {
    ModMul(f.mul, g.mul, p.m);
    ReduceCore(p.m, f.inc, g.mul, g.inc);
  }

  /** Two reduced maps that agree on 0 and on 1 are the same map. */
  lemma AffineEqual(p: Params, f: Affine, g: Affine)
    requires Valid(p)
    requires f.mul < p.m && f.inc < p.m && g.mul < p.m && g.inc < p.m
    requires Apply(p, f, 0) == Apply(p, g, 0) && Apply(p, f, 1) == Apply(p, g, 1)
    ensures f == g
  {
    EqualCore(p.m, f.mul, f.inc, g.mul, g.inc);
  }

  /** A step does not see the multiples of m in its input. */
  lemma StepMod(p: Params, s: int)
    requires Valid(p)
    ensures Step(p, s % p.m) == Step(p, s)
  {
    StepCore(p.m, p.a, p.c, s);
  }

  /** The map of one step is the recurrence's own coefficients, reduced. */
  lemma PowerOne(p: Params)
    requires Valid(p)
    ensures Power(p, 1) == Reduce(p, Affine(p.a, p.c))
  {
    assert Power(p, 1) == Then(p, Power(p, 0), Affine(p.a, p.c));
    ModMulLeft(1, p.a, p.m);
  }

  lemma ReduceApplyCore(m: int, mul: int, inc: int, s: int)
    requires m > 0
    ensures ((mul % m) * s + inc % m) % m == (mul * s + inc) % m
  {
    calc {
      ((mul % m) * s + inc % m) % m;
      { ModAdd((mul % m) * s, inc % m, m); ModSmall(inc % m, m); }
      (((mul % m) * s) % m + inc % m) % m;
      { ModMulLeft(mul, s, m); }
      ((mul * s) % m + inc % m) % m;
      { ModAdd(mul * s, inc, m); }
      (mul * s + inc) % m;
    }
  }

  /** Reducing the coefficients does not change what a map computes. */
  lemma ApplyReduce(p: Params, f: Affine, s: nat)
    requires Valid(p)
    ensures Apply(p, Reduce(p, f), s) == Apply(p, f, s)
  {
    ReduceApplyCore(p.m, f.mul, f.inc, s);
  }

  /** Running the map of n steps is taking n steps. */
  lemma {:induction false} ApplyPower(p: Params, n: nat, s: nat)
    requires Valid(p)
    ensures Apply(p, Power(p, n), s) == StepN(p, s % p.m, n)
    decreases n
  {
    if n == 0 {
      ModMulLeft(1, s, p.m);
    } else {
      ApplyPower(p, n - 1, s);
      ApplyThen(p, Power(p, n - 1), Affine(p.a, p.c), s);
    }
  }

  /** n steps and then k steps are n + k steps. */
  lemma {:induction false} StepNAdd(p: Params, s: nat, n: nat, k: nat)
    requires Valid(p)
    ensures StepN(p, StepN(p, s, n), k) == StepN(p, s, n + k)
    decreases k
  {
    if k > 0 {
      StepNAdd(p, s, n, k - 1);
    }
  }

  lemma PowerAddAt(p: Params, n: nat, k: nat, s: nat)
    requires Valid(p)
    ensures Apply(p, Power(p, n + k), s) == Apply(p, Then(p, Power(p, n), Power(p, k)), s)
  {
    var x := s % p.m;
    var y := StepN(p, x, n);
    ApplyThen(p, Power(p, n), Power(p, k), s);
    ApplyPower(p, n, s);
    ApplyPower(p, k, y);
    ModSmall(y, p.m);
    ApplyPower(p, n + k, s);
    StepNAdd(p, x, n, k);
  }

  /** The map of n + k steps is the map of n steps followed by the map of k steps. */
  lemma PowerAdd(p: Params, n: nat, k: nat)
    requires Valid(p)
    ensures Power(p, n + k) == Then(p, Power(p, n), Power(p, k))
  {
    PowerAddAt(p, n, k, 0);
    PowerAddAt(p, n, k, 1);
    AffineEqual(p, Power(p, n + k), Then(p, Power(p, n), Power(p, k)));
  }

  /** A map whose coefficients are already below m is its own reduction. */
  lemma ReduceReduced(p: Params, f: Affine)
    requires Valid(p) && f.mul < p.m && f.inc < p.m
    ensures Reduce(p, f) == f
  {
    ModSmall(f.mul, p.m);
    ModSmall(f.inc, p.m);
  }

  // ---------------------------------------------------------------------------
  // The two loop steps of the jump-ahead
  // ---------------------------------------------------------------------------

  /** Folding the base map (stride steps) into the accumulated map (done steps). */
  lemma Accumulate(p: Params, acc: Affine, base: Affine, done: nat, stride: nat)
    requires Valid(p)
    requires Reduce(p, acc) == Power(p, done) && Reduce(p, base) == Power(p, stride)
    ensures Reduce(p, Then(p, acc, base)) == Power(p, done + stride)
  {
    ThenReduce(p, acc, base);
    PowerAdd(p, done, stride);
    ReduceReduced(p, Then(p, acc, base));
  }

  /** Squaring the base map doubles its stride; its offset becomes inc * (mul + 1). */
  lemma Square(p: Params, base: Affine, stride: nat)
    requires Valid(p)
    requires Reduce(p, base) == Power(p, stride)
    ensures Reduce(p, Affine((base.mul * base.mul) % p.m, ((base.mul + 1) * base.inc) % p.m))
         == Power(p, 2 * stride)
  {
    var sq := Affine((base.mul * base.mul) % p.m, ((base.mul + 1) * base.inc) % p.m);
    assert (base.mul + 1) * base.inc == base.inc * base.mul + base.inc;
    assert sq == Then(p, base, base);
    Accumulate(p, base, base, stride, stride);
    assert stride + stride == 2 * stride;
  }

  /** The map (mul, inc) takes every state exactly n steps forward. */
  ghost predicate Advances(p: Params, mul: nat, inc: nat, n: nat)
    requires p.m > 0
  {
    forall s: nat :: Apply(p, Affine(mul, inc), s) == StepN(p, s % p.m, n)
  }

  /** A pair that reduces to the map of n steps advances every state by n steps... */
  lemma AdvancesFromPower(p: Params, mul: nat, inc: nat, n: nat)
    requires Valid(p) && Reduce(p, Affine(mul, inc)) == Power(p, n)
    ensures Advances(p, mul, inc, n)
  {
    forall s: nat
      ensures Apply(p, Affine(mul, inc), s) == StepN(p, s % p.m, n)
    {
      ApplyReduce(p, Affine(mul, inc), s);
      ApplyPower(p, n, s);
    }
  }

  /** ...and, conversely, such a pair reduces to the map of n steps. */
  lemma PowerFromAdvances(p: Params, mul: nat, inc: nat, n: nat)
    requires Valid(p) && Advances(p, mul, inc, n)
    ensures Reduce(p, Affine(mul, inc)) == Power(p, n)
  {
    var f := Affine(mul, inc);
    ApplyReduce(p, f, 0);
    ApplyReduce(p, f, 1);
    ApplyPower(p, n, 0);
    ApplyPower(p, n, 1);
    assert Apply(p, f, 0) == StepN(p, 0 % p.m, n);
    assert Apply(p, f, 1) == StepN(p, 1 % p.m, n);
    AffineEqual(p, Reduce(p, f), Power(p, n));
  }

  /** The accumulate step as the source computes it: uint64 products and sums, then `& mask`. */
  lemma MaskedAccumulate(p: Params, mNext: nat, cNext: nat, m: nat, c: nat, done: nat, stride: nat)
    requires Valid(p)
    requires Advances(p, mNext, cNext, done) && Advances(p, m, c, stride)
    ensures And(Wrap(mNext * m), p.m - 1) < p.m && And(Wrap(Wrap(cNext * m) + c), p.m - 1) < p.m
    ensures Advances(p, And(Wrap(mNext * m), p.m - 1), And(Wrap(Wrap(cNext * m) + c), p.m - 1), done + stride)
  {
    PowerFromAdvances(p, mNext, cNext, done);
    PowerFromAdvances(p, m, c, stride);
    Accumulate(p, Affine(mNext, cNext), Affine(m, c), done, stride);
    MaskWrap(mNext * m, p.m);
    MaskedMulAdd(cNext, m, c, p.m);
    AdvancesFromPower(p, And(Wrap(mNext * m), p.m - 1), And(Wrap(Wrap(cNext * m) + c), p.m - 1), done + stride);
  }

  /** The squaring step as the source computes it: c from the old m first, then m. */
  lemma MaskedSquare(p: Params, m: nat, c: nat, stride: nat)
    requires Valid(p)
    requires Advances(p, m, c, stride)
    ensures And(Wrap(m * m), p.m - 1) < p.m && And(Wrap(Wrap(m + 1) * c), p.m - 1) < p.m
    ensures Advances(p, And(Wrap(m * m), p.m - 1), And(Wrap(Wrap(m + 1) * c), p.m - 1), 2 * stride)
  {
    PowerFromAdvances(p, m, c, stride);
    Square(p, Affine(m, c), stride);
    MaskWrap(m * m, p.m);
    MaskedMulWrapped(m + 1, c, p.m);
    AdvancesFromPower(p, And(Wrap(m * m), p.m - 1), And(Wrap(Wrap(m + 1) * c), p.m - 1), 2 * stride);
  }

  /**
   * One pass of the jump-ahead loop: the low bit of nskip decides whether the
   * map for stride steps is folded into (mNext, cNext), then (m, c) is squared
   * into the map for 2 * stride steps and nskip is halved.
   */
  method SkipPass(p: Params, mask: uint64, nskip: int64, m: uint64, c: uint64, mNext: uint64, cNext: uint64,
                  ghost done: nat, ghost stride: nat, ghost total: nat, ghost room: nat)
    returns (nskip': int64, m': uint64, c': uint64, mNext': uint64, cNext': uint64, ghost done': nat, ghost stride': nat)
    requires Valid(p) && mask == p.m - 1
    requires 0 < nskip < Pow2(room) && done + nskip * stride == total
    requires Advances(p, mNext, cNext, done) && Advances(p, m, c, stride)
    ensures nskip' == nskip / 2 && room >= 1 && nskip' < Pow2(room - 1)
    ensures done' + nskip' * stride' == total
    ensures Advances(p, mNext', cNext', done') && Advances(p, m', c', stride')
  {
    HalvePass(nskip, stride, done, total, room);
    MaskIsMod(nskip, 2);
    mNext', cNext', done' := mNext, cNext, done;
    if And(nskip, 1) != 0 {
      MaskedAccumulate(p, mNext, cNext, m, c, done, stride);
      mNext' := And(Wrap(mNext * m), mask);
      cNext' := And(Wrap(Wrap(cNext * m) + c), mask);
      done' := done + stride;
    }
    MaskedSquare(p, m, c, stride);
    c' := And(Wrap(Wrap(m + 1) * c), mask);
    m' := And(Wrap(m * m), mask);
    nskip' := nskip / 2;
    stride' := 2 * stride;
  }

  /**
   * The final application `(mNext * seed + cNext) & mask`: when the pair advances
   * by the count's residue, the result is the jump by that count.
   */
  lemma MaskedApply(p: Params, mask: nat, mNext: nat, cNext: nat, seed: nat, total: nat, n: int)
    requires Valid(p) && mask == p.m - 1
    requires Advances(p, mNext, cNext, total) && total == n % p.m
    ensures And(Wrap(Wrap(mNext * seed) + cNext), mask) == Jump(p, n, seed)
  {
    MaskedMulAdd(mNext, seed, cNext, p.m);
    assert Apply(p, Affine(mNext, cNext), seed) == StepN(p, seed % p.m, total);
  }

  /** The pair (a, c) that the jump starts from advances by one step. */
  lemma AdvancesOne(p: Params)
    requires Valid(p)
    ensures Advances(p, p.a, p.c, 1)
  {
    PowerOne(p);
    AdvancesFromPower(p, p.a, p.c, 1);
  }

  /** The identity pair (1, 0) that the accumulator starts from advances by zero steps. */
  lemma AdvancesZero(p: Params)
    requires Valid(p)
    ensures Advances(p, 1, 0, 0)
  {
    forall s: nat
      ensures Apply(p, Affine(1, 0), s) == StepN(p, s % p.m, 0)
    {
    }
  }

  /**
   * One pass of the jump loop on its counters: the low bit of the remaining
   * count moves into `done` when set, and the count halves while the stride doubles.
   */
  lemma HalvePass(nskip: nat, stride: nat, done: nat, total: nat, room: nat)
    requires nskip > 0 && nskip < Pow2(room)
    requires done + nskip * stride == total
    ensures room >= 1 && nskip / 2 < Pow2(room - 1)
    ensures (if nskip % 2 == 1 then done + stride else done) + (nskip / 2) * (2 * stride) == total
  {
    HalveCount(nskip, stride);
    if room == 0 {
      assert false;
    }
  }

  // ---------------------------------------------------------------------------
  // The period divides m when the multiplier is odd
  // ---------------------------------------------------------------------------

  lemma OddSquare(x: int)
    requires x % 2 == 1
    ensures (x * x) % 2 == 1
  {
    var t := x / 2;
    assert x * x == 1 + (2 * t * t + 2 * t) * 2;
    ModAddMultiple(1, 2 * t * t + 2 * t, 2);
  }

  /** If h divides x - 1 and x is odd, 2h divides x*x - 1 == (x - 1)(x + 1). */
  lemma SquareCore(x: int, h: int)
    requires h > 0 && (x - 1) % h == 0 && x % 2 == 1
    ensures (x * x - 1) % (2 * h) == 0
  {
    var u, v := (x - 1) / h, (x + 1) / 2;
    assert x - 1 == h * u;
    assert x + 1 == 2 * v;
    assert x * x - 1 == (u * v) * (2 * h);
    ModMultiple(u * v, 2 * h);
  }

  /** If h divides y and x is odd, 2h divides y*x + y == y(x + 1). */
  lemma OffsetCore(x: int, y: int, h: int)
    requires h > 0 && y % h == 0 && x % 2 == 1
    ensures (y * x + y) % (2 * h) == 0
  {
    var w, v := y / h, (x + 1) / 2;
    assert y == h * w;
    assert x + 1 == 2 * v;
    assert y * x + y == (w * v) * (2 * h);
    ModMultiple(w * v, 2 * h);
  }

  /** Reducing modulo a multiple of d keeps "d divides z - 1". */
  lemma ReduceKeepsOne(z: int, d: nat, m: nat)
    requires d > 0 && m > 0 && m % d == 0 && (z - 1) % d == 0
    ensures (z % m - 1) % d == 0
  {
    ModOfDivisor(z, d, m);
    ModAddLeft(z % m, -1, d);
    ModAddLeft(z, -1, d);
  }

  lemma Pow2Parts(d: nat, m: nat)
    requires IsPow2(d) && d >= 2 && m > 0 && m % d == 0
    ensures d == 2 * (d / 2) && IsPow2(d / 2) && m % (d / 2) == 0 && m >= d && m % 2 == 0
  {
    Pow2Half(d);
    EvenDivisor(d, m);
  }

  /**
   * For every power of two d dividing m, the map of d steps is x |-> x + 0
   * modulo d: its multiplier is 1 and its offset 0, modulo d.
   */
  lemma {:induction false} PowerAtPow2(p: Params, d: nat)
    requires Valid(p) && p.a % 2 == 1
    requires IsPow2(d) && p.m % d == 0
    ensures (Power(p, d).mul - 1) % d == 0 && Power(p, d).inc % d == 0
    ensures p.m >= 2 ==> Power(p, d).mul % 2 == 1
    decreases d
  {
    var m := p.m;
    if d == 1 {
      var f := Power(p, 1);
      ModUnique(f.mul - 1, f.mul - 1, 0, 1);
      ModUnique(f.inc, f.inc, 0, 1);
      if m >= 2 {
        Pow2Parts(m, m);
        ModSmall(1, m);
        assert f.mul == p.a % m;
        ModOfDivisor(p.a, 2, m);
      }
    } else {
      var h := d / 2;
      Pow2Parts(d, m);
      PowerAtPow2(p, h);
      PowerAdd(p, h, h);
      var x, y := Power(p, h).mul, Power(p, h).inc;
      assert Power(p, d) == Affine((x * x) % m, (y * x + y) % m);
      SquareCore(x, h);
      assert (x * x - 1) % d == 0;
      ReduceKeepsOne(x * x, d, m);
      OffsetCore(x, y, h);
      ModOfDivisor(y * x + y, d, m);
      OddSquare(x);
      ModOfDivisor(x * x, 2, m);
    }
  }

  /** The period of the recurrence divides m: m steps from any state return to it. */
  lemma FullCycle(p: Params, s: nat)
    requires Valid(p) && p.a % 2 == 1 && s < p.m
    ensures StepN(p, s, p.m) == s
  {
    var m := p.m;
    if m >= 2 {
      var f := Power(p, m);
      assert f.mul == 1 && f.inc == 0 by {
        PowerAtPow2(p, m);
        ModSmall(f.inc, m);
        ModUnique(f.mul - 1, 0, f.mul - 1, m);
      }
      assert Apply(p, f, s) == s by {
        assert f.mul * s + f.inc == s;
        ModSmall(s, m);
      }
      assert s % m == s by { ModSmall(s, m); }
      ApplyPower(p, m, s);
    }
  }

  /** One whole period can be dropped from a count. */
  lemma StepNPeriod(p: Params, s: nat, n: nat)
    requires Valid(p) && p.a % 2 == 1 && s < p.m && n >= p.m
    ensures StepN(p, s, n) == StepN(p, s, n - p.m)
  {
    StepNAdd(p, s, n - p.m, p.m);
    FullCycle(p, StepN(p, s, n - p.m));
  }

  /** Only the count's residue modulo m matters. */
  lemma {:induction false} StepNResidue(p: Params, s: nat, n: nat)
    requires Valid(p) && p.a % 2 == 1 && s < p.m
    ensures StepN(p, s, n % p.m) == StepN(p, s, n)
    decreases n
  {
    if n >= p.m {
      StepNPeriod(p, s, n);
      ModAddMultiple(n - p.m, 1, p.m);
      StepNResidue(p, s, n - p.m);
    } else {
      ModSmall(n, p.m);
    }
  }

  // ---------------------------------------------------------------------------
  // Properties of Jump
  // ---------------------------------------------------------------------------

  /** Jumping by 0 leaves the state (reduced modulo m) unchanged. */
  lemma JumpZero(p: Params, s: nat)
    requires Valid(p)
    ensures Jump(p, 0, s) == s % p.m
  {
  }

  /** Jumping by 1 is one step. */
  lemma JumpOne(p: Params, s: nat)
    requires Valid(p)
    ensures Jump(p, 1, s) == Step(p, s)
  {
    if p.m == 1 {
      ModUnique(p.a * s + p.c, p.a * s + p.c, 0, 1);
    } else {
      ModSmall(1, p.m);
      StepMod(p, s);
    }
  }

  /** For an odd multiplier, a jump by any n >= 0 is n single steps, even past the period. */
  lemma JumpIsSteps(p: Params, n: nat, s: nat)
    requires Valid(p) && p.a % 2 == 1
    ensures Jump(p, n, s) == StepN(p, s % p.m, n)
  {
    StepNResidue(p, s % p.m, n);
  }

  /** Two jumps are one jump by the sum of their counts. */
  lemma JumpAdd(p: Params, i: int, j: int, s: nat)
    requires Valid(p) && p.a % 2 == 1
    ensures Jump(p, j, Jump(p, i, s)) == Jump(p, i + j, s)
  {
    var m := p.m;
    var x := s % m;
    var t := i % m + j % m;
    calc {
      Jump(p, j, Jump(p, i, s));
      StepN(p, Jump(p, i, s) % m, j % m);
      { ModSmall(Jump(p, i, s), m); }
      StepN(p, StepN(p, x, i % m), j % m);
      { StepNAdd(p, x, i % m, j % m); }
      StepN(p, x, t);
      { StepNResidue(p, x, t); }
      StepN(p, x, t % m);
      { ModAdd(i, j, m); }
      StepN(p, x, (i + j) % m);
      Jump(p, i + j, s);
    }
  }

  /** A jump backward by n undoes a jump forward by n. */
  lemma JumpInverse(p: Params, n: int, s: nat)
    requires Valid(p) && p.a % 2 == 1
    ensures Jump(p, -n, Jump(p, n, s)) == s % p.m
  {
    JumpAdd(p, n, -n, s);
  }

  /** A jump backward by n and then n single steps return to the start. */
  lemma BackThenForward(p: Params, n: nat, s: nat)
    requires Valid(p) && p.a % 2 == 1
    ensures StepN(p, Jump(p, -(n as int), s), n) == s % p.m
  {
    var t := Jump(p, -(n as int), s);
    JumpIsSteps(p, n, t);
    ModSmall(t, p.m);
    JumpAdd(p, -(n as int), n, s);
    ModSmall(s % p.m, p.m);
  }

  /** The unsigned reinterpretation of a signed count jumps to the same state. */
  lemma JumpUnsigned(p: Params, n: int64, s: nat)
    requires Valid(p)
    ensures Jump(p, ToUnsigned(n), s) == Jump(p, n, s)
  {
    WrapMod(n, p.m);
  }
}
