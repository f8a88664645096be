# LCG-PLE63 in Dafny

This project models the 63-bit linear congruential generator of LCG-PLE63,

    x' = (a * x + c) mod 2^63,   a = 2806196910506780709, c = 1,

and its O(log N) jump-ahead. The jump composes the one-step affine map
x |-> a * x + c with itself by binary exponentiation (F. Brown, "Random Number
Generation with Arbitrary Stride", 1994). The code has two copies of the
generator, and the model has both:

- `OTI::lcg_PLE63` (`LCG_PLE63.hpp`, `LCG_PLE63.cpp`) has fixed L'Ecuyer
  constants and takes a signed step count. `compute_nskip` reduces the count
  to its residue in [0, 2^63). Module `LcgPle63`; class `LcgPle63.Generator`.
- The `std::linear_congruential_engine<uint_fast64_t, A, C, M>`
  specialisation (`std_LCG_PLE63.hpp`) takes A, C, M as template arguments
  and an unsigned step count, which it reduces with `& mask`. Module
  `StdEngine`; class `StdEngine.Engine`. The template arguments are a
  `Params` value. M must be a power of two no larger than 2^63, because the
  masked count is stored in an `int64_t`.

Module `Bits` models the C++ integer semantics:
- `uint64` and `int64` as subsets of `int`;
- unsigned wrap-around as `Wrap(x) = x % 2^64`;
- the signed/unsigned casts as `ToSigned` and `ToUnsigned`;
- bitwise `&` as a function `And` on naturals;
- `>> 1` on a non-negative count as `/ 2`.

The key fact is `MaskIsMod`: `x & (m - 1) == x % m` for a power of two m.
Because 2^63 divides 2^64, "wrap modulo 2^64, then mask" is reduction
modulo m (`MaskWrap`, `MaskedMulAdd`).

Module `Recurrence` holds the specification:
- `Step` is one step.
- `StepN` is n steps, by recursion.
- `Jump(p, n, s)` is `StepN(p, s mod m, n mod m)` for any integer n.
- `Power(p, n)` is the reduced affine map of n steps.

The masked loop update of `(m_next, c_next)` and `(m, c)` is proved to
compute `Power`. For an odd multiplier the period divides m (`FullCycle`):
- a jump by n equals n single steps (`JumpIsSteps`);
- jumps add (`JumpAdd`);
- a jump by -n undoes a jump by n (`JumpInverse`, `BackThenForward`).

Both loops are proved against `Jump` with these ghost variables:
- `done`: the steps already folded into `(m_next, c_next)`;
- `stride`: the steps `(m, c)` stands for;
- `total`: the residue of the count;
- `room`: the bits left.

The loop invariant is `done + nskip * stride == total`, together with
`Advances`, which says each pair equals the map of its step count. The
masked count is below 2^63 and is halved on every pass, so the loop runs at
most 63 times.

Module `Harness` writes the checks of `main.cpp` as client methods, each
proved for every count its test accepts. The tests call `get_seed()`, which
the engine does not define. The model uses the accessor that exists,
`the_seed()` (`StdEngine.Engine.TheSeed`).

## Model

| member | source | states |
|---|---|---|
| Bits.ToUnsigned | LCG_PLE63.cpp:13 | `uint64_t(x)` of an int64 is x when x is non-negative and x + 2^64 otherwise |
| Bits.ToSigned | LCG_PLE63.cpp:14 | `int64_t(t)` is the int64 whose unsigned image is t |
| Bits.SignedRoundTrip | LCG_PLE63.cpp:13-14 | converting an int64 to unsigned and back gives it back |
| Bits.MaskIsMod | LCG_PLE63.cpp:16 | `x & (m - 1)` equals `x % m` and is below m, for every power of two m |
| Bits.MaskLow63 | LCG_PLE63.cpp:16 | `x & mask` with mask = 2^63 - 1 is x mod 2^63 |
| Bits.WrapMod | LCG_PLE63.hpp:83 | wrapping to 64 bits and then reducing modulo a power of two m <= 2^64 equals reducing modulo m |
| Bits.MaskWrap | LCG_PLE63.cpp:41 | a 64-bit wrapped value masked with m - 1 equals the exact value modulo m |
| Bits.MaskedMulAdd | LCG_PLE63.hpp:83 | `(u * v + w) & (m - 1)` in wrapping 64-bit arithmetic equals `(u * v + w) mod m` |
| Bits.MaskedMulWrapped | LCG_PLE63.cpp:45 | `((u + 1) * c) & (m - 1)` with the inner sum wrapped equals the exact product modulo m |
| Bits.Pow2Constants | LCG_PLE63.hpp:17 | `1 << 63` is 2^63 and 2^63, 2^64 are powers of two |
| Bits.Pow2Add | LCG_PLE63.hpp:17 | 2^(j+k) = 2^j * 2^k, used to evaluate `1ULL << nbits` |
| LcgPle63.Constants | LCG_PLE63.hpp:16-22 | mod = 2^nbits with nbits = 63, mask = mod - 1, the parameters are valid and mult is odd |
| LcgPle63.SampleStep | LCG_PLE63.hpp:81-84 | the masked wrapping expression of `sample(seed)` equals `(mult * seed + add) mod 2^63`, which is one `Step` |
| LcgPle63.Sample | LCG_PLE63.hpp:81-84 | static `sample(seed)` is `(mult * seed + add) mod 2^63`, i.e. one step of the recurrence |
| LcgPle63.ComputeNSkip | LCG_PLE63.cpp:8-17 | the result lies in [0, mask], is congruent to ns modulo 2^63, equals ns for ns >= 0, and the loop runs once for negative ns and never otherwise |
| LcgPle63.Skip | LCG_PLE63.cpp:19-53 | static `skip(ns, seed)` returns `Jump(ns, seed)`: seed mod 2^63 advanced by (ns mod 2^63) steps; the loop makes at most 63 passes |
| LcgPle63.Generator.constructor | LCG_PLE63.hpp:34-37 | an explicit seed is stored unchanged |
| LcgPle63.Generator.Default | LCG_PLE63.hpp:24 | the default constructor stores `default_seed` = 1 |
| LcgPle63.Generator.Copy | LCG_PLE63.hpp:39-42 | the copy has the original's seed |
| LcgPle63.Generator.Assign | LCG_PLE63.hpp:49-53 | copy assignment sets the seed to the source's seed |
| LcgPle63.Generator.Seed | LCG_PLE63.hpp:67-70 | `seed()` returns the state and reads nothing else |
| LcgPle63.Generator.SampleState | LCG_PLE63.hpp:88-91 | `sample()` replaces the seed by `sample(old seed)`, one step, and the result is at most mask |
| LcgPle63.Generator.SkipState | LCG_PLE63.hpp:99-102 | `skip(ns)` replaces the seed by `Jump(ns, old seed)`, at most mask |
| Recurrence.Step | LCG_PLE63.hpp:83 | one step `(a * s + c) mod m` is below m |
| Recurrence.StepN | LCG_PLE63.cpp:19 | n single steps from a state below m stay below m |
| Recurrence.Jump | LCG_PLE63.cpp:19 | a jump by any integer count lands below m |
| Recurrence.Power | LCG_PLE63.cpp:28 | the reduced map (M, C) of n steps has both coefficients below m |
| Recurrence.ThenCore | LCG_PLE63.cpp:41-42 | composing maps modulo m and applying the result equals applying them one after the other |
| Recurrence.ApplyThen | LCG_PLE63.cpp:41-42 | applying the composition of f and g is applying f, then g |
| Recurrence.ThenReduce | LCG_PLE63.cpp:41-42 | composition only depends on the coefficients modulo m |
| Recurrence.AffineEqual | LCG_PLE63.cpp:28 | two reduced maps that agree on 0 and 1 are equal |
| Recurrence.StepMod | LCG_PLE63.hpp:83 | a step depends only on the state modulo m |
| Recurrence.PowerOne | LCG_PLE63.cpp:31-32 | the map of one step is (mult, add) reduced modulo m |
| Recurrence.ApplyReduce | LCG_PLE63.cpp:52 | reducing a map's coefficients modulo m does not change its effect |
| Recurrence.ApplyPower | LCG_PLE63.cpp:52 | applying the map of n steps to s gives n single steps from s mod m |
| Recurrence.StepNAdd | LCG_PLE63.cpp:37-49 | k steps after n steps are n + k steps |
| Recurrence.PowerAdd | LCG_PLE63.cpp:41-46 | the map of n + k steps is the map of n steps followed by the map of k steps |
| Recurrence.ReduceReduced | LCG_PLE63.cpp:41-46 | reducing an already reduced map changes nothing |
| Recurrence.Accumulate | LCG_PLE63.cpp:39-43 | folding the map of `stride` steps into the map of `done` steps gives the map of done + stride steps |
| Recurrence.Square | LCG_PLE63.cpp:45-46 | the pair `(m * m, (m + 1) * c)` is the map of twice the steps of `(m, c)` |
| Recurrence.AdvancesFromPower | LCG_PLE63.cpp:37-49 | a pair equal to the map of n steps advances every state by n steps |
| Recurrence.PowerFromAdvances | LCG_PLE63.cpp:37-49 | a reduced pair that advances every state by n steps is the map of n steps |
| Recurrence.MaskedAccumulate | LCG_PLE63.cpp:41-42 | the masked wrapping update of `(m_next, c_next)` yields the map of done + stride steps, each coefficient below m |
| Recurrence.MaskedSquare | LCG_PLE63.cpp:45-46 | the masked wrapping update of `(m, c)` yields the map of 2 * stride steps, each coefficient below m |
| Recurrence.SkipPass | LCG_PLE63.cpp:39-48 | one pass halves nskip, keeps `done + nskip * stride == total` and keeps both pairs equal to the maps of done and of stride steps |
| Recurrence.MaskedApply | LCG_PLE63.cpp:52 | `(m_next * seed + c_next) & mask` of the final pair is the jump of seed by the count |
| Recurrence.AdvancesOne | LCG_PLE63.cpp:31-32 | the initial `(m, c) = (mult, add)` is the map of one step |
| Recurrence.AdvancesZero | LCG_PLE63.cpp:34-35 | the initial `(m_next, c_next) = (1, 0)` is the map of zero steps |
| Recurrence.HalvePass | LCG_PLE63.cpp:39-48 | taking the low bit of nskip and shifting it out keeps `done + nskip * stride == total`, and a count below 2^room needs one pass less |
| Recurrence.PowerAtPow2 | LCG_PLE63.cpp:5-7 | for an odd multiplier, the map of d steps is the identity modulo every power of two d dividing m |
| Recurrence.FullCycle | LCG_PLE63.cpp:5-7 | for an odd multiplier, m steps return every state to itself: the period divides m |
| Recurrence.StepNPeriod | LCG_PLE63.cpp:5-7 | a whole period can be dropped from a step count |
| Recurrence.StepNResidue | LCG_PLE63.cpp:5-7 | only the step count modulo m matters |
| Recurrence.JumpZero | LCG_PLE63.cpp:34-37 | a jump by 0 returns the seed reduced modulo m |
| Recurrence.JumpOne | LCG_PLE63.cpp:37-52 | a jump by 1 is one step, i.e. `skip(1, s) == sample(s)` |
| Recurrence.JumpIsSteps | LCG_PLE63.cpp:19-53 | for an odd multiplier, a jump by any n >= 0 equals n single steps, however large n is |
| Recurrence.JumpAdd | LCG_PLE63.cpp:5-7 | a jump by i followed by a jump by j is a jump by i + j, for any signed i, j |
| Recurrence.JumpInverse | LCG_PLE63.cpp:5-7 | jumping by n and then by -n restores the seed reduced modulo m |
| Recurrence.BackThenForward | LCG_PLE63.cpp:5-7 | jumping back by n and then taking n single steps restores the seed reduced modulo m |
| Recurrence.JumpUnsigned | std_LCG_PLE63.hpp:75 | a signed count converted to unsigned gives the same jump as the signed count, because 2^64 is a multiple of m |
| StdEngine.Mask | std_LCG_PLE63.hpp:20 | `mask = modulus - 1` is the largest value below the modulus |
| StdEngine.Min | std_LCG_PLE63.hpp:62-65 | `min()` is a lower bound of every generated value |
| StdEngine.Max | std_LCG_PLE63.hpp:67-70 | `max()` is `mask` and an upper bound of every generated value |
| StdEngine.Skip | std_LCG_PLE63.hpp:73-106 | static `skip(ns, seed)` returns `Jump(ns, seed)`: seed mod M advanced by (ns mod M) steps, in at most 63 passes |
| StdEngine.Engine.constructor | std_LCG_PLE63.hpp:28-31 | the engine stores its parameters and the given seed |
| StdEngine.Engine.Default | std_LCG_PLE63.hpp:22 | the default seed is 1 |
| StdEngine.Engine.Copy | std_LCG_PLE63.hpp:33-36 | the copy has the original's parameters and seed |
| StdEngine.Engine.Assign | std_LCG_PLE63.hpp:38-42 | copy assignment sets the seed to the source's seed |
| StdEngine.Engine.SetSeed | std_LCG_PLE63.hpp:50-53 | `seed(s)` overwrites the state with s |
| StdEngine.Engine.TheSeed | std_LCG_PLE63.hpp:55-58 | `the_seed()` returns the state |
| StdEngine.Engine.Next | std_LCG_PLE63.hpp:110-114 | `operator()()` advances the seed by one step, returns the new seed, and the result lies in [min(), max()] |
| StdEngine.Engine.Discard | std_LCG_PLE63.hpp:116-119 | `discard(ns)` replaces the seed by `Jump(ns, old seed)` |
| StdEngine.Equal | std_LCG_PLE63.hpp:123-128 | `==` holds exactly when the seeds are equal |
| StdEngine.NotEqual | std_LCG_PLE63.hpp:130-135 | `!=` is the negation of `==` |
| Harness.SameParams | main.cpp:78 | the template arguments the tests use are the PLE63 constants, with an odd multiplier |
| Harness.Negate | main.cpp:103 | `-ns` on an int64 is the mathematical negation wherever C++ defines it; at INT64_MIN, where C++ leaves `-ns` undefined, the model picks two's-complement wrap (the result is INT64_MIN) |
| Harness.TestSkipAhead | main.cpp:74-93 | for every ns > 0, `discard(ns)` and ns calls of `operator()` leave equal seeds |
| Harness.TestSkipAheadAndBack | main.cpp:95-106 | for every ns > 0, `discard(ns)` then `discard(-ns)` restores the seed |
| Harness.TestSkipZero | main.cpp:108-117 | `discard(0)` leaves the seed unchanged |
| Harness.TestSkipBackward | main.cpp:119-139 | for every ns < 0, `discard(ns)` followed by abs(ns) calls of `operator()` restores the seed, with `abs` taken as the 64-bit absolute value |
| Harness.TestSkipBackwardAndBack | main.cpp:141-152 | for every ns < 0, `discard(ns)` then `discard(-ns)` restores the seed; for INT64_MIN this holds under the two's-complement choice of `Harness.Negate` |
| Harness.TestCustomVsStd | main.cpp:154-171 | `sample()` on lcg_PLE63 and `operator()` on the engine give equal seeds at every step |
| Harness.TestSkipCustomVsStd | main.cpp:173-185 | `skip(ns)` on lcg_PLE63 and `discard(ns)` on the engine give equal seeds for every signed ns |

## Left out

- `number()` and `norm` (LCG_PLE63.hpp:26, 93-97) are left out. They convert the seed to `float`, and floating point is not modelled.
- The stream `operator>>` and `operator<<` (std_LCG_PLE63.hpp:137-155) are left out: they are character I/O.
- The move constructor and move assignment (LCG_PLE63.hpp:44-47, 55-59) are left out. For a one-field class they do the same as the copies, which are modelled.
- The destructors are left out: they do nothing.
- The `mutable` qualifier (LCG_PLE63.hpp:30) is not modelled. The const mutators `sample()` and `skip(ns)` are methods that modify the object.
- The default argument of `seed(seed_type seed = default_seed)` is not a separate member: calling `SetSeed(DEFAULT_SEED)` covers it.
- The full-period claim is not modelled. Only "the period divides m" is proved (`Recurrence.FullCycle`), which is what the jump needs; "the period is exactly 2^63" is not.
- From `main.cpp`, `find_period` (a long loop that prints), `kahan_summation` and `test_mean_sigma` (floating-point statistics), and `main`'s calls are not modelled.
- The running `sum` of drawn values in the tests is not modelled: it never affects a test's result.
- `uniform_distribution.hpp` is not part of this model.
- `StdEngine.Equal`, `StdEngine.NotEqual`: the operators' first template parameter is unnamed and cannot be deduced, so a call `a == b` would not select them. The model follows the evident intent, comparison of seeds, for two engines with the same parameters.
- `LcgPle63.Skip`, `LcgPle63.ComputeNSkip`, `StdEngine.Skip`: the pass counters `passes` are ghost outputs, not part of the C++ interface.
- `Harness.TestSkipBackward` models `abs(ns)` as the mathematical absolute value, i.e. it assumes the 64-bit overload of `abs` is selected. main.cpp:130 calls `abs` unqualified on an `int64_t`; on a platform where only C's `int abs(int)` is visible in the global namespace, the argument would be truncated for |ns| >= 2^31 and the test would return false; the model does not capture that. For INT64_MIN, `abs` is undefined in C++, and the model uses the mathematical value 2^63, which is what the `uint64_t` conversion in the test produces in practice.
- `Harness.Negate`, `Harness.TestSkipBackwardAndBack`: for ns = INT64_MIN, `-ns` (main.cpp:149) is signed overflow, which C++ leaves undefined. The model chooses two's-complement wrap (`-INT64_MIN` is INT64_MIN), so for that one input the test's result is a consequence of this choice, not of the C++ semantics.
- `Harness.TestSkipZero`: `main` discards this test's result (main.cpp:203 does not assign `q`). The model proves the test's own result.
