/**
 * The checks of the repository's test driver (main.cpp), written as client
 * methods: each builds generators only through their public operations and
 * proves, from those operations' contracts alone, the equality the test
 * asserts, for every count the test accepts rather than the one it runs.
 */
module Harness {
  import opened Bits
  import opened Recurrence
  import LcgPle63
  import StdEngine

  /** The engine instantiation the tests use: the PLE63 constants as template arguments. */
  const STD_PLE63: Params := Params(2806196910506780709, 1, 0x8000_0000_0000_0000)

  lemma SameParams()
    ensures STD_PLE63 == LcgPle63.PLE63 && Valid(STD_PLE63) && STD_PLE63.a % 2 == 1
  {
    LcgPle63.Constants();
  }

  /**
   * Negation of an int64, as `-ns`. C++ leaves `-INT64_MIN` undefined; the
   * model chooses two's-complement wrap there, which gives INT64_MIN back.
   */
  function Negate(x: int64): (r: int64)
    ensures x != -0x8000_0000_0000_0000 ==> r == -x
    ensures x == -0x8000_0000_0000_0000 ==> r == x
  {
    ToSigned(Wrap(-(x as int)))
  }

  /** `test_skip_ahead`: discard(ns) lands where ns calls of `operator()` do. */
  method TestSkipAhead(ns: int64) returns (q: bool)
    requires ns > 0
    ensures q
  {
    SameParams();
    var ugen := new StdEngine.Engine.Default(STD_PLE63);
    var ugens := new StdEngine.Engine.Copy(ugen);
    ugens.Discard(ToUnsigned(ns));
    var k: int64 := 0;
    while k != ns
      invariant 0 <= k <= ns
      invariant ugen.p == STD_PLE63 && ugen != ugens
      invariant ugen.seed == StepN(STD_PLE63, 1, k)
      invariant ugens.seed == Jump(STD_PLE63, ns, 1)
      decreases ns - k
    {
      var r := ugen.Next();
      assert ugen.seed == StepN(STD_PLE63, 1, k + 1);
      k := k + 1;
    }
    JumpIsSteps(STD_PLE63, ns, 1);
    ModSmall(1, STD_PLE63.m);
    q := ugen.TheSeed() == ugens.TheSeed();
  }

  /** `test_skip_ahead_and_back`: discard(ns) then discard(-ns) restores the seed. */
  method TestSkipAheadAndBack(ns: int64) returns (q: bool)
    requires ns > 0
    ensures q
  {
    SameParams();
    var ugen := new StdEngine.Engine.Default(STD_PLE63);
    var seed := ugen.TheSeed();
    ugen.Discard(ToUnsigned(ns));
    ghost var mid := ugen.seed;
    ugen.Discard(ToUnsigned(Negate(ns)));
    assert Negate(ns) == -ns;
    JumpUnsigned(STD_PLE63, ns, seed);
    assert mid == Jump(STD_PLE63, ns, seed);
    JumpUnsigned(STD_PLE63, -ns, mid);
    assert ugen.seed == Jump(STD_PLE63, -ns, mid);
    JumpInverse(STD_PLE63, ns, seed);
    ModSmall(seed, STD_PLE63.m);
    q := ugen.TheSeed() == seed;
  }

  /** `test_skip_zero`: discard(0) leaves the seed unchanged. */
  method TestSkipZero() returns (q: bool)
    ensures q
  {
    SameParams();
    var ugen := new StdEngine.Engine.Default(STD_PLE63);
    var seed := ugen.TheSeed();
    ugen.Discard(0);
    JumpZero(STD_PLE63, seed);
    q := ugen.TheSeed() == seed;
  }

  /** `test_skip_backward`: discard(ns) for ns < 0 and then |ns| calls of `operator()` return to the seed. */
  method TestSkipBackward(ns: int64) returns (q: bool)
    requires ns < 0
    ensures q
  {
    SameParams();
    var ugen := new StdEngine.Engine.Default(STD_PLE63);
    var seed := ugen.TheSeed();
    ugen.Discard(ToUnsigned(ns));
    JumpUnsigned(STD_PLE63, ns, seed);
    ghost var back := ugen.seed;
    var fns: uint64 := -(ns as int);
    var k: uint64 := 0;
    while k != fns
      invariant 0 <= k <= fns
      invariant ugen.p == STD_PLE63
      invariant ugen.seed == StepN(STD_PLE63, back, k)
      decreases fns - k
    {
      var r := ugen.Next();
      assert ugen.seed == StepN(STD_PLE63, back, k + 1);
      k := k + 1;
    }
    BackThenForward(STD_PLE63, fns, seed);
    ModSmall(seed, STD_PLE63.m);
    q := ugen.TheSeed() == seed;
  }

  /**
   * `test_skip_backward_and_back`: discard(ns) for ns < 0 then discard(-ns)
   * restores the seed. For ns = INT64_MIN this rests on the wrap chosen by Negate.
   */
  method TestSkipBackwardAndBack(ns: int64) returns (q: bool)
    requires ns < 0
    ensures q
  {
    SameParams();
    var ugen := new StdEngine.Engine.Default(STD_PLE63);
    var seed := ugen.TheSeed();
    ugen.Discard(ToUnsigned(ns));
    ghost var mid := ugen.seed;
    ugen.Discard(ToUnsigned(Negate(ns)));
    JumpUnsigned(STD_PLE63, ns, seed);
    JumpUnsigned(STD_PLE63, Negate(ns), mid);
    if ns == -0x8000_0000_0000_0000 {
      JumpAdd(STD_PLE63, ns, ns, seed);
      assert (ns + ns) % STD_PLE63.m == 0;
    } else {
      JumpInverse(STD_PLE63, ns, seed);
    }
    q := ugen.TheSeed() == seed;
  }

  /** `test_custom_vs_std`: ns calls of `sample()` and of `operator()` produce the same seeds. */
  method TestCustomVsStd(ns: uint64) returns (q: bool)
    ensures q
  {
    SameParams();
    var rng := new LcgPle63.Generator.Default();
    var rngStd := new StdEngine.Engine.Default(STD_PLE63);
    var k: uint64 := 0;
    while k != ns
      invariant 0 <= k <= ns
      invariant rngStd.p == STD_PLE63 && rng.seed == rngStd.seed
      decreases ns - k
    {
      rng.SampleState();
      var rseed := rng.Seed();
      var sseed := rngStd.Next();
      if rseed != sseed {
        return false;
      }
      k := k + 1;
    }
    q := true;
  }

  /** `test_skip_custom_vs_std`: `skip(ns)` on lcg_PLE63 and `discard(ns)` on the engine agree. */
  method TestSkipCustomVsStd(ns: int64) returns (q: bool)
    ensures q
  {
    SameParams();
    var rng := new LcgPle63.Generator.Default();
    var rngStd := new StdEngine.Engine.Default(STD_PLE63);
    rng.SkipState(ns);
    var rseed := rng.Seed();
    rngStd.Discard(ToUnsigned(ns));
    var sseed := rngStd.TheSeed();
    JumpUnsigned(STD_PLE63, ns, LcgPle63.DEFAULT_SEED);
    q := rseed == sseed;
  }
}
