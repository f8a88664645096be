/**
 * The fixed-width integers of the C++ source and the operations it applies to
 * them: unsigned 64-bit wrap-around, signed/unsigned conversion, `&` with a
 * low-bit mask, and the modular arithmetic facts that connect them.
 */
module Bits {

  const TWO63: nat := 0x8000_0000_0000_0000
  const TWO64: nat := 0x1_0000_0000_0000_0000

  /** `uint64_t` / `uint_fast64_t` */
  type uint64 = x: int | 0 <= x < 0x1_0000_0000_0000_0000

  /** `int64_t` */
  type int64 = x: int | -0x8000_0000_0000_0000 <= x < 0x8000_0000_0000_0000

  /** The value an unsigned 64-bit C++ expression holds: arithmetic modulo 2^64. */
  function Wrap(x: int): uint64 {
    x % TWO64
  }

  /** `uint64_t(x)`: the two's-complement reinterpretation of a signed value. */
  function ToUnsigned(x: int64): (r: uint64)
    ensures 0 <= x ==> r == x
    ensures x < 0 ==> r == x + TWO64
  {
    Wrap(x)
  }

  /** `int64_t(t)`: the inverse reinterpretation. */
  function ToSigned(t: uint64): (r: int64)
    ensures ToUnsigned(r) == t
  {
    if t < TWO63 then t else t - TWO64
  }

  lemma SignedRoundTrip(x: int64)
    ensures ToSigned(ToUnsigned(x)) == x
  {
  }

  /** m is 2^k for some k. */
  predicate IsPow2(m: nat)
    decreases m
  {
    m == 1 || (m >= 2 && m % 2 == 0 && IsPow2(m / 2))
  }

  /** Bitwise `x & y` of two non-negative integers, bit by bit from the lowest. */
  function And(x: nat, y: nat): nat
    decreases x
  {
    if x == 0 || y == 0 then 0
    else 2 * And(x / 2, y / 2) + (if x % 2 == 1 && y % 2 == 1 then 1 else 0)
  }

  // ---------------------------------------------------------------------------
  // Modular arithmetic
  // ---------------------------------------------------------------------------

  /** Euclidean division has exactly one quotient/remainder pair. */
  lemma ModUnique(y: int, q: int, r: int, n: int)
    requires n > 0 && y == q * n + r && 0 <= r < n
    ensures y % n == r && y / n == q
  {
    var q', r' := y / n, y % n;
    assert (q - q') * n == r' - r;
    if q - q' >= 1 {
      MulAtLeast(q - q', n);
    } else if q' - q >= 1 {
      MulAtLeast(q' - q, n);
    }
  }

  /** Quotient and remainder put back together. */
  lemma DivMod(x: int, d: int)
    requires d > 0
    ensures x == x % d + (x / d) * d
  {
  }

  /** An exact division leaves no remainder to add back. */
  lemma DivExact(m: int, d: int)
    requires d > 0 && m % d == 0
    ensures m == (m / d) * d
  {
  }

  /** A positive multiple of a positive n has a positive quotient. */
  lemma PositiveQuotient(m: int, d: int, q: int)
    requires d > 0 && m > 0 && m == q * d
    ensures q >= 1
  {
    if q <= 0 {
      assert false;
    }
  }

  lemma MulAtLeast(k: int, n: int)
    requires k >= 1 && n > 0
    ensures k * n >= n
  {
  }

  /** Adding a multiple of n does not change the remainder. */
  lemma ModAddMultiple(x: int, k: int, n: int)
    requires n > 0
    ensures (x + k * n) % n == x % n
  {
    ModUnique(x + k * n, x / n + k, x % n, n);
  }

  /** A multiple of n has remainder 0. */
  lemma ModMultiple(k: int, n: int)
    requires n > 0
    ensures (k * n) % n == 0
  {
    ModAddMultiple(0, k, n);
  }

  /** Reducing a factor first does not change a product's remainder. */
  lemma ModMulLeft(u: int, v: int, n: int)
    requires n > 0
    ensures ((u % n) * v) % n == (u * v) % n
  {
    var q := u / n;
    assert u * v == (u % n) * v + (q * v) * n;
    ModAddMultiple((u % n) * v, q * v, n);
  }

  /** Reducing a summand first does not change a sum's remainder. */
  lemma ModAddLeft(u: int, v: int, n: int)
    requires n > 0
    ensures ((u % n) + v) % n == (u + v) % n
  {
    ModAddMultiple((u % n) + v, u / n, n);
  }

  /** A value already in [0, n) is its own remainder. */
  lemma ModSmall(x: int, n: int)
    requires 0 <= x < n
    ensures x % n == x
  {
    ModUnique(x, 0, x, n);
  }

  /** A sum's remainder depends only on the summands' remainders. */
  lemma ModAdd(u: int, v: int, n: int)
    requires n > 0
    ensures (u + v) % n == (u % n + v % n) % n
  {
    ModAddLeft(u, v, n);
    ModAddLeft(v, u % n, n);
  }

  /** A product's remainder depends only on the factors' remainders. */
  lemma ModMul(u: int, v: int, n: int)
    requires n > 0
    ensures (u * v) % n == ((u % n) * (v % n)) % n
  {
    ModMulLeft(u, v, n);
    ModMulLeft(v, u % n, n);
    assert (v * (u % n)) == (u % n) * v;
    assert (v % n) * (u % n) == (u % n) * (v % n);
  }

  /** The remainder modulo a multiple nq of n, taken again modulo n. */
  lemma ModOfMod(x: int, n: int, q: int, nq: int)
    requires n > 0 && q > 0 && nq == n * q
    ensures (x % nq) % n == x % n
  {
    var t := x / nq;
    DivMod(x, nq);
    assert t * nq == (t * q) * n;
    ModAddMultiple(x % nq, t * q, n);
  }

  /** Reducing modulo a multiple m of d and then modulo d is reducing modulo d. */
  lemma ModOfDivisor(x: int, d: nat, m: nat)
    requires d > 0 && m > 0 && m % d == 0
    ensures (x % m) % d == x % d
  {
    var q := m / d;
    DivExact(m, d);
    PositiveQuotient(m, d, q);
    ModOfMod(x, d, q, m);
  }

  /** Splitting off the lowest bit of a remainder modulo an even number. */
  lemma ModDouble(x: nat, h: nat)
    requires h > 0
    ensures x % (2 * h) == 2 * ((x / 2) % h) + x % 2
  {
    var q, r := (x / 2) / h, (x / 2) % h;
    assert x == q * (2 * h) + (2 * r + x % 2);
    ModUnique(x, q, 2 * r + x % 2, 2 * h);
  }

  /** Halving a count and doubling its weight loses only the dropped low bit. */
  lemma HalveCount(n: nat, w: nat)
    ensures n * w == (n / 2) * (2 * w) + (n % 2) * w
  {
    assert n == 2 * (n / 2) + n % 2;
    calc {
      n * w;
      (2 * (n / 2) + n % 2) * w;
      (n / 2) * (2 * w) + (n % 2) * w;
    }
  }

  // ---------------------------------------------------------------------------
  // Masks and powers of two
  // ---------------------------------------------------------------------------

  /** `x & (m - 1)` for a power of two m keeps the low bits: it is `x % m`. */
  lemma {:induction false} MaskIsMod(x: nat, m: nat)
    requires IsPow2(m)
    ensures And(x, m - 1) == x % m < m
    decreases m
  {
    if m == 1 {
    } else if x == 0 {
    } else {
      var h := m / 2;
      assert (m - 1) / 2 == h - 1 && (m - 1) % 2 == 1;
      MaskIsMod(x / 2, h);
      ModDouble(x, h);
    }
  }

  /** A power of two other than 1 is twice a power of two. */
  lemma Pow2Half(d: nat)
    requires IsPow2(d) && d >= 2
    ensures d == 2 * (d / 2) && IsPow2(d / 2)
  {
  }

  /** A positive multiple m of an even d is at least d, even, and a multiple of d / 2. */
  lemma EvenDivisor(d: nat, m: nat)
    requires d >= 2 && d % 2 == 0 && m > 0 && m % d == 0
    ensures m % (d / 2) == 0 && m >= d && m % 2 == 0
  {
    var h, q := d / 2, m / d;
    assert d == 2 * h;
    DivExact(m, d);
    PositiveQuotient(m, d, q);
    MulAtLeast(q, d);
    assert m == (2 * q) * h;
    ModMultiple(2 * q, h);
    assert m == (h * q) * 2;
    ModMultiple(h * q, 2);
  }

  /** A power of two divides every larger power of two. */
  lemma {:induction false} Pow2Divides(m: nat, n: nat)
    requires IsPow2(m) && IsPow2(n) && m <= n
    ensures n % m == 0
    decreases m
  {
    if m == 1 {
    } else {
      var h, g := m / 2, n / 2;
      Pow2Divides(h, g);
      var q := g / h;
      assert n == q * m;
      ModMultiple(q, m);
    }
  }

  /** 2^k */
  function Pow2(k: nat): nat {
    if k == 0 then 1 else 2 * Pow2(k - 1)
  }

  lemma {:induction false} Pow2IsPow2(k: nat)
    ensures IsPow2(Pow2(k))
  {
    if k > 0 {
      Pow2IsPow2(k - 1);
      assert Pow2(k) / 2 == Pow2(k - 1);
    }
  }

  lemma DoubleFactor(a: int, b: int)
    ensures 2 * (a * b) == a * (2 * b)
  {
  }

  lemma {:induction false} Pow2Add(j: nat, k: nat)
    ensures Pow2(j + k) == Pow2(j) * Pow2(k)
    decreases k
  {
    if k > 0 {
      Pow2Add(j, k - 1);
      var a, b := Pow2(j), Pow2(k - 1);
      assert Pow2(k) == 2 * b && Pow2(j + k) == 2 * (a * b);
      DoubleFactor(a, b);
    }
  }

  lemma Pow2Square(k: nat, v: nat)
    requires Pow2(k) == v
    ensures Pow2(k + k) == v * v
  {
    Pow2Add(k, k);
  }

  /** `1 << 63` and `1 << 64` written out. */
  lemma Pow2Constants()
    ensures Pow2(63) == TWO63 && Pow2(64) == TWO64
    ensures IsPow2(TWO63) && IsPow2(TWO64)
  {
    assert Pow2(8) == 0x100;
    Pow2Square(8, 0x100);
    Pow2Square(16, 0x1_0000);
    Pow2Square(32, 0x1_0000_0000);
    assert Pow2(64) == 2 * Pow2(63);
    Pow2IsPow2(63);
    Pow2IsPow2(64);
  }

  /** `x & ((1 << 63) - 1)` keeps the low 63 bits. */
  lemma MaskLow63(x: nat)
    ensures And(x, TWO63 - 1) == x % TWO63
  {
    Pow2Constants();
    MaskIsMod(x, TWO63);
  }

  /** For a power of two m <= 2^64, wrapping to 64 bits and then reducing modulo m is reducing modulo m. */
  lemma WrapMod(x: int, m: nat)
    requires IsPow2(m) && m <= TWO64
    ensures Wrap(x) % m == x % m
  {
    Pow2Constants();
    Pow2Divides(m, TWO64);
    ModOfDivisor(x, m, TWO64);
  }

  /** `uint64 expression & (m - 1)`: wrap-around followed by the mask is reduction modulo m. */
  lemma MaskWrap(x: int, m: nat)
    requires IsPow2(m) && m <= TWO64
    ensures And(Wrap(x), m - 1) == x % m
  {
    MaskIsMod(Wrap(x), m);
    WrapMod(x, m);
  }

  /** `(u * v + w) & (m - 1)` computed in uint64: both operations wrap, the mask reduces modulo m. */
  lemma MaskedMulAdd(u: int, v: int, w: int, m: nat)
    requires IsPow2(m) && m <= TWO64
    ensures And(Wrap(Wrap(u * v) + w), m - 1) == (u * v + w) % m
  {
    MaskWrap(Wrap(u * v) + w, m);
    ModAddLeft(Wrap(u * v), w, m);
    assert (Wrap(u * v) + w) % m == (Wrap(u * v) % m + w) % m by {
      ModAddLeft(Wrap(u * v), w, m);
      ModAddLeft(Wrap(u * v) % m, w, m);
    }
    WrapMod(u * v, m);
    ModAddLeft(u * v, w, m);
  }

  /** `(u' * v) & (m - 1)` where u' is itself a wrapped uint64 expression. */
  lemma MaskedMulWrapped(u: int, v: int, m: nat)
    requires IsPow2(m) && m <= TWO64
    ensures And(Wrap(Wrap(u) * v), m - 1) == (u * v) % m
  {
    MaskWrap(Wrap(u) * v, m);
    ModMulLeft(Wrap(u), v, m);
    WrapMod(u, m);
    ModMulLeft(u, v, m);
  }
}
