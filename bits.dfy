/** Unsigned machine arithmetic over natural numbers: powers of two, the
    division and remainder facts the proofs need, and the C++ shift and
    bitwise operators on unsigned integers of a fixed width. */
module Bits {

  /** Bits in a byte. */
  const ByteBits: nat := 8

  /** Number of bits in `uintptr_t`: eight bytes on the 64-bit targets this
      model covers. (Written as a product so that the solver does not expand
      `Pow2(WordBits)` digit by digit wherever it occurs.) */
  const WordBits: nat := 8 * ByteBits

  function Pow2(n: nat): (r: nat)
    ensures r >= 1
  {
    if n == 0 then 1 else 2 * Pow2(n - 1)
  }

  lemma {:induction false} Pow2Add(a: nat, b: nat)
    ensures Pow2(a + b) == Pow2(a) * Pow2(b)
  {
    if a > 0 {
      Pow2Add(a - 1, b);
      assert Pow2(a + b) == 2 * Pow2(a - 1 + b);
    }
  }

  lemma {:induction false} Pow2Mono(a: nat, b: nat)
    requires a <= b
    ensures Pow2(a) <= Pow2(b)
  {
    Pow2Add(a, b - a);
    MulMonoRight(Pow2(a), 1, Pow2(b - a));
  }

  lemma {:induction false} Pow2Byte()
    ensures Pow2(8) == 256
  {
    assert Pow2(2) == 4;
    assert Pow2(4) == 16;
    assert Pow2(6) == 64;
  }

  /** `2^64`, the modulus of `uintptr_t` and `size_t`. */
  lemma {:induction false} Pow2Word()
    ensures Pow2(WordBits) == 0x1_0000_0000_0000_0000
  {
    assert WordBits == 64;
    Pow2Byte();
    Pow2Add(8, 8);
    assert Pow2(16) == 0x1_0000;
    Pow2Add(16, 16);
    assert Pow2(32) == 0x1_0000_0000;
    Pow2Add(32, 32);
  }

  lemma {:induction false} Pow2Bytes(k: nat)
    requires k >= 1
    ensures Pow2(8 * k) == 256 * Pow2(8 * (k - 1))
  {
    assert 8 * k == 8 + 8 * (k - 1);
    Pow2Add(8, 8 * (k - 1));
    Pow2Byte();
  }

  // ---------------------------------------------------------------------------
  // Multiplication, division and remainder

  lemma {:induction false} MulMonoRight(a: nat, b: nat, c: nat)
    requires b <= c
    ensures a * b <= a * c
  {
  }

  lemma {:induction false} MulAtLeast(e: int, d: int)
    requires e >= 1 && d > 0
    ensures e * d >= d
  {
    assert e * d == (e - 1) * d + d;
  }

  /** Euclidean division has exactly one quotient and remainder. */
  lemma {:induction false} DivModUnique(x: int, d: int, q: int, r: int)
    requires d > 0 && 0 <= r < d && x == q * d + r
    ensures x / d == q && x % d == r
  {
    var q', r' := x / d, x % d;
    assert x == q' * d + r';
    if q' > q {
      assert q' * d == q * d + (q' - q) * d;
      MulAtLeast(q' - q, d);
    } else if q' < q {
      assert q * d == q' * d + (q - q') * d;
      MulAtLeast(q - q', d);
    }
  }

  lemma {:induction false} AddMulDivMod(a: nat, b: nat, d: nat)
    requires a < d
    ensures (a + d * b) / d == b && (a + d * b) % d == a
  {
    DivModUnique(a + d * b, d, b, a);
  }

  lemma {:induction false} DivDiv(x: nat, m: nat, n: nat)
    requires m > 0 && n > 0
    ensures x / m / n == x / (m * n)
    ensures x % (m * n) == x % m + m * ((x / m) % n)
  {
    var q, r := x / m, x % m;
    var q2, r2 := q / n, q % n;
    assert x == q2 * (m * n) + (r2 * m + r) by {
      assert x == q * m + r;
      assert q == q2 * n + r2;
    }
    assert r2 * m + r < m * n by {
      MulMonoRight(m, r2, n - 1);
      assert m * (n - 1) == m * n - m;
    }
    DivModUnique(x, m * n, q2, r2 * m + r);
  }

  lemma {:induction false} ModBelow(x: nat, d: nat)
    requires x < d
    ensures x % d == x && x / d == 0
  {
    DivModUnique(x, d, 0, x);
  }

  // ---------------------------------------------------------------------------
  // Shifts on unsigned integers

  /** `x >> k` on an unsigned integer. */
  function Shr(x: nat, k: nat): nat
  {
    Quotient(x, Pow2(k))
  }

  function Quotient(x: nat, d: nat): nat
    requires d > 0
  {
    x / d
  }

  /** `x << k` on a `w`-bit unsigned integer: bits shifted past the width are lost. */
  function Shl(x: nat, k: nat, w: nat): nat
  {
    (x * Pow2(k)) % Pow2(w)
  }

  /** `(high << t) + low` on unbounded integers: `low` below bit `t`, `high` above it. */
  function Join(high: nat, t: nat, low: nat): nat
  {
    MulNonneg(high, Pow2(t));
    high * Pow2(t) + low
  }

  lemma {:induction false} MulNonneg(a: nat, b: nat)
    ensures 0 <= a * b
  {
  }

  /** `1 << t` in a `w`-bit word, for `t < w`, is `2^t`. */
  lemma {:induction false} ShlOne(t: nat, w: nat)
    requires t < w
    ensures Shl(1, t, w) == Pow2(t)
  {
    Pow2Mono(t + 1, w);
    ModBelow(Pow2(t), Pow2(w));
  }

  lemma {:induction false} ShlNoWrap(x: nat, k: nat, w: nat)
    requires x * Pow2(k) < Pow2(w)
    ensures Shl(x, k, w) == x * Pow2(k)
  {
    ModBelow(x * Pow2(k), Pow2(w));
  }

  /** `(x << k) + low` computed in `w` bits is exact when the exact sum fits. */
  lemma {:induction false} ShlAddNoWrap(x: nat, k: nat, low: nat, w: nat)
    requires x * Pow2(k) + low < Pow2(w)
    ensures (Shl(x, k, w) + low) % Pow2(w) == x * Pow2(k) + low
  {
    ShlNoWrap(x, k, w);
    ModBelow(x * Pow2(k) + low, Pow2(w));
  }

  /** A value below `2^k` shifted left by `j` stays below `2^(k + j)`. */
  lemma {:induction false} ShiftedBound(x: nat, k: nat, j: nat)
    requires x < Pow2(k)
    ensures x * Pow2(j) < Pow2(k + j)
    ensures x * Pow2(j) <= Pow2(k + j) - Pow2(j)
  {
    Pow2Add(k, j);
    ScaledBelow(x, Pow2(k), Pow2(j));
  }

  lemma {:induction false} ScaledBelow(x: nat, p: nat, q: nat)
    requires x < p && q > 0
    ensures x * q <= p * q - q < p * q
  {
    MulMonoRight(q, x, p - 1);
  }

  // ---------------------------------------------------------------------------
  // Bitwise operators, defined bit by bit from the least significant end

  /** `x & y` on unsigned integers. */
  function And(x: nat, y: nat): nat
    decreases x
  {
    if x == 0 || y == 0 then 0
    else 2 * And(x / 2, y / 2) + (if x % 2 == 1 && y % 2 == 1 then 1 else 0)
  }

  /** `x | y` on unsigned integers. */
  function Or(x: nat, y: nat): nat
    decreases x
  {
    if x == 0 then y
    else if y == 0 then x
    else 2 * Or(x / 2, y / 2) + (if x % 2 == 1 || y % 2 == 1 then 1 else 0)
  }

  /** The all-ones value of a `w`-bit unsigned type, `~(uintN_t)0`. */
  function AllOnes(w: nat): nat
  {
    Pow2(w) - 1
  }

  /** `~x` on a `w`-bit unsigned integer. */
  function Not(x: nat, w: nat): nat
    requires x < Pow2(w)
  {
    AllOnes(w) - x
  }

  /** One binary digit peeled off: the remainder modulo `2^k` in terms of `x / 2`. */
  lemma {:induction false} ModPow2Step(x: nat, k: nat)
    requires k >= 1
    ensures x % Pow2(k) == 2 * ((x / 2) % Pow2(k - 1)) + x % 2
    ensures x / Pow2(k) == (x / 2) / Pow2(k - 1)
  {
    DivDiv(x, 2, Pow2(k - 1));
  }

  /** `x & (2^k - 1)` keeps the low `k` bits. */
  lemma {:induction false} AndLowMask(x: nat, k: nat)
    ensures And(x, Pow2(k) - 1) == x % Pow2(k)
  {
    if k == 0 {
      assert Pow2(k) == 1;
    } else if x == 0 {
    } else {
      var m := Pow2(k) - 1;
      assert m / 2 == Pow2(k - 1) - 1 && m % 2 == 1 by {
        assert m == 2 * (Pow2(k - 1) - 1) + 1;
      }
      assert And(x, m) == 2 * And(x / 2, m / 2) + x % 2;
      AndLowMask(x / 2, k - 1);
      ModPow2Step(x, k);
    }
  }

  /** `x & ~(2^k - 1)` on a `w`-bit value clears the low `k` bits. */
  lemma {:induction false} AndHighMask(x: nat, k: nat, w: nat)
    requires k <= w && x < Pow2(w)
    ensures Pow2(k) - 1 < Pow2(w)
    ensures And(x, Not(Pow2(k) - 1, w)) == x - x % Pow2(k)
  {
    Pow2Mono(k, w);
    AndSplit(x, Pow2(k) - 1, w);
    AndLowMask(x, k);
  }

  /** The bits of `x` under a `w`-bit mask `y` and under its complement `~y`
      together make up `x`. */
  lemma {:induction false} AndSplit(x: nat, y: nat, w: nat)
    requires x < Pow2(w) && y < Pow2(w)
    ensures And(x, y) + And(x, Not(y, w)) == x
  {
    if x == 0 {
    } else if y == 0 || y == AllOnes(w) {
      assert And(x, AllOnes(w)) == x by {
        AndLowMask(x, w);
        ModBelow(x, Pow2(w));
      }
    } else {
      assert w >= 1 && Pow2(w) == 2 * Pow2(w - 1);
      var n := Not(y, w);
      assert n / 2 == Not(y / 2, w - 1) && n % 2 == 1 - y % 2 by {
        HalveComplement(AllOnes(w), AllOnes(w - 1), y);
      }
      AndSplit(x / 2, y / 2, w - 1);
      assert And(x, y) == 2 * And(x / 2, y / 2) + (if x % 2 == 1 && y % 2 == 1 then 1 else 0);
      assert And(x, n) == 2 * And(x / 2, n / 2) + (if x % 2 == 1 && n % 2 == 1 then 1 else 0);
    }
  }

  lemma {:induction false} HalveComplement(a: int, a1: int, y: int)
    requires a == 2 * a1 + 1 && 0 <= y <= a
    ensures (a - y) / 2 == a1 - y / 2 && (a - y) % 2 == 1 - y % 2
  {
  }

  lemma {:induction false} OrSymmetric(a: nat, b: nat)
    ensures Or(a, b) == Or(b, a)
    decreases a + b
  {
    if a != 0 && b != 0 {
      OrSymmetric(a / 2, b / 2);
    }
  }

  /** When the bits of `a` and `b` do not overlap, `a | b == a + b`. */
  lemma {:induction false} OrDisjoint(a: nat, b: nat, k: nat)
    requires a % Pow2(k) == 0 && b < Pow2(k)
    ensures Or(a, b) == a + b
  {
    if k > 0 && a > 0 && b > 0 {
      ModPow2Step(a, k);
      OrDisjoint(a / 2, b / 2, k - 1);
    } else if k == 0 {
      assert b == 0;
    }
  }

  /** The all-ones mask of `w` bits shifted right by `k` is the all-ones mask of `w - k` bits. */
  lemma {:induction false} AllOnesShr(w: nat, k: nat)
    requires k <= w
    ensures Shr(AllOnes(w), k) == AllOnes(w - k)
  {
    Pow2Add(w - k, k);
    assert AllOnes(w) == (Pow2(w - k) - 1) * Pow2(k) + (Pow2(k) - 1);
    DivModUnique(AllOnes(w), Pow2(k), Pow2(w - k) - 1, Pow2(k) - 1);
  }

  // ---------------------------------------------------------------------------
  // Fields packed above low bits

  /** A value below `2^m` with `t` low bits appended stays below `2^(m + t)`. */
  lemma {:induction false} PackBound(f: nat, m: nat, t: nat, low: nat)
    requires f < Pow2(m) && low < Pow2(t)
    ensures 0 <= f * Pow2(t)
    ensures f * Pow2(t) + low < Pow2(m + t)
  {
    ShiftedBound(f, m, t);
  }

  /** `t` low bits appended to `f` are recovered by `% 2^t`, and `f` by `/ 2^t`. */
  lemma {:induction false} PackUnpack(f: nat, t: nat, low: nat)
    requires low < Pow2(t)
    ensures (f * Pow2(t) + low) / Pow2(t) == f
    ensures (f * Pow2(t) + low) % Pow2(t) == low
  {
    var p := Pow2(t);
    assert f * p + low == low + p * f;
    AddMulDivMod(low, f, p);
  }

  /** Dropping `t` low bits of a value below `2^n` leaves a value below `2^(n - t)`. */
  lemma {:induction false} DivBound(x: nat, n: nat, t: nat)
    requires x < Pow2(n) && t <= n
    ensures x / Pow2(t) < Pow2(n - t)
  {
    Pow2Add(n - t, t);
    QuotientBelow(x, Pow2(t), Pow2(n - t));
  }

  lemma {:induction false} QuotientBelow(x: nat, d: nat, m: nat)
    requires d > 0 && x < m * d
    ensures x / d < m
  {
    var q := x / d;
    assert q * d <= x;
    if q >= m {
      MulMonoRight(d, m, q);
    }
  }

  /** A value whose low `a` bits are zero is its high part shifted back. */
  lemma {:induction false} AlignedSplit(x: nat, a: nat)
    requires x % Pow2(a) == 0
    ensures x == (x / Pow2(a)) * Pow2(a)
  {
  }

  /** A value whose low `a` bits are zero has its low `t <= a` bits zero too. */
  lemma {:induction false} AlignedCoarser(x: nat, a: nat, t: nat)
    requires t <= a && x % Pow2(a) == 0
    ensures x % Pow2(t) == 0
  {
    Pow2Add(t, a - t);
    MultipleOfFactor(x, Pow2(t), Pow2(a - t));
  }

  /** For a value whose low `a` bits are zero, `x >> (a - t)` is `(x >> a) << t`. */
  lemma {:induction false} AlignedShr(x: nat, a: nat, t: nat)
    requires t <= a && x % Pow2(a) == 0
    ensures x / Pow2(a - t) == (x / Pow2(a)) * Pow2(t)
  {
    Pow2Add(t, a - t);
    DivFactor(x, Pow2(t), Pow2(a - t));
  }

  /** For a value whose low `a` bits are zero, `x << (t - a)` is `(x >> a) << t`. */
  lemma {:induction false} AlignedShl(x: nat, a: nat, t: nat)
    requires a <= t && x % Pow2(a) == 0
    ensures x * Pow2(t - a) == (x / Pow2(a)) * Pow2(t)
  {
    Pow2Add(a, t - a);
    MulFactor(x, Pow2(a), Pow2(t - a));
  }

  lemma {:induction false} MultipleOfFactor(x: nat, m: nat, n: nat)
    requires m > 0 && n > 0 && x % (m * n) == 0
    ensures x % m == 0
  {
    var k := x / (m * n);
    assert x == (k * n) * m + 0;
    DivModUnique(x, m, k * n, 0);
  }

  lemma {:induction false} DivFactor(x: nat, m: nat, n: nat)
    requires m > 0 && n > 0 && x % (m * n) == 0
    ensures x / n == (x / (m * n)) * m
  {
    var k := x / (m * n);
    assert x == (k * m) * n + 0;
    DivModUnique(x, n, k * m, 0);
  }

  lemma {:induction false} MulFactor(x: nat, m: nat, n: nat)
    requires m > 0 && x % m == 0
    ensures x * n == (x / m) * (m * n)
  {
    var k := x / m;
    assert x == k * m;
  }

  /** `f << t` in a `w`-bit word has its low `t` bits clear, so adding
      `low < 2^t` to it neither carries past the word nor differs from `|`. */
  lemma {:induction false} ShlLowZero(f: nat, t: nat, w: nat, low: nat)
    requires t <= w && low < Pow2(t)
    ensures Shl(f, t, w) % Pow2(t) == 0
    ensures Shl(f, t, w) + low < Pow2(w)
    ensures Or(Shl(f, t, w), low) == Shl(f, t, w) + low
  {
    var p, x := Pow2(t), f * Pow2(t);
    Pow2Add(t, w - t);
    assert x % p == 0 && x / p == f by {
      AddMulDivMod(0, f, p);
    }
    DivDiv(x, p, Pow2(w - t));
    var k := f % Pow2(w - t);
    assert Shl(f, t, w) == 0 + p * k;
    AddMulDivMod(0, k, p);
    PackBound(k, w - t, t, low);
    OrDisjoint(Shl(f, t, w), low, t);
  }

  /** A field below `2^fb` with `t` low bits appended fits in `n >= fb + t`
      bits, so reducing it modulo `2^n` changes nothing. */
  /** A field of `fb` bits above `t` low bits fits in `n <= w` bits, and
      shifting it up in a `w`-bit word and adding the low bits does not wrap. */
  lemma {:induction false} PackedWordFits(f: nat, fb: nat, t: nat, low: nat, n: nat, w: nat)
    requires f < Pow2(fb) && low < Pow2(t) && fb + t <= n <= w
    ensures f * Pow2(t) + low < Pow2(n)
    ensures (Shl(f, t, w) + low) % Pow2(w) == f * Pow2(t) + low
  {
    PackFits(f, fb, t, low, n);
    Pow2Mono(n, w);
    ShlAddNoWrap(f, t, low, w);
  }

  lemma {:induction false} PackFits(f: nat, fb: nat, t: nat, low: nat, n: nat)
    requires f < Pow2(fb) && low < Pow2(t) && fb + t <= n
    ensures 0 <= f * Pow2(t)
    ensures f * Pow2(t) + low < Pow2(n)
    ensures (f * Pow2(t) + low) % Pow2(n) == f * Pow2(t) + low
  {
    PackBound(f, fb, t, low);
    Pow2Mono(fb + t, n);
    ModBelow(f * Pow2(t) + low, Pow2(n));
  }

  /** `x & ~(2^k - 1)` on a `w`-bit value is `(x >> k) << k`. */
  lemma {:induction false} AndHighMaskShr(x: nat, k: nat, w: nat)
    requires k <= w && x < Pow2(w)
    ensures Pow2(k) - 1 < Pow2(w)
    ensures And(x, Not(Pow2(k) - 1, w)) == Shr(x, k) * Pow2(k)
  {
    AndHighMask(x, k, w);
    DropRemainder(x, Pow2(k));
  }

  lemma {:induction false} DropRemainder(x: nat, d: nat)
    requires d > 0
    ensures x - x % d == (x / d) * d
  {
  }

  /** Shifting by zero changes nothing but the truncation to the width. */
  lemma {:induction false} ShiftByZero(x: nat, w: nat)
    ensures Shr(x, 0) == x
    ensures Shl(x, 0, w) == x % Pow2(w)
  {
    assert Pow2(0) == 1;
  }

  /** A `w`-bit value with its low `t` bits clear survives `(x >> t) << t`. */
  lemma {:induction false} ShrShlAligned(x: nat, t: nat, w: nat)
    requires x % Pow2(t) == 0 && x < Pow2(w)
    ensures Shl(Shr(x, t), t, w) == x
  {
    AlignedSplit(x, t);
    ModBelow(x, Pow2(w));
  }
}
